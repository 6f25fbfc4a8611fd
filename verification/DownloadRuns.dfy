/** What every run of interrupted and restarted downloads keeps. */
module DownloadRuns {
  import opened GoSemantics
  import opened Ranges
  import opened DownloadSteps
  import opened DownloadPlans

  // ---------- one session in closed form ----------

  /** What a session writes when it reaches its loop. */
  lemma SessionForm(d: DiskState, payload: seq<byte>, b: Bounds, P: int, env: Env)
    requires P > 0 && b.last < |payload| && !env.prepare.DiesAfterTruncate?
    ensures var start := PlanFor(d.temp, b.first, P).start;
            var n := Appended(start, b.last, P, GoDiv(start, P), env.segment);
      SessionFor(d, payload, b, P, env)
        == Ended(d, Kept(d.temp, b.first, P) + Slice(payload, start, start + n),
                 if start < 0 then Failed else LoopVerdict(start, b.last, P, GoDiv(start, P), env.segment, true),
                 env.finish)
  {
    var start := PlanFor(d.temp, b.first, P).start;
    TraceMeans(payload, start, b.last, P, GoDiv(start, P), env.segment);
    if start < 0 {
      EmptySlice(payload, start);
    }
  }

  /** A session replaces the destination file exactly when it was not cut short and every copy
      succeeded; in every other case the destination keeps its bytes. */
  lemma RenameSafety(d: DiskState, payload: seq<byte>, b: Bounds, P: int, env: Env)
    requires P > 0 && b.last < |payload|
    ensures var start := PlanFor(d.temp, b.first, P).start;
            var (after, verdict) := SessionFor(d, payload, b, P, env);
      && (verdict == Done <==>
            && !env.prepare.DiesAfterTruncate? && env.finish.Renames?
            && start >= 0
            && AllCopied(GoDiv(start, P), |Requests(start, b.last, P)|, env.segment))
      && (verdict != Done ==> after.dest == d.dest && (after.temp.None? ==> d.temp.None?))
      && (verdict == Done ==> after.temp == None)
  {
    var start := PlanFor(d.temp, b.first, P).start;
    LoopDone(start, b.last, P, GoDiv(start, P), env.segment);
    if !env.prepare.DiesAfterTruncate? {
      SessionForm(d, payload, b, P, env);
    }
  }

  /** Where the bytes of a session end up. */
  function Written(after: DiskState, verdict: Verdict): Option<seq<byte>> {
    if verdict == Done then after.dest else after.temp
  }

  lemma SessionWrites(d: DiskState, payload: seq<byte>, b: Bounds, P: int, env: Env)
    returns (start: int, kept: seq<byte>, n: nat)
    requires P > 0 && b.last < |payload| && !env.prepare.DiesAfterTruncate?
    ensures start == PlanFor(d.temp, b.first, P).start && kept == Kept(d.temp, b.first, P)
    ensures n == Appended(start, b.last, P, GoDiv(start, P), env.segment)
    ensures n > 0 ==> 0 <= start && start + n <= b.last + 1
    ensures var (after, verdict) := SessionFor(d, payload, b, P, env);
      Written(after, verdict) == Some(kept + Slice(payload, start, start + n))
  {
    SessionForm(d, payload, b, P, env);
    start, kept := PlanFor(d.temp, b.first, P).start, Kept(d.temp, b.first, P);
    n := Appended(start, b.last, P, GoDiv(start, P), env.segment);
  }

  // ---------- one session: the temp file stays a prefix ----------

  /** The bytes the caller asked for. */
  function Target(payload: seq<byte>, b: Bounds): seq<byte> {
    Slice(payload, b.first, b.last + 1)
  }

  predicate Safe(d: DiskState, payload: seq<byte>, b: Bounds) {
    d.temp.Some? ==> d.temp.value <= Target(payload, b)
  }

  predicate GoodStart(d: DiskState, b: Bounds, P: int)
    requires P > 0
  {
    d.temp.Some? ==> GoodRestart(|d.temp.value|, b.first, P)
  }

  lemma KeptIsPrefix(d: DiskState, payload: seq<byte>, b: Bounds, P: int)
    requires P > 0 && Safe(d, payload, b)
    ensures Kept(d.temp, b.first, P) <= Target(payload, b)
    ensures |Kept(d.temp, b.first, P)| <= if d.temp.Some? then |d.temp.value| else 0
  {
    if d.temp.Some? {
      KeepWithinFile(|d.temp.value|, b.first, P);
    }
  }

  lemma StartFacts(d: DiskState, payload: seq<byte>, b: Bounds, P: int)
    requires P > 0 && b.last < |payload| && Safe(d, payload, b) && GoodStart(d, b, P)
    ensures var start := PlanFor(d.temp, b.first, P).start; var kept := Kept(d.temp, b.first, P);
      && start == b.first + |kept|
      && kept <= Target(payload, b)
      && (kept != [] ==> b.first >= 0 && start <= b.last + 1)
  {
    KeptIsPrefix(d, payload, b, P);
    if d.temp.Some? {
      GoodIsAligned(|d.temp.value|, b.first, P);
      KeepWithinFile(|d.temp.value|, b.first, P);
    }
  }

  lemma SliceOfSlice(s: seq<byte>, a: nat, c: nat, x: nat, y: nat)
    requires a <= c <= |s| && x <= y <= c - a
    ensures s[a..c][x..y] == s[a + x..a + y]
  {
    var l, r := s[a..c][x..y], s[a + x..a + y];
    assert |l| == |r| && forall i :: 0 <= i < |l| ==> l[i] == r[i];
  }

  /** Kept bytes followed by bytes fetched from `start` form a prefix of the target exactly when
      nothing was fetched, or what was fetched stays inside the target and equals the bytes that
      follow the kept ones there. */
  lemma PrefixExact(payload: seq<byte>, b: Bounds, kept: seq<byte>, start: int, n: nat)
    requires b.last < |payload| && kept <= Target(payload, b)
    requires n > 0 ==> 0 <= start && start + n <= |payload|
    ensures kept + Slice(payload, start, start + n) <= Target(payload, b)
       <==> n == 0 || (0 <= b.first && b.first + |kept| + n <= b.last + 1
                       && payload[start..start + n] == payload[b.first + |kept|..b.first + |kept| + n])
    ensures kept + Slice(payload, start, start + n) <= Target(payload, b)
        ==> kept + Slice(payload, start, start + n) == Target(payload, b)[..|kept| + n]
  {
    var t, fetched := Target(payload, b), Slice(payload, start, start + n);
    if n == 0 {
      EmptySlice(payload, start);
      assert kept + fetched == kept;
    } else if 0 <= b.first && b.first + |kept| + n <= b.last + 1 {
      assert t[..|kept| + n] == t[..|kept|] + t[|kept|..|kept| + n];
      SliceOfSlice(payload, b.first, b.last + 1, |kept|, |kept| + n);
      if kept + fetched <= t {
        assert (kept + fetched)[|kept|..] == fetched;
      }
    }
  }

  /** A temp file that is gone, holds the kept bytes, or those and the fetched ones. */
  predicate Leaves(temp: Option<seq<byte>>, kept: seq<byte>, fetched: seq<byte>) {
    temp == None || temp == Some(kept) || temp == Some(kept + fetched)
  }

  /** All a session can leave as temp file. */
  lemma SessionTemp(d: DiskState, payload: seq<byte>, b: Bounds, P: int, env: Env)
    returns (start: int, kept: seq<byte>, n: nat)
    requires P > 0 && b.last < |payload|
    ensures start == PlanFor(d.temp, b.first, P).start && kept == Kept(d.temp, b.first, P)
    ensures n == Appended(start, b.last, P, GoDiv(start, P), env.segment)
    ensures n > 0 ==> 0 <= start && start + n <= b.last + 1
    ensures Leaves(SessionFor(d, payload, b, P, env).0.temp, kept, Slice(payload, start, start + n))
  {
    if env.prepare.DiesAfterTruncate? {
      start, kept := PlanFor(d.temp, b.first, P).start, Kept(d.temp, b.first, P);
      n := Appended(start, b.last, P, GoDiv(start, P), env.segment);
    } else {
      SessionForm(d, payload, b, P, env);
      start, kept, n := SessionWrites(d, payload, b, P, env);
    }
  }

  lemma LeavesPrefix(after: DiskState, payload: seq<byte>, b: Bounds, kept: seq<byte>, n: nat)
    requires b.last < |payload| && kept <= Target(payload, b)
    requires n > 0 ==> 0 <= b.first && b.first + |kept| + n <= b.last + 1
    requires Leaves(after.temp, kept, Slice(payload, b.first + |kept|, b.first + |kept| + n))
    ensures Safe(after, payload, b)
  {
    PrefixExact(payload, b, kept, b.first + |kept|, n);
  }

  /** One session, interrupted anywhere or not, leaves a temp file that is a prefix of the target. */
  lemma SessionKeepsPrefix(d: DiskState, payload: seq<byte>, b: Bounds, P: int, env: Env)
    requires P > 0 && b.last < |payload| && Safe(d, payload, b) && GoodStart(d, b, P)
    ensures Safe(SessionFor(d, payload, b, P, env).0, payload, b)
  {
    var start, kept, n := SessionTemp(d, payload, b, P, env);
    StartFacts(d, payload, b, P);
    LeavesPrefix(SessionFor(d, payload, b, P, env).0, payload, b, kept, n);
  }

  /** What a session whose first fetched offset is `start` can deliver. */
  function Deliverable(payload: seq<byte>, b: Bounds, start: int, P: int): seq<byte>
    requires P > 0
  {
    if start > b.last || (b.last - start) % P != 0 then Target(payload, b) else Slice(payload, b.first, b.last)
  }

  lemma DeliverableIs(payload: seq<byte>, b: Bounds, kept: nat, n: nat, P: int)
    requires P > 0 && b.last < |payload| && 0 <= b.first
    requires b.first + kept + n == TiledEnd(b.first + kept, b.last, P)
    requires kept + n <= |Target(payload, b)|
    ensures Target(payload, b)[..kept + n] == Deliverable(payload, b, b.first + kept, P)
  {
    var t := Target(payload, b);
    if b.first + kept <= b.last {
      assert t == payload[b.first..b.last + 1];
      SliceOfSlice(payload, b.first, b.last + 1, 0, kept + n);
    } else {
      assert n == 0 && kept == |t|;
    }
  }

  lemma DeliveredBytes(payload: seq<byte>, b: Bounds, kept: seq<byte>, n: nat, P: int)
    requires P > 0 && b.last < |payload| && 0 <= b.first && kept <= Target(payload, b)
    requires kept != [] ==> b.first + |kept| <= b.last + 1
    requires b.first + |kept| + n == TiledEnd(b.first + |kept|, b.last, P)
    requires n > 0 ==> b.first + |kept| + n <= b.last + 1
    ensures kept + Slice(payload, b.first + |kept|, b.first + |kept| + n) == Deliverable(payload, b, b.first + |kept|, P)
  {
    PrefixExact(payload, b, kept, b.first + |kept|, n);
    DeliverableIs(payload, b, |kept|, n, P);
  }

  /** A session that reports success delivers the whole target, or the target without its last byte
      when the offset of that byte is a whole number of parts after the session's first offset. */
  lemma SessionDelivers(d: DiskState, payload: seq<byte>, b: Bounds, P: int, env: Env)
    requires P > 0 && b.last < |payload| && Safe(d, payload, b) && GoodStart(d, b, P)
    requires SessionFor(d, payload, b, P, env).1 == Done
    ensures SessionFor(d, payload, b, P, env).0
         == DiskState(None, Some(Deliverable(payload, b, PlanFor(d.temp, b.first, P).start, P)))
  {
    RenameSafety(d, payload, b, P, env);
    var start, kept, n := SessionWrites(d, payload, b, P, env);
    SessionForm(d, payload, b, P, env);
    StartFacts(d, payload, b, P);
    AppendedWhenDone(start, b.last, P, GoDiv(start, P), env.segment);
    DeliveredBytes(payload, b, kept, n, P);
  }

  // ---------- runs of sessions ----------

  /** One call of a run. The name of the temp file does not contain the part size, so calls with
      different part sizes may share it. */
  datatype Call = Call(P: PartSize, env: Env)

  /** The disk after a run of calls with the same range. */
  function Run(d: DiskState, payload: seq<byte>, range: string, calls: seq<Call>): DiskState
    decreases |calls|
  {
    if calls == [] then d else Run(Session(d, payload, range, calls[0].P, calls[0].env).0, payload, range, calls[1..])
  }

  /** No call of the run starts from a temp file whose size makes a bad restart. */
  predicate Respects(d: DiskState, payload: seq<byte>, range: string, calls: seq<Call>)
    decreases |calls|
  {
    calls == []
    || (&& GoodStart(d, Wanted(range, |payload|), calls[0].P)
        && Respects(Session(d, payload, range, calls[0].P, calls[0].env).0, payload, range, calls[1..]))
  }

  /** What the destination may hold: what it held before, the target, or the target short of its last byte. */
  predicate DestOk(before: DiskState, after: DiskState, payload: seq<byte>, b: Bounds) {
    || after.dest == before.dest
    || after.dest == Some(Target(payload, b))
    || after.dest == Some(Slice(payload, b.first, b.last))
  }

  lemma SessionStep(d: DiskState, payload: seq<byte>, b: Bounds, P: int, env: Env)
    requires P > 0 && b.last < |payload| && Safe(d, payload, b) && GoodStart(d, b, P)
    ensures Safe(SessionFor(d, payload, b, P, env).0, payload, b)
    ensures DestOk(d, SessionFor(d, payload, b, P, env).0, payload, b)
  {
    SessionKeepsPrefix(d, payload, b, P, env);
    RenameSafety(d, payload, b, P, env);
    if SessionFor(d, payload, b, P, env).1 == Done {
      SessionDelivers(d, payload, b, P, env);
    }
  }

  /** In every reachable state of every run, whatever the range and the part sizes, the temp file is a
      prefix of the bytes asked for and the destination is untouched or delivered. */
  lemma {:induction false} RunsKeepPrefix(d: DiskState, payload: seq<byte>, range: string, calls: seq<Call>)
    requires Safe(d, payload, Wanted(range, |payload|)) && Respects(d, payload, range, calls)
    ensures Safe(Run(d, payload, range, calls), payload, Wanted(range, |payload|))
    ensures DestOk(d, Run(d, payload, range, calls), payload, Wanted(range, |payload|))
    decreases |calls|
  {
    if calls != [] {
      var next := Session(d, payload, range, calls[0].P, calls[0].env).0;
      if !calls[0].env.prepare.Unreachable? {
        SessionStep(d, payload, Wanted(range, |payload|), calls[0].P, calls[0].env);
      }
      RunsKeepPrefix(next, payload, range, calls[1..]);
    }
  }

  lemma {:induction false} RunSplits(d: DiskState, payload: seq<byte>, range: string, calls: seq<Call>, last: Call)
    ensures Run(d, payload, range, calls + [last])
         == Session(Run(d, payload, range, calls), payload, range, last.P, last.env).0
    ensures Respects(d, payload, range, calls + [last])
       <==> Respects(d, payload, range, calls)
            && GoodStart(Run(d, payload, range, calls), Wanted(range, |payload|), last.P)
    decreases |calls|
  {
    if calls == [] {
      assert [] + [last] == [last];
    } else {
      assert (calls + [last])[1..] == calls[1..] + [last];
      RunSplits(Session(d, payload, range, calls[0].P, calls[0].env).0, payload, range, calls[1..], last);
    }
  }

  // ---------- downloads without a range ----------

  predicate NoRange(range: string) { !ParseRange(range).isRange }

  lemma StartIsWholeParts(d: DiskState, P: int)
    requires P > 0
    ensures PlanFor(d.temp, 0, P).start % P == 0
  {
    QuotientIs(0, P, 0);
    if d.temp.Some? {
      var f := |d.temp.value|;
      var q := GoDiv(f - P, P);
      QuotientIs(q * P + P, P, q + 1);
    }
  }

  /** Multiples of P above a multiple of P. */
  lemma MultipleAbove(a: int, start: int, P: int)
    requires P > 0 && 0 <= start <= a && start % P == 0
    ensures a % P == 0 <==> (a - start) % P == 0
  {
    var k := start / P;
    assert start == k * P;
    if a % P == 0 {
      QuotientIs(a - start, P, a / P - k);
    }
    if (a - start) % P == 0 {
      QuotientIs(a, P, (a - start) / P + k);
    }
  }

  /** For parts of at least two bytes the last offset is a multiple of P exactly when size % P is 1. */
  lemma LostByteBySize(size: nat, P: int)
    requires P >= 2 && size > 0
    ensures (size - 1) % P == 0 <==> size % P == 1
  {
    QuotientBounds(size - 1, P);
    QuotientBounds(size, P);
    if (size - 1) % P == 0 {
      QuotientIs(size, P, (size - 1) / P);
    }
    if size % P == 1 {
      QuotientIs(size - 1, P, size / P);
    }
  }

  lemma NotBothMultiples(size: nat, P: int)
    requires P >= 2 && size > 0 && size % P == 0
    ensures (size - 1) % P != 0
  {
    LostByteBySize(size, P);
  }

  /** What the last session of a run without a range delivers, from where it starts. */
  lemma DeliveredFromStart(payload: seq<byte>, b: Bounds, start: nat, P: int)
    requires P > 0 && b == Bounds(0, |payload| - 1) && start % P == 0 && start <= |payload| && payload != []
    ensures Deliverable(payload, b, start, P)
         == if start < |payload| && (|payload| - 1) % P == 0 then payload[..|payload| - 1] else payload
    ensures P >= 2 && start == |payload| ==> (|payload| - 1) % P != 0
  {
    assert payload[0..|payload|] == payload;
    if start < |payload| {
      MultipleAbove(|payload| - 1, start, P);
    } else if P >= 2 {
      NotBothMultiples(|payload|, P);
    }
  }

  /** With parts of one byte nothing is ever cut off. */
  lemma OneByteKeepsAll(temp: Option<seq<byte>>, P: int)
    requires P == 1 && temp.Some?
    ensures Kept(temp, 0, P) == temp.value
  {
    var t := temp.value;
    GoModBounds(|t| - FirstPart(0, P), P);
    assert t[..|t|] == t;
  }

  /** A run without a range that avoids the bad restarts delivers, when its last call reports success,
      the whole payload, except that the last byte is missing when its offset is a multiple of the last
      call's part size. Only a last call with parts of one byte can find the payload already complete
      and then miss nothing. */
  lemma FinishedWithoutRange(d: DiskState, payload: seq<byte>, range: string, calls: seq<Call>, last: Call)
    requires NoRange(range) && d.temp == None
    requires Respects(d, payload, range, calls + [last])
    requires Session(Run(d, payload, range, calls), payload, range, last.P, last.env).1 == Done
    ensures var complete := last.P == 1 && Run(d, payload, range, calls).temp == Some(payload);
      Run(d, payload, range, calls + [last]).dest
        == Some(if payload != [] && (|payload| - 1) % last.P == 0 && !complete then payload[..|payload| - 1] else payload)
  {
    var b, m, P := Wanted(range, |payload|), Run(d, payload, range, calls), last.P;
    RunSplits(d, payload, range, calls, last);
    RunsKeepPrefix(d, payload, range, calls);
    SessionDelivers(m, payload, b, P, last.env);
    StartFacts(m, payload, b, P);
    StartIsWholeParts(m, P);
    assert payload[0..|payload|] == payload;
    if payload != [] {
      DeliveredFromStart(payload, b, PlanFor(m.temp, 0, P).start, P);
      if P == 1 && m.temp.Some? {
        OneByteKeepsAll(m.temp, P);
      }
    }
  }

  // ---------- parts of one byte only ----------

  /** With parts of one byte no session ever appends the last byte. */
  lemma {:induction false} OneByteParts(start: int, end: int, P: int, segNum: int, segment: int -> Outcome)
    requires start >= 0 && P == 1
    ensures Appended(start, end, P, segNum, segment) > 0 ==> start + Appended(start, end, P, segNum, segment) <= end
    decreases end - start
  {
    if start < end {
      AppendedStep(start, end, P, segNum, segment);
      OneByteParts(start + P, end, P, segNum + 1, segment);
    }
  }

  predicate ShortOfLast(d: DiskState, size: nat) {
    d.temp.Some? ==> |d.temp.value| < size
  }

  lemma LeavesShort(temp: Option<seq<byte>>, kept: seq<byte>, payload: seq<byte>, start: int, n: nat)
    requires start == |kept| < |payload| && start + n < |payload|
    requires Leaves(temp, kept, Slice(payload, start, start + n))
    ensures temp.Some? ==> |temp.value| < |payload|
  {
  }

  lemma StepShortOfLast(d: DiskState, payload: seq<byte>, b: Bounds, P: int, env: Env)
    requires P == 1 && b.first == 0 && b.last == |payload| - 1
    requires Safe(d, payload, b) && GoodStart(d, b, P)
    requires payload != [] && ShortOfLast(d, |payload|)
    ensures ShortOfLast(SessionFor(d, payload, b, P, env).0, |payload|)
  {
    var start, kept, n := SessionTemp(d, payload, b, P, env);
    StartFacts(d, payload, b, P);
    KeptIsPrefix(d, payload, b, P);
    OneByteParts(start, b.last, P, GoDiv(start, P), env.segment);
    LeavesShort(SessionFor(d, payload, b, P, env).0.temp, kept, payload, start, n);
  }

  /** A run without a range in which every call uses parts of one byte never holds, and so never
      delivers, the last byte. */
  lemma {:induction false} OneByteRunsLoseLast(d: DiskState, payload: seq<byte>, range: string, calls: seq<Call>)
    requires NoRange(range) && payload != [] && ShortOfLast(d, |payload|)
    requires forall i :: 0 <= i < |calls| ==> calls[i].P == 1
    requires Safe(d, payload, Wanted(range, |payload|)) && Respects(d, payload, range, calls)
    ensures ShortOfLast(Run(d, payload, range, calls), |payload|)
    decreases |calls|
  {
    if calls != [] {
      if !calls[0].env.prepare.Unreachable? {
        StepShortOfLast(d, payload, Wanted(range, |payload|), calls[0].P, calls[0].env);
        SessionStep(d, payload, Wanted(range, |payload|), calls[0].P, calls[0].env);
      }
      OneByteRunsLoseLast(Session(d, payload, range, calls[0].P, calls[0].env).0, payload, range, calls[1..]);
    }
  }
}
