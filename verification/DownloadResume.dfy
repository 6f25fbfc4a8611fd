/** How much of a temp file a restart keeps, where it goes on, and how a call ends: stated in plain
    arithmetic, without the plan of the code. */
module DownloadResume {
  import opened GoSemantics
  import opened DownloadSteps
  import opened DownloadPlans
  import opened DownloadRuns

  // ---------- what a restart keeps ----------

  /** The remainder of the range start, with the sign Go gives it. */
  function StartRemainder(first: int, P: int): int
    requires P > 0
  {
    if first >= 0 then first % P else -(-first % P)
  }

  /** The kept size for a temp file of f bytes. The temp file begins `rem` bytes behind a part
      boundary; if it is longer than its first part, everything up to the last part boundary inside it
      is kept, and less than one part is thrown away. */
  predicate KeepsWholeParts(f: nat, rem: int, P: int, keep: int)
    requires P > 0
  {
    if f > P - rem then keep <= f < keep + P && (rem + keep) % P == 0
    else keep == if f == P - rem || f == -rem then f else 0
  }

  lemma RemainderIs(first: int, P: int)
    requires P > 0
    ensures FirstPart(first, P) == P - StartRemainder(first, P)
    ensures -P < StartRemainder(first, P) < P
  {
    FirstPartIs(first, P);
    GoModBounds(first, P);
  }

  /** A size above the first part: the quotient of the code in terms of what is kept. */
  lemma LongPlan(f: nat, first: int, P: int) returns (q: nat)
    requires P > 0 && f > FirstPart(first, P)
    ensures FirstPart(first, P) + q * P <= f < FirstPart(first, P) + q * P + P
    ensures ResumePlan(f, first, P) == Resume(FirstPart(first, P) + q * P, q * P + P)
  {
    var over := f - FirstPart(first, P);
    QuotientBounds(over, P);
    MultipleSize(P, over / P);
    q := over / P;
    assert GoMod(over, P) == over - q * P;
  }

  lemma MultipleRemainder(a: int, P: int)
    requires P > 0
    ensures (a * P + P) % P == 0
  {
    QuotientIs(a * P + P, P, a + 1);
  }

  lemma ShortKeep(f: nat, first: int, P: int)
    requires P > 0 && f < FirstPart(first, P)
    ensures ResumePlan(f, first, P) == Resume(if f == -StartRemainder(first, P) then f else 0, 0)
  {
    RemainderIs(first, P);
    ShortPlan(f, first, P);
    var gap := FirstPart(first, P) - f;
    if gap == P {
      QuotientIs(gap, P, 1);
    } else if gap < P {
      QuotientIs(gap, P, 0);
    } else {
      QuotientIs(gap, P, 1);
    }
  }

  /** What a restart keeps and where it goes on, for every size, range start and part size. */
  lemma ResumeKeeps(f: nat, first: int, P: int)
    requires P > 0
    ensures var rem := StartRemainder(first, P); var r := ResumePlan(f, first, P);
      && KeepsWholeParts(f, rem, P, r.keep)
      && r.start == if f > P - rem then rem + r.keep else 0
  {
    RemainderIs(first, P);
    if f > FirstPart(first, P) {
      var q := LongPlan(f, first, P);
      MultipleRemainder(q, P);
    } else if f < FirstPart(first, P) {
      ShortKeep(f, first, P);
    }
  }

  lemma OneMultiple(a: int, b: int, P: int)
    requires P > 0 && a % P == 0 && b % P == 0 && -P < a - b < P
    ensures a == b
  {
    QuotientBounds(a, P);
    QuotientBounds(b, P);
    MultipleSize(P, a / P - b / P);
    assert P * (a / P - b / P) == a - b;
  }

  /** The plain description determines the kept size. */
  lemma KeepDetermined(f: nat, first: int, P: int, keep: int)
    requires P > 0 && KeepsWholeParts(f, StartRemainder(first, P), P, keep)
    ensures keep == ResumePlan(f, first, P).keep
  {
    var rem := StartRemainder(first, P);
    ResumeKeeps(f, first, P);
    if f > P - rem {
      OneMultiple(rem + keep, rem + ResumePlan(f, first, P).keep, P);
    }
  }

  // ---------- a call that is killed ----------

  /** The process dies when `arrived` bytes of the first part it asks for are on the disk. */
  ghost predicate Dies(env: Env, arrived: nat) {
    env.prepare.Ready? && forall k :: env.segment(k) == Crash(arrived)
  }

  lemma FirstPartOnly(start: int, end: int, P: int, env: Env, arrived: nat)
    requires P > 0 && 0 <= start < end && Dies(env, arrived)
    ensures Appended(start, end, P, GoDiv(start, P), env.segment) == Min(arrived, Min(P, end + 1 - start))
    ensures LoopVerdict(start, end, P, GoDiv(start, P), env.segment, true) == Crashed
  {
    AppendedStep(start, end, P, GoDiv(start, P), env.segment);
    VerdictStep(start, end, P, GoDiv(start, P), env.segment, true);
  }

  lemma KilledSession(d: DiskState, payload: seq<byte>, range: string, P: int, env: Env, arrived: nat, start: int,
                      kept: seq<byte>)
    requires P > 0 && Dies(env, arrived)
    requires start == PlanFor(d.temp, Wanted(range, |payload|).first, P).start
    requires kept == Kept(d.temp, Wanted(range, |payload|).first, P)
    requires 0 <= start < Wanted(range, |payload|).last
    ensures var n := Min(arrived, Min(P, Wanted(range, |payload|).last + 1 - start));
      Session(d, payload, range, P, env) == (DiskState(Some(kept + payload[start..start + n]), d.dest), Crashed)
  {
    var b := Wanted(range, |payload|);
    FirstPartOnly(start, b.last, P, env, arrived);
    SessionForm(d, payload, b, P, env);
  }

  /** A call that finds a temp file keeps its whole parts, goes on where they say, and, killed when
      `arrived` bytes of its first part have come, leaves exactly the kept bytes and those. */
  lemma RestartKeeps(t: seq<byte>, dest: Option<seq<byte>>, payload: seq<byte>, range: string, P: int, env: Env,
                     arrived: nat, keep: nat, start: nat)
    requires P > 0 && Dies(env, arrived)
    requires var rem := StartRemainder(Wanted(range, |payload|).first, P);
      KeepsWholeParts(|t|, rem, P, keep) && start == if |t| > P - rem then rem + keep else 0
    requires start < Wanted(range, |payload|).last
    ensures keep <= |t|
    ensures var n := Min(arrived, Min(P, Wanted(range, |payload|).last + 1 - start));
      Session(DiskState(Some(t), dest), payload, range, P, env)
        == (DiskState(Some(t[..keep] + payload[start..start + n]), dest), Crashed)
  {
    var d, first := DiskState(Some(t), dest), Wanted(range, |payload|).first;
    KeepDetermined(|t|, first, P, keep);
    KeepWithinFile(|t|, first, P);
    ResumeKeeps(|t|, first, P);
    KilledSession(d, payload, range, P, env, arrived, start, t[..keep]);
  }

  /** The first call starts at the range start. */
  lemma FirstCallStarts(dest: Option<seq<byte>>, payload: seq<byte>, range: string, P: int, env: Env, arrived: nat)
    requires P > 0 && Dies(env, arrived)
    requires 0 <= Wanted(range, |payload|).first < Wanted(range, |payload|).last
    ensures var b := Wanted(range, |payload|);
            var n := Min(arrived, Min(P, b.last + 1 - b.first));
      Session(DiskState(None, dest), payload, range, P, env)
        == (DiskState(Some(payload[b.first..b.first + n]), dest), Crashed)
  {
    var b := Wanted(range, |payload|);
    var n := Min(arrived, Min(P, b.last + 1 - b.first));
    KilledSession(DiskState(None, dest), payload, range, P, env, arrived, b.first, []);
    assert [] + payload[b.first..b.first + n] == payload[b.first..b.first + n];
  }

  // ---------- how a call ends ----------

  /** The requests and the verdict of a loop whose first j iterations go on, the next one being a failed
      hook, a failed request or the end of the process, if there is one. After a failed copy the loop
      goes on asking, although nothing can be written any more. */
  lemma {:induction false} LoopStops(payload: seq<byte>, start: int, end: int, P: int, segNum: int, segment: int -> Outcome,
                                     isOpen: bool, j: nat, t: Trace, asked: seq<(int, int)>)
    requires P > 0 && start >= 0
    requires t == LoopTrace(payload, start, end, P, segNum, segment, isOpen) && asked == Requests(start, end, P)
    requires j <= |asked| && forall k :: segNum <= k < segNum + j ==> segment(k).CopyOk? || segment(k).CopyFails?
    requires j < |asked| ==> !segment(segNum + j).CopyOk? && !segment(segNum + j).CopyFails?
    ensures t.asked == asked[..if j == |asked| || segment(segNum + j).HookFails? then j else j + 1]
    ensures t.verdict == if j < |asked| then if segment(segNum + j).Crash? then Crashed else Failed
                         else if isOpen && AllCopied(segNum, j, segment) then Done else Failed
    decreases j
  {
    if start < end {
      VerdictAndAskedStep(payload, start, end, P, segNum, segment, isOpen);
      RequestsStep(start, end, P);
      if j > 0 {
        assert segment(segNum).CopyOk? || segment(segNum).CopyFails?;
        var next := LoopTrace(payload, start + P, end, P, segNum + 1, segment, isOpen && segment(segNum).CopyOk?);
        LoopStops(payload, start + P, end, P, segNum + 1, segment, isOpen && segment(segNum).CopyOk?, j - 1, next,
                  Requests(start + P, end, P));
        assert AllCopied(segNum, j, segment) <==> segment(segNum).CopyOk? && AllCopied(segNum + 1, j - 1, segment);
      }
    }
  }

  /** How a call ends, in every environment: who cuts it off decides between an error and a crash, and
      it succeeds only if nobody does and every copy was good. */
  lemma CallEnds(d: DiskState, payload: seq<byte>, range: string, P: int, env: Env, start: int, asked: seq<(int, int)>,
                 j: nat)
    requires P > 0 && start == PlanFor(d.temp, Wanted(range, |payload|).first, P).start
    requires asked == Requests(start, Wanted(range, |payload|).last, P) && j <= |asked|
    requires var seg := GoDiv(start, P);
      && (forall k :: seg <= k < seg + j ==> env.segment(k).CopyOk? || env.segment(k).CopyFails?)
      && (j < |asked| ==> !env.segment(seg + j).CopyOk? && !env.segment(seg + j).CopyFails?)
    ensures var seg := GoDiv(start, P);
      Session(d, payload, range, P, env).1
        == if env.prepare.Unreachable? then Failed
           else if env.prepare.DiesAfterTruncate? then Crashed
           else if start < 0 then Failed
           else if j < |asked| then if env.segment(seg + j).Crash? then Crashed else Failed
           else if exists k :: seg <= k < seg + j && env.segment(k).CopyFails? then Failed
           else match env.finish case Renames => Done case RenameFails => Failed case DiesBeforeRename => Crashed
  {
    var b, seg := Wanted(range, |payload|), GoDiv(start, P);
    if !env.prepare.Unreachable? && !env.prepare.DiesAfterTruncate? && start >= 0 {
      LoopStops(payload, start, b.last, P, seg, env.segment, true, j,
                LoopTrace(payload, start, b.last, P, seg, env.segment, true), asked);
    }
  }

  /** What the calls leave that do not reach the loop: the temp file cut to what is kept, or nothing
      changed at all. */
  lemma CutShort(d: DiskState, payload: seq<byte>, range: string, P: int, env: Env, keep: int)
    requires P > 0 && !env.prepare.Ready?
    requires d.temp.Some? ==>
      KeepsWholeParts(|d.temp.value|, StartRemainder(Wanted(range, |payload|).first, P), P, keep)
    ensures d.temp.Some? ==> 0 <= keep <= |d.temp.value|
    ensures Session(d, payload, range, P, env)
         == if env.prepare.Unreachable? || d.temp.None? then (d, if env.prepare.Unreachable? then Failed else Crashed)
            else (DiskState(Some(d.temp.value[..keep]), d.dest), Crashed)
  {
    if d.temp.Some? {
      KeepDetermined(|d.temp.value|, Wanted(range, |payload|).first, P, keep);
      KeepWithinFile(|d.temp.value|, Wanted(range, |payload|).first, P);
    }
  }
}
