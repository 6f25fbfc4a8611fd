/** Restarts that go wrong: exactly when, and for which sizes of the temp file. */
module DownloadRestarts {
  import opened GoSemantics
  import opened Ranges
  import opened DownloadSteps
  import opened DownloadPlans
  import opened DownloadRuns

  /** For every safe state and every size of the temp file, good or bad: what a session writes is a
      prefix of the target exactly when it fetched nothing, or when what it fetched stays inside the
      target and equals, byte for byte, what follows the kept bytes there. */
  lemma RestartExact(d: DiskState, payload: seq<byte>, b: Bounds, P: int, env: Env)
    returns (start: int, kept: seq<byte>, n: nat)
    requires P > 0 && b.last < |payload| && Safe(d, payload, b) && !env.prepare.DiesAfterTruncate?
    ensures start == PlanFor(d.temp, b.first, P).start && kept == Kept(d.temp, b.first, P)
    ensures n == Appended(start, b.last, P, GoDiv(start, P), env.segment)
    ensures n > 0 ==> 0 <= start && start + n <= b.last + 1
    ensures var (after, verdict) := SessionFor(d, payload, b, P, env);
      && Written(after, verdict).Some?
      && (Written(after, verdict).value <= Target(payload, b) <==>
            n == 0 || (0 <= b.first && b.first + |kept| + n <= b.last + 1
                       && payload[start..start + n] == payload[b.first + |kept|..b.first + |kept| + n]))
  {
    start, kept, n := SessionWrites(d, payload, b, P, env);
    KeptIsPrefix(d, payload, b, P);
    PrefixExact(payload, b, kept, start, n);
  }

  // ---------- every bad size breaks some payload ----------

  /** The payload that has one at `at` and zeros elsewhere. */
  function Marked(size: nat, at: int): (p: seq<byte>)
    ensures |p| == size && forall i :: 0 <= i < size ==> p[i] == if i == at then 1 else 0
  {
    seq(size, i => if i == at then 1 else 0)
  }

  lemma DifferentSlices(payload: seq<byte>, x: nat, y: nat, n: nat)
    requires n > 0 && x + n <= |payload| && y + n <= |payload| && payload[x] != payload[y]
    ensures payload[x..x + n] != payload[y..y + n]
  {
    assert payload[x..x + n][0] == payload[x] && payload[y..y + n][0] == payload[y];
  }

  /** No size outside the good restarts is harmless: for every such size the target can have, and
      every session, there is a payload for which a temp file of that size is a correct prefix and the
      session makes it an incorrect one as soon as it appends anything. */
  lemma BadSizeBreaksSomePayload(f: nat, size: nat, b: Bounds, P: int, env: Env, dest: Option<seq<byte>>)
    returns (payload: seq<byte>, d: DiskState, n: nat)
    requires P > 0 && 0 <= b.first && b.last < size && !env.prepare.DiesAfterTruncate?
    requires (b.first + f <= b.last + 1 || f == 0) && !GoodRestart(f, b.first, P)
    ensures var start := ResumePlan(f, b.first, P).start;
      n == Appended(start, b.last, P, GoDiv(start, P), env.segment)
    ensures |payload| == size && d.dest == dest && d.temp.Some? && |d.temp.value| == f && Safe(d, payload, b)
    ensures var (after, verdict) := SessionFor(d, payload, b, P, env);
      Written(after, verdict).Some? && (Written(after, verdict).value <= Target(payload, b) <==> n == 0)
  {
    var plan := ResumePlan(f, b.first, P);
    payload := Marked(size, plan.start);
    var t := Target(payload, b);
    d := DiskState(Some(t[..f]), dest);
    GoodIsAligned(f, b.first, P);
    KeepWithinFile(f, b.first, P);
    var start, kept;
    start, kept, n := RestartExact(d, payload, b, P, env);
    if n > 0 && b.first + |kept| + n <= b.last + 1 {
      DifferentSlices(payload, start, b.first + |kept|, n);
    }
  }

  // ---------- the restart from exactly one part ----------

  const UNDISTURBED: Env := Env(Ready, (k: int) => CopyOk, Renames)

  /** The process dies after the first P bytes of the first part. */
  function DiesAfter(P: nat): Env { Env(Ready, (k: int) => Crash(P), Renames) }

  lemma {:induction false} UndisturbedLoop(start: int, end: int, P: int, segNum: int)
    requires P > 0 && start >= 0
    ensures LoopVerdict(start, end, P, segNum, UNDISTURBED.segment, true) == Done
    decreases end - start
  {
    if start < end {
      VerdictStep(start, end, P, segNum, UNDISTURBED.segment, true);
      UndisturbedLoop(start + P, end, P, segNum + 1);
    }
  }

  lemma DeadAfterFirstPart(payload: seq<byte>, range: string, P: nat, dest: Option<seq<byte>>)
    requires P > 0 && NoRange(range) && |payload| >= P && |payload| >= 2
    ensures Session(DiskState(None, dest), payload, range, P, DiesAfter(P)) == (DiskState(Some(payload[..P]), dest), Crashed)
  {
    var end, segment := |payload| - 1, DiesAfter(P).segment;
    QuotientIs(0, P, 0);
    AppendedStep(0, end, P, 0, segment);
    VerdictStep(0, end, P, 0, segment, true);
    SessionForm(DiskState(None, dest), payload, Bounds(0, end), P, DiesAfter(P));
    assert Appended(0, end, P, 0, segment) == P;
    assert [] + payload[0..P] == payload[..P];
  }

  /** An undisturbed call that finds exactly the first P bytes fetches everything again behind them. */
  lemma FetchesAgain(payload: seq<byte>, range: string, P: nat, d: DiskState)
    requires P > 0 && NoRange(range) && |payload| >= P && |payload| >= 2 && d.temp == Some(payload[..P])
    ensures var again := payload[..TiledEnd(0, |payload| - 1, P)];
      Session(d, payload, range, P, UNDISTURBED) == (DiskState(None, Some(payload[..P] + again)), Done)
  {
    var end := |payload| - 1;
    QuotientIs(0, P, 0);
    assert ResumePlan(P, 0, P) == Resume(P, 0);
    assert Kept(d.temp, 0, P) == payload[..P];
    UndisturbedLoop(0, end, P, 0);
    AppendedWhenDone(0, end, P, 0, UNDISTURBED.segment);
    SessionForm(d, payload, Bounds(0, end), P, UNDISTURBED);
  }

  /** For every payload that can leave a temp file of exactly P bytes: if the process dies when the
      first part is on the disk, an undisturbed second call reports success and delivers the first part
      twice, even when that part was the whole payload. */
  lemma ExactPartRestartDuplicates(payload: seq<byte>, range: string, P: nat, dest: Option<seq<byte>>)
    requires P > 0 && NoRange(range) && |payload| >= P && |payload| >= 2
    ensures var interrupted := Session(DiskState(None, dest), payload, range, P, DiesAfter(P)).0;
            var (after, verdict) := Session(interrupted, payload, range, P, UNDISTURBED);
      && interrupted.temp == Some(payload[..P])
      && verdict == Done
      && after.dest == Some(payload[..P] + payload[..TiledEnd(0, |payload| - 1, P)])
      && (P >= 2 ==> |after.dest.value| > |payload|)
  {
    var end := |payload| - 1;
    DeadAfterFirstPart(payload, range, P, dest);
    FetchesAgain(payload, range, P, DiskState(Some(payload[..P]), dest));
    if P >= 2 && TiledEnd(0, end, P) == end {
      LostByteBySize(|payload|, P);
    }
  }

  // ---------- a negative start ----------

  /** The header `bytes=-N-`, which the client reads as the start offset -N. */
  function NegativeStart(start: int): string
    requires start < 0
  {
    "bytes=-" + Decimal(-start) + "-"
  }

  lemma WantedNegative(start: int, size: nat)
    requires -MAX_INT64 - 1 <= start < 0
    ensures Wanted(NegativeStart(start), size) == Bounds(start, size - 1)
  {
    NegativeHeader(start);
  }

  /** A first call with such a header never succeeds and fetches nothing, whatever happens to it; at
      most it leaves an empty temp file behind. */
  lemma NegativeStartRefused(payload: seq<byte>, start: int, P: int, env: Env, dest: Option<seq<byte>>)
    requires P > 0 && -MAX_INT64 - 1 <= start < 0
    ensures var (after, verdict) := Session(DiskState(None, dest), payload, NegativeStart(start), P, env);
      verdict != Done && after.dest == dest && (after.temp == None || after.temp == Some([]))
  {
    var d, b := DiskState(None, dest), Bounds(start, |payload| - 1);
    WantedNegative(start, |payload|);
    if !env.prepare.Unreachable? {
      RenameSafety(d, payload, b, P, env);
      var first, kept, n := SessionTemp(d, payload, b, P, env);
      EmptySlice(payload, first);
      assert kept + [] == [];
    }
  }

  lemma EmptyPlan(first: int, P: int)
    requires P > 0 && first <= 0
    ensures ResumePlan(0, first, P) == Resume(0, 0)
  {
    KeepWithinFile(0, first, P);
    FirstPartIs(first, P);
    QuotientBounds(-first, P);
  }

  /** Once that empty temp file is there, the same call is, in every environment, the download of the
      whole payload: the header is not heeded any more. */
  lemma NegativeStartForgotten(payload: seq<byte>, start: int, range: string, P: int, env: Env, dest: Option<seq<byte>>)
    requires P > 0 && -MAX_INT64 - 1 <= start < 0 && NoRange(range)
    ensures var d := DiskState(Some([]), dest);
      Session(d, payload, NegativeStart(start), P, env) == Session(d, payload, range, P, env)
  {
    WantedNegative(start, |payload|);
    EmptyPlan(start, P);
    EmptyPlan(0, P);
  }
}
