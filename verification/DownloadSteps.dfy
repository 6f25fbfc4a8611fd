/** Resumable download (client/api_object.go, FGetObjectResumable), as steps on values: what can happen
    to a call, the arithmetic of its restart, the trace of its loop, and the disk it leaves behind. */
module DownloadSteps {
  import opened GoSemantics
  import opened Ranges

  /** The two paths a download touches. */
  datatype DiskState = DiskState(temp: Option<seq<byte>>, dest: Option<seq<byte>>)

  // ---------- what can happen to one call ----------

  /** The fate of one loop iteration, chosen by an adversary. `CopyFails` and `Crash` say how many
      bytes of the response body arrive first. */
  datatype Outcome =
    | HookFails
    | GetFails
    | CopyFails(arrived: nat)
    | CopyOk
    | Crash(arrived: nat)

  datatype Preparation = Ready | Unreachable | DiesAfterTruncate
  datatype Finish = Renames | RenameFails | DiesBeforeRename

  /** `segment` gives the outcome for each segment number the loop passes to its hook. */
  datatype Env = Env(prepare: Preparation, segment: int -> Outcome, finish: Finish)

  datatype Verdict = Done | Failed | Crashed

  /** The bytes from `from` up to but excluding `to`. */
  function Slice(payload: seq<byte>, from: int, to: int): seq<byte> {
    if 0 <= from <= to <= |payload| then payload[from..to] else []
  }

  // ---------- integer arithmetic of a call ----------

  /** getSegmentEnd: the inclusive end of the part that starts at `begin`. */
  function SegmentEnd(begin: int, total: int, per: int): (end: int)
    ensures begin < total && per > 0 ==> begin <= end < total && end - begin < per
    ensures begin < total && per > 0 ==> end == total - 1 || end - begin == per - 1
  {
    if begin + per > total then total - 1 else begin + per - 1
  }

  /** First and last offset (inclusive) of the bytes a call wants. */
  datatype Bounds = Bounds(first: int, last: int)

  function Wanted(range: string, size: nat): (b: Bounds)
    ensures b.last < size
  {
    var r := ParseRange(range);
    if r.isRange then
      Bounds(r.start, if r.end < 0 || r.end >= size then size - 1 else r.end)
    else
      Bounds(0, size - 1)
  }

  /** Byte i of the payload is wanted if the option names no range, or one that contains it. */
  lemma WantedBytes(range: string, size: nat, i: nat)
    requires i < size
    ensures var c := ParseRange(range); var b := Wanted(range, size);
      b.first <= i <= b.last <==> !c.isRange || (c.start <= i && (c.end < 0 || i <= c.end))
  {
  }

  /** Where a call restarts: bytes of the temp file that are kept, and the first offset fetched. */
  datatype Resume = Resume(keep: int, start: int)

  function FirstPart(first: int, P: int): int
    requires P > 0
  {
    P - GoMod(first, P)
  }

  function ResumePlan(f: nat, first: int, P: int): (r: Resume)
    requires P > 0
  {
    var firstPart := FirstPart(first, P);
    var parts := GoDiv(f - firstPart, P) * P;
    var cut := if f > firstPart then parts + firstPart else 0;
    Resume(if GoMod(f - firstPart, P) != 0 then cut else f,
           if f > firstPart then parts + P else 0)
  }

  lemma GoModBounds(a: int, b: int)
    requires b > 0
    ensures a >= 0 ==> 0 <= GoMod(a, b) < b && GoMod(a, b) == a % b
    ensures a < 0 ==> -b < GoMod(a, b) <= 0
  {
    if a < 0 {
      QuotientBounds(-a, b);
    }
  }

  lemma KeepWithinFile(f: nat, first: int, P: int)
    requires P > 0
    ensures 0 <= ResumePlan(f, first, P).keep <= f
    ensures 0 <= ResumePlan(f, first, P).start
  {
    var firstPart := FirstPart(first, P);
    GoModBounds(first, P);
    GoModBounds(f - firstPart, P);
    if f > firstPart {
      QuotientBounds(f - firstPart, P);
    }
  }

  // ---------- the loop, as numbers ----------

  function PartLength(start: int, end: int, P: int): int {
    SegmentEnd(start, end + 1, P) - start + 1
  }

  /** How much of a body of `len` bytes reaches the client. */
  function Received(outcome: Outcome, len: nat): (n: nat)
    ensures n <= len
  {
    match outcome
    case HookFails => 0
    case GetFails => 0
    case CopyFails(n) => Min(n, len)
    case Crash(n) => Min(n, len)
    case CopyOk => len
  }

  /** Whether an iteration lets the loop go on. */
  datatype Step = Continue | Stop(verdict: Verdict)

  function StepOf(start: int, outcome: Outcome): Step {
    if start < 0 then Stop(Failed)
    else match outcome
      case HookFails => Stop(Failed)
      case GetFails => Stop(Failed)
      case Crash(_) => Stop(Crashed)
      case CopyFails(_) => Continue
      case CopyOk => Continue
  }

  // ---------- the trace of the loop ----------

  /** What a run of the loop amounts to: bytes appended, verdict, ranges requested. */
  datatype Trace = Trace(data: seq<byte>, verdict: Verdict, asked: seq<(int, int)>)

  function After(data: seq<byte>, asked: seq<(int, int)>, t: Trace): Trace {
    Trace(data + t.data, t.verdict, asked + t.asked)
  }

  /** What one iteration adds to the bytes appended and to the ranges requested. */
  function StepData(payload: seq<byte>, start: int, end: int, P: int, outcome: Outcome, isOpen: bool): seq<byte>
    requires start < end && P > 0
  {
    if isOpen && start >= 0 then Slice(payload, start, start + Received(outcome, PartLength(start, end, P))) else []
  }

  function StepAsked(start: int, end: int, P: int, outcome: Outcome): seq<(int, int)> {
    if start >= 0 && !outcome.HookFails? then [(start, SegmentEnd(start, end + 1, P))] else []
  }

  /** The loop from `start` on, with the handle open or closed, and the final Close. */
  function LoopTrace(payload: seq<byte>, start: int, end: int, P: int, segNum: int, segment: int -> Outcome, isOpen: bool)
    : Trace
    requires P > 0
    decreases end - start
  {
    if start >= end then Trace([], if isOpen then Done else Failed, [])
    else
      var outcome := segment(segNum);
      var data, asked := StepData(payload, start, end, P, outcome, isOpen), StepAsked(start, end, P, outcome);
      match StepOf(start, outcome)
      case Stop(v) => Trace(data, v, asked)
      case Continue =>
        After(data, asked, LoopTrace(payload, start + P, end, P, segNum + 1, segment, isOpen && outcome.CopyOk?))
  }

  lemma TraceStep(payload: seq<byte>, got: seq<byte>, asked: seq<(int, int)>, start: int, end: int, P: int,
                  segNum: int, segment: int -> Outcome, isOpen: bool)
    requires P > 0 && start < end
    ensures var outcome := segment(segNum);
            var got' := got + StepData(payload, start, end, P, outcome, isOpen);
            var asked' := asked + StepAsked(start, end, P, outcome);
      After(got, asked, LoopTrace(payload, start, end, P, segNum, segment, isOpen))
        == match StepOf(start, outcome)
           case Stop(v) => Trace(got', v, asked')
           case Continue =>
             After(got', asked', LoopTrace(payload, start + P, end, P, segNum + 1, segment, isOpen && outcome.CopyOk?))
  {
  }

  // ---------- one call, as a step of the disk ----------

  /** Seek refuses a negative offset; otherwise the loop runs. */
  function SeekAndLoop(payload: seq<byte>, start: int, end: int, P: int, segment: int -> Outcome): Trace
    requires P > 0
  {
    if start < 0 then Trace([], Failed, []) else LoopTrace(payload, start, end, P, GoDiv(start, P), segment, true)
  }

  /** The plan of a call that finds `temp` on the disk. */
  function PlanFor(temp: Option<seq<byte>>, first: int, P: int): Resume
    requires P > 0
  {
    match temp
    case Some(t) => ResumePlan(|t|, first, P)
    case None => Resume(0, first)
  }

  function Kept(temp: Option<seq<byte>>, first: int, P: int): seq<byte>
    requires P > 0
  {
    match temp
    case Some(t) => KeepWithinFile(|t|, first, P); t[..ResumePlan(|t|, first, P).keep]
    case None => []
  }

  /** The disk after the loop: only a call whose handle closed without error renames the temp file. */
  function Ended(d: DiskState, file: seq<byte>, verdict: Verdict, finish: Finish): (DiskState, Verdict) {
    if verdict != Done then (d.(temp := Some(file)), verdict)
    else match finish
      case Renames => (DiskState(None, Some(file)), Done)
      case RenameFails => (d.(temp := Some(file)), Failed)
      case DiesBeforeRename => (d.(temp := Some(file)), Crashed)
  }

  function SessionFor(d: DiskState, payload: seq<byte>, b: Bounds, P: int, env: Env): (DiskState, Verdict)
    requires P > 0
  {
    var kept := Kept(d.temp, b.first, P);
    var start := PlanFor(d.temp, b.first, P).start;
    if env.prepare.DiesAfterTruncate? then (d.(temp := if d.temp.Some? then Some(kept) else None), Crashed)
    else
      var t := SeekAndLoop(payload, start, b.last, P, env.segment);
      Ended(d, kept + t.data, t.verdict, env.finish)
  }

  function Session(d: DiskState, payload: seq<byte>, range: string, P: int, env: Env): (DiskState, Verdict)
    requires P > 0
  {
    if env.prepare.Unreachable? then (d, Failed)
    else SessionFor(d, payload, Wanted(range, |payload|), P, env)
  }

  /** The part size a call uses; None when it is not a multiple of the segment size. */
  function EffectivePartSize(partSize: nat, maxSegmentSize: nat): (r: Option<nat>)
    requires maxSegmentSize > 0
    ensures r.Some? ==> r.value > 0 && r.value % maxSegmentSize == 0
    ensures r.Some? ==> r.value == partSize || (partSize == 0 && r.value == 33_554_432)
    ensures r.None? <==> (if partSize > 0 then partSize else 33_554_432) % maxSegmentSize != 0
  {
    var P := if partSize == 0 then MIN_PART_SIZE else partSize;
    if P % maxSegmentSize != 0 then None else Some(P)
  }

  // ---------- the trace in closed form ----------

  /** How many bytes the loop appends before it fails, crashes or ends. */
  function Appended(start: int, end: int, P: int, segNum: int, segment: int -> Outcome): (n: nat)
    requires P > 0
    ensures start < 0 || start >= end ==> n == 0
    ensures start < end ==> start + n <= end + 1
    decreases end - start
  {
    if start < 0 || start >= end then 0
    else
      var received := Received(segment(segNum), PartLength(start, end, P));
      if segment(segNum).CopyOk? then received + Appended(start + P, end, P, segNum + 1, segment) else received
  }

  /** How the loop and the closing of the handle end, given whether the handle is still open. */
  function LoopVerdict(start: int, end: int, P: int, segNum: int, segment: int -> Outcome, isOpen: bool): Verdict
    requires P > 0
    decreases end - start
  {
    if start >= end then if isOpen then Done else Failed
    else match StepOf(start, segment(segNum))
      case Stop(v) => v
      case Continue => LoopVerdict(start + P, end, P, segNum + 1, segment, isOpen && segment(segNum).CopyOk?)
  }

  /** The ranges of an undisturbed loop, in order. */
  function Requests(start: int, end: int, P: int): seq<(int, int)>
    requires P > 0
    decreases end - start
  {
    if start >= end then []
    else [(start, SegmentEnd(start, end + 1, P))] + Requests(start + P, end, P)
  }

  lemma VerdictStep(start: int, end: int, P: int, segNum: int, segment: int -> Outcome, isOpen: bool)
    requires P > 0 && start < end
    ensures LoopVerdict(start, end, P, segNum, segment, isOpen)
         == match StepOf(start, segment(segNum))
            case Stop(v) => v
            case Continue => LoopVerdict(start + P, end, P, segNum + 1, segment, isOpen && segment(segNum).CopyOk?)
  {
  }

  lemma RequestsStep(start: int, end: int, P: int)
    requires P > 0 && start < end
    ensures Requests(start, end, P) == [(start, SegmentEnd(start, end + 1, P))] + Requests(start + P, end, P)
  {
  }

  lemma AppendedStep(start: int, end: int, P: int, segNum: int, segment: int -> Outcome)
    requires P > 0 && 0 <= start < end
    ensures Appended(start, end, P, segNum, segment)
         == Received(segment(segNum), PartLength(start, end, P))
            + if segment(segNum).CopyOk? then Appended(start + P, end, P, segNum + 1, segment) else 0
  {
  }

  lemma VerdictAndAskedStep(payload: seq<byte>, start: int, end: int, P: int, segNum: int, segment: int -> Outcome,
                            isOpen: bool)
    requires P > 0 && start < end
    ensures var t := LoopTrace(payload, start, end, P, segNum, segment, isOpen);
            var asked := StepAsked(start, end, P, segment(segNum));
      match StepOf(start, segment(segNum))
      case Stop(v) => t.verdict == v && t.asked == asked
      case Continue =>
        var rest := LoopTrace(payload, start + P, end, P, segNum + 1, segment, isOpen && segment(segNum).CopyOk?);
        t.verdict == rest.verdict && t.asked == asked + rest.asked
  {
  }

  /** LoopVerdict and Requests describe the trace. */
  lemma {:induction false} TraceIs(payload: seq<byte>, start: int, end: int, P: int, segNum: int,
                                   segment: int -> Outcome, isOpen: bool, t: Trace, v: Verdict, r: seq<(int, int)>)
    requires P > 0 && t == LoopTrace(payload, start, end, P, segNum, segment, isOpen)
    requires v == LoopVerdict(start, end, P, segNum, segment, isOpen) && r == Requests(start, end, P)
    ensures t.verdict == v && t.asked <= r && (v == Done ==> t.asked == r)
    decreases end - start
  {
    if start < end {
      VerdictAndAskedStep(payload, start, end, P, segNum, segment, isOpen);
      VerdictStep(start, end, P, segNum, segment, isOpen);
      RequestsStep(start, end, P);
      if StepOf(start, segment(segNum)).Continue? {
        var open' := isOpen && segment(segNum).CopyOk?;
        TraceIs(payload, start + P, end, P, segNum + 1, segment, open',
                LoopTrace(payload, start + P, end, P, segNum + 1, segment, open'),
                LoopVerdict(start + P, end, P, segNum + 1, segment, open'), Requests(start + P, end, P));
      }
    }
  }

  lemma {:induction false} ClosedTrace(payload: seq<byte>, start: int, end: int, P: int, segNum: int,
                                       segment: int -> Outcome)
    requires P > 0
    ensures LoopTrace(payload, start, end, P, segNum, segment, false).data == []
    decreases end - start
  {
    if start < end {
      ClosedTrace(payload, start + P, end, P, segNum + 1, segment);
    }
  }

  lemma Reassociate(a: seq<byte>, b: seq<byte>, c: seq<byte>)
    ensures a + b + c == a + (b + c) && a + [] == a
  {
  }

  /** One iteration of the trace: its first k bytes and, if the copy succeeded, the rest. */
  lemma Unfolded(payload: seq<byte>, start: int, end: int, P: int, segNum: int, segment: int -> Outcome,
                 data: seq<byte>, n: nat)
    returns (k: nat, rest: seq<byte>, m: nat)
    requires P > 0 && 0 <= start < end
    requires data == LoopTrace(payload, start, end, P, segNum, segment, true).data
    requires n == Appended(start, end, P, segNum, segment)
    ensures data == Slice(payload, start, start + k) + rest && n == k + m && start + n <= end + 1
    ensures m > 0 ==> k == P
    ensures if segment(segNum).CopyOk?
            then rest == LoopTrace(payload, start + P, end, P, segNum + 1, segment, true).data
              && m == Appended(start + P, end, P, segNum + 1, segment)
            else rest == [] && m == 0
  {
    k := Received(segment(segNum), PartLength(start, end, P));
    if segment(segNum).CopyOk? {
      rest, m := LoopTrace(payload, start + P, end, P, segNum + 1, segment, true).data,
                 Appended(start + P, end, P, segNum + 1, segment);
    } else {
      ClosedTrace(payload, start + P, end, P, segNum + 1, segment);
      rest, m := [], 0;
      Reassociate(Slice(payload, start, start + k), [], []);
    }
  }

  lemma GrowingSlice(payload: seq<byte>, start: nat, k: nat, next: nat, m: nat, rest: seq<byte>)
    requires start + k + m <= |payload| && (m > 0 ==> next == start + k)
    requires rest == if m > 0 then Slice(payload, next, next + m) else []
    ensures Slice(payload, start, start + k) + rest == Slice(payload, start, start + k + m)
  {
  }

  /** The bytes of the trace are one contiguous slice of the payload. */
  lemma {:induction false} TraceData(payload: seq<byte>, start: int, end: int, P: int, segNum: int,
                                     segment: int -> Outcome, data: seq<byte>, n: nat)
    requires P > 0 && end < |payload|
    requires data == LoopTrace(payload, start, end, P, segNum, segment, true).data
    requires n == Appended(start, end, P, segNum, segment)
    ensures data == if n > 0 then Slice(payload, start, start + n) else []
    decreases end - start
  {
    if 0 <= start < end {
      var k, rest, m := Unfolded(payload, start, end, P, segNum, segment, data, n);
      if segment(segNum).CopyOk? {
        TraceData(payload, start + P, end, P, segNum + 1, segment, rest, m);
      }
      GrowingSlice(payload, start, k, start + P, m, rest);
    }
  }

  lemma EmptySlice(payload: seq<byte>, start: int)
    ensures Slice(payload, start, start) == []
  {
  }

  /** The loop ends as LoopVerdict says, appends one contiguous slice of the payload, and asks for a
      prefix of the tiling, all of it on success. */
  lemma TraceMeans(payload: seq<byte>, start: int, end: int, P: int, segNum: int, segment: int -> Outcome)
    requires P > 0 && end < |payload|
    ensures var t := LoopTrace(payload, start, end, P, segNum, segment, true);
      && t.verdict == LoopVerdict(start, end, P, segNum, segment, true)
      && t.data == Slice(payload, start, start + Appended(start, end, P, segNum, segment))
      && t.asked <= Requests(start, end, P)
      && (t.verdict == Done ==> t.asked == Requests(start, end, P))
  {
    var t := LoopTrace(payload, start, end, P, segNum, segment, true);
    TraceIs(payload, start, end, P, segNum, segment, true, t,
            LoopVerdict(start, end, P, segNum, segment, true), Requests(start, end, P));
    TraceData(payload, start, end, P, segNum, segment, t.data, Appended(start, end, P, segNum, segment));
    EmptySlice(payload, start);
  }
}
