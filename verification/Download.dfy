/** Resumable download (client/api_object.go, FGetObjectResumable). A temp file survives crashes;
    every call looks at its size, cuts it back to a part boundary, reopens it in append mode and
    fetches consecutive byte ranges. */
module Download {
  import opened GoSemantics
  import opened Ranges
  import opened RangeStandard
  import opened DownloadSteps

  class Disk {
    var temp: Option<seq<byte>>
    var dest: Option<seq<byte>>

    ghost function State(): DiskState
      reads this
    {
      DiskState(temp, dest)
    }
  }

  /** A handle on the temp file opened with O_APPEND: bytes land at the end of the file, wherever
      the last Seek went. */
  class AppendFile {
    const disk: Disk
    var isOpen: bool

    constructor (disk: Disk)
      requires disk.temp.Some?
      ensures this.disk == disk && isOpen
    {
      this.disk := disk;
      isOpen := true;
    }

    method Write(p: seq<byte>) returns (ok: bool)
      requires disk.temp.Some?
      modifies disk`temp
      ensures ok == isOpen
      ensures disk.temp == if isOpen then Some(old(disk.temp.value) + p) else old(disk.temp)
    {
      if isOpen {
        disk.temp := Some(disk.temp.value + p);
      }
      return isOpen;
    }

    method Close() returns (ok: bool)
      modifies this
      ensures ok == old(isOpen) && !isOpen
    {
      ok := isOpen;
      isOpen := false;
    }
  }

  lemma ServeRequested(payload: seq<byte>, start: int, end: int)
    requires 0 <= start <= end < |payload|
    ensures RangeHeader(start, end).Some?
    ensures Serve(payload, RangeHeader(start, end).value) == Some(payload[start..end + 1])
  {
    ReadPrinted(start, end);
  }

  /** Lines 893-934: stat the temp file, choose a restart, truncate if the size is off a boundary. */
  method PrepareTempFile(disk: Disk, isRange: bool, rangeStart: int, P: int) returns (startOffset: int)
    requires P > 0
    modifies disk`temp
    ensures var first := if isRange then rangeStart else 0;
            && startOffset == PlanFor(old(disk.temp), first, P).start
            && disk.temp == (if old(disk.temp).Some? then Some(Kept(old(disk.temp), first, P)) else None)
  {
    startOffset := if isRange then rangeStart else 0;
    ghost var first := startOffset;
    if disk.temp.Some? {
      KeepWithinFile(|disk.temp.value|, first, P);
      var fileSize := |disk.temp.value|;
      var firstSegSize := if isRange then P - GoMod(rangeStart, P) else P;
      var fileSizeWithoutFirstSeg := fileSize - firstSegSize;
      var truncateOffset;
      if fileSize > firstSegSize {
        truncateOffset := GoDiv(fileSize - firstSegSize, P) * P + firstSegSize;
        startOffset := GoDiv(fileSize - firstSegSize, P) * P + P;
      } else {
        truncateOffset := 0;
        startOffset := 0;
      }
      if GoMod(fileSizeWithoutFirstSeg, P) != 0 {
        disk.temp := Some(disk.temp.value[..truncateOffset]);
      } else {
        assert disk.temp.value[..fileSize] == disk.temp.value;
      }
    }
  }

  /** io.Copy of the response body, as far as it arrives, into the handle. */
  method CopyBody(fd: AppendFile, body: seq<byte>, outcome: Outcome) returns (ok: bool)
    requires fd.disk.temp.Some? && body != []
    modifies fd.disk`temp
    ensures ok <==> outcome.CopyOk? && fd.isOpen
    ensures fd.disk.temp == if fd.isOpen then Some(old(fd.disk.temp.value) + body[..Received(outcome, |body|)])
                            else old(fd.disk.temp)
  {
    var arrived := body[..Received(outcome, |body|)];
    ok := outcome.CopyOk?;
    if arrived != [] {
      var written := fd.Write(arrived);
      ok := ok && written;
    } else {
      assert forall t: seq<byte> :: t + arrived == t;
    }
  }

  /** Sets the Range option and gives the provider's answer; None when SetRange refuses. */
  method Request(payload: seq<byte>, options: GetObjectOptions, start: int, end: int) returns (body: Option<seq<byte>>)
    requires start <= end < |payload|
    modifies options
    ensures body == if start < 0 then None else Some(payload[start..end + 1])
  {
    var valid := options.SetRange(start, end);
    if !valid {
      return None;
    }
    ServeRequested(payload, start, end);
    return Serve(payload, options.Range);
  }

  /** One iteration: hook, SetRange, GetObject, copy. A failed copy closes the handle and the loop
      goes on. `sent` tells whether a request went out. */
  method DownloadPart(fd: AppendFile, payload: seq<byte>, options: GetObjectOptions,
                      start: int, endOffset: int, P: int, outcome: Outcome)
    returns (step: Step, sent: bool)
    requires P > 0 && start < endOffset < |payload|
    requires fd.disk.temp.Some?
    modifies fd, fd.disk`temp, options
    ensures step == StepOf(start, outcome)
    ensures step == Continue ==> fd.isOpen == (old(fd.isOpen) && outcome.CopyOk?)
    ensures fd.disk.temp
         == Some(old(fd.disk.temp.value) + StepData(payload, start, endOffset, P, outcome, old(fd.isOpen)))
    ensures sent <==> start >= 0 && !outcome.HookFails?
  {
    ghost var before := fd.disk.temp.value;
    assert before + [] == before && before + Slice(payload, start, start) == before;
    if outcome.HookFails? {
      return Stop(Failed), false;
    }
    var partEndOffset := SegmentEnd(start, endOffset + 1, P);
    var body := Request(payload, options, start, partEndOffset);
    if body.None? {
      return Stop(Failed), false;
    }
    if outcome.GetFails? {
      return Stop(Failed), true;
    }
    ghost var received := Received(outcome, |body.value|);
    assert body.value[..received] == Slice(payload, start, start + received);
    var ok := CopyBody(fd, body.value, outcome);
    if outcome.Crash? {
      return Stop(Crashed), true;
    }
    if !ok {
      var _ := fd.Close();
    }
    return Continue, true;
  }

  lemma Appendix(base: seq<byte>, got: seq<byte>)
    ensures base <= base + got && (base + got)[|base|..] == got
  {
  }

  lemma AfterStart(t: Trace)
    ensures After([], [], t) == t
  {
  }

  lemma AfterEnd(data: seq<byte>, asked: seq<(int, int)>, verdict: Verdict)
    ensures After(data, asked, Trace([], verdict, [])) == Trace(data, verdict, asked)
    ensures asked + [] == asked
  {
  }

  /** Lines 957-994: fetch the parts one by one, then close the handle. `asked` lists the
      ranges requested, both ends included. */
  method DownloadParts(fd: AppendFile, payload: seq<byte>, startOffset: int, endOffset: int, P: int,
                       segment: int -> Outcome)
    returns (verdict: Verdict, asked: seq<(int, int)>)
    requires P > 0 && fd.isOpen && fd.disk.temp.Some?
    requires endOffset < |payload|
    modifies fd, fd.disk`temp
    ensures fd.disk.temp.Some? && old(fd.disk.temp.value) <= fd.disk.temp.value
    ensures Trace(fd.disk.temp.value[|old(fd.disk.temp.value)|..], verdict, asked)
         == LoopTrace(payload, startOffset, endOffset, P, GoDiv(startOffset, P), segment, true)
  {
    asked := [];
    var objectOption := new GetObjectOptions();
    var segNum := GoDiv(startOffset, P);
    var partStartOffset := startOffset;
    ghost var base, got: seq<byte> := fd.disk.temp.value, [];
    ghost var trace := LoopTrace(payload, startOffset, endOffset, P, segNum, segment, true);
    assert base + got == base;
    AfterStart(trace);
    while partStartOffset < endOffset
      invariant fresh(objectOption)
      invariant fd.disk.temp == Some(base + got)
      invariant trace == After(got, asked, LoopTrace(payload, partStartOffset, endOffset, P, segNum, segment, fd.isOpen))
      decreases endOffset - partStartOffset
    {
      ghost var piece := StepData(payload, partStartOffset, endOffset, P, segment(segNum), fd.isOpen);
      TraceStep(payload, got, asked, partStartOffset, endOffset, P, segNum, segment, fd.isOpen);
      var step, sent := DownloadPart(fd, payload, objectOption, partStartOffset, endOffset, P, segment(segNum));
      AfterEnd(got, asked, Failed);
      if sent {
        asked := asked + [(partStartOffset, SegmentEnd(partStartOffset, endOffset + 1, P))];
      }
      Reassociate(base, got, piece);
      got := got + piece;
      if step.Stop? {
        Appendix(base, got);
        return step.verdict, asked;
      }
      segNum := segNum + 1;
      partStartOffset := partStartOffset + P;
    }
    AfterEnd(got, asked, if fd.isOpen then Done else Failed);
    Appendix(base, got);
    var closed := fd.Close();
    verdict := if closed then Done else Failed;
  }

  /** Lines 996-1000: a call whose handle closed without error renames the temp file. */
  method FinishSession(disk: Disk, looped: Verdict, finish: Finish) returns (verdict: Verdict)
    requires disk.temp.Some?
    modifies disk
    ensures (disk.State(), verdict) == Ended(old(disk.State()), old(disk.temp.value), looped, finish)
  {
    verdict := looped;
    if verdict.Done? {
      match finish
      case Renames =>
        disk.temp, disk.dest := None, disk.temp;
      case RenameFails =>
        verdict := Failed;
      case DiesBeforeRename =>
        verdict := Crashed;
    }
  }

  /** The call from line 882 on, once the wanted bytes and the part size are known. */
  method RunSession(disk: Disk, payload: seq<byte>, isRange: bool, rangeStart: int, endOffset: int, P: int, env: Env)
    returns (verdict: Verdict)
    requires endOffset < |payload| && P > 0 && !env.prepare.Unreachable?
    modifies disk
    ensures (disk.State(), verdict)
         == SessionFor(old(disk.State()), payload, Bounds(if isRange then rangeStart else 0, endOffset), P, env)
  {
    var startOffset := PrepareTempFile(disk, isRange, rangeStart, P);
    if env.prepare.DiesAfterTruncate? {
      return Crashed;
    }
    if disk.temp.None? {
      disk.temp := Some([]);
    }
    var fd := new AppendFile(disk);
    ghost var base := disk.temp.value;
    if startOffset < 0 {
      // Seek fails.
      var _ := fd.Close();
      assert base + [] == base;
      return Failed;
    }
    var looped, asked := DownloadParts(fd, payload, startOffset, endOffset, P, env.segment);
    assert disk.temp.value == base + disk.temp.value[|base|..];
    verdict := FinishSession(disk, looped, env.finish);
  }

  /** FGetObjectResumable. */
  method FGetObjectResumable(disk: Disk, payload: seq<byte>, opts: GetObjectOptions, maxSegmentSize: nat, env: Env)
    returns (verdict: Verdict)
    requires maxSegmentSize > 0 && opts.PartSize <= MAX_INT64
    modifies disk
    ensures match EffectivePartSize(opts.PartSize, maxSegmentSize)
            case None => verdict == Failed && disk.State() == old(disk.State())
            case Some(P) => (disk.State(), verdict) == Session(old(disk.State()), payload, opts.Range, P, env)
  {
    if env.prepare.Unreachable? {
      return Failed;
    }
    var partSize := if opts.PartSize == 0 then MIN_PART_SIZE else opts.PartSize;
    if partSize % maxSegmentSize != 0 {
      return Failed;
    }
    var range := ParseRange(opts.Range);
    var rangeEnd := range.end;
    if range.isRange && (rangeEnd < 0 || rangeEnd >= |payload|) {
      rangeEnd := |payload| - 1;
    }
    var endOffset := if range.isRange then rangeEnd else |payload| - 1;
    verdict := RunSession(disk, payload, range.isRange, range.start, endOffset, partSize, env);
  }
}
