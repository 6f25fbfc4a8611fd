/** Where a restarted download lands, how its loop tiles the wanted bytes, and when it succeeds. */
module DownloadPlans {
  import opened GoSemantics
  import opened Ranges
  import opened RangeStandard
  import opened DownloadSteps

  // ---------- where a restart lands ----------

  /** After the truncation, the offset fetched next is the offset at which the temp file ends. */
  predicate Aligned(f: nat, first: int, P: int)
    requires P > 0
  {
    first + ResumePlan(f, first, P).keep == ResumePlan(f, first, P).start
  }

  lemma RemainderIsSelf(a: int, P: int)
    requires P > 0
    ensures GoMod(a, P) == a <==> -P < a < P
  {
    GoModBounds(a, P);
    if -P < a < 0 {
      QuotientIs(-a, P, 0);
    } else if 0 <= a < P {
      QuotientIs(a, P, 0);
    }
  }

  lemma QuotientOfMinusOne(a: int, P: int)
    requires P > 0
    ensures a + P - GoMod(a, P) == 0 <==> -2 * P < a <= -P
  {
    GoModBounds(a, P);
    if -2 * P < a <= -P {
      QuotientIs(-a, P, 1);
    }
  }

  lemma RemainderOfNegative(a: int, P: int)
    requires P > 0 && a > 0
    ensures GoMod(-a, P) == -(a % P)
  {
    QuotientBounds(a, P);
  }

  /** A temp file shorter than the first part is dropped, unless its size is off by a whole part. */
  lemma ShortPlan(f: nat, first: int, P: int)
    requires P > 0 && f < FirstPart(first, P)
    ensures ResumePlan(f, first, P) == Resume(if (FirstPart(first, P) - f) % P == 0 then f else 0, 0)
  {
    RemainderOfNegative(FirstPart(first, P) - f, P);
  }

  lemma FirstPartIs(first: int, P: int)
    requires P > 0
    ensures first >= 0 ==> FirstPart(first, P) == P - first % P
    ensures first <= 0 ==> FirstPart(first, P) == P + -first % P
  {
    if first < 0 {
      RemainderOfNegative(-first, P);
    } else if first == 0 {
      QuotientIs(0, P, 0);
    } else {
      QuotientBounds(first, P);
    }
  }

  /** A size below its own remainder plus one part is below one part. */
  lemma BelowOnePart(f: nat, P: int)
    requires P > 0 && f < P + f % P
    ensures f < P && f % P == f
  {
    QuotientBounds(f, P);
    MultipleSize(P, f / P);
    QuotientIs(f, P, 0);
  }

  lemma ShortFile(f: nat, first: int, P: int)
    requires P > 0 && f < FirstPart(first, P)
    ensures Aligned(f, first, P) <==> first == 0 || first + f == 0
  {
    ShortPlan(f, first, P);
    FirstPartIs(first, P);
    QuotientIs(0, P, 0);
    if first + f == 0 {
      BelowOnePart(f, P);
      QuotientIs(P, P, 1);
    } else if first == 0 {
      QuotientIs(P - f, P, 0);
    }
  }

  /** The exact restarts that are aligned, for every start offset Go's `%` can meet. */
  lemma ResumeAlignment(f: nat, first: int, P: int)
    requires P > 0
    ensures var firstPart := FirstPart(first, P);
      Aligned(f, first, P) <==>
        if f > firstPart then -P < first < P
        else if f == firstPart then -2 * P < first <= -P
        else first == 0 || first + f == 0
  {
    var firstPart := FirstPart(first, P);
    GoModBounds(first, P);
    if f > firstPart {
      QuotientBounds(f - firstPart, P);
      RemainderIsSelf(first, P);
    } else if f == firstPart {
      assert ResumePlan(f, first, P) == Resume(f, 0);
      QuotientOfMinusOne(first, P);
    } else {
      ShortFile(f, first, P);
    }
  }

  // ---------- the tiling of a loop ----------

  /** The end (exclusive) of what an undisturbed loop fetches from `start`. */
  function TiledEnd(start: int, end: int, P: int): int
    requires P > 0
  {
    if start > end then start else if (end - start) % P != 0 then end + 1 else end
  }

  lemma TiledEndStep(start: int, end: int, P: int)
    requires P > 0 && start < end
    ensures start + P <= end ==> TiledEnd(start, end, P) == TiledEnd(start + P, end, P)
    ensures start + P > end ==> TiledEnd(start, end, P) == end + 1
    ensures start + P > end ==> Requests(start + P, end, P) == []
  {
    if start + P <= end {
      ShiftByDivisor(end - start - P, P);
    } else {
      QuotientIs(end - start, P, 0);
    }
  }

  /** Every range lies inside the wanted bytes, is not empty, and ends just before the next one. */
  predicate Chained(r: seq<(int, int)>, start: int, end: int) {
    && (forall i :: 0 <= i < |r| ==> start <= r[i].0 <= r[i].1 <= end)
    && (forall i :: 0 <= i < |r| - 1 ==> r[i].1 + 1 == r[i + 1].0)
  }

  lemma ChainFront(x: (int, int), rest: seq<(int, int)>, start: int, end: int)
    requires x.0 == start <= x.1 <= end && Chained(rest, x.1 + 1, end)
    requires rest != [] ==> rest[0].0 == x.1 + 1
    ensures Chained([x] + rest, start, end)
  {
    var r := [x] + rest;
    assert forall i :: 1 <= i < |r| ==> r[i] == rest[i - 1];
  }

  lemma FirstRequest(start: int, end: int, P: int)
    requires P > 0
    ensures Requests(start, end, P) == [] <==> start >= end
    ensures start < end ==> Requests(start, end, P)[0] == (start, SegmentEnd(start, end + 1, P))
  {
  }

  lemma {:induction false} RequestsChained(start: int, end: int, P: int)
    requires P > 0
    ensures Chained(Requests(start, end, P), start, end)
    decreases end - start
  {
    if start < end {
      var x, rest := (start, SegmentEnd(start, end + 1, P)), Requests(start + P, end, P);
      RequestsChained(start + P, end, P);
      FirstRequest(start + P, end, P);
      ChainFront(x, rest, start, end);
    }
  }

  lemma {:induction false} RequestsEnd(start: int, end: int, P: int)
    requires P > 0 && start < end
    ensures var r := Requests(start, end, P);
      r != [] && r[|r| - 1].1 + 1 == TiledEnd(start, end, P)
    decreases end - start
  {
    TiledEndStep(start, end, P);
    if start + P < end {
      RequestsEnd(start + P, end, P);
    } else if start + P == end {
      QuotientIs(0, P, 0);
    }
  }

  /** The requested ranges start where the loop starts, follow each other without gap or overlap
      and reach the wanted end, except when the distance from the start is a multiple of the part
      size: then the last byte is never asked for. */
  lemma Tiling(start: int, end: int, P: int)
    requires P > 0 && start <= end
    ensures var r := Requests(start, end, P);
      && Chained(r, start, end)
      && (r == [] <==> start == end)
      && (r != [] ==> r[0].0 == start)
      && (r != [] ==> r[|r| - 1].1 == if (end - start) % P != 0 then end else end - 1)
  {
    FirstRequest(start, end, P);
    RequestsChained(start, end, P);
    if start < end {
      RequestsEnd(start, end, P);
    }
  }

  /** SetRange accepts every range the loop asks for, and the provider answers with just those bytes. */
  lemma RequestsAnswered(payload: seq<byte>, start: int, end: int, P: int, i: nat)
    requires P > 0 && 0 <= start <= end < |payload| && i < |Requests(start, end, P)|
    ensures var r := Requests(start, end, P)[i];
      && 0 <= r.0 <= r.1 < |payload|
      && RangeHeader(r.0, r.1).Some?
      && Serve(payload, RangeHeader(r.0, r.1).value) == Some(payload[r.0..r.1 + 1])
  {
    RequestsChained(start, end, P);
    var r := Requests(start, end, P)[i];
    ReadPrinted(r.0, r.1);
  }

  // ---------- machine integers ----------

  /** Every offset the loop computes fits in an int64 when the payload size plus the part size does. */
  lemma OffsetsFit(start: int, end: int, P: int, size: nat, i: nat)
    requires P > 0 && 0 <= start <= end < size && size + P <= MAX_INT64
    requires i < |Requests(start, end, P)|
    ensures var begin := Requests(start, end, P)[i].0;
      0 <= begin && begin + P <= MAX_INT64 && 0 <= SegmentEnd(begin, end + 1, P) <= MAX_INT64
  {
    RequestsChained(start, end, P);
  }

  // ---------- one session: when it renames, what it appends ----------

  lemma {:induction false} ClosedNeverDone(start: int, end: int, P: int, segNum: int, segment: int -> Outcome)
    requires P > 0
    ensures LoopVerdict(start, end, P, segNum, segment, false) != Done
    decreases end - start
  {
    if start < end {
      ClosedNeverDone(start + P, end, P, segNum + 1, segment);
    }
  }

  predicate AllCopied(segNum: int, count: nat, segment: int -> Outcome) {
    forall k :: segNum <= k < segNum + count ==> segment(k).CopyOk?
  }

  /** The loop ends well exactly when every copy of the session succeeded. */
  lemma {:induction false} LoopDone(start: int, end: int, P: int, segNum: int, segment: int -> Outcome)
    requires P > 0
    ensures LoopVerdict(start, end, P, segNum, segment, true) == Done
       <==> (start >= 0 || start >= end) && AllCopied(segNum, |Requests(start, end, P)|, segment)
    decreases end - start
  {
    if start < end {
      ClosedNeverDone(start + P, end, P, segNum + 1, segment);
      LoopDone(start + P, end, P, segNum + 1, segment);
      var rest := |Requests(start + P, end, P)|;
      assert AllCopied(segNum, rest + 1, segment)
        <==> segment(segNum).CopyOk? && AllCopied(segNum + 1, rest, segment);
    }
  }

  /** Everything the loop appends up to its first failing part. */
  lemma {:induction false} AppendedUntilFailure(start: int, end: int, P: int, segNum: int, segment: int -> Outcome, j: nat)
    requires P > 0 && 0 <= start && j < |Requests(start, end, P)|
    requires AllCopied(segNum, j, segment) && !segment(segNum + j).CopyOk?
    ensures Requests(start, end, P)[j].0 == start + j * P < end
    ensures Appended(start, end, P, segNum, segment)
         == j * P + Received(segment(segNum + j), PartLength(start + j * P, end, P))
    decreases j
  {
    assert start < end;
    if j > 0 {
      assert segment(segNum).CopyOk?;
      assert start + P < end;
      AppendedUntilFailure(start + P, end, P, segNum + 1, segment, j - 1);
      assert P + (j - 1) * P == j * P;
    }
  }

  lemma {:induction false} AppendedWhenDone(start: int, end: int, P: int, segNum: int, segment: int -> Outcome)
    requires P > 0 && start >= 0
    requires LoopVerdict(start, end, P, segNum, segment, true) == Done
    ensures start + Appended(start, end, P, segNum, segment) == TiledEnd(start, end, P)
    decreases end - start
  {
    if start < end {
      ClosedNeverDone(start + P, end, P, segNum + 1, segment);
      AppendedWhenDone(start + P, end, P, segNum + 1, segment);
      TiledEndStep(start, end, P);
    } else if start == end {
      QuotientIs(0, P, 0);
    }
  }

  /** What a caller can check before restarting, from the size of the temp file alone. */
  predicate GoodRestart(f: nat, first: int, P: int)
    requires P > 0
  {
    (f > FirstPart(first, P) && 0 <= first < P) || (f < FirstPart(first, P) && first == 0)
  }

  /** For a start offset that is not negative the good restarts are exactly the aligned ones. */
  lemma GoodIsAligned(f: nat, first: int, P: int)
    requires P > 0 && first >= 0
    ensures GoodRestart(f, first, P) <==> Aligned(f, first, P)
  {
    ResumeAlignment(f, first, P);
    GoModBounds(first, P);
  }

  /** Without a range the only restart to avoid is the one from a temp file of exactly P bytes. */
  lemma OnlyExactPartIsBad(f: nat, P: int)
    requires P > 0
    ensures GoodRestart(f, 0, P) <==> f != P
  {
    QuotientIs(0, P, 0);
  }
}
