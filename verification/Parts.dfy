/** How a payload is cut: upload parts counted in float64 (client/api_client.go, SplitPartInfo),
    segments and erasure-coded pieces (pkg/utils/utils.go). */
module Parts {
  import opened GoSemantics

  const TWO53: int := 0x20_0000_0000_0000

  /** What SplitPartInfo relies on in float64 rounding (section 4.3.1 of IEEE 754-2019): it is
      monotone, exact on integers up to 2^53, and has relative error at most 2^-53. */
  ghost predicate RoundsLikeFloat64(fl: real -> real) {
    && (forall x, y :: x <= y ==> fl(x) <= fl(y))
    && (forall x: real :: x == x.Floor as real && -TWO53 as real <= x <= TWO53 as real ==> fl(x) == x)
    && (forall x :: 1.0 <= x * TWO53 as real && x <= TWO53 as real
          ==> -x <= (fl(x) - x) * TWO53 as real <= x)
  }

  /** math.Ceil followed by the conversion to int. */
  function Ceil(x: real): int { -(-x).Floor }

  datatype Split = Split(count: int, partSize: int, lastPartSize: int)

  function SplitPartInfo(fl: real -> real, objectSize: int, configured: nat): Split
    requires fl(configured as real) != 0.0
  {
    var partSizeFlt := fl(configured as real);
    var count := Ceil(fl(fl(objectSize as real) / partSizeFlt));
    var partSize := partSizeFlt.Floor;
    Split(count, partSize, objectSize - (count - 1) * partSize)
  }

  lemma QuotientGap(size: int, P: int, c: int, q: real)
    requires P > 0 && 0 < size < TWO53 && q == size as real / P as real
    requires (c - 1) * P < size <= c * P
    ensures (c - 1) as real < q <= c as real
    ensures (q - (c - 1) as real) * TWO53 as real > q
  {
    var p, s := P as real, size as real;
    assert q * p == s;
    assert ((c - 1) * P) as real == (c - 1) as real * p;
    assert (c * P) as real == c as real * p;
    var gap := q - (c - 1) as real;
    assert gap * p >= 1.0;
    assert gap * p * TWO53 as real > s;
    assert (gap * TWO53 as real - q) * p > 0.0;
  }

  lemma CeilIs(x: real, c: int)
    requires (c - 1) as real < x <= c as real
    ensures Ceil(x) == c
  {
  }

  lemma RealProduct(a: real, b: real)
    requires a >= 0.0 && b >= 0.0
    ensures a * b >= 0.0
  {
  }

  lemma QuotientRange(size: int, P: int)
    requires 0 < P <= TWO53 && 0 < size < TWO53
    ensures 1.0 <= size as real / P as real * TWO53 as real && size as real / P as real <= TWO53 as real
  {
    var q, p := size as real / P as real, P as real;
    assert q > 0.0 && q * p == size as real;
    RealProduct(q, TWO53 as real - p);
    RealProduct(q, p - 1.0);
  }

  lemma Product(a: int, b: int)
    requires a >= 0 && b >= 0
    ensures a * b >= 0
  {
  }

  lemma CeilDivRange(size: int, P: int)
    requires P > 0 && size > 0
    ensures 0 < CeilDiv(size, P) <= size
  {
    CeilDivBounds(size, P);
    var c := CeilDiv(size, P);
    MultipleSize(P, c);
    assert c != 0;
    Product(c - 1, P - 1);
  }

  /** Rounding a quotient cannot move it below the integer under it. */
  lemma RoundedQuotient(fl: real -> real, size: int, P: int, c: int)
    requires RoundsLikeFloat64(fl) && 0 < size < TWO53 && 0 < P <= TWO53 && c == CeilDiv(size, P)
    ensures (c - 1) as real < fl(size as real / P as real) <= c as real
  {
    var q := size as real / P as real;
    CeilDivBounds(size, P);
    CeilDivRange(size, P);
    QuotientGap(size, P, c, q);
    QuotientRange(size, P);
    assert fl(c as real) == c as real;
    var error := fl(q) - q;
    assert -q <= error * TWO53 as real;
  }

  /** The float64 split is the exact integer split: the count is the integer ceiling, the last part
      has between 1 and partSize bytes, and the parts add up to the object. */
  lemma FloatSplitIsExact(fl: real -> real, objectSize: int, configured: nat)
    requires RoundsLikeFloat64(fl) && 0 < objectSize < TWO53 && 0 < configured <= TWO53
    ensures fl(configured as real) == configured as real
    ensures var s := SplitPartInfo(fl, objectSize, configured);
      && s.count == CeilDiv(objectSize, configured)
      && s.partSize == configured
      && 1 <= s.lastPartSize <= s.partSize
      && (s.count - 1) * s.partSize + s.lastPartSize == objectSize
  {
    var c := CeilDiv(objectSize, configured);
    assert fl(objectSize as real) == objectSize as real;
    assert fl(configured as real) == configured as real;
    RoundedQuotient(fl, objectSize, configured, c);
    CeilIs(fl(objectSize as real / configured as real), c);
    CeilDivBounds(objectSize, configured);
  }

  lemma PartSizePositive(fl: real -> real, configured: nat)
    requires RoundsLikeFloat64(fl) && configured > 0
    ensures fl(configured as real) >= 1.0
  {
    assert fl(1.0) == 1.0;
  }

  /** FloatSplitIsExact for callers that do not know the sizes. */
  lemma ExactSplit(fl: real -> real, objectSize: int, configured: nat)
    requires RoundsLikeFloat64(fl) && configured > 0
    ensures fl(configured as real) >= 1.0
    ensures 0 < objectSize < TWO53 && configured <= TWO53 ==>
      var s := SplitPartInfo(fl, objectSize, configured);
      s.count == CeilDiv(objectSize, configured) && s.partSize == configured
  {
    PartSizePositive(fl, configured);
    if 0 < objectSize < TWO53 && configured <= TWO53 {
      FloatSplitIsExact(fl, objectSize, configured);
    }
  }

  // ---------- segments ----------

  const TWO32: int := 0x1_0000_0000
  const TWO64: int := 0x1_0000_0000_0000_0000

  /** GetSegmentCount: the ceiling, cut to uint32. */
  function GetSegmentCount(payloadSize: nat, maxSegmentSize: nat): (n: nat)
    requires maxSegmentSize > 0
    ensures n < TWO32
  {
    var count := payloadSize / maxSegmentSize + if payloadSize % maxSegmentSize > 0 then 1 else 0;
    count % TWO32
  }

  /** GetSegmentSize, with the conversions to int64 and the wrap-around of their difference. */
  function GetSegmentSize(payloadSize: nat, segmentIdx: nat, maxSegmentSize: nat): int
    requires maxSegmentSize > 0
  {
    var count := GetSegmentCount(payloadSize, maxSegmentSize);
    if count == 1 then ToInt64(payloadSize)
    else if segmentIdx == count - 1 then ToInt64(payloadSize - (count - 1) * maxSegmentSize)
    else ToInt64(maxSegmentSize)
  }

  function PieceSize(segmentSize: int, dataChunkNum: nat): int
    requires dataChunkNum > 0
  {
    GoDiv(segmentSize, dataChunkNum)
      + if segmentSize > 0 && GoMod(segmentSize, dataChunkNum) != 0 then 1 else 0
  }

  function GetECPieceSize(payloadSize: nat, segmentIdx: nat, maxSegmentSize: nat, dataChunkNum: nat): int
    requires maxSegmentSize > 0 && dataChunkNum > 0
  {
    PieceSize(GetSegmentSize(payloadSize, segmentIdx, maxSegmentSize), dataChunkNum)
  }

  /** The bytes of the first k segments together. */
  function SegmentSum(payloadSize: nat, maxSegmentSize: nat, k: nat): int
    requires maxSegmentSize > 0
  {
    if k == 0 then 0
    else SegmentSum(payloadSize, maxSegmentSize, k - 1) + GetSegmentSize(payloadSize, k - 1, maxSegmentSize)
  }

  lemma CountIsCeiling(payloadSize: nat, maxSegmentSize: nat)
    requires maxSegmentSize > 0
    ensures GetSegmentCount(payloadSize, maxSegmentSize) == CeilDiv(payloadSize, maxSegmentSize) % TWO32
  {
    QuotientBounds(payloadSize, maxSegmentSize);
    var q := payloadSize / maxSegmentSize;
    CeilDivIs(payloadSize, maxSegmentSize, if payloadSize % maxSegmentSize > 0 then q + 1 else q);
  }

  lemma {:induction false} FullSegments(payloadSize: nat, maxSegmentSize: nat, k: nat)
    requires maxSegmentSize > 0 && k < GetSegmentCount(payloadSize, maxSegmentSize)
    ensures SegmentSum(payloadSize, maxSegmentSize, k) == k * ToInt64(maxSegmentSize)
  {
    if k > 0 {
      FullSegments(payloadSize, maxSegmentSize, k - 1);
    }
  }

  lemma ReducedCount(size: int, max: int, c: int, n: int)
    requires max > 0 && (c - 1) * max < size <= c * max && n <= c
    ensures 1 <= size - (n - 1) * max
    ensures size - (n - 1) * max <= max <==> n == c
  {
    MultipleSize(max, c - n);
    assert (c - 1) * max == (n - 1) * max + max * (c - n);
  }

  /** The size the last segment has before it is converted to int64. */
  lemma LastSegment(payloadSize: nat, maxSegmentSize: nat) returns (last: int)
    requires maxSegmentSize > 0 && 0 < payloadSize < TWO64 && GetSegmentCount(payloadSize, maxSegmentSize) > 0
    ensures var n := GetSegmentCount(payloadSize, maxSegmentSize);
      && last == payloadSize - (n - 1) * maxSegmentSize
      && 1 <= last <= payloadSize
      && GetSegmentSize(payloadSize, n - 1, maxSegmentSize) == ToInt64(last)
      && (last <= maxSegmentSize <==> CeilDiv(payloadSize, maxSegmentSize) < TWO32)
      && (n == 1 ==> last == payloadSize)
      && (n > 1 ==> maxSegmentSize <= payloadSize)
  {
    var n, c := GetSegmentCount(payloadSize, maxSegmentSize), CeilDiv(payloadSize, maxSegmentSize);
    CountIsCeiling(payloadSize, maxSegmentSize);
    CeilDivBounds(payloadSize, maxSegmentSize);
    CeilDivRange(payloadSize, maxSegmentSize);
    ReducedCount(payloadSize, maxSegmentSize, c, n);
    Product(n - 1, maxSegmentSize);
    if n > 1 {
      Product(n - 2, maxSegmentSize);
      assert (n - 1) * maxSegmentSize == (n - 2) * maxSegmentSize + maxSegmentSize;
    }
    last := payloadSize - (n - 1) * maxSegmentSize;
  }

  lemma SegmentsAddUp(n: nat, max: nat, last: nat, payloadSize: nat)
    requires n >= 1 && last == payloadSize - (n - 1) * max && 0 < max < TWO64 && last < TWO64
    ensures (n - 1) * ToInt64(max) + ToInt64(last) == payloadSize
       <==> last <= MAX_INT64 && (n == 1 || max <= MAX_INT64)
  {
    if max > MAX_INT64 && n >= 2 {
      assert ToInt64(max) == max - TWO64;
      Product(n - 2, TWO64);
      assert (n - 1) * ToInt64(max) == (n - 1) * max - (n - 1) * TWO64;
    }
  }

  /** For all uint64 sizes: the segments add up to the payload exactly when the count, cut to 32 bits,
      is not zero and the sizes involved fit in int64. */
  lemma SegmentsConserve(payloadSize: nat, maxSegmentSize: nat)
    requires 0 < maxSegmentSize < TWO64 && 0 < payloadSize < TWO64
    ensures var n := GetSegmentCount(payloadSize, maxSegmentSize);
      (SegmentSum(payloadSize, maxSegmentSize, n) == payloadSize)
      <==> n > 0 && payloadSize - (n - 1) * maxSegmentSize <= MAX_INT64 && (n == 1 || maxSegmentSize <= MAX_INT64)
  {
    var n := GetSegmentCount(payloadSize, maxSegmentSize);
    if n > 0 {
      FullSegments(payloadSize, maxSegmentSize, n - 1);
      var last := LastSegment(payloadSize, maxSegmentSize);
      SegmentsAddUp(n, maxSegmentSize, last, payloadSize);
    }
  }

  lemma SmallCount(size: nat, chunk: nat)
    requires 0 < size && 0 < chunk && CeilDiv(size, chunk) < TWO32
    ensures GetSegmentCount(size, chunk) == CeilDiv(size, chunk)
  {
    CountIsCeiling(size, chunk);
    CeilDivRange(size, chunk);
  }

  lemma SegmentPlace(size: nat, max: nat, c: int, i: nat)
    requires max > 0 && (c - 1) * max < size <= c * max
    ensures i < c <==> i * max < size
    ensures i < c - 1 ==> size - i * max >= max
    ensures i == c - 1 ==> size - i * max <= max
    ensures c == 1 <==> size <= max && size > 0
  {
    MultipleSize(max, c - i);
    MultipleSize(max, c - 1 - i);
    MultipleSize(max, c - 1);
    assert c * max == i * max + max * (c - i);
    assert (c - 1) * max == i * max + max * (c - 1 - i);
  }

  /** Segment by segment: segment i holds the bytes from i*max on, max of them unless fewer are left. An
      index behind the last segment gets the size of a full one, or of the only one. */
  lemma SegmentHolds(payloadSize: nat, maxSegmentSize: nat, i: nat)
    requires 0 < maxSegmentSize <= MAX_INT64 && 0 < payloadSize <= MAX_INT64
    requires CeilDiv(payloadSize, maxSegmentSize) < TWO32
    ensures GetSegmentSize(payloadSize, i, maxSegmentSize)
         == if i * maxSegmentSize < payloadSize then Min(maxSegmentSize, payloadSize - i * maxSegmentSize)
            else Min(maxSegmentSize, payloadSize)
  {
    var c := CeilDiv(payloadSize, maxSegmentSize);
    SmallCount(payloadSize, maxSegmentSize);
    CeilDivBounds(payloadSize, maxSegmentSize);
    SegmentPlace(payloadSize, maxSegmentSize, c, i);
    SegmentPlace(payloadSize, maxSegmentSize, c, 0);
  }

  /** A size in range, as the code sees it. */
  predicate Fits(size: int, maxSegmentSize: nat) { 1 <= size <= maxSegmentSize }

  lemma NoSegments(payloadSize: nat, maxSegmentSize: nat)
    requires maxSegmentSize > 0 && payloadSize > 0 && GetSegmentCount(payloadSize, maxSegmentSize) == 0
    ensures CeilDiv(payloadSize, maxSegmentSize) >= TWO32
  {
    CountIsCeiling(payloadSize, maxSegmentSize);
    CeilDivRange(payloadSize, maxSegmentSize);
  }

  lemma SegmentRange(payloadSize: nat, maxSegmentSize: nat, n: nat, last: int)
    requires 0 < maxSegmentSize < TWO64 && 0 < payloadSize < TWO64
    requires n == GetSegmentCount(payloadSize, maxSegmentSize) > 0 && 1 <= last <= payloadSize
    requires GetSegmentSize(payloadSize, n - 1, maxSegmentSize) == ToInt64(last)
    requires n == 1 ==> last == payloadSize
    requires n > 1 ==> maxSegmentSize <= payloadSize
    ensures (forall i :: 0 <= i < n ==> Fits(GetSegmentSize(payloadSize, i, maxSegmentSize), maxSegmentSize))
       <==> last <= maxSegmentSize && (payloadSize <= MAX_INT64 || maxSegmentSize <= MAX_INT64)
  {
    var size0 := GetSegmentSize(payloadSize, 0, maxSegmentSize);
    assert n > 1 ==> size0 == ToInt64(maxSegmentSize);
    if forall i :: 0 <= i < n ==> Fits(GetSegmentSize(payloadSize, i, maxSegmentSize), maxSegmentSize) {
      assert Fits(size0, maxSegmentSize);
      assert Fits(GetSegmentSize(payloadSize, n - 1, maxSegmentSize), maxSegmentSize);
    }
  }

  /** For all uint64 sizes: there are segments and each has between 1 and maxSegmentSize bytes exactly
      when the count fits in 32 bits and the payload or the segment size fits in int64. */
  lemma SegmentsBounded(payloadSize: nat, maxSegmentSize: nat)
    requires 0 < maxSegmentSize < TWO64 && 0 < payloadSize < TWO64
    ensures var n := GetSegmentCount(payloadSize, maxSegmentSize);
      (n > 0 && forall i :: 0 <= i < n ==> Fits(GetSegmentSize(payloadSize, i, maxSegmentSize), maxSegmentSize))
      <==> CeilDiv(payloadSize, maxSegmentSize) < TWO32 && (payloadSize <= MAX_INT64 || maxSegmentSize <= MAX_INT64)
  {
    var n := GetSegmentCount(payloadSize, maxSegmentSize);
    if n == 0 {
      NoSegments(payloadSize, maxSegmentSize);
    } else {
      var last := LastSegment(payloadSize, maxSegmentSize);
      SegmentRange(payloadSize, maxSegmentSize, n, last);
    }
  }

  lemma Padded(segment: int, chunks: int, q: int, r: int)
    requires segment == chunks * q + r && 0 <= r < chunks
    ensures segment <= chunks * (if r != 0 then q + 1 else q) < segment + chunks
  {
    assert chunks * (q + 1) == chunks * q + chunks;
  }

  lemma PiecePadding(segment: int, chunks: nat)
    requires chunks > 0
    ensures segment <= chunks * PieceSize(segment, chunks) < segment + chunks
  {
    var q, r := GoDiv(segment, chunks), GoMod(segment, chunks);
    GoDivision(segment, chunks);
    if segment > 0 {
      Padded(segment, chunks, q, r);
    } else {
      assert PieceSize(segment, chunks) == q && chunks * q == segment - r;
    }
  }

  /** For every segment size, also the negative ones of sizes beyond int64, dataChunkNum pieces hold the
      segment with less than dataChunkNum bytes of padding. */
  lemma PiecesCoverSegment(payloadSize: nat, segmentIdx: nat, maxSegmentSize: nat, dataChunkNum: nat)
    requires maxSegmentSize > 0 && dataChunkNum > 0
    ensures var segment := GetSegmentSize(payloadSize, segmentIdx, maxSegmentSize);
      segment <= dataChunkNum * GetECPieceSize(payloadSize, segmentIdx, maxSegmentSize, dataChunkNum)
              < segment + dataChunkNum
  {
    PiecePadding(GetSegmentSize(payloadSize, segmentIdx, maxSegmentSize), dataChunkNum);
  }

  /** Where both are exact, the segment count and the part count are the same function. */
  lemma CountsAgree(fl: real -> real, size: nat, chunk: nat)
    requires RoundsLikeFloat64(fl) && 0 < size < TWO53 && 0 < chunk <= TWO53 && CeilDiv(size, chunk) < TWO32
    ensures GetSegmentCount(size, chunk) == SplitPartInfo(fl, size, chunk).count
  {
    SmallCount(size, chunk);
    FloatSplitIsExact(fl, size, chunk);
  }
}
