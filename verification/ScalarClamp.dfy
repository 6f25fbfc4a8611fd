/** The secret scalar of an off-chain key (client/api_off_chain_auth.go, generateKey): masks on the
    hash bytes, a reversal, a big-endian load and cleared top bits. */
module ScalarClamp {
  import opened GoSemantics

  // ---------- bits of natural numbers ----------

  predicate Bit(x: nat, i: nat) {
    if i == 0 then x % 2 == 1 else Bit(x / 2, i - 1)
  }

  /** `&` and `|` on numbers. */
  function And(a: nat, b: nat): (r: nat)
    ensures r <= a
  {
    if a == 0 then 0 else a % 2 * (b % 2) + 2 * And(a / 2, b / 2)
  }

  function Or(a: nat, b: nat): nat
    decreases a + b
  {
    if a == 0 then b else if b == 0 then a
    else (if a % 2 == 1 || b % 2 == 1 then 1 else 0) + 2 * Or(a / 2, b / 2)
  }

  function Pow2(n: nat): (p: nat)
    ensures p > 0
  {
    if n == 0 then 1 else 2 * Pow2(n - 1)
  }

  lemma {:induction false} BitOfZero(i: nat)
    ensures !Bit(0, i)
  {
    if i > 0 {
      BitOfZero(i - 1);
    }
  }

  lemma Halves(low: nat, high: nat)
    requires low < 2
    ensures (low + 2 * high) / 2 == high && (low + 2 * high) % 2 == low
  {
  }

  lemma {:induction false} BitAnd(a: nat, b: nat, i: nat)
    ensures Bit(And(a, b), i) <==> Bit(a, i) && Bit(b, i)
  {
    if a == 0 {
      BitOfZero(i);
    } else {
      assert a % 2 * (b % 2) == if a % 2 == 1 && b % 2 == 1 then 1 else 0;
      Halves(a % 2 * (b % 2), And(a / 2, b / 2));
      if i > 0 {
        BitAnd(a / 2, b / 2, i - 1);
      }
    }
  }

  lemma {:induction false} BitOr(a: nat, b: nat, i: nat)
    ensures Bit(Or(a, b), i) <==> Bit(a, i) || Bit(b, i)
  {
    if a == 0 || b == 0 {
      BitOfZero(i);
    } else {
      Halves(if a % 2 == 1 || b % 2 == 1 then 1 else 0, Or(a / 2, b / 2));
      if i > 0 {
        BitOr(a / 2, b / 2, i - 1);
      }
    }
  }

  lemma {:induction false} OrBound(a: nat, b: nat, n: nat)
    requires a < Pow2(n) && b < Pow2(n)
    ensures Or(a, b) < Pow2(n)
  {
    if a != 0 && b != 0 && n > 0 {
      OrBound(a / 2, b / 2, n - 1);
    }
  }

  /** Equal bits, equal numbers. */
  lemma {:induction false} BitsDetermine(x: nat, y: nat)
    requires forall i: nat :: Bit(x, i) <==> Bit(y, i)
    ensures x == y
    decreases x + y
  {
    if x > 0 || y > 0 {
      forall i: nat ensures Bit(x / 2, i) <==> Bit(y / 2, i) {
        assert Bit(x, i + 1) <==> Bit(y, i + 1);
      }
      assert Bit(x, 0) <==> Bit(y, 0);
      BitsDetermine(x / 2, y / 2);
    }
  }

  lemma {:induction false} LowBitsClear(x: nat, k: nat)
    requires forall i: nat :: i < k ==> !Bit(x, i)
    ensures x % Pow2(k) == 0
  {
    if k > 0 {
      forall i: nat | i < k - 1 ensures !Bit(x / 2, i) {
        assert !Bit(x, i + 1);
      }
      assert !Bit(x, 0);
      LowBitsClear(x / 2, k - 1);
      var q := x / 2 / Pow2(k - 1);
      assert x == Pow2(k) * q;
      QuotientIs(x, Pow2(k), q);
    }
  }

  lemma {:induction false} HighBitsClear(x: nat, n: nat)
    requires forall i: nat :: i >= n ==> !Bit(x, i)
    ensures x < Pow2(n)
  {
    if n == 0 {
      forall i: nat ensures Bit(x, i) <==> Bit(0, i) {
        BitOfZero(i);
      }
      BitsDetermine(x, 0);
    } else {
      forall i: nat | i >= n - 1 ensures !Bit(x / 2, i) {
        assert !Bit(x, i + 1);
      }
      HighBitsClear(x / 2, n - 1);
    }
  }

  // ---------- numbers as byte strings ----------

  function LittleEndian(b: seq<octet>): nat {
    if b == [] then 0 else b[0] + 256 * LittleEndian(b[1..])
  }

  /** big.Int.SetBytes. */
  function BigEndian(b: seq<octet>): nat {
    if b == [] then 0 else BigEndian(b[..|b| - 1]) * 256 + b[|b| - 1]
  }

  function Reversed(b: seq<octet>): (r: seq<octet>)
    ensures |r| == |b|
  {
    if b == [] then [] else Reversed(b[1..]) + [b[0]]
  }

  lemma {:induction false} ReversedAt(b: seq<octet>, i: nat)
    requires i < |b|
    ensures Reversed(b)[i] == b[|b| - 1 - i]
  {
    if i < |b| - 1 {
      ReversedAt(b[1..], i);
    }
  }

  lemma {:induction false} BigEndianReversed(b: seq<octet>)
    ensures BigEndian(Reversed(b)) == LittleEndian(b)
  {
    if b != [] {
      var r := Reversed(b);
      assert r[..|r| - 1] == Reversed(b[1..]);
      BigEndianReversed(b[1..]);
    }
  }

  function Pow256(n: nat): (p: nat)
    ensures p > 0
  {
    if n == 0 then 1 else 256 * Pow256(n - 1)
  }

  /** big.Int.FillBytes into n bytes. */
  function FillBytes(x: nat, n: nat): (b: seq<octet>)
    ensures |b| == n
  {
    if n == 0 then [] else FillBytes(x / 256, n - 1) + [x % 256]
  }

  lemma LoadAppended(front: seq<octet>, last: octet)
    ensures BigEndian(front + [last]) == BigEndian(front) * 256 + last
  {
    assert (front + [last])[..|front|] == front;
  }

  lemma {:induction false} FillBytesLoads(x: nat, n: nat)
    requires x < Pow256(n)
    ensures BigEndian(FillBytes(x, n)) == x
  {
    if n > 0 {
      var front := FillBytes(x / 256, n - 1);
      FillBytesLoads(x / 256, n - 1);
      LoadAppended(front, x % 256);
    }
  }

  /** Bits 8k to 8k+7 of a little-endian number are the bits of its byte k. */
  lemma {:induction false} BitInFirstByte(low: octet, high: nat, i: nat, n: nat)
    requires n <= 8 && i < n && low < Pow2(n)
    ensures Bit(low + Pow2(n) * high, i) <==> Bit(low, i)
  {
    var x := low + Pow2(n) * high;
    assert Pow2(n) * high == 2 * (Pow2(n - 1) * high);
    assert x / 2 == low / 2 + Pow2(n - 1) * high && x % 2 == low % 2;
    if i > 0 {
      BitInFirstByte(low / 2, high, i - 1, n - 1);
    }
  }

  lemma {:induction false} BitAboveByte(low: octet, high: nat, i: nat, n: nat)
    requires n <= 8 && low < Pow2(n)
    ensures Bit(low + Pow2(n) * high, n + i) <==> Bit(high, i)
  {
    if n > 0 {
      var x := low + Pow2(n) * high;
      assert Pow2(n) * high == 2 * (Pow2(n - 1) * high);
      assert x / 2 == low / 2 + Pow2(n - 1) * high;
      BitAboveByte(low / 2, high, i, n - 1);
    }
  }

  lemma Pow2Of8()
    ensures Pow2(8) == 256
  {
    assert Pow2(4) == 16;
  }

  lemma {:induction false} BitOfLittleEndian(b: seq<octet>, k: nat, j: nat)
    requires j < 8
    ensures Bit(LittleEndian(b), 8 * k + j) <==> k < |b| && Bit(b[k], j)
    decreases |b|
  {
    if b == [] {
      BitOfZero(8 * k + j);
    } else {
      Pow2Of8();
      var high := LittleEndian(b[1..]);
      if k == 0 {
        BitInFirstByte(b[0], high, j, 8);
      } else {
        BitAboveByte(b[0], high, 8 * (k - 1) + j, 8);
        assert 8 + (8 * (k - 1) + j) == 8 * k + j;
        BitOfLittleEndian(b[1..], k - 1, j);
      }
    }
  }

  // ---------- clearing one bit ----------

  /** big.Int.SetBit(x, i, 0). */
  function ClearBit(x: nat, i: nat): (r: nat)
    ensures r <= x
  {
    if i == 0 then x - x % 2 else x % 2 + 2 * ClearBit(x / 2, i - 1)
  }

  lemma {:induction false} BitClear(x: nat, i: nat, j: nat)
    ensures Bit(ClearBit(x, i), j) <==> Bit(x, j) && j != i
  {
    if i == 0 {
      Halves(0, x / 2);
    } else {
      Halves(x % 2, ClearBit(x / 2, i - 1));
      if j > 0 {
        BitClear(x / 2, i - 1, j - 1);
      }
    }
  }

  // ---------- the scalar ----------

  const SIZE: nat := 32

  lemma {:induction false} BitOfShifted(x: nat, n: nat, i: nat)
    ensures Bit(Pow2(n) * x, i) <==> i >= n && Bit(x, i - n)
  {
    if n > 0 {
      assert Pow2(n) * x == 2 * (Pow2(n - 1) * x);
      if i > 0 {
        BitOfShifted(x, n - 1, i - 1);
      }
    }
  }

  lemma {:induction false} BitOfOnes(n: nat, i: nat)
    ensures Bit(Pow2(n) - 1, i) <==> i < n
  {
    if n == 0 {
      BitOfZero(i);
    } else {
      assert (Pow2(n) - 1) / 2 == Pow2(n - 1) - 1;
      if i > 0 {
        BitOfOnes(n - 1, i - 1);
      }
    }
  }

  lemma SmallPowers()
    ensures Pow2(2) == 4 && Pow2(3) == 8 && Pow2(5) == 32 && Pow2(6) == 64 && Pow2(7) == 128
  {
  }

  lemma MaskBits(j: nat)
    requires j < 8
    ensures Bit(0xF8, j) <==> j >= 3
    ensures Bit(0x7F, j) <==> j < 7
    ensures Bit(0x40, j) <==> j == 6
    ensures Bit(0xFC, j) <==> j >= 2
  {
    SmallPowers();
    BitOfShifted(31, 3, j);
    BitOfShifted(63, 2, j);
    BitOfShifted(1, 6, j);
    BitOfOnes(7, j);
    if j >= 3 {
      BitOfOnes(5, j - 3);
    }
    if j >= 2 {
      BitOfOnes(6, j - 2);
    }
    if j >= 6 {
      BitOfOnes(1, j - 6);
    }
  }

  /** `b &= 0x7F; b |= 0x40` on one byte. */
  function Tagged(b: octet): octet {
    Pow2Of8();
    OrBound(And(b, 0x7F), 0x40, 8);
    Or(And(b, 0x7F), 0x40)
  }

  /** The key bytes after the four masks. */
  function Pruned(h: seq<octet>): (r: seq<octet>)
    requires |h| == SIZE
    ensures |r| == SIZE
  {
    h[0 := And(h[0], 0xF8)][31 := And(Tagged(h[31]), 0xFC)]
  }

  function ClearTop(x: nat): (r: nat)
    ensures r <= x
  {
    ClearBit(ClearBit(ClearBit(x, 253), 254), 255)
  }

  /** The scalar generateKey multiplies the base point with. */
  function Scalar(h: seq<octet>): nat
    requires |h| == SIZE
  {
    ClearTop(LittleEndian(Pruned(h)))
  }

  lemma ClearTopBits(x: nat, i: nat)
    ensures Bit(ClearTop(x), i) <==> Bit(x, i) && !(253 <= i <= 255)
  {
    BitClear(x, 253, i);
    BitClear(ClearBit(x, 253), 254, i);
    BitClear(ClearBit(ClearBit(x, 253), 254), 255, i);
  }

  /** The bits of the hash that reach the scalar. */
  predicate KeptBit(i: nat) { 3 <= i <= 247 || 250 <= i <= 252 }

  lemma TaggedBits(b: octet, j: nat)
    requires j < 8
    ensures Bit(Tagged(b), j) <==> (j < 6 && Bit(b, j)) || j == 6
  {
    MaskBits(j);
    BitOr(And(b, 0x7F), 0x40, j);
    BitAnd(b, 0x7F, j);
  }

  lemma PrunedBits(h: seq<octet>, k: nat, j: nat)
    requires |h| == SIZE && k < SIZE && j < 8
    ensures Bit(Pruned(h)[k], j) <==>
              if k == 0 then j >= 3 && Bit(h[k], j)
              else if k == 31 then (2 <= j < 6 && Bit(h[k], j)) || j == 6
              else Bit(h[k], j)
  {
    MaskBits(j);
    if k == 0 {
      BitAnd(h[0], 0xF8, j);
    } else if k == 31 {
      BitAnd(Tagged(h[31]), 0xFC, j);
      TaggedBits(h[31], j);
    }
  }

  lemma PrunedValueBits(h: seq<octet>, i: nat)
    requires |h| == SIZE
    ensures Bit(LittleEndian(Pruned(h)), i) <==> i == 254 || ((KeptBit(i) || i == 253) && Bit(LittleEndian(h), i))
  {
    var k, j := i / 8, i % 8;
    BitOfLittleEndian(Pruned(h), k, j);
    BitOfLittleEndian(h, k, j);
    if k < SIZE {
      PrunedBits(h, k, j);
    }
  }

  /** The scalar is the little-endian value of the first 32 hash bytes with every bit outside 3..247
      and 250..252 cleared. */
  lemma ScalarBits(h: seq<octet>, i: nat)
    requires |h| == SIZE
    ensures Bit(Scalar(h), i) <==> (3 <= i <= 247 || 250 <= i <= 252) && Bit(LittleEndian(h), i)
  {
    ClearTopBits(LittleEndian(Pruned(h)), i);
    PrunedValueBits(h, i);
  }

  /** That description determines the scalar; it is a multiple of 8 below 2^253. */
  lemma ScalarDetermined(h: seq<octet>, y: nat)
    requires |h| == SIZE
    requires forall i: nat :: Bit(y, i) <==> KeptBit(i) && Bit(LittleEndian(h), i)
    ensures y == Scalar(h) && y % 8 == 0 && y < Pow2(253)
  {
    forall i: nat ensures Bit(Scalar(h), i) <==> KeptBit(i) && Bit(LittleEndian(h), i) {
      ScalarBits(h, i);
    }
    BitsDetermine(y, Scalar(h));
    LowBitsClear(y, 3);
    assert Pow2(3) == 8;
    HighBitsClear(y, 253);
  }

  lemma {:induction false} LittleEndianBound(b: seq<octet>)
    ensures LittleEndian(b) < Pow256(|b|)
  {
    if b != [] {
      LittleEndianBound(b[1..]);
    }
  }

  /** Writing the scalar into 32 bytes and loading it again changes nothing. */
  lemma ScalarStored(h: seq<octet>)
    requires |h| == SIZE
    ensures Scalar(h) < Pow256(SIZE)
    ensures BigEndian(FillBytes(Scalar(h), SIZE)) == Scalar(h)
  {
    LittleEndianBound(Pruned(h));
    FillBytesLoads(Scalar(h), SIZE);
  }

  /** Section 5.1.5 of RFC 8032, which the code cites: clear the three lowest bits and the highest
      one, set the second highest. */
  function RfcScalar(h: seq<octet>): nat
    requires |h| == SIZE
  {
    LittleEndian(h[0 := And(h[0], 0xF8)][31 := Tagged(h[31])])
  }

  lemma RfcBits(h: seq<octet>, i: nat)
    requires |h| == SIZE
    ensures Bit(RfcScalar(h), i) <==> i == 254 || (3 <= i <= 253 && Bit(LittleEndian(h), i))
  {
    var k, j := i / 8, i % 8;
    BitOfLittleEndian(h[0 := And(h[0], 0xF8)][31 := Tagged(h[31])], k, j);
    BitOfLittleEndian(h, k, j);
    if k == 0 {
      MaskBits(j);
      BitAnd(h[0], 0xF8, j);
    } else if k == 31 {
      TaggedBits(h[31], j);
    }
  }

  /** Bit 254 is always set in the standard's scalar and never here; besides it only bits 248, 249
      and 253 can differ, and they do exactly when they are set in the hash. */
  lemma DeviatesFromRfc(h: seq<octet>, i: nat)
    requires |h| == SIZE
    ensures (Bit(Scalar(h), i) <==> Bit(RfcScalar(h), i)) <==>
            i != 254 && !((i == 248 || i == 249 || i == 253) && Bit(LittleEndian(h), i))
  {
    ScalarBits(h, i);
    RfcBits(h, i);
  }

  // ---------- the code ----------

  method CopyTail(h: array<octet>) returns (randSrc: array<octet>)
    requires h.Length == 64
    ensures fresh(randSrc) && randSrc[..] == h[32..]
  {
    randSrc := new octet[SIZE](_ => 0);
    for i := 0 to SIZE
      invariant randSrc[..i] == h[32..32 + i]
    {
      randSrc[i] := h[i + 32];
    }
  }

  method OrMask(b: octet) returns (r: octet)
    ensures r == Or(b, 0x40)
  {
    Pow2Of8();
    OrBound(b, 0x40, 8);
    r := Or(b, 0x40);
  }

  /** The four masks, in place. */
  method Prune(h: array<octet>)
    requires h.Length == 64
    modifies h
    ensures h[..SIZE] == Pruned(old(h[..SIZE]))
    ensures h[SIZE..] == old(h[SIZE..])
  {
    h[0] := And(h[0], 0xF8);
    h[31] := And(h[31], 0x7F);
    h[31] := OrMask(h[31]);
    h[31] := And(h[31], 0xFC);
  }

  /** The first 32 bytes, back to front. */
  method ReverseKey(h: array<octet>) returns (scalar: array<octet>)
    requires h.Length == 64
    ensures fresh(scalar) && scalar[..] == Reversed(h[..SIZE])
  {
    scalar := new octet[SIZE](_ => 0);
    var i, j := 0, SIZE - 1;
    while i < SIZE
      invariant 0 <= i <= SIZE && j == SIZE - 1 - i
      invariant forall t :: 0 <= t < i ==> scalar[t] == h[SIZE - 1 - t]
    {
      scalar[i] := h[j];
      i, j := i + 1, j - 1;
    }
    forall t | 0 <= t < SIZE ensures scalar[t] == Reversed(h[..SIZE])[t] {
      ReversedAt(h[..SIZE], t);
    }
  }

  /** The loop that clears bits 253 to 255 of the loaded number. */
  method ClearTopBitsInPlace(x: nat) returns (a: nat)
    ensures a == ClearTop(x)
  {
    a := x;
    for bit := 253 to 256
      invariant a == if bit == 253 then x else if bit == 254 then ClearBit(x, 253)
                     else if bit == 255 then ClearBit(ClearBit(x, 253), 254) else ClearTop(x)
    {
      a := ClearBit(a, bit);
    }
  }

  method Overwrite(scalar: array<octet>, bytes: seq<octet>)
    requires scalar.Length == |bytes|
    modifies scalar
    ensures scalar[..] == bytes
  {
    forall t | 0 <= t < |bytes| {
      scalar[t] := bytes[t];
    }
  }

  /** Lines 412-443, with the hash as an argument. */
  method ClampScalar(h: array<octet>) returns (scalar: array<octet>, randSrc: array<octet>, bscalar: nat)
    requires h.Length == 64
    modifies h
    ensures bscalar == Scalar(old(h[..SIZE]))
    ensures scalar[..] == FillBytes(bscalar, SIZE) && BigEndian(scalar[..]) == bscalar
    ensures randSrc[..] == old(h[SIZE..])
    ensures fresh(scalar) && fresh(randSrc)
  {
    ghost var key := h[..SIZE];
    randSrc := CopyTail(h);
    Prune(h);
    scalar := ReverseKey(h);
    BigEndianReversed(Pruned(key));
    var a := ClearTopBitsInPlace(BigEndian(scalar[..]));
    ScalarStored(key);
    Overwrite(scalar, FillBytes(a, SIZE));
    bscalar := BigEndian(scalar[..]);
  }
}
