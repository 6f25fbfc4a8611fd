/** Go's integer operators and the few shared types of the model. */
module GoSemantics {

  const MAX_INT64 := 0x7FFF_FFFF_FFFF_FFFF

  /** types/const.go: the part size used when the caller gives none. */
  const MIN_PART_SIZE: nat := 1024 * 1024 * 32

  /** The conversion of an integer to int64: the value modulo 2^64 that fits. */
  function ToInt64(x: int): (r: int)
    ensures -MAX_INT64 - 1 <= r <= MAX_INT64
    ensures -MAX_INT64 - 1 <= x <= MAX_INT64 ==> r == x
    ensures MAX_INT64 < x <= 2 * MAX_INT64 + 1 ==> r == x - 2 * (MAX_INT64 + 1) < 0
  {
    (x + MAX_INT64 + 1) % (2 * (MAX_INT64 + 1)) - (MAX_INT64 + 1)
  }

  type PartSize = p: int | p > 0 witness 1

  /** A byte that is only copied and compared. */
  type byte = bv8

  /** A byte whose numeric value matters. */
  type octet = x: int | 0 <= x < 256

  datatype Option<+T> = None | Some(value: T)

  function Min(a: int, b: int): int { if a < b then a else b }

  function Max(a: int, b: int): int { if a < b then b else a }

  /** Go's `/`: truncates toward zero, unlike Dafny's Euclidean division. */
  function GoDiv(a: int, b: int): int
    requires b != 0
  {
    if a >= 0 then a / b else -(-a / b)
  }

  /** Go's `%`: the remainder has the sign of the dividend. */
  function GoMod(a: int, b: int): int
    requires b != 0
  {
    a - b * GoDiv(a, b)
  }

  lemma QuotientBounds(a: int, b: int)
    requires b > 0
    ensures (a / b) * b <= a < (a / b) * b + b
    ensures a % b == a - (a / b) * b
  {
  }

  /** Go's division law: quotient and remainder give the dividend back, the remainder is smaller than the
      divisor and never has the other sign. */
  lemma GoDivision(a: int, b: int)
    requires b > 0
    ensures a == GoDiv(a, b) * b + GoMod(a, b)
    ensures a >= 0 ==> 0 <= GoMod(a, b) < b
    ensures a <= 0 ==> -b < GoMod(a, b) <= 0
  {
    if a < 0 {
      QuotientBounds(-a, b);
    }
  }

  /** The exact integer ceiling of a / b. */
  function CeilDiv(a: int, b: int): int
    requires b > 0
  {
    (a + b - 1) / b
  }

  lemma MultipleSize(b: int, d: int)
    requires b > 0
    ensures d >= 1 ==> b * d >= b
    ensures d <= -1 ==> b * d <= -b
  {
  }

  /** Quotients are determined by the interval they name. */
  lemma QuotientIs(a: int, b: int, q: int)
    requires b > 0 && q * b <= a < q * b + b
    ensures a / b == q && a % b == a - q * b
  {
    var d := a / b - q;
    assert b * (a / b) == b * q + b * d;
    MultipleSize(b, d);
  }

  /** Adding one divisor moves the quotient by one and keeps the remainder. */
  lemma ShiftByDivisor(a: int, b: int)
    requires b > 0
    ensures (a + b) / b == a / b + 1 && (a + b) % b == a % b
  {
    QuotientBounds(a, b);
    QuotientIs(a + b, b, a / b + 1);
  }

  lemma CeilDivIs(a: int, b: int, c: int)
    requires b > 0 && (c - 1) * b < a <= c * b
    ensures CeilDiv(a, b) == c
  {
    QuotientIs(a + b - 1, b, c);
  }

  lemma CeilDivBounds(a: int, b: int)
    requires b > 0
    ensures (CeilDiv(a, b) - 1) * b < a <= CeilDiv(a, b) * b
  {
    QuotientBounds(a + b - 1, b);
  }
}
