/** The Range header as a provider reads it (section 14.1.2 of RFC 9110), next to the client's own
    reading of the same text. */
module RangeStandard {
  import opened GoSemantics
  import opened Ranges

  /** One byte range. `Ignored` stands for every text that is not a valid single byte range: the
      provider answers as if there were no header. */
  datatype ByteRange = Ignored | From(first: nat) | FromTo(first: nat, last: nat) | Suffix(length: nat)

  /** At least one digit. */
  function Position(s: string): Option<nat> {
    if s == "" then None else DigitsValue(s)
  }

  function ReadPositions(a: string, b: string): ByteRange {
    match (Position(a), Position(b))
    case (Some(x), Some(y)) => if y < x then Ignored else FromTo(x, y)
    case (Some(x), None) => if b == "" then From(x) else Ignored
    case (None, Some(y)) => if a == "" then Suffix(y) else Ignored
    case (None, None) => Ignored
  }

  function ReadHeader(h: string): ByteRange {
    var l := ToLower(h);
    if !(PREFIX <= l) then Ignored
    else
      var parts := SplitDash(l[|PREFIX|..]);
      if |parts| != 2 then Ignored else ReadPositions(parts[0], parts[1])
  }

  /** The provider's answer; None when the range cannot be satisfied and the request fails. */
  function Serve(payload: seq<byte>, header: string): Option<seq<byte>> {
    match ReadHeader(header)
    case Ignored => Some(payload)
    case From(a) => if a < |payload| then Some(payload[a..]) else None
    case FromTo(a, b) => if a < |payload| then Some(payload[a..Min(b + 1, |payload|)]) else None
    case Suffix(n) => if n > 0 then Some(payload[|payload| - Min(n, |payload|)..]) else None
  }

  // ---------- the headers the client prints ----------

  lemma PositionOfDecimal(n: nat)
    ensures Position(Decimal(n)) == Some(n)
  {
    DecimalValue(n);
  }

  predicate DigitsOrEmpty(s: string) { forall i :: 0 <= i < |s| ==> IsDigit(s[i]) }

  lemma LowerHeader(a: string, b: string)
    requires DigitsOrEmpty(a) && DigitsOrEmpty(b)
    ensures ToLower(PREFIX + a + "-" + b) == PREFIX + a + "-" + b
  {
  }

  /** The standard's reading of a text made of the prefix, digits, a dash and digits. */
  lemma ReadText(a: string, b: string)
    requires DigitsOrEmpty(a) && DigitsOrEmpty(b)
    ensures ReadHeader(PREFIX + a + "-" + b) == ReadPositions(a, b)
  {
    var l := PREFIX + a + "-" + b;
    LowerHeader(a, b);
    assert l[|PREFIX|..] == a + "-" + b;
    SplitPair(a, b);
  }

  lemma ReadPrinted(start: nat, end: nat)
    requires start <= end
    ensures ReadHeader(PREFIX + Decimal(start) + "-" + Decimal(end)) == FromTo(start, end)
  {
    ReadText(Decimal(start), Decimal(end));
    PositionOfDecimal(start);
    PositionOfDecimal(end);
  }

  /** SetRange accepts exactly the pairs that make a range, with an end of 0 for an open one, and what it
      prints has that meaning under the standard. */
  lemma SetRangeMeans(start: int, end: int)
    ensures RangeHeader(start, end).Some? <==> 0 <= start && (start <= end || end == 0)
    ensures RangeHeader(start, end).Some? ==>
      ReadHeader(RangeHeader(start, end).value) == if end < start then From(start) else FromTo(start, end)
  {
    if 0 < start && end == 0 {
      var d := Decimal(start);
      assert "bytes=" + d + "-" == PREFIX + d + "-" + "";
      ReadText(d, "");
      PositionOfDecimal(start);
    } else if 0 <= start <= end {
      ReadPrinted(start, end);
    }
  }

  // ---------- both readings of one text ----------

  lemma PositionDigits(s: string)
    requires Position(s).Some?
    ensures forall i :: 0 <= i < |s| ==> IsDigit(s[i])
    ensures ParseInt64(s) == if Position(s).value <= MAX_INT64 then Some(Position(s).value) else None
  {
    DigitsOnly(s);
    ParseSpelled("", s);
    assert "" + s == s;
  }

  lemma HeaderParts(h: string) returns (a: string, b: string)
    requires ReadHeader(h) != Ignored
    ensures ReadHeader(h) == ReadPositions(a, b) && ToLower(h) == PREFIX + a + "-" + b
  {
    var body := ToLower(h)[|PREFIX|..];
    a, b := SplitDash(body)[0], SplitDash(body)[1];
    JoinDash(body);
    assert ToLower(h) == PREFIX + body;
    assert PREFIX + body == PREFIX + a + "-" + b;
  }

  lemma PositionsAreDigits(a: string, b: string)
    requires ReadPositions(a, b) != Ignored
    ensures DigitsOrEmpty(a) && DigitsOrEmpty(b)
    ensures (Position(a).Some? || a == "") && (Position(b).Some? || b == "")
  {
    if Position(a).Some? {
      PositionDigits(a);
    }
    if Position(b).Some? {
      PositionDigits(b);
    }
  }

  /** A valid header has no spaces, so the client's normalisation only lower-cases it. */
  lemma ValidIsNormal(h: string) returns (a: string, b: string)
    requires ReadHeader(h) != Ignored
    ensures ReadHeader(h) == ReadPositions(a, b)
    ensures h != "" && Normalize(h) == PREFIX + a + "-" + b
    ensures Position(a).Some? || a == ""
    ensures Position(b).Some? || b == ""
    ensures DigitsOrEmpty(a) && DigitsOrEmpty(b)
  {
    a, b := HeaderParts(h);
    PositionsAreDigits(a, b);
    NoSpacesToRemove(ToLower(h));
  }

  /** The client's reading of every header the standard gives a meaning to. It agrees with the
      standard for the two forms with a first position that fit in int64; it takes a suffix range, and
      any position that does not fit, for no range at all. */
  lemma ClientReading(h: string)
    requires ReadHeader(h) != Ignored
    ensures ParseRange(h)
         == match ReadHeader(h)
            case From(a) => if a <= MAX_INT64 then Parsed(true, a, -1) else NO_RANGE
            case FromTo(a, b) => if b <= MAX_INT64 then Parsed(true, a, b) else NO_RANGE
            case Suffix(_) => NO_RANGE
  {
    var a, b := ValidIsNormal(h);
    if Position(a).Some? {
      PositionDigits(a);
    }
    if b == "" {
      assert PREFIX + a + "-" + b == PREFIX + a + "-";
      ParseOpen(a);
    } else {
      PositionDigits(b);
      ParseClosed(a, b);
    }
  }
}
