/** Byte-range headers: `SetRange` prints them (types/option.go), `ParseRange` reads them
    (pkg/utils/utils.go). */
module Ranges {
  import opened GoSemantics

  // ---------- decimal integers ----------

  function Digit(d: int): char
    requires 0 <= d < 10
  {
    ['0', '1', '2', '3', '4', '5', '6', '7', '8', '9'][d]
  }

  predicate IsDigit(c: char) { '0' <= c <= '9' }

  /** What `%d` prints for a number that is not negative. */
  function Decimal(n: nat): (s: string)
    ensures s != "" && forall i :: 0 <= i < |s| ==> IsDigit(s[i])
  {
    if n < 10 then [Digit(n)] else Decimal(n / 10) + [Digit(n % 10)]
  }

  /** The value of a string of digits; None when some character is not a digit. */
  function DigitsValue(s: string): Option<nat> {
    if s == "" then Some(0)
    else
      var last := s[|s| - 1];
      match DigitsValue(s[..|s| - 1])
      case Some(v) => if IsDigit(last) then Some(10 * v + (last as int - '0' as int)) else None
      case None => None
  }

  /** strconv.ParseInt(s, 10, 64): an optional sign, at least one digit, and a value that fits. */
  function ParseInt64(s: string): Option<int> {
    var signed := s != "" && (s[0] == '+' || s[0] == '-');
    var digits := if signed then s[1..] else s;
    if digits == "" then None
    else match DigitsValue(digits)
      case None => None
      case Some(v) =>
        var value: int := if signed && s[0] == '-' then -(v as int) else v;
        if -MAX_INT64 - 1 <= value <= MAX_INT64 then Some(value) else None
  }

  /** A text that spells a number: an optional sign and at least one digit. */
  predicate Spells(sign: string, digits: string) {
    (sign == "" || sign == "+" || sign == "-") && digits != "" && DigitsValue(digits).Some?
  }

  function SpelledValue(sign: string, digits: string): int
    requires Spells(sign, digits)
  {
    if sign == "-" then -(DigitsValue(digits).value as int) else DigitsValue(digits).value
  }

  lemma {:induction false} DigitsOnly(s: string)
    ensures DigitsValue(s).Some? <==> forall i :: 0 <= i < |s| ==> '0' <= s[i] <= '9'
  {
    if s != "" {
      DigitsOnly(s[..|s| - 1]);
      assert s == s[..|s| - 1] + [s[|s| - 1]];
    }
  }

  /** Digits are read in decimal positional notation. */
  lemma DigitsPositional(s: string, d: nat)
    requires d < 10
    ensures DigitsValue("") == Some(0)
    ensures DigitsValue(s + ["0123456789"[d]])
         == match DigitsValue(s) case Some(v) => Some(10 * v + d) case None => None
  {
    var c := "0123456789"[d];
    assert (s + [c])[..|s|] == s;
    assert c as int == '0' as int + d;
  }

  lemma ParseSpelled(sign: string, digits: string)
    requires Spells(sign, digits)
    ensures var v := SpelledValue(sign, digits);
      ParseInt64(sign + digits) == if -MAX_INT64 - 1 <= v <= MAX_INT64 then Some(v) else None
  {
    DigitsOnly(digits);
    var s := sign + digits;
    if sign == "" {
      assert s == digits && IsDigit(s[0]);
    } else {
      assert s[0] == sign[0] && s[1..] == digits;
    }
  }

  /** The text is an optional sign and at least one digit that together spell v, and v fits in an int64. */
  ghost predicate SpellsInt64(s: string, v: int) {
    && -0x8000_0000_0000_0000 <= v < 0x8000_0000_0000_0000
    && exists sign, digits :: Spells(sign, digits) && s == sign + digits && v == SpelledValue(sign, digits)
  }

  /** ParseInt yields a value exactly for the texts that spell it, and only if it fits in an int64. */
  lemma ParseInt64Exact(s: string, v: int)
    ensures ParseInt64(s) == Some(v) <==> SpellsInt64(s, v)
  {
    if ParseInt64(s) == Some(v) {
      var signed := s[0] == '+' || s[0] == '-';
      var sign, digits := if signed then s[..1] else "", if signed then s[1..] else s;
      assert s == sign + digits;
      assert Spells(sign, digits) && v == SpelledValue(sign, digits);
    }
    if SpellsInt64(s, v) {
      var sign, digits :| Spells(sign, digits) && s == sign + digits && v == SpelledValue(sign, digits);
      ParseSpelled(sign, digits);
    }
  }

  /** `%d` prints digits that spell the number, with no leading zero. */
  lemma {:induction false} DecimalValue(n: nat)
    ensures DigitsValue(Decimal(n)) == Some(n)
    ensures n > 0 ==> Decimal(n)[0] != '0'
  {
    if n >= 10 {
      var s := Decimal(n);
      DecimalValue(n / 10);
      assert s[..|s| - 1] == Decimal(n / 10);
    } else {
      assert Decimal(n)[..0] == "";
    }
  }

  // ---------- SetRange ----------

  /** The header text for one request; None where `SetRange` reports an invalid argument. */
  function RangeHeader(start: int, end: int): Option<string> {
    if 0 < start && end == 0 then Some("bytes=" + Decimal(start) + "-")
    else if 0 <= start && start <= end then Some("bytes=" + Decimal(start) + "-" + Decimal(end))
    else None
  }

  class GetObjectOptions {
    var Range: string
    var PartSize: nat

    constructor ()
      ensures Range == "" && PartSize == 0
    {
      Range := "";
      PartSize := 0;
    }

    method SetRange(start: int, end: int) returns (ok: bool)
      modifies this`Range
      ensures ok <==> RangeHeader(start, end).Some?
      ensures Range == if ok then RangeHeader(start, end).value else old(Range)
    {
      if 0 < start && end == 0 {
        Range := "bytes=" + Decimal(start) + "-";
      } else if 0 <= start && start <= end {
        Range := "bytes=" + Decimal(start) + "-" + Decimal(end);
      } else {
        return false;
      }
      return true;
    }
  }

  // ---------- ParseRange ----------

  /** ParseRange's three results. */
  datatype Parsed = Parsed(isRange: bool, start: int, end: int)

  const NO_RANGE := Parsed(false, -1, -1)

  function LowerChar(c: char): char {
    if 'A' <= c <= 'Z' then (c as int + 32) as char else c
  }

  /** strings.ToLower on ASCII letters. */
  function ToLower(s: string): (r: string)
    ensures |r| == |s| && forall i :: 0 <= i < |s| ==> r[i] == LowerChar(s[i])
  {
    seq(|s|, i requires 0 <= i < |s| => LowerChar(s[i]))
  }

  /** strings.ReplaceAll(s, " ", ""). */
  function RemoveSpaces(s: string): string {
    if s == "" then ""
    else (if s[0] == ' ' then "" else [s[0]]) + RemoveSpaces(s[1..])
  }

  /** strings.Split(s, "-"). */
  function SplitDash(s: string): (parts: seq<string>)
    ensures |parts| >= 1
  {
    if s == "" then [""]
    else
      var rest := SplitDash(s[1..]);
      if s[0] == '-' then [""] + rest else [[s[0]] + rest[0]] + rest[1..]
  }

  const PREFIX := "bytes="

  /** The part of ParseRange after lower-casing and removing spaces. */
  function ParseNormalized(s: string): Parsed {
    if !(PREFIX <= s) then NO_RANGE
    else
      var body := s[|PREFIX|..];
      if body != "" && body[|body| - 1] == '-' then
        match ParseInt64(body[..|body| - 1])
        case None => NO_RANGE
        case Some(start) => Parsed(true, start, -1)
      else
        var pair := SplitDash(body);
        if |pair| == 2 then
          match (ParseInt64(pair[0]), ParseInt64(pair[1]))
          case (Some(start), Some(end)) => Parsed(true, start, end)
          case _ => NO_RANGE
        else NO_RANGE
  }

  function Normalize(s: string): string { RemoveSpaces(ToLower(s)) }

  function ParseRange(s: string): Parsed {
    if s == "" then NO_RANGE else ParseNormalized(Normalize(s))
  }

  // ---------- round trip ----------

  predicate Dashless(s: string) { forall i :: 0 <= i < |s| ==> s[i] != '-' }

  lemma {:induction false} SplitDashless(s: string)
    requires Dashless(s)
    ensures SplitDash(s) == [s]
  {
    if s != "" {
      SplitDashless(s[1..]);
      assert [s[0]] + s[1..] == s;
    }
  }

  lemma {:induction false} SplitPair(a: string, b: string)
    requires Dashless(a) && Dashless(b)
    ensures SplitDash(a + "-" + b) == [a, b]
  {
    var s := a + "-" + b;
    if a == "" {
      assert s[1..] == b;
      SplitDashless(b);
    } else {
      assert s[1..] == a[1..] + "-" + b;
      SplitPair(a[1..], b);
      assert [a[0]] + a[1..] == a;
    }
  }

  lemma {:induction false} NoSpacesToRemove(s: string)
    requires forall i :: 0 <= i < |s| ==> s[i] != ' '
    ensures RemoveSpaces(s) == s
  {
    if s != "" {
      NoSpacesToRemove(s[1..]);
    }
  }

  /** Text that is already lower case and free of spaces is left alone by the normalisation. */
  lemma NormalText(s: string)
    requires forall i :: 0 <= i < |s| ==> s[i] != ' ' && !('A' <= s[i] <= 'Z')
    ensures Normalize(s) == s
  {
    assert ToLower(s) == s;
    NoSpacesToRemove(s);
  }

  lemma DecimalParses(n: nat)
    requires n <= MAX_INT64
    ensures ParseInt64(Decimal(n)) == Some(n)
  {
    DecimalValue(n);
    ParseSpelled("", Decimal(n));
    assert "" + Decimal(n) == Decimal(n);
  }

  lemma ParseOpen(d: string)
    ensures ParseNormalized(PREFIX + d + "-")
         == match ParseInt64(d) case None => NO_RANGE case Some(v) => Parsed(true, v, -1)
  {
    var h := PREFIX + d + "-";
    assert h[|PREFIX|..] == d + "-";
    assert (d + "-")[..|d|] == d;
  }

  lemma ParseClosed(d: string, e: string)
    requires Dashless(d) && Dashless(e) && e != ""
    ensures ParseNormalized(PREFIX + d + "-" + e)
         == match (ParseInt64(d), ParseInt64(e))
            case (Some(v), Some(w)) => Parsed(true, v, w)
            case _ => NO_RANGE
  {
    var h := PREFIX + d + "-" + e;
    var body := d + "-" + e;
    assert h[|PREFIX|..] == body;
    assert body[|body| - 1] == e[|e| - 1];
    SplitPair(d, e);
  }

  /** Every header `SetRange` prints is read back by `ParseRange`: a closed range gives both ends,
      the open form `bytes=N-` gives the start and -1. */
  lemma RangeRoundTrip(start: int, end: int)
    requires start <= MAX_INT64 && end <= MAX_INT64
    requires RangeHeader(start, end).Some?
    ensures ParseRange(RangeHeader(start, end).value)
         == Parsed(true, start, if 0 < start && end == 0 then -1 else end)
  {
    NormalText(RangeHeader(start, end).value);
    DecimalParses(start);
    if 0 < start && end == 0 {
      ParseOpen(Decimal(start));
    } else {
      DecimalParses(end);
      ParseClosed(Decimal(start), Decimal(end));
    }
  }

  /** A header with a sign before its start, such as `bytes=-5-`, is read as a negative start. */
  lemma NegativeHeader(start: int)
    requires -MAX_INT64 - 1 <= start < 0
    ensures ParseRange("bytes=-" + Decimal(-start) + "-") == Parsed(true, start, -1)
  {
    var d := "-" + Decimal(-start);
    var h := "bytes=-" + Decimal(-start) + "-";
    assert h == PREFIX + d + "-";
    NormalText(h);
    DecimalValue(-start);
    ParseSpelled("-", Decimal(-start));
    ParseOpen(d);
  }

  // ---------- spaces and letter case do not matter ----------

  lemma {:induction false} RemoveSpacesConcat(a: string, b: string)
    ensures RemoveSpaces(a + b) == RemoveSpaces(a) + RemoveSpaces(b)
  {
    if a == "" {
      assert a + b == b;
    } else {
      assert (a + b)[1..] == a[1..] + b;
      RemoveSpacesConcat(a[1..], b);
    }
  }

  lemma RemoveOneSpace(a: string, b: string)
    ensures RemoveSpaces(a + " " + b) == RemoveSpaces(a + b)
  {
    RemoveSpacesConcat(a + " ", b);
    RemoveSpacesConcat(a, " ");
    RemoveSpacesConcat(a, b);
    assert RemoveSpaces(" ") == "";
  }

  lemma LowerConcat(a: string, b: string)
    ensures ToLower(a + b) == ToLower(a) + ToLower(b)
  {
  }

  lemma NormalizeSpace(s: string, i: nat)
    requires i <= |s|
    ensures Normalize(s[..i] + " " + s[i..]) == Normalize(s)
  {
    var a, b := s[..i], s[i..];
    assert s == a + b;
    LowerConcat(a, b);
    LowerConcat(a + " ", b);
    LowerConcat(a, " ");
    assert ToLower(" ") == " ";
    RemoveOneSpace(ToLower(a), ToLower(b));
  }

  /** A space inserted anywhere changes nothing. */
  lemma SpacesIgnored(s: string, i: nat)
    requires i <= |s|
    ensures ParseRange(s[..i] + " " + s[i..]) == ParseRange(s)
  {
    NormalizeSpace(s, i);
    assert s == "" ==> Normalize(s) == "";
  }

  /** Two texts that differ only in the case of ASCII letters are read alike. */
  lemma CaseIgnored(s: string, t: string)
    requires |s| == |t| && forall i :: 0 <= i < |s| ==> LowerChar(s[i]) == LowerChar(t[i])
    ensures ParseRange(s) == ParseRange(t)
  {
    assert ToLower(s) == ToLower(t);
  }

  // ---------- ParseRange, exactly ----------

  lemma LowerLetter(c: char)
    requires 'A' <= c <= 'Z'
    ensures LowerChar(c) == "abcdefghijklmnopqrstuvwxyz"[c as int - 'A' as int]
  {
  }

  /** What the normalisation does, one character at a time: spaces go, letters become lower case. */
  lemma NormalizeNext(s: string, c: char)
    ensures Normalize("") == ""
    ensures Normalize(s + [c])
         == Normalize(s) + if c == ' ' then ""
                           else if 'A' <= c <= 'Z' then ["abcdefghijklmnopqrstuvwxyz"[c as int - 'A' as int]]
                           else [c]
  {
    LowerConcat(s, [c]);
    RemoveSpacesConcat(ToLower(s), ToLower([c]));
    assert ToLower([c]) == [LowerChar(c)];
    assert RemoveSpaces([LowerChar(c)]) == if c == ' ' then "" else [LowerChar(c)];
    if 'A' <= c <= 'Z' {
      LowerLetter(c);
    }
  }

  /** The open form: a text that spells s, and a dash at the end. */
  ghost predicate OpenForm(t: string, s: int) {
    exists a :: SpellsInt64(a, s) && t == "bytes=" + a + "-"
  }

  /** The closed form: exactly one dash, between two texts that spell s and e. */
  ghost predicate ClosedForm(t: string, s: int, e: int) {
    exists a, b :: SpellsInt64(a, s) && SpellsInt64(b, e) && '-' !in a && '-' !in b && t == "bytes=" + a + "-" + b
  }

  /** A text in two pieces around a single dash. */
  lemma {:induction false} JoinDash(s: string)
    ensures |SplitDash(s)| == 1 ==> s == SplitDash(s)[0]
    ensures |SplitDash(s)| == 2 ==> s == SplitDash(s)[0] + "-" + SplitDash(s)[1]
    ensures forall i :: 0 <= i < |SplitDash(s)| ==> '-' !in SplitDash(s)[i]
  {
    if s != "" {
      JoinDash(s[1..]);
      assert s == [s[0]] + s[1..];
    }
  }

  lemma ReadsOpen(body: string, s: int)
    requires body != "" && body[|body| - 1] == '-' && ParseInt64(body[..|body| - 1]) == Some(s)
    ensures OpenForm("bytes=" + body, s)
  {
    var a := body[..|body| - 1];
    ParseInt64Exact(a, s);
    assert body == a + "-";
    assert "bytes=" + body == "bytes=" + a + "-";
  }

  lemma ReadsClosed(body: string, s: int, e: int)
    requires |SplitDash(body)| == 2
    requires ParseInt64(SplitDash(body)[0]) == Some(s) && ParseInt64(SplitDash(body)[1]) == Some(e)
    ensures ClosedForm("bytes=" + body, s, e)
  {
    var a, b := SplitDash(body)[0], SplitDash(body)[1];
    JoinDash(body);
    ParseInt64Exact(a, s);
    ParseInt64Exact(b, e);
    assert "bytes=" + body == "bytes=" + a + "-" + b;
  }

  lemma ReadsForm(t: string, s: int, e: int)
    requires ParseNormalized(t) == Parsed(true, s, e)
    ensures (e == -1 && OpenForm(t, s)) || ClosedForm(t, s, e)
  {
    var body := t[|PREFIX|..];
    assert t == "bytes=" + body;
    if body != "" && body[|body| - 1] == '-' {
      ReadsOpen(body, s);
    } else {
      ReadsClosed(body, s, e);
    }
  }

  lemma FormIsRead(t: string, s: int, e: int)
    requires (e == -1 && OpenForm(t, s)) || ClosedForm(t, s, e)
    ensures ParseNormalized(t) == Parsed(true, s, e)
  {
    if e == -1 && OpenForm(t, s) {
      var a :| SpellsInt64(a, s) && t == "bytes=" + a + "-";
      ParseInt64Exact(a, s);
      ParseOpen(a);
      assert t == PREFIX + a + "-";
    } else {
      var a, b :| SpellsInt64(a, s) && SpellsInt64(b, e) && '-' !in a && '-' !in b && t == "bytes=" + a + "-" + b;
      ParseInt64Exact(a, s);
      ParseInt64Exact(b, e);
      ParseClosed(a, b);
      assert t == PREFIX + a + "-" + b;
    }
  }

  /** Which texts are ranges, and which: after the normalisation, `bytes=`, a number and a dash, or
      `bytes=` and two numbers around the only dash. Everything else is no range, lists of ranges and
      suffixes included. */
  lemma ParseRangeExact(h: string, s: int, e: int)
    ensures ParseRange(h) == Parsed(true, s, e)
       <==> (e == -1 && OpenForm(Normalize(h), s)) || ClosedForm(Normalize(h), s, e)
    ensures ParseRange(h) == Parsed(true, ParseRange(h).start, ParseRange(h).end) || ParseRange(h) == Parsed(false, -1, -1)
  {
    var t := Normalize(h);
    if ParseRange(h) == Parsed(true, s, e) {
      ReadsForm(t, s, e);
    }
    if (e == -1 && OpenForm(t, s)) || ClosedForm(t, s, e) {
      FormIsRead(t, s, e);
    }
  }

  lemma OnlyDash(a: string, b: string, i: nat)
    requires '-' !in a && '-' !in b && i < |"bytes=" + a + "-" + b|
    ensures ("bytes=" + a + "-" + b)[i] == '-' <==> i == 6 + |a|
  {
    var t := "bytes=" + a + "-" + b;
    if 6 <= i < 6 + |a| {
      assert t[i] == a[i - 6];
    } else if i > 6 + |a| {
      assert t[i] == b[i - 7 - |a|];
    }
  }

  /** A list of ranges, for instance, is none: two dashes, and something else at the end. */
  lemma ListIsNoRange(h: string, a: string, b: string, c: string)
    requires Normalize(h) == "bytes=" + a + "-" + b + "-" + c && c != "" && c[|c| - 1] != '-'
    ensures ParseRange(h) == Parsed(false, -1, -1)
  {
    var t, p := Normalize(h), ParseRange(h);
    assert t[|t| - 1] == c[|c| - 1];
    ParseRangeExact(h, p.start, p.end);
    if ClosedForm(t, p.start, p.end) {
      var x, y :| SpellsInt64(x, p.start) && SpellsInt64(y, p.end) && '-' !in x && '-' !in y && t == "bytes=" + x + "-" + y;
      OnlyDash(x, y, 6 + |a|);
      OnlyDash(x, y, 7 + |a| + |b|);
    }
  }
}
