/** Percent-encoding of object names (pkg/utils/s3.go, EncodePath). Go strings are byte strings; the
    code walks them rune by rune. */
module PathEncoding {
  import opened GoSemantics

  // ---------- UTF-8 (section 3 of RFC 3629) ----------

  datatype Decoded = Decoded(rune: int, width: nat)

  const RUNE_ERROR: int := 0xFFFD

  predicate Continuation(b: octet) { 0x80 <= b < 0xC0 }

  /** The second byte of a sequence: four lead bytes narrow it, which excludes overlong forms,
      surrogates and values above 0x10FFFF. */
  predicate SecondByte(lead: octet, b: octet) {
    && (if lead == 0xE0 then 0xA0 else if lead == 0xF0 then 0x90 else 0x80) <= b
    && b < (if lead == 0xED then 0xA0 else if lead == 0xF4 then 0x90 else 0xC0)
  }

  function Rune2(a: int, b: int): int { (a - 0xC0) * 64 + (b - 0x80) }

  function Rune3(a: int, b: int, c: int): int { (a - 0xE0) * 4096 + (b - 0x80) * 64 + (c - 0x80) }

  function Rune4(a: int, b: int, c: int, d: int): int {
    (a - 0xF0) * 262144 + (b - 0x80) * 4096 + (c - 0x80) * 64 + (d - 0x80)
  }

  /** What one step of Go's `range` over a string sees: a rune and the bytes it took, or the
      replacement rune for a single byte that starts no valid sequence. */
  function DecodeRune(s: seq<octet>): (d: Decoded)
    requires s != []
    ensures 1 <= d.width <= |s|
  {
    var b := s[0];
    if b < 0x80 then Decoded(b, 1)
    else if 0xC2 <= b < 0xE0 && |s| >= 2 && SecondByte(b, s[1]) then
      Decoded(Rune2(b, s[1]), 2)
    else if 0xE0 <= b < 0xF0 && |s| >= 3 && SecondByte(b, s[1]) && Continuation(s[2]) then
      Decoded(Rune3(b, s[1], s[2]), 3)
    else if 0xF0 <= b < 0xF5 && |s| >= 4 && SecondByte(b, s[1]) && Continuation(s[2]) && Continuation(s[3]) then
      Decoded(Rune4(b, s[1], s[2], s[3]), 4)
    else Decoded(RUNE_ERROR, 1)
  }

  /** utf8.RuneLen: -1 for what UTF-8 cannot hold. */
  function RuneLen(r: int): int {
    if r < 0 then -1
    else if r < 0x80 then 1
    else if r < 0x800 then 2
    else if 0xD800 <= r < 0xE000 then -1
    else if r < 0x1_0000 then 3
    else if r < 0x11_0000 then 4
    else -1
  }

  function EncodeRune(r: int): (u: seq<octet>)
    requires RuneLen(r) > 0
    ensures |u| == RuneLen(r)
  {
    if r < 0x80 then [r]
    else if r < 0x800 then [0xC0 + r / 64, 0x80 + r % 64]
    else if r < 0x1_0000 then [0xE0 + r / 4096, 0x80 + r / 64 % 64, 0x80 + r % 64]
    else [0xF0 + r / 262144, 0x80 + r / 4096 % 64, 0x80 + r / 64 % 64, 0x80 + r % 64]
  }

  lemma Back2(a: octet, b: octet)
    requires 0xC2 <= a < 0xE0 && Continuation(b)
    ensures RuneLen(Rune2(a, b)) == 2 && EncodeRune(Rune2(a, b)) == [a, b]
  {
  }

  lemma Back3(a: octet, b: octet, c: octet)
    requires 0xE0 <= a < 0xF0 && SecondByte(a, b) && Continuation(c)
    ensures RuneLen(Rune3(a, b, c)) == 3 && EncodeRune(Rune3(a, b, c)) == [a, b, c]
  {
    var r := Rune3(a, b, c);
    assert r / 64 == Rune2(a - 0x20, b);
  }

  lemma Back4(a: octet, b: octet, c: octet, d: octet)
    requires 0xF0 <= a < 0xF5 && SecondByte(a, b) && Continuation(c) && Continuation(d)
    ensures RuneLen(Rune4(a, b, c, d)) == 4 && EncodeRune(Rune4(a, b, c, d)) == [a, b, c, d]
  {
    var r := Rune4(a, b, c, d);
    assert r / 64 == Rune3(a - 0x10, b, c);
    assert r / 4096 == Rune2(a - 0x30, b);
  }

  predicate ValidStep(s: seq<octet>)
    requires s != []
  {
    DecodeRune(s) != Decoded(RUNE_ERROR, 1)
  }

  /** A decoding step always yields a rune that can be encoded; it gives back the very bytes it came
      from unless they were not valid, and then three bytes instead of one. */
  lemma StepBack(s: seq<octet>)
    requires s != []
    ensures RuneLen(DecodeRune(s).rune) > 0
    ensures ValidStep(s) ==> EncodeRune(DecodeRune(s).rune) == s[..DecodeRune(s).width]
    ensures !ValidStep(s) ==> |EncodeRune(DecodeRune(s).rune)| == 3
  {
    match DecodeRune(s).width
    case 2 => Back2(s[0], s[1]);
    case 3 => Back3(s[0], s[1], s[2]);
    case 4 => Back4(s[0], s[1], s[2], s[3]);
    case _ =>
  }

  predicate ValidUTF8(s: seq<octet>) {
    s == [] || (ValidStep(s) && ValidUTF8(s[DecodeRune(s).width..]))
  }

  /** The string whose runes are those the loop sees: invalid bytes become U+FFFD. */
  function Sanitize(s: seq<octet>): seq<octet> {
    if s == [] then []
    else
      StepBack(s);
      EncodeRune(DecodeRune(s).rune) + Sanitize(s[DecodeRune(s).width..])
  }

  lemma {:induction false} SanitizeLength(s: seq<octet>)
    ensures |Sanitize(s)| >= |s|
    ensures !ValidUTF8(s) ==> |Sanitize(s)| > |s|
  {
    if s != [] {
      StepBack(s);
      SanitizeLength(s[DecodeRune(s).width..]);
    }
  }

  lemma SanitizeStep(s: seq<octet>)
    requires s != [] && ValidStep(s)
    ensures Sanitize(s) == s[..DecodeRune(s).width] + Sanitize(s[DecodeRune(s).width..])
  {
    StepBack(s);
  }

  lemma Rejoin(s: seq<octet>, w: nat)
    requires w <= |s|
    ensures s[..w] + s[w..] == s
  {
  }

  lemma {:induction false} ValidUnchanged(s: seq<octet>)
    requires ValidUTF8(s)
    ensures Sanitize(s) == s
  {
    if s != [] {
      SanitizeStep(s);
      ValidUnchanged(s[DecodeRune(s).width..]);
      Rejoin(s, DecodeRune(s).width);
    }
  }

  lemma SanitizeValid(s: seq<octet>)
    ensures Sanitize(s) == s <==> ValidUTF8(s)
  {
    SanitizeLength(s);
    if ValidUTF8(s) {
      ValidUnchanged(s);
    }
  }

  lemma Split2(r: int)
    requires RuneLen(r) == 2
    ensures var u := EncodeRune(r);
      r == Rune2(u[0], u[1]) && 0xC2 <= u[0] < 0xE0 && SecondByte(u[0], u[1])
  {
  }

  lemma Split3(r: int)
    requires RuneLen(r) == 3
    ensures var u := EncodeRune(r);
      && r == Rune3(u[0], u[1], u[2])
      && 0xE0 <= u[0] < 0xF0 && SecondByte(u[0], u[1]) && Continuation(u[2])
  {
    assert r / 64 / 64 == r / 4096;
  }

  lemma Split4(r: int)
    requires RuneLen(r) == 4
    ensures var u := EncodeRune(r);
      && r == Rune4(u[0], u[1], u[2], u[3])
      && 0xF0 <= u[0] < 0xF5 && SecondByte(u[0], u[1]) && Continuation(u[2]) && Continuation(u[3])
  {
    assert r / 64 / 64 == r / 4096;
    assert r / 4096 / 64 == r / 262144;
  }

  lemma DecodeEncoded(r: int, rest: seq<octet>)
    requires RuneLen(r) > 0
    ensures DecodeRune(EncodeRune(r) + rest) == Decoded(r, RuneLen(r))
  {
    match RuneLen(r)
    case 2 => Split2(r);
    case 3 => Split3(r);
    case 4 => Split4(r);
    case _ =>
  }

  /** The UTF-8 text of a list of scalar values. */
  function Text(runes: seq<int>): seq<octet>
    requires forall i :: 0 <= i < |runes| ==> RuneLen(runes[i]) > 0
  {
    if runes == [] then [] else EncodeRune(runes[0]) + Text(runes[1..])
  }

  /** Every UTF-8 text is valid, so what is proved of valid strings holds of all of them. */
  lemma {:induction false} TextIsValid(runes: seq<int>)
    requires forall i :: 0 <= i < |runes| ==> RuneLen(runes[i]) > 0
    ensures ValidUTF8(Text(runes))
  {
    if runes != [] {
      var u, rest := EncodeRune(runes[0]), Text(runes[1..]);
      DecodeEncoded(runes[0], rest);
      TextIsValid(runes[1..]);
      assert (u + rest)[|u|..] == rest;
    }
  }

  // ---------- percent-encoding (section 2.1 of RFC 3986) ----------

  const PERCENT: octet := '%' as int

  /** Unreserved characters (section 2.3 of RFC 3986) and the slash. */
  predicate Plain(r: int) {
    || 'A' as int <= r <= 'Z' as int || 'a' as int <= r <= 'z' as int || '0' as int <= r <= '9' as int
    || r == '-' as int || r == '_' as int || r == '.' as int || r == '~' as int || r == '/' as int
  }

  function HexDigit(d: int): octet
    requires 0 <= d < 16
  {
    if d < 10 then '0' as int + d else 'A' as int + (d - 10)
  }

  function Escape(b: octet): seq<octet> { [PERCENT, HexDigit(b / 16), HexDigit(b % 16)] }

  /** The simple encoder: byte by byte, with no notion of runes. */
  function ByteEncode(s: seq<octet>): seq<octet> {
    if s == [] then [] else (if Plain(s[0]) then [s[0]] else Escape(s[0])) + ByteEncode(s[1..])
  }

  /** The value of a hexadecimal digit in either case. */
  function HexValue(c: octet): Option<int> {
    if '0' as int <= c <= '9' as int then Some(c - '0' as int)
    else if 'A' as int <= c <= 'F' as int then Some(c - 'A' as int + 10)
    else if 'a' as int <= c <= 'f' as int then Some(c - 'a' as int + 10)
    else None
  }

  function Unescape(high: octet, low: octet): Option<octet> {
    match (HexValue(high), HexValue(low))
    case (Some(h), Some(l)) => if 0 <= h < 16 && 0 <= l < 16 then Some(16 * h + l) else None
    case _ => None
  }

  /** Percent-decoding; None when a percent sign is not followed by two hexadecimal digits. */
  function PercentDecode(s: seq<octet>): Option<seq<octet>> {
    if s == [] then Some([])
    else if s[0] != PERCENT then
      match PercentDecode(s[1..])
      case Some(rest) => Some([s[0]] + rest)
      case None => None
    else if |s| < 3 then None
    else
      match (Unescape(s[1], s[2]), PercentDecode(s[3..]))
      case (Some(b), Some(rest)) => Some([b] + rest)
      case _ => None
  }

  lemma DecodeEscape(b: octet, rest: seq<octet>)
    ensures PercentDecode(Escape(b) + rest) == (match PercentDecode(rest) case Some(r) => Some([b] + r) case None => None)
  {
    var e := Escape(b) + rest;
    assert e[3..] == rest && Unescape(e[1], e[2]) == Some(b);
  }

  lemma {:induction false} DecodeByteEncode(s: seq<octet>)
    ensures PercentDecode(ByteEncode(s)) == Some(s)
  {
    if s != [] {
      var e, rest := ByteEncode(s), ByteEncode(s[1..]);
      DecodeByteEncode(s[1..]);
      if Plain(s[0]) {
        assert e[1..] == rest;
      } else {
        DecodeEscape(s[0], rest);
      }
      assert [s[0]] + s[1..] == s;
    }
  }

  lemma {:induction false} ByteEncodeConcat(a: seq<octet>, b: seq<octet>)
    ensures ByteEncode(a + b) == ByteEncode(a) + ByteEncode(b)
  {
    if a == [] {
      assert a + b == b;
    } else {
      assert (a + b)[1..] == a[1..] + b;
      ByteEncodeConcat(a[1..], b);
    }
  }

  lemma {:induction false} PlainUnchanged(s: seq<octet>)
    requires forall i :: 0 <= i < |s| ==> Plain(s[i])
    ensures ByteEncode(s) == s && Sanitize(s) == s
  {
    if s != [] {
      PlainUnchanged(s[1..]);
      assert DecodeRune(s) == Decoded(s[0], 1);
      assert [s[0]] + s[1..] == s;
    }
  }

  predicate UpperHex(c: octet) { '0' as int <= c <= '9' as int || 'A' as int <= c <= 'F' as int }

  /** Plain characters, and percent signs followed by two upper-case hexadecimal digits. */
  predicate PathText(s: seq<octet>) {
    s == []
    || (if s[0] == PERCENT then
          |s| >= 3 && UpperHex(s[1]) && UpperHex(s[2]) && PathText(s[3..])
        else Plain(s[0]) && PathText(s[1..]))
  }

  lemma {:induction false} ByteEncodeText(s: seq<octet>)
    ensures PathText(ByteEncode(s))
  {
    if s != [] {
      var e := ByteEncode(s);
      ByteEncodeText(s[1..]);
      assert e[if Plain(s[0]) then 1 else 3..] == ByteEncode(s[1..]);
    }
  }

  // ---------- the code ----------

  /** The regular expression of the fast path: one or more plain characters and nothing else. */
  predicate AllPlain(s: seq<octet>) { s != [] && forall i :: 0 <= i < |s| ==> Plain(s[i]) }

  /** What EncodePath is specified to return. */
  function Encoding(s: seq<octet>): seq<octet> { ByteEncode(Sanitize(s)) }

  lemma EncodingStep(s: seq<octet>)
    requires s != []
    ensures var d := DecodeRune(s);
      RuneLen(d.rune) > 0 && Encoding(s) == ByteEncode(EncodeRune(d.rune)) + Encoding(s[d.width..])
  {
    StepBack(s);
    var d := DecodeRune(s);
    ByteEncodeConcat(EncodeRune(d.rune), Sanitize(s[d.width..]));
  }

  lemma Regroup(a: seq<octet>, b: seq<octet>, c: seq<octet>)
    ensures a + (b + c) == a + b + c
  {
  }

  /** The inner loop: every byte of one rune as %XX. */
  method EscapeAll(u: seq<octet>) returns (out: seq<octet>)
    requires forall j :: 0 <= j < |u| ==> !Plain(u[j])
    ensures out == ByteEncode(u)
  {
    out := [];
    for j := 0 to |u|
      invariant out == ByteEncode(u[..j])
    {
      assert u[..j + 1] == u[..j] + [u[j]];
      ByteEncodeConcat(u[..j], [u[j]]);
      assert [u[j]][1..] == [];
      out := out + Escape(u[j]);
    }
    assert u[..|u|] == u;
  }

  /** The body of the rune loop. The test on the rune's length never succeeds: `range` yields only
      runes that can be encoded. */
  method EncodeRuneText(r: int) returns (out: seq<octet>)
    requires RuneLen(r) > 0
    ensures out == ByteEncode(EncodeRune(r))
  {
    if Plain(r) {
      return [r];
    }
    var len := RuneLen(r);
    if len < 0 {
      assert false;
    }
    out := EscapeAll(EncodeRune(r));
  }

  /** EncodePath: the rune loop computes the simple byte encoding of what it sees. */
  method EncodePath(pathName: seq<octet>) returns (encoded: seq<octet>)
    ensures encoded == Encoding(pathName)
  {
    if AllPlain(pathName) {
      PlainUnchanged(pathName);
      return pathName;
    }
    encoded := [];
    var rest := pathName;
    while rest != []
      invariant encoded + Encoding(rest) == Encoding(pathName)
      decreases |rest|
    {
      var d := DecodeRune(rest);
      EncodingStep(rest);
      var text := EncodeRuneText(d.rune);
      Regroup(encoded, text, Encoding(rest[d.width..]));
      encoded := encoded + text;
      rest := rest[d.width..];
    }
  }

  // ---------- what callers may rely on ----------

  /** Percent-decoding gives the name back exactly for valid UTF-8. */
  lemma EncodePathRoundTrip(s: seq<octet>)
    ensures PercentDecode(Encoding(s)) == Some(s) <==> ValidUTF8(s)
    ensures ValidUTF8(s) ==> Encoding(s) == ByteEncode(s)
    ensures PathText(Encoding(s))
  {
    DecodeByteEncode(Sanitize(s));
    SanitizeValid(s);
    ByteEncodeText(Sanitize(s));
  }

  /** Two names have the same encoding exactly when the loop sees the same runes; so the encoding is
      injective on valid UTF-8. */
  lemma EncodePathInjective(s: seq<octet>, t: seq<octet>)
    ensures Encoding(s) == Encoding(t) <==> Sanitize(s) == Sanitize(t)
    ensures ValidUTF8(s) && ValidUTF8(t) && Encoding(s) == Encoding(t) ==> s == t
  {
    DecodeByteEncode(Sanitize(s));
    DecodeByteEncode(Sanitize(t));
    SanitizeValid(s);
    SanitizeValid(t);
  }
}
