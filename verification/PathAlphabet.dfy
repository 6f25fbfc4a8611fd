/** The encoding of object names, character by character: which ones pass, what the others become, and
    how UTF-8 is read, stated with literal characters and numbers. */
module PathAlphabet {
  import opened GoSemantics
  import opened PathEncoding

  // ---------- the characters ----------

  /** The unreserved characters of section 2.3 of RFC 3986, and the slash. */
  predicate Unescaped(b: octet) {
    b as char in {
      'A', 'B', 'C', 'D', 'E', 'F', 'G', 'H', 'I', 'J', 'K', 'L', 'M', 'N', 'O', 'P', 'Q', 'R',
      'S', 'T', 'U', 'V', 'W', 'X', 'Y', 'Z',
      'a', 'b', 'c', 'd', 'e', 'f', 'g', 'h', 'i', 'j', 'k', 'l', 'm', 'n', 'o', 'p', 'q', 'r',
      's', 't', 'u', 'v', 'w', 'x', 'y', 'z',
      '0', '1', '2', '3', '4', '5', '6', '7', '8', '9',
      '-', '.', '_', '~', '/'}
  }

  lemma Letters(b: octet)
    ensures Unescaped(b) <==> Plain(b)
  {
  }

  /** `%` and two upper-case hexadecimal digits, the high one first. */
  function Triple(b: octet): (t: seq<octet>)
    ensures |t| == 3
  {
    ['%' as int, "0123456789ABCDEF"[b / 16] as int % 256, "0123456789ABCDEF"[b % 16] as int % 256]
  }

  lemma HexIs(d: nat)
    requires d < 16
    ensures HexDigit(d) == "0123456789ABCDEF"[d] as int
  {
  }

  lemma EscapeIs(b: octet)
    ensures Escape(b) == Triple(b)
  {
    HexIs(b / 16);
    HexIs(b % 16);
  }

  lemma EncodeByte(b: octet)
    ensures ByteEncode([b]) == if Unescaped(b) then [b] else Triple(b)
  {
    Letters(b);
    EscapeIs(b);
    assert [b][1..] == [];
    assert ByteEncode([b]) == (if Plain(b) then [b] else Escape(b)) + ByteEncode([]);
  }

  // ---------- UTF-8 (section 3 of RFC 3629) ----------

  /** Scalar values: everything up to 0x10FFFF but the surrogates. */
  predicate Scalar(r: int) { 0 <= r <= 0xD7FF || 0xE000 <= r <= 0x10FFFF }

  predicate Layout2(r: int, a: int, b: int) {
    0xC0 <= a <= 0xDF && 0x80 <= b <= 0xBF && r == (a - 0xC0) * 0x40 + (b - 0x80)
  }

  predicate Layout3(r: int, a: int, b: int, c: int) {
    && 0xE0 <= a <= 0xEF && 0x80 <= b <= 0xBF && 0x80 <= c <= 0xBF
    && r == (a - 0xE0) * 0x1000 + (b - 0x80) * 0x40 + (c - 0x80)
  }

  predicate Layout4(r: int, a: int, b: int, c: int, d: int) {
    && 0xF0 <= a <= 0xF7 && 0x80 <= b <= 0xBF && 0x80 <= c <= 0xBF && 0x80 <= d <= 0xBF
    && r == (a - 0xF0) * 0x4_0000 + (b - 0x80) * 0x1000 + (c - 0x80) * 0x40 + (d - 0x80)
  }

  /** The UTF-8 bytes u of r, by the number ranges of the standard's table. */
  predicate Layout(r: int, u: seq<octet>) {
    if r <= 0x7F then u == [r]
    else if r <= 0x7FF then |u| == 2 && Layout2(r, u[0], u[1])
    else if r <= 0xFFFF then |u| == 3 && Layout3(r, u[0], u[1], u[2])
    else |u| == 4 && Layout4(r, u[0], u[1], u[2], u[3])
  }

  lemma LayoutOfRune(r: int)
    requires Scalar(r)
    ensures Layout(r, EncodeRune(r))
  {
    match RuneLen(r)
    case 2 => Split2(r);
    case 3 => Split3(r);
    case 4 => Split4(r);
    case _ =>
  }

  lemma Digit64(x: int, y: int, v: int, w: int)
    requires 64 * x + y == 64 * v + w && 0 <= y < 64 && 0 <= w < 64
    ensures x == v && y == w
  {
  }

  lemma Unique3(r: int, a: int, b: int, c: int, d: int, e: int, f: int)
    requires Layout3(r, a, b, c) && Layout3(r, d, e, f)
    ensures a == d && b == e && c == f
  {
    Digit64(64 * (a - 0xE0) + (b - 0x80), c - 0x80, 64 * (d - 0xE0) + (e - 0x80), f - 0x80);
    Digit64(a - 0xE0, b - 0x80, d - 0xE0, e - 0x80);
  }

  lemma Unique4(r: int, a: int, b: int, c: int, d: int, e: int, f: int, g: int, h: int)
    requires Layout4(r, a, b, c, d) && Layout4(r, e, f, g, h)
    ensures a == e && b == f && c == g && d == h
  {
    var x, y := 64 * (a - 0xF0) + (b - 0x80), 64 * (e - 0xF0) + (f - 0x80);
    Digit64(64 * x + (c - 0x80), d - 0x80, 64 * y + (g - 0x80), h - 0x80);
    Digit64(x, c - 0x80, y, g - 0x80);
    Digit64(a - 0xF0, b - 0x80, e - 0xF0, f - 0x80);
  }

  lemma LayoutUnique(r: int, u: seq<octet>, v: seq<octet>)
    requires Layout(r, u) && Layout(r, v)
    ensures u == v
  {
    if 0x7F < r <= 0x7FF {
      Digit64(u[0] - 0xC0, u[1] - 0x80, v[0] - 0xC0, v[1] - 0x80);
    } else if 0x7FF < r <= 0xFFFF {
      Unique3(r, u[0], u[1], u[2], v[0], v[1], v[2]);
    } else if r > 0xFFFF {
      Unique4(r, u[0], u[1], u[2], u[3], v[0], v[1], v[2], v[3]);
    }
  }

  /** RuneLen accepts exactly the scalar values, and EncodeRune gives exactly their standard bytes. */
  lemma EncodeRuneStandard(r: int, u: seq<octet>)
    ensures RuneLen(r) > 0 <==> Scalar(r)
    ensures Scalar(r) ==> (EncodeRune(r) == u <==> Layout(r, u))
  {
    if Scalar(r) {
      LayoutOfRune(r);
      if Layout(r, u) {
        LayoutUnique(r, u, EncodeRune(r));
      }
    }
  }

  /** What `range` sees at the front of a string: the scalar value whose UTF-8 bytes come first, or, if
      there is none, U+FFFD for a single byte. */
  lemma DecodeRuneExact(s: seq<octet>, r: int)
    requires s != []
    ensures Scalar(r) && EncodeRune(r) <= s ==> DecodeRune(s) == Decoded(r, |EncodeRune(r)|)
    ensures (forall q :: Scalar(q) ==> !(EncodeRune(q) <= s)) ==> DecodeRune(s) == Decoded(0xFFFD, 1)
  {
    if Scalar(r) && EncodeRune(r) <= s {
      var w := RuneLen(r);
      DecodeEncoded(r, s[w..]);
      assert EncodeRune(r) + s[w..] == s;
    }
    StepBack(s);
    if ValidStep(s) {
      var q := DecodeRune(s).rune;
      EncodeRuneStandard(q, []);
      assert Scalar(q) && EncodeRune(q) <= s;
    }
  }

  // ---------- what becomes of a name ----------

  /** The triples of several bytes. */
  function Triples(u: seq<octet>): seq<octet> {
    if u == [] then [] else Triple(u[0]) + Triples(u[1..])
  }

  lemma {:induction false} AllEscaped(u: seq<octet>)
    requires forall i :: 0 <= i < |u| ==> !Unescaped(u[i])
    ensures ByteEncode(u) == Triples(u)
  {
    if u != [] {
      Letters(u[0]);
      EscapeIs(u[0]);
      AllEscaped(u[1..]);
    }
  }

  lemma EncodeOneRune(r: int)
    requires Scalar(r) && RuneLen(r) > 0
    ensures ByteEncode(EncodeRune(r)) == if r < 0x80 && Unescaped(r) then [r] else Triples(EncodeRune(r))
  {
    LayoutOfRune(r);
    if r < 0x80 && Unescaped(r) {
      EncodeByte(r);
    } else {
      AllEscaped(EncodeRune(r));
    }
  }

  /** Character by character: an unescaped character stays, any other becomes the triples of its UTF-8
      bytes, and a byte that starts no character becomes `%EF%BF%BD`. This determines every encoding. */
  lemma EncodesCharacters(s: seq<octet>, r: int)
    requires s != []
    ensures Encoding([]) == []
    ensures Scalar(r) && EncodeRune(r) <= s ==>
      Encoding(s) == (if r < 0x80 && Unescaped(r) then [r] else Triples(EncodeRune(r))) + Encoding(s[|EncodeRune(r)|..])
    ensures (forall q :: Scalar(q) ==> !(EncodeRune(q) <= s)) ==>
      Encoding(s) == Triples([0xEF, 0xBF, 0xBD]) + Encoding(s[1..])
  {
    DecodeRuneExact(s, r);
    EncodingStep(s);
    if Scalar(r) && EncodeRune(r) <= s {
      EncodeOneRune(r);
    }
    if DecodeRune(s) == Decoded(0xFFFD, 1) {
      EncodeOneRune(0xFFFD);
      EncodeRuneStandard(0xFFFD, [0xEF, 0xBF, 0xBD]);
    }
  }

  // ---------- names made of one kind of character ----------

  lemma {:induction false} EncodedLength(s: seq<octet>)
    ensures |ByteEncode(s)| >= |s|
    ensures (exists i :: 0 <= i < |s| && !Unescaped(s[i])) ==> |ByteEncode(s)| > |s|
  {
    if s != [] {
      Letters(s[0]);
      EncodedLength(s[1..]);
      if i :| 0 <= i < |s| && !Unescaped(s[i]) {
        assert i > 0 ==> !Unescaped(s[1..][i - 1]);
      }
    }
  }

  /** A name is returned as it is exactly when it is made of unescaped characters only. */
  lemma UnescapedNames(s: seq<octet>)
    ensures Encoding(s) == s <==> forall i :: 0 <= i < |s| ==> Unescaped(s[i])
  {
    if forall i :: 0 <= i < |s| ==> Unescaped(s[i]) {
      forall i | 0 <= i < |s| ensures Plain(s[i]) {
        Letters(s[i]);
      }
      PlainUnchanged(s);
    } else if Encoding(s) == s {
      SanitizeLength(s);
      EncodedLength(Sanitize(s));
      SanitizeValid(s);
    }
  }

  lemma InvalidByte(b: octet)
    requires b >= 0x80
    ensures Sanitize([b]) == EncodeRune(0xFFFD)
  {
    assert DecodeRune([b]) == Decoded(0xFFFD, 1);
    assert [b][1..] == [];
  }

  lemma ThreeTriples(a: octet, b: octet, c: octet)
    ensures Triples([a, b, c]) == Triple(a) + Triple(b) + Triple(c)
  {
    var u := [a, b, c];
    assert u[1..] == [b, c] && [b, c][1..] == [c] && [c][1..] == [];
    assert Triples([c]) == Triple(c) + Triples([]);
    assert Triples([b, c]) == Triple(b) + Triples([c]);
  }

  /** A name of one byte: an unescaped character stays, another ASCII character becomes its triple, and
      any other byte becomes the triples of U+FFFD. */
  lemma OneByteNames(b: octet)
    ensures Encoding([b]) == if b >= 0x80 then Triple(0xEF) + Triple(0xBF) + Triple(0xBD)
                             else if Unescaped(b) then [b] else Triple(b)
  {
    if b < 0x80 {
      EncodeByte(b);
      assert ValidUTF8([b]);
      SanitizeValid([b]);
    } else {
      InvalidByte(b);
      EncodeOneRune(0xFFFD);
      EncodeRuneStandard(0xFFFD, [0xEF, 0xBF, 0xBD]);
      ThreeTriples(0xEF, 0xBF, 0xBD);
    }
  }

  // ---------- what an encoding is made of ----------

  /** An upper-case hexadecimal digit. */
  predicate IsHex(b: octet) {
    b as char in {'0', '1', '2', '3', '4', '5', '6', '7', '8', '9', 'A', 'B', 'C', 'D', 'E', 'F'}
  }

  predicate IsTriple(e: seq<octet>, t: nat)
    requires t + 2 < |e|
  {
    e[t] == '%' as int && IsHex(e[t + 1]) && IsHex(e[t + 2])
  }

  /** Some triple of the text covers position i. */
  predicate InTriple(e: seq<octet>, i: nat) {
    exists t :: 0 <= t <= i <= t + 2 < |e| && IsTriple(e, t)
  }

  lemma {:induction false} TextPositions(e: seq<octet>, i: nat)
    requires PathText(e) && i < |e|
    ensures Unescaped(e[i]) || InTriple(e, i)
    decreases |e|
  {
    Letters(e[0]);
    if e[0] == PERCENT {
      if i <= 2 {
        assert IsTriple(e, 0);
      } else {
        TextPositions(e[3..], i - 3);
        if InTriple(e[3..], i - 3) {
          var t :| 0 <= t <= i - 3 <= t + 2 < |e[3..]| && IsTriple(e[3..], t);
          assert IsTriple(e, t + 3);
        }
      }
    } else if i > 0 {
      TextPositions(e[1..], i - 1);
      if InTriple(e[1..], i - 1) {
        var t :| 0 <= t <= i - 1 <= t + 2 < |e[1..]| && IsTriple(e[1..], t);
        assert IsTriple(e, t + 1);
      }
    }
  }

  /** Every byte of every encoding is an unescaped character or belongs to a triple. */
  lemma EncodingPositions(s: seq<octet>, i: nat)
    requires i < |Encoding(s)|
    ensures Unescaped(Encoding(s)[i]) || InTriple(Encoding(s), i)
  {
    ByteEncodeText(Sanitize(s));
    TextPositions(Encoding(s), i);
  }
}
