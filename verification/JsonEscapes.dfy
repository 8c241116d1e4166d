/**
 What the escapes of a JSON string stand for, stated by characters, and what a whole text decodes to:
 the pieces one after the other.
 */
module JsonEscapes {
  import opened Bytes
  import opened JsonString
  import opened JsonUnicode

  const LOWER_DIGITS := "0123456789abcdef"
  const UPPER_DIGITS := "0123456789ABCDEF"

  /** The byte is a hexadecimal digit of this value, in either letter case. */
  predicate IsHexOf(b: byte, d: nat) {
    d < 16 && (IsChar(b, LOWER_DIGITS[d]) || IsChar(b, UPPER_DIGITS[d]))
  }

  lemma HexDigitIs(b: byte, d: nat)
    ensures IsHexOf(b, d) <==> IsHex(b) && HexDigit(b) == d
  {
  }

  /** A backslash, a u and the four digits of a code. */
  predicate IsEscapeOf(s: bytes, c: nat) {
    |s| == 6 && IsChar(s[0], '\\') && IsChar(s[1], 'u') && c <= 0xFFFF &&
    IsHexOf(s[2], c / 4096) && IsHexOf(s[3], c / 256 % 16) && IsHexOf(s[4], c / 16 % 16) && IsHexOf(s[5], c % 16)
  }

  lemma FourDigits(c: nat)
    requires c <= 0xFFFF
    ensures c == c / 4096 * 0x1000 + c / 256 % 16 * 0x100 + c / 16 % 16 * 0x10 + c % 16
  {
    var a := c / 16;
    var b := a / 16;
    assert c == a * 16 + c % 16 && a == b * 16 + a % 16 && b == b / 16 * 16 + b % 16;
    assert c / 256 == b && c / 4096 == b / 16;
  }

  lemma DigitsOfSum(d0: nat, d1: nat, d2: nat, d3: nat)
    requires d0 < 16 && d1 < 16 && d2 < 16 && d3 < 16
    ensures var c := d0 * 0x1000 + d1 * 0x100 + d2 * 0x10 + d3;
            c / 4096 == d0 && c / 256 % 16 == d1 && c / 16 % 16 == d2 && c % 16 == d3
  {
    var c := d0 * 0x1000 + d1 * 0x100 + d2 * 0x10 + d3;
    assert c / 256 == d0 * 16 + d1;
    assert c / 16 == d0 * 256 + d1 * 16 + d2;
  }

  /** Every way to write a code in four digits has that code, and no other text of six bytes has. */
  lemma EscapeHasItsCode(s: bytes, c: nat)
    ensures IsEscapeOf(s, c) <==> |s| == 6 && IsUnicodeEscape(s) && EscapedCode(s) == c
  {
    hide IsHexOf, HexDigit;
    if IsEscapeOf(s, c) {
      HexDigitIs(s[2], c / 4096);
      HexDigitIs(s[3], c / 256 % 16);
      HexDigitIs(s[4], c / 16 % 16);
      HexDigitIs(s[5], c % 16);
      FourDigits(c);
    }
    if |s| == 6 && IsUnicodeEscape(s) && EscapedCode(s) == c {
      AreDigits(s[2], s[3], s[4], s[5]);
      DigitsOfSum(HexDigit(s[2]), HexDigit(s[3]), HexDigit(s[4]), HexDigit(s[5]));
      HexDigitIs(s[2], c / 4096);
      HexDigitIs(s[3], c / 256 % 16);
      HexDigitIs(s[4], c / 16 % 16);
      HexDigitIs(s[5], c % 16);
    }
  }

  lemma AreDigits(a: byte, b: byte, c: byte, d: byte)
    requires IsHex(a) && IsHex(b) && IsHex(c) && IsHex(d)
    ensures HexDigit(a) < 16 && HexDigit(b) < 16 && HexDigit(c) < 16 && HexDigit(d) < 16
  {
  }

  /** The short escapes of RFC 7159, section 7, and the character each stands for. */
  const SHORT := "\"\\/bfnrt"
  const MEANING: bytes := [0x22, 0x5C, 0x2F, 0x08, 0x0C, 0x0A, 0x0D, 0x09]

  lemma ShortEscapes(b: byte)
    ensures SimpleEscape(b) <==> exists i :: 0 <= i < 8 && IsChar(b, SHORT[i])
    ensures forall i :: 0 <= i < 8 && IsChar(b, SHORT[i]) ==> Unescape(b) == MEANING[i]
  {
    if SimpleEscape(b) {
      assert IsChar(b, SHORT[0]) || IsChar(b, SHORT[1]) || IsChar(b, SHORT[2]) || IsChar(b, SHORT[3]) ||
             IsChar(b, SHORT[4]) || IsChar(b, SHORT[5]) || IsChar(b, SHORT[6]) || IsChar(b, SHORT[7]);
    }
  }

  // ----- decoding piece by piece -----

  lemma OnePiece(s: bytes, text: bytes)
    requires s != [] && ItemLength(s) > 0 && IsBody(s[ItemLength(s)..])
    requires FirstPiece(s) == Ok(Piece(text, |s|))
    ensures IsBody(s) && Decode(s) == Ok(text)
  {
    hide FirstPiece, ItemLength;
    assert s[|s|..] == [];
    assert text + [] == text;
  }

  /** The bytes that stand for themselves: quotes, backslashes and the first sixteen control characters do not. */
  lemma PlainByte(b: byte)
    ensures IsBody([b]) <==> b >= 0x10 && !IsChar(b, '"') && !IsChar(b, '\\')
    ensures IsBody([b]) ==> Decode([b]) == Ok([b])
  {
    if b >= 0x10 && b != QUOTE && b != BACKSLASH {
      assert ItemLength([b]) == 1 && [b][1..] == [];
      assert IsBody([]);
      OnePiece([b], [b]);
    }
  }

  lemma ShortEscape(i: nat)
    requires i < 8
    ensures var s := [BACKSLASH, SHORT[i] as int]; IsBody(s) && Decode(s) == Ok([MEANING[i]])
  {
    var s: bytes := [BACKSLASH, SHORT[i] as int];
    ShortEscapes(s[1]);
    assert IsChar(s[1], SHORT[i]);
    hide SimpleEscape, Unescape;
    assert ItemLength(s) == 2 && s[2..] == [];
    assert IsBody([]);
    OnePiece(s, [MEANING[i]]);
  }

  /** An escape of a code as the first item. */
  lemma CodeItem(s: bytes, t: bytes)
    requires IsUnicodeEscape(s) && |s| == 6 && IsBody(t)
    ensures ItemLength(s + t) == 6 && (s + t)[6..] == t && IsBody(s + t)
  {
    assert (s + t)[6..] == t;
    hide IsHex;
  }

  /** The escape of a code that is no high surrogate decodes to one sequence, which reads as the code. */
  lemma CodeEscape(s: bytes, c: nat)
    requires IsEscapeOf(s, c) && !HighSurrogate(c)
    ensures IsBody(s) && Decode(s).Ok?
    ensures DecodeFirst(Decode(s).value) == Some(Decoded(c, |Decode(s).value|))
  {
    EscapeHasItsCode(s, c);
    assert IsBody([]) && s + [] == s;
    CodeItem(s, []);
    hide IsEscapeOf, EscapedCode, IsHex, DecodeFirst, Encode, ItemLength, IsBody, Decode;
    ToUnicodeDecodes(c, 0, []);
    var out := ToUnicode(c, 0).value;
    assert out + [] == out;
    assert s[1] == LOWER_U;
    OnePiece(s, out);
  }

  /** The piece that the escapes of a surrogate pair are. */
  lemma PairPiece(s: bytes, t: bytes)
    requires IsUnicodeEscape(s) && |s| == 6 && IsUnicodeEscape(t) && |t| == 6
    requires HighSurrogate(EscapedCode(s)) && LowSurrogate(EscapedCode(t))
    requires ToUnicode(EscapedCode(s), EscapedCode(t)).Ok?
    ensures ItemLength(s + t) == 6 && IsBody((s + t)[6..]) && IsBody(s + t)
    ensures FirstPiece(s + t) == Ok(Piece(ToUnicode(EscapedCode(s), EscapedCode(t)).value, 12))
  {
    assert IsBody([]) && t + [] == t;
    CodeItem(t, []);
    CodeItem(s, t);
    CodeOfFront(s, t);
    hide EscapedCode, IsHex, ToUnicode, IsBody, ItemLength, HighSurrogate;
    assert (s + t)[1] == LOWER_U;
  }

  /** The escapes of a surrogate pair decode to one sequence, which reads as the code point of the pair. */
  lemma PairEscape(s: bytes, t: bytes, high: nat, low: nat)
    requires IsEscapeOf(s, high) && IsEscapeOf(t, low) && HighSurrogate(high) && LowSurrogate(low)
    ensures IsBody(s + t) && Decode(s + t).Ok?
    ensures var r := Decode(s + t).value; DecodeFirst(r) == Some(Decoded(Combined(high, low), |r|))
  {
    EscapeHasItsCode(s, high);
    EscapeHasItsCode(t, low);
    hide IsEscapeOf, EscapedCode, IsUnicodeEscape, IsHex, DecodeFirst, Encode, ToUnicode;
    hide IsBody, ItemLength, Decode, FirstPiece;
    ToUnicodeDecodes(high, low, []);
    var out := ToUnicode(high, low).value;
    assert out + [] == out;
    PairPiece(s, t);
    OnePiece(s + t, out);
  }

  /** One step of decoding. */
  lemma DecodeFrom(s: bytes, p: Piece)
    requires ItemLength(s) > 0 && IsBody(s[ItemLength(s)..]) && FirstPiece(s) == Ok(p)
    ensures IsBody(s) && 0 < p.length <= |s| && IsBody(s[p.length..])
    ensures Decode(s) == Prepend(p.text, Decode(s[p.length..]))
  {
    hide FirstPiece, ItemLength;
  }

  lemma BodyFront(s: bytes)
    requires IsBody(s) && s != []
    ensures ItemLength(s) > 0 && IsBody(s[ItemLength(s)..])
    ensures Decode(s).Ok? ==> FirstPiece(s).Ok?
  {
    hide FirstPiece, ItemLength;
  }

  /** A text that decodes, followed by another one, decodes to what both decode to, one after the other. */
  lemma {:induction false} DecodeSum(s: bytes, t: bytes)
    requires IsBody(s) && IsBody(t) && Decode(s).Ok?
    ensures IsBody(s + t) && Decode(s + t) == Prepend(Decode(s).value, Decode(t))
    decreases |s|
  {
    if s == [] {
      assert s + t == t;
      DecodesToNothing();
      PrependNothing(Decode(t));
    } else {
      hide FirstPiece, ItemLength, IsBody, Decode, Prepend;
      BodyFront(s);
      FirstOfSum(s, t);
      var p := FirstPiece(s).value;
      DecodeFrom(s, p);
      DecodeFrom(s + t, p);
      var rest := s[p.length..];
      RestOfSum(s, t, p.length);
      PrependOk(p.text, Decode(rest));
      DecodeSum(rest, t);
      PrependTwice(p.text, Decode(rest).value, Decode(t));
    }
  }

  lemma RestOfSum(s: bytes, t: bytes, n: nat)
    requires n <= |s|
    ensures (s + t)[n..] == s[n..] + t
  {
  }

  lemma PrependOk(a: bytes, r: Result<bytes, UnicodeError>)
    ensures Prepend(a, r).Ok? <==> r.Ok?
    ensures r.Ok? ==> Prepend(a, r) == Ok(a + r.value)
  {
  }

  lemma DecodesToNothing()
    ensures IsBody([]) && Decode([]) == Ok([])
  {
  }

  lemma PrependTwice(a: bytes, b: bytes, r: Result<bytes, UnicodeError>)
    ensures Prepend(a, Prepend(b, r)) == Prepend(a + b, r)
  {
    if r.Ok? {
      assert a + (b + r.value) == (a + b) + r.value;
    }
  }

  lemma CodeOfSum(s: bytes, t: bytes)
    requires IsUnicodeEscape(s)
    ensures IsUnicodeEscape(s + t) && EscapedCode(s + t) == EscapedCode(s)
  {
  }

  /** What the first piece is does not depend on what follows a text that decodes. */
  lemma FirstOfSum(s: bytes, t: bytes)
    requires IsBody(s) && s != [] && FirstPiece(s).Ok? && IsBody(t)
    ensures ItemLength(s + t) > 0 && IsBody((s + t)[ItemLength(s + t)..])
    ensures FirstPiece(s + t) == FirstPiece(s)
  {
    FrontOfSum(s, t);
    if s[0] == BACKSLASH && !SimpleEscape(s[1]) {
      FirstCodeOfSum(s, t);
    } else {
      hide ItemLength, SimpleEscape, IsBody;
    }
  }

  lemma FrontOfSum(s: bytes, t: bytes)
    requires IsBody(s) && s != [] && IsBody(t)
    ensures ItemLength(s + t) == ItemLength(s) > 0 && (s + t)[ItemLength(s)..] == s[ItemLength(s)..] + t
    ensures IsBody((s + t)[ItemLength(s)..])
  {
    ItemLengthPrefix(s, t);
    hide ItemLength;
    var n := ItemLength(s);
    BodySum(s[n..], t);
    assert (s + t)[n..] == s[n..] + t;
  }

  lemma FirstCodeOfSum(s: bytes, t: bytes)
    requires IsBody(s) && s != [] && FirstPiece(s).Ok? && IsBody(t) && s[0] == BACKSLASH && !SimpleEscape(s[1])
    ensures ItemLength(s + t) > 0 && IsBody((s + t)[ItemLength(s + t)..])
    ensures FirstPiece(s + t) == FirstPiece(s)
  {
    FrontOfSum(s, t);
    assert IsUnicodeEscape(s) && ItemLength(s) == 6;
    CodeOfSum(s, t);
    var next := s[6..];
    if HighSurrogate(EscapedCode(s)) {
      EscapeInBody(next);
      CodeOfSum(next, t);
      hide EscapedCode, IsHex, SimpleEscape, ToUnicode, IsBody, HighSurrogate, IsUnicodeEscape, ItemLength;
      assert (next + t)[0] == next[0] && (next + t)[1] == next[1];
    } else {
      hide EscapedCode, IsHex, SimpleEscape, ToUnicode, IsBody, HighSurrogate, IsUnicodeEscape, ItemLength;
    }
  }

  lemma {:induction false} BodySum(s: bytes, t: bytes)
    requires IsBody(s) && IsBody(t)
    ensures IsBody(s + t)
    decreases |s|
  {
    if s == [] {
      assert s + t == t;
    } else {
      var n := ItemLength(s);
      ItemLengthPrefix(s, t);
      hide ItemLength;
      BodySum(s[n..], t);
      assert (s + t)[n..] == s[n..] + t;
    }
  }

  // ----- what the printer writes -----

  /** The seven characters with a short escape get it, the other control characters their code, all others nothing. */
  lemma EscapeSpelling(c: byte)
    ensures forall i :: 0 <= i < 8 && i != 2 && c == MEANING[i] ==> EscapeByte(c) == [BACKSLASH, SHORT[i] as int]
    ensures c <= 0x1F && c !in MEANING ==>
              EscapeByte(c) == Ascii("\\u00") + [LOWER_DIGITS[c / 16] as int, LOWER_DIGITS[c % 16] as int]
    ensures c > 0x1F && !IsChar(c, '"') && !IsChar(c, '\\') ==> EscapeByte(c) == [c]
  {
  }
}
