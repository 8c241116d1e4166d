/** Code points: the encoder the string decoder uses, and an independent UTF-8 decoder. */
module JsonUnicode {
  import opened Bytes

  datatype UnicodeError = MissingLowSurrogate | WrongLowSurrogate | AboveUnicode

  predicate HighSurrogate(c: nat) {
    0xD800 <= c <= 0xDBFF
  }

  predicate LowSurrogate(c: nat) {
    0xDC00 <= c <= 0xDFFF
  }

  /** The shifts and masks are written as division and remainder by powers of two. */
  function Encode(c: nat): bytes
    requires c <= 0x10FFFF
  {
    if c < 0x80 then [c]
    else if c <= 0x7FF then [0xC0 + c / 0x40 % 0x20, 0x80 + c % 0x40]
    else if c <= 0xFFFF then [0xE0 + c / 0x1000 % 0x10, 0x80 + c / 0x40 % 0x40, 0x80 + c % 0x40]
    else [0xF0 + c / 0x40000 % 8, 0x80 + c / 0x1000 % 0x40, 0x80 + c / 0x40 % 0x40, 0x80 + c % 0x40]
  }

  function ToUnicode(first: nat, second: nat): Result<bytes, UnicodeError> {
    if HighSurrogate(first) && !LowSurrogate(second) then Err(WrongLowSurrogate)
    else
      var c := if HighSurrogate(first) then first * 0x400 + second - 0x35FDC00 else first;
      if c <= 0x10FFFF then Ok(Encode(c)) else Err(AboveUnicode)
  }

  // ----- RFC 3629, section 3 and RFC 2781, section 2.2 -----

  predicate Continuation(b: byte) {
    0x80 <= b <= 0xBF
  }

  datatype Decoded = Decoded(codePoint: nat, length: nat)

  /**
   The code point at the front of s: the first octet gives the number of octets, the rest carry
   six bits each, and a form longer than needed is not accepted.
   */
  function DecodeFirst(s: bytes): Option<Decoded> {
    if |s| >= 1 && s[0] <= 0x7F then
      Some(Decoded(s[0], 1))
    else if |s| >= 2 && 0xC0 <= s[0] <= 0xDF && Continuation(s[1]) then
      Minimal((s[0] as nat - 0xC0) * 0x40 + (s[1] as nat - 0x80), 2)
    else if |s| >= 3 && 0xE0 <= s[0] <= 0xEF && Continuation(s[1]) && Continuation(s[2]) then
      Minimal((s[0] as nat - 0xE0) * 0x1000 + (s[1] as nat - 0x80) * 0x40 + (s[2] as nat - 0x80), 3)
    else if |s| >= 4 && 0xF0 <= s[0] <= 0xF7 && Continuation(s[1]) && Continuation(s[2]) && Continuation(s[3]) then
      Minimal((s[0] as nat - 0xF0) * 0x40000 + (s[1] as nat - 0x80) * 0x1000 +
              (s[2] as nat - 0x80) * 0x40 + (s[3] as nat - 0x80), 4)
    else
      None
  }

  function Minimal(c: nat, length: nat): Option<Decoded> {
    if c <= 0x10FFFF && length == (if c <= 0x7F then 1 else if c <= 0x7FF then 2 else if c <= 0xFFFF then 3 else 4)
    then Some(Decoded(c, length))
    else None
  }

  /** The code point that a high and a low surrogate stand for. */
  function Combined(high: nat, low: nat): nat
    requires HighSurrogate(high) && LowSurrogate(low)
  {
    0x10000 + (high - 0xD800) * 0x400 + (low - 0xDC00)
  }

  lemma SixBitGroups(c: nat)
    requires c <= 0x10FFFF
    ensures c == c / 0x40 * 0x40 + c % 0x40
    ensures c / 0x40 == c / 0x1000 * 0x40 + c / 0x40 % 0x40
    ensures c / 0x1000 == c / 0x40000 * 0x40 + c / 0x1000 % 0x40
    ensures c / 0x40 < 0x20 ==> c / 0x40 % 0x20 == c / 0x40
    ensures c / 0x1000 < 0x10 ==> c / 0x1000 % 0x10 == c / 0x1000
    ensures c / 0x40000 % 8 == c / 0x40000
  {
  }

  lemma DecodesFront(e: bytes, tail: bytes)
    requires DecodeFirst(e).Some? && DecodeFirst(e).value.length == |e|
    ensures DecodeFirst(e + tail) == DecodeFirst(e)
  {
    var s := e + tail;
    assert forall i :: 0 <= i < |e| ==> s[i] == e[i];
  }

  lemma EncodeDecode(c: nat, tail: bytes)
    requires c <= 0x10FFFF
    ensures DecodeFirst(Encode(c) + tail) == Some(Decoded(c, |Encode(c)|))
  {
    SixBitGroups(c);
    assert DecodeFirst(Encode(c)) == Some(Decoded(c, |Encode(c)|));
    DecodesFront(Encode(c), tail);
  }

  /**
   What ToUnicode accepts, and that a decoder gets back the code point it was given: the value
   itself, or the combination of a surrogate pair.
   */
  lemma ToUnicodeDecodes(first: nat, second: nat, tail: bytes)
    ensures ToUnicode(first, second).Ok? <==>
            (if HighSurrogate(first) then LowSurrogate(second) else first <= 0x10FFFF)
    ensures ToUnicode(first, second).Ok? ==>
            var out := ToUnicode(first, second).value;
            DecodeFirst(out + tail) ==
            Some(Decoded(if HighSurrogate(first) then Combined(first, second) else first, |out|))
  {
    if HighSurrogate(first) && LowSurrogate(second) {
      EncodeDecode(Combined(first, second), tail);
    } else if !HighSurrogate(first) && first <= 0x10FFFF {
      EncodeDecode(first, tail);
    }
  }

  /** The output is UTF-8 of a Unicode scalar value exactly when no lone low surrogate was given. */
  lemma ScalarUnlessLoneLow(first: nat, second: nat)
    requires ToUnicode(first, second).Ok?
    ensures var d := DecodeFirst(ToUnicode(first, second).value);
            d.Some? && (LowSurrogate(first) <==> HighSurrogate(d.value.codePoint) || LowSurrogate(d.value.codePoint))
    ensures LowSurrogate(first) ==> |ToUnicode(first, second).value| == 3
  {
    ToUnicodeDecodes(first, second, []);
    var out := ToUnicode(first, second).value;
    assert out + [] == out;
  }
}
