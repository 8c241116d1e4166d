/**
 JSON strings: the text between the quotes as the scanner accepts it, the bytes it decodes to,
 and the escaping the printer applies.
 */
module JsonString {
  import opened Bytes
  import opened JsonUnicode

  // ----- the text between the quotes -----

  predicate IsHex(b: byte) {
    0x30 <= b <= 0x39 || 0x41 <= b <= 0x46 || 0x61 <= b <= 0x66
  }

  predicate SimpleEscape(b: byte) {
    b == QUOTE || b == BACKSLASH || b == SLASH ||
    b == 0x62 || b == 0x66 || b == 0x6E || b == 0x72 || b == 0x74
  }

  predicate IsUnicodeEscape(s: bytes) {
    |s| >= 6 && s[0] == BACKSLASH && s[1] == LOWER_U && IsHex(s[2]) && IsHex(s[3]) && IsHex(s[4]) && IsHex(s[5])
  }

  /** The length of the character or escape at the front of s; 0 when neither is there. */
  function ItemLength(s: bytes): (n: nat)
    ensures n <= |s|
  {
    if s == [] then 0
    else if s[0] == BACKSLASH then
      if |s| >= 2 && SimpleEscape(s[1]) then 2 else if IsUnicodeEscape(s) then 6 else 0
    else if s[0] <= 0x0F || s[0] == QUOTE then 0
    else 1
  }

  /** A text made of characters and complete escapes. */
  predicate IsBody(s: bytes)
    decreases |s|
  {
    s == [] || (ItemLength(s) > 0 && IsBody(s[ItemLength(s)..]))
  }

  /** Where the closing quote is in a text that follows an opening quote. */
  function BodyLength(s: bytes): (r: Option<nat>)
    ensures r.Some? ==> r.value < |s| && s[r.value] == QUOTE
    decreases |s|
  {
    if s != [] && s[0] == QUOTE then Some(0)
    else if ItemLength(s) == 0 then None
    else match BodyLength(s[ItemLength(s)..])
         case None => None
         case Some(k) => Some(ItemLength(s) + k)
  }

  function Shifted(r: Option<nat>, n: nat): Option<nat> {
    match r
    case None => None
    case Some(k) => Some(n + k)
  }

  lemma BodyLengthStep(s: bytes)
    requires s != [] ==> s[0] != QUOTE
    ensures BodyLength(s) == if ItemLength(s) == 0 then None else Shifted(BodyLength(s[ItemLength(s)..]), ItemLength(s))
  {
  }

  lemma ItemLengthPrefix(s: bytes, tail: bytes)
    requires ItemLength(s) > 0
    ensures ItemLength(s + tail) == ItemLength(s)
  {
  }

  lemma {:induction false} BodyBeforeQuote(s: bytes, tail: bytes)
    requires IsBody(s)
    ensures BodyLength(s + [QUOTE] + tail) == Some(|s|)
    decreases |s|
  {
    var t := s + [QUOTE] + tail;
    if s != [] {
      var n := ItemLength(s);
      assert t == s + ([QUOTE] + tail);
      ItemLengthPrefix(s, [QUOTE] + tail);
      assert t[n..] == s[n..] + [QUOTE] + tail;
      BodyBeforeQuote(s[n..], tail);
    }
  }

  lemma {:induction false} BodyUpToQuote(s: bytes)
    requires BodyLength(s).Some?
    ensures IsBody(s[..BodyLength(s).value])
    decreases |s|
  {
    var k := BodyLength(s).value;
    if s[0] != QUOTE {
      var n := ItemLength(s);
      BodyUpToQuote(s[n..]);
      assert s[..k][n..] == s[n..][..k - n];
      assert ItemLength(s[..k]) == n;
    }
  }

  /** The closing quote found is the only one that ends a well-formed text. */
  lemma ClosingQuote(s: bytes, k: nat)
    ensures BodyLength(s) == Some(k) <==> k < |s| && s[k] == QUOTE && IsBody(s[..k])
  {
    hide BodyLength, IsBody;
    if BodyLength(s) == Some(k) {
      BodyUpToQuote(s);
    }
    if k < |s| && s[k] == QUOTE && IsBody(s[..k]) {
      assert s == s[..k] + [QUOTE] + s[k + 1..];
      BodyBeforeQuote(s[..k], s[k + 1..]);
    }
  }

  // ----- decoding -----

  function HexDigit(b: byte): nat
    requires IsHex(b)
  {
    if b <= NINE then b - ZERO else if b <= 0x46 then b - 0x41 + 10 else b - 0x61 + 10
  }

  function EscapedCode(s: bytes): (c: nat)
    requires IsUnicodeEscape(s)
    ensures c <= 0xFFFF
  {
    HexDigit(s[2]) * 0x1000 + HexDigit(s[3]) * 0x100 + HexDigit(s[4]) * 0x10 + HexDigit(s[5])
  }

  function Unescape(b: byte): byte
    requires SimpleEscape(b)
  {
    if b == 0x62 then 0x08
    else if b == 0x66 then 0x0C
    else if b == 0x6E then 0x0A
    else if b == 0x72 then 0x0D
    else if b == 0x74 then 0x09
    else b
  }

  /** What the first item of a text stands for, and how much of the text it takes. */
  datatype Piece = Piece(text: bytes, length: nat)

  function FirstPiece(s: bytes): (r: Result<Piece, UnicodeError>)
    requires ItemLength(s) > 0
    requires IsBody(s[ItemLength(s)..])
    ensures r.Ok? ==> 0 < r.value.length <= |s| && IsBody(s[r.value.length..])
  {
    if s[0] != BACKSLASH then Ok(Piece([s[0]], 1))
    else if SimpleEscape(s[1]) then Ok(Piece([Unescape(s[1])], 2))
    else if HighSurrogate(EscapedCode(s)) then
      var next := s[6..];
      if |next| < 2 || next[0] != BACKSLASH || next[1] != LOWER_U then Err(MissingLowSurrogate)
      else match ToUnicode(EscapedCode(s), EscapedCode(next))
           case Ok(t) => assert s[12..] == next[6..]; Ok(Piece(t, 12))
           case Err(e) => Err(e)
    else match ToUnicode(EscapedCode(s), 0)
         case Ok(t) => Ok(Piece(t, 6))
         case Err(e) => Err(e)
  }

  function Prepend(t: bytes, r: Result<bytes, UnicodeError>): Result<bytes, UnicodeError> {
    match r
    case Err(e) => Err(e)
    case Ok(u) => Ok(t + u)
  }

  function Decode(s: bytes): (r: Result<bytes, UnicodeError>)
    requires IsBody(s)
    decreases |s|
  {
    if s == [] then Ok([])
    else match FirstPiece(s)
         case Err(e) => Err(e)
         case Ok(p) => Prepend(p.text, Decode(s[p.length..]))
  }

  lemma PrependNothing(r: Result<bytes, UnicodeError>)
    ensures Prepend([], r) == r
  {
    if r.Ok? {
      assert [] + r.value == r.value;
    }
  }

  lemma DecodeEmpty(done: bytes)
    ensures Prepend(done, Decode([])) == Ok(done)
  {
    assert done + [] == done;
  }

  /** One round of decoding, with `done` already decoded. */
  lemma DecodeRound(done: bytes, s: bytes)
    requires IsBody(s) && s != []
    ensures ItemLength(s) > 0 && IsBody(s[ItemLength(s)..])
    ensures FirstPiece(s).Err? ==> Prepend(done, Decode(s)) == Err(FirstPiece(s).error)
    ensures FirstPiece(s).Ok? ==>
            Prepend(done, Decode(s)) ==
            Prepend(done + FirstPiece(s).value.text, Decode(s[FirstPiece(s).value.length..]))
  {
    if FirstPiece(s).Ok? {
      var text := FirstPiece(s).value.text;
      assert forall u: bytes :: done + (text + u) == (done + text) + u;
    }
  }

  // ----- which texts decode -----

  function Items(s: bytes): (r: seq<bytes>)
    requires IsBody(s)
    ensures s != [] ==> r != [] && r[0] == s[..ItemLength(s)] && r[1..] == Items(s[ItemLength(s)..])
    decreases |s|
  {
    if s == [] then [] else [s[..ItemLength(s)]] + Items(s[ItemLength(s)..])
  }

  predicate IsHighEscape(item: bytes) {
    IsUnicodeEscape(item) && HighSurrogate(EscapedCode(item))
  }

  predicate IsLowEscape(item: bytes) {
    IsUnicodeEscape(item) && LowSurrogate(EscapedCode(item))
  }

  predicate Paired(items: seq<bytes>) {
    forall i :: 0 <= i < |items| && IsHighEscape(items[i]) ==> i + 1 < |items| && IsLowEscape(items[i + 1])
  }

  lemma PairedRest(items: seq<bytes>)
    requires items != []
    ensures Paired(items) <==>
            Paired(items[1..]) && (IsHighEscape(items[0]) ==> |items| > 1 && IsLowEscape(items[1]))
  {
    var rest := items[1..];
    if Paired(rest) && (IsHighEscape(items[0]) ==> |items| > 1 && IsLowEscape(items[1])) {
      forall i | 0 <= i < |items| && IsHighEscape(items[i])
        ensures i + 1 < |items| && IsLowEscape(items[i + 1])
      {
        if i > 0 { assert rest[i - 1] == items[i]; }
      }
    }
    if Paired(items) {
      forall i | 0 <= i < |rest| && IsHighEscape(rest[i])
        ensures i + 1 < |rest| && IsLowEscape(rest[i + 1])
      {
        assert rest[i] == items[i + 1];
      }
    }
  }

  lemma FirstItemCode(s: bytes)
    requires IsBody(s) && s != []
    ensures IsHighEscape(Items(s)[0]) <==> IsUnicodeEscape(s) && HighSurrogate(EscapedCode(s))
    ensures IsLowEscape(Items(s)[0]) <==> IsUnicodeEscape(s) && LowSurrogate(EscapedCode(s))
  {
  }

  /** An escape for a high surrogate at the front decodes with the low one behind it, and only with that. */
  lemma HighNeedsLow(s: bytes)
    requires IsBody(s) && s != [] && IsHighEscape(Items(s)[0])
    ensures FirstPiece(s).Ok? <==> |Items(s)| > 1 && IsLowEscape(Items(s)[1])
    ensures FirstPiece(s).Ok? ==> FirstPiece(s).value.length == 12 && Items(s[12..]) == Items(s)[2..]
  {
    FirstItemCode(s);
    var rest := s[6..];
    if rest != [] {
      FirstItemCode(rest);
      if IsUnicodeEscape(rest) {
        assert rest[6..] == s[12..];
      }
    }
  }

  lemma OrdinaryPiece(s: bytes)
    requires IsBody(s) && s != [] && !IsHighEscape(Items(s)[0])
    ensures FirstPiece(s).Ok? && FirstPiece(s).value.length == ItemLength(s)
  {
    FirstItemCode(s);
  }

  /** Decoding fails exactly when some high surrogate is not followed by a low one. */
  lemma {:induction false} DecodesExactlyPaired(s: bytes)
    requires IsBody(s)
    ensures Decode(s).Ok? <==> Paired(Items(s))
    decreases |s|
  {
    if s != [] {
      var items := Items(s);
      PairedRest(items);
      FirstItemCode(s);
      if IsHighEscape(items[0]) {
        HighNeedsLow(s);
        if FirstPiece(s).Ok? {
          PairedRest(items[1..]);
          assert items[1..][1..] == items[2..];
          DecodesExactlyPaired(s[12..]);
        }
      } else {
        OrdinaryPiece(s);
        DecodesExactlyPaired(s[ItemLength(s)..]);
      }
    }
  }

  // ----- escaping -----

  function HexText(v: nat): byte
    requires v < 16
  {
    if v < 10 then 0x30 + v else 0x61 + v - 10
  }

  function EscapeByte(c: byte): bytes {
    if c == QUOTE then [BACKSLASH, QUOTE]
    else if c == BACKSLASH then [BACKSLASH, BACKSLASH]
    else if c == 0x08 then [BACKSLASH, 0x62]
    else if c == 0x0C then [BACKSLASH, 0x66]
    else if c == 0x0A then [BACKSLASH, 0x6E]
    else if c == 0x0D then [BACKSLASH, 0x72]
    else if c == 0x09 then [BACKSLASH, 0x74]
    else if c <= 0x1F then [BACKSLASH, LOWER_U, ZERO, ZERO, HexText(c / 16), HexText(c % 16)]
    else [c]
  }

  function Escape(s: bytes): bytes {
    if s == [] then [] else Escape(s[..|s| - 1]) + EscapeByte(s[|s| - 1])
  }

  function ExtraByte(c: byte): (n: nat)
    ensures |EscapeByte(c)| == 1 + n && (n == 0 ==> EscapeByte(c) == [c])
  {
    if c == QUOTE || c == BACKSLASH || 0x08 <= c <= 0x0A || c == 0x0C || c == 0x0D then 1
    else if c <= 0x1F then 5
    else 0
  }

  function ExtraSpace(s: bytes): nat {
    if s == [] then 0 else ExtraSpace(s[..|s| - 1]) + ExtraByte(s[|s| - 1])
  }

  lemma {:induction false} NothingToEscape(s: bytes)
    requires ExtraSpace(s) == 0
    ensures Escape(s) == s
  {
    hide EscapeByte, ExtraByte;
    if s != [] {
      NothingToEscape(s[..|s| - 1]);
      assert s == s[..|s| - 1] + [s[|s| - 1]];
    }
  }

  lemma {:induction false} EscapeLength(s: bytes)
    ensures |Escape(s)| == |s| + ExtraSpace(s)
    ensures ExtraSpace(s) == 0 ==> Escape(s) == s
  {
    if ExtraSpace(s) == 0 {
      NothingToEscape(s);
    }
    hide EscapeByte, ExtraByte;
    if s != [] {
      EscapeLength(s[..|s| - 1]);
    }
  }

  lemma {:induction false} EscapePrefix(s: bytes, k: nat)
    requires k <= |s|
    ensures |Escape(s[..k])| <= |Escape(s)|
    decreases |s| - k
  {
    if k < |s| {
      EscapePrefix(s, k + 1);
      assert s[..k + 1][..k] == s[..k];
    } else {
      assert s[..k] == s;
    }
  }

  /** One round of the loop of escape_string: write one character into a buffer of backslashes. */
  method PutEscaped(result: array<byte>, pos: nat, c: byte) returns (next: nat)
    requires pos + |EscapeByte(c)| <= result.Length
    requires forall i :: pos <= i < result.Length ==> result[i] == BACKSLASH
    modifies result
    ensures next == pos + |EscapeByte(c)|
    ensures result[..pos] == old(result[..pos]) && result[pos..next] == EscapeByte(c)
    ensures forall i :: next <= i < result.Length ==> result[i] == BACKSLASH
  {
    if c == QUOTE {
      result[pos + 1] := QUOTE;
      next := pos + 2;
    } else if c == BACKSLASH {
      next := pos + 2;
    } else if c == 0x08 {
      result[pos + 1] := 0x62;
      next := pos + 2;
    } else if c == 0x0C {
      result[pos + 1] := 0x66;
      next := pos + 2;
    } else if c == 0x0A {
      result[pos + 1] := 0x6E;
      next := pos + 2;
    } else if c == 0x0D {
      result[pos + 1] := 0x72;
      next := pos + 2;
    } else if c == 0x09 {
      result[pos + 1] := 0x74;
      next := pos + 2;
    } else if c <= 0x1F {
      result[pos + 1] := LOWER_U;
      result[pos + 2] := ZERO;
      result[pos + 3] := ZERO;
      result[pos + 4] := HexText(c / 16);
      result[pos + 5] := HexText(c % 16);
      next := pos + 6;
    } else {
      result[pos] := c;
      next := pos + 1;
    }
  }

  /**
   escape_string: fills a buffer of the size computed beforehand, which holds backslashes at first,
   and ends exactly at its end.
   */
  method EscapeString(s: bytes) returns (r: bytes)
    ensures r == Escape(s) && |r| == |s| + ExtraSpace(s)
  {
    hide EscapeByte;
    EscapeLength(s);
    var space := ExtraSpace(s);
    if space == 0 {
      return s;
    }
    var result := new byte[|s| + space](_ => BACKSLASH);
    var pos := 0;
    for k := 0 to |s|
      invariant pos == |Escape(s[..k])| <= result.Length
      invariant result[..pos] == Escape(s[..k])
      invariant forall i :: pos <= i < result.Length ==> result[i] == BACKSLASH
    {
      assert s[..k + 1][..k] == s[..k];
      EscapePrefix(s, k + 1);
      ghost var before := pos;
      pos := PutEscaped(result, pos, s[k]);
      assert result[..pos] == result[..before] + result[before..pos];
    }
    assert s[..|s|] == s;
    r := result[..];
  }

  // ----- escaping is undone by decoding -----

  /** The three forms an escaped byte has. */
  lemma EscapeForms(c: byte)
    ensures var e := EscapeByte(c);
            match |e|
            case 1 => e == [c] && c > 0x1F && c != QUOTE && c != BACKSLASH
            case 2 => e[0] == BACKSLASH && SimpleEscape(e[1]) && Unescape(e[1]) == c
            case _ => |e| == 6 && IsUnicodeEscape(e) && !SimpleEscape(e[1]) && EscapedCode(e) == c <= 0x1F
  {
    if |EscapeByte(c)| > 2 {
      assert c / 16 * 16 + c % 16 == c;
    }
  }

  lemma CodeOfPrefix(s: bytes)
    requires IsUnicodeEscape(s)
    ensures IsUnicodeEscape(s[..6]) && EscapedCode(s[..6]) == EscapedCode(s)
  {
  }

  lemma CodeOfFront(s: bytes, rest: bytes)
    requires IsUnicodeEscape(s) && |s| == 6
    ensures IsUnicodeEscape(s + rest) && EscapedCode(s + rest) == EscapedCode(s)
  {
    assert (s + rest)[..6] == s;
    CodeOfPrefix(s + rest);
  }

  /** A text with an escape of a code at its front. */
  lemma EscapeInBody(s: bytes)
    requires IsBody(s) && |s| >= 2 && s[0] == BACKSLASH && s[1] == LOWER_U
    ensures IsUnicodeEscape(s) && IsBody(s[6..])
  {
  }

  lemma EscapedByteDecodes(c: byte, rest: bytes)
    requires IsBody(rest)
    ensures var t := EscapeByte(c) + rest;
            ItemLength(t) == |EscapeByte(c)| && t[ItemLength(t)..] == rest
    ensures IsBody(EscapeByte(c) + rest)
    ensures FirstPiece(EscapeByte(c) + rest) == Ok(Piece([c], |EscapeByte(c)|))
  {
    EscapeForms(c);
    var e := EscapeByte(c);
    var t := e + rest;
    assert t[|e|..] == rest;
    if |e| == 6 {
      CodeOfFront(e, rest);
    }
    hide EscapeByte, EscapedCode, IsUnicodeEscape;
  }

  lemma EscapeSnoc(s: bytes, c: byte)
    ensures Escape(s + [c]) == Escape(s) + EscapeByte(c)
  {
    assert (s + [c])[..|s|] == s;
  }

  lemma {:induction false} EscapeConcat(s: bytes, t: bytes)
    ensures Escape(s + t) == Escape(s) + Escape(t)
    decreases |t|
  {
    hide EscapeByte;
    if t == [] {
      assert s + t == s;
    } else {
      var u, c := t[..|t| - 1], t[|t| - 1];
      assert t == u + [c] && s + t == (s + u) + [c];
      calc {
        Escape(s + t);
        { EscapeSnoc(s + u, c); }
        Escape(s + u) + EscapeByte(c);
        { EscapeConcat(s, u); }
        (Escape(s) + Escape(u)) + EscapeByte(c);
        Escape(s) + (Escape(u) + EscapeByte(c));
        { EscapeSnoc(u, c); }
        Escape(s) + Escape(t);
      }
    }
  }

  lemma EscapeFront(c: byte, t: bytes)
    ensures Escape([c] + t) == EscapeByte(c) + Escape(t)
  {
    hide EscapeByte;
    EscapeConcat([c], t);
    assert [c][..0] == [];
  }

  /** For every byte string: its escaped form is a well-formed text and decodes to the string. */
  lemma {:induction false} DecodeUndoesEscape(s: bytes)
    ensures IsBody(Escape(s)) && Decode(Escape(s)) == Ok(s)
  {
    if s != [] {
      DecodeUndoesEscape(s[1..]);
      assert s == [s[0]] + s[1..];
      EscapeFront(s[0], s[1..]);
      EscapedByteDecodes(s[0], Escape(s[1..]));
    }
  }

  /** The quoted, escaped string followed by anything: the scanner finds the closing quote after it. */
  lemma EscapedStringIsScannedWhole(s: bytes, tail: bytes)
    ensures BodyLength(Escape(s) + [QUOTE] + tail) == Some(|s| + ExtraSpace(s))
  {
    DecodeUndoesEscape(s);
    EscapeLength(s);
    BodyBeforeQuote(Escape(s), tail);
  }
}
