/** The JSON printer, and the proof that parsing undoes it. */
module JsonDump {
  import opened Bytes
  import opened JsonDecimal
  import opened JsonGrammar
  import opened JsonLexer
  import opened JsonNumber
  import opened JsonString
  import opened JsonValue

  /** The unsigned int of the indentation arithmetic. */
  type uint32 = n: int | 0 <= n < 0x1_0000_0000

  function Wrap(n: int): uint32 {
    n % 0x1_0000_0000
  }

  /** The values of the library without floats: 64-bit integers and objects in key order. */
  predicate Storable(v: Json) {
    match v
    case Float(_) => false
    case Integer(i) => INT64_MIN <= i <= INT64_MAX
    case Array(es) => forall e :: e in es ==> Storable(e)
    case Object(ms) => KeyOrdered(ms) && forall m :: m in ms ==> Storable(m.value)
    case _ => true
  }

  function Spaces(n: nat): bytes {
    seq(n, _ => SPACE)
  }

  function Quoted(s: bytes): bytes {
    [QUOTE] + Escape(s) + [QUOTE]
  }

  function LineBreak(pretty: bool): bytes {
    if pretty then [NEWLINE] else []
  }

  /** A body between brackets, on its own lines when pretty. */
  function Bracketed(open: byte, body: bytes, close: byte, pretty: bool, outer: uint32): bytes {
    [open] + LineBreak(pretty) + body + LineBreak(pretty) + Spaces(outer) + [close]
  }

  /** dump: the text of v; `current` is the indentation of the line it starts on. */
  function Dump(v: Json, pretty: bool, step: uint32, current: uint32): bytes
    requires NoFloats(v)
    decreases v, 0
  {
    var inner := if pretty then Wrap(current + step) else current;
    var outer := if pretty then Wrap(inner - step) else inner;
    match v
    case Null => NULL
    case Boolean(b) => if b then TRUE else FALSE
    case Integer(i) => IntToDecimal(i)
    case String(s) => Quoted(s)
    case Array(es) =>
      if es == [] then [LEFT_BRACKET, RIGHT_BRACKET]
      else Bracketed(LEFT_BRACKET, DumpElements(es, pretty, step, inner), RIGHT_BRACKET, pretty, outer)
    case Object(ms) =>
      if ms == [] then [LEFT_BRACE, RIGHT_BRACE]
      else Bracketed(LEFT_BRACE, DumpMembers(ms, pretty, step, inner), RIGHT_BRACE, pretty, outer)
  }

  function DumpElements(es: seq<Json>, pretty: bool, step: uint32, inner: uint32): bytes
    requires es != [] && forall e :: e in es ==> NoFloats(e)
    decreases es, 1
  {
    Spaces(inner) + Dump(es[0], pretty, step, inner) +
    if |es| == 1 then [] else [COMMA] + LineBreak(pretty) + DumpElements(es[1..], pretty, step, inner)
  }

  function DumpMembers(ms: seq<Member>, pretty: bool, step: uint32, inner: uint32): bytes
    requires ms != [] && forall m :: m in ms ==> NoFloats(m.value)
    decreases ms, 1
  {
    DumpPair(ms[0], pretty, step, inner) +
    if |ms| == 1 then [] else [COMMA] + LineBreak(pretty) + DumpMembers(ms[1..], pretty, step, inner)
  }

  function DumpPair(m: Member, pretty: bool, step: uint32, inner: uint32): bytes
    requires NoFloats(m.value)
    decreases m, 0
  {
    Spaces(inner) + Quoted(m.key) + [COLON] + (if pretty then [SPACE] else []) + Dump(m.value, pretty, step, inner)
  }

  /** The public dump: compact for a negative indentation step, pretty otherwise. */
  function DumpText(v: Json, indent: int): bytes
    requires NoFloats(v) && indent < 0x8000_0000
  {
    if indent >= 0 then Dump(v, true, indent, 0) else Dump(v, false, 0, 0)
  }

  // ----- scanning what was printed -----

  lemma TokensOfPunctuation(b: byte, tail: bytes)
    requires Punctuation(b).Some?
    ensures Tokens([b] + tail) == [Punctuation(b).value] + Tokens(tail)
  {
    LexFixed([b] + tail);
    hide Lex;
    assert ([b] + tail)[1..] == tail;
  }

  lemma TokensAfterSpace(b: byte, tail: bytes)
    requires IsSpace(b)
    ensures Tokens([b] + tail) == Tokens(tail)
  {
    LexSpace([b] + tail);
    hide Lex;
    assert ([b] + tail)[1..] == tail;
  }

  lemma {:induction false} TokensAfterSpaces(n: nat, tail: bytes)
    ensures Tokens(Spaces(n) + tail) == Tokens(tail)
  {
    if n == 0 {
      assert Spaces(0) + tail == tail;
    } else {
      TokensAfterSpace(SPACE, Spaces(n - 1) + tail);
      assert Spaces(n) + tail == [SPACE] + (Spaces(n - 1) + tail);
      TokensAfterSpaces(n - 1, tail);
    }
  }

  lemma TokensAfterBreak(pretty: bool, tail: bytes)
    ensures Tokens(LineBreak(pretty) + tail) == Tokens(tail)
  {
    if pretty {
      TokensAfterSpace(NEWLINE, tail);
    } else {
      assert [] + tail == tail;
    }
  }

  lemma TokensOfLiteral(text: bytes, tail: bytes)
    requires text == NULL || text == TRUE || text == FALSE
    ensures Tokens(text + tail) ==
            [if text == NULL then LiteralNull else if text == TRUE then LiteralTrue else LiteralFalse] + Tokens(tail)
  {
    var s := text + tail;
    assert s[..|text|] == text && s[|text|..] == tail;
    LexFixed(s);
    hide Lex;
  }

  lemma TokensOfString(s: bytes, tail: bytes)
    ensures Tokens(Quoted(s) + tail) == [StringToken(Quoted(s))] + Tokens(tail)
  {
    hide Escape, ExtraSpace, Lex, BodyLength;
    var text := Quoted(s) + tail;
    EscapedStringIsScannedWhole(s, tail);
    EscapeLength(s);
    assert text[1..] == Escape(s) + [QUOTE] + tail;
    LexString(text);
    var n := |Quoted(s)|;
    assert text[..n] == Quoted(s) && text[n..] == tail;
  }

  lemma TokensOfInteger(i: int, tail: bytes)
    requires tail == [] || EndsNumber(tail[0])
    ensures Tokens(IntToDecimal(i) + tail) == [NumberToken(IntToDecimal(i))] + Tokens(tail)
  {
    hide Lex, IntToDecimal, NumberLength;
    var d := IntToDecimal(i);
    var text := d + tail;
    IntDecimalRoundTrip(i);
    IntegerIsLongest(d, tail);
    NumberLengthIsLongest(text);
    LongestUnique(text, |d|, NumberLength(text).value);
    LexNumber(text);
    assert text[..|d|] == d && text[|d|..] == tail;
  }

  // ----- the syntax tree of a value -----

  function TreeOf(v: Json): Tree
    requires NoFloats(v)
    decreases v, 0
  {
    match v
    case Null => Scalar(LiteralNull)
    case Boolean(b) => Scalar(if b then LiteralTrue else LiteralFalse)
    case Integer(i) => Scalar(NumberToken(IntToDecimal(i)))
    case String(s) => Scalar(StringToken(Quoted(s)))
    case Array(es) => ArrayTree(TreesOf(es))
    case Object(ms) => ObjectTree(MemberTreesOf(ms))
  }

  function TreesOf(es: seq<Json>): (ts: seq<Tree>)
    requires forall e :: e in es ==> NoFloats(e)
    ensures |ts| == |es|
    decreases es, 1
  {
    if es == [] then [] else [TreeOf(es[0])] + TreesOf(es[1..])
  }

  function MemberTreesOf(ms: seq<Member>): (ts: seq<MemberTree>)
    requires forall m :: m in ms ==> NoFloats(m.value)
    ensures |ts| == |ms|
    decreases ms, 1
  {
    if ms == [] then [] else [MemberTree(Quoted(ms[0].key), TreeOf(ms[0].value))] + MemberTreesOf(ms[1..])
  }

  lemma {:induction false} StorableHasNoFloats(v: Json)
    requires Storable(v)
    ensures NoFloats(v)
  {
    match v
    case Array(es) =>
      forall e | e in es ensures NoFloats(e) {
        StorableHasNoFloats(e);
      }
    case Object(ms) =>
      forall m | m in ms ensures NoFloats(m.value) {
        StorableHasNoFloats(m.value);
      }
    case _ =>
  }

  lemma TokensOfClose(b: byte, pretty: bool, outer: uint32, tail: bytes)
    requires b == RIGHT_BRACKET || b == RIGHT_BRACE
    ensures var close := LineBreak(pretty) + (Spaces(outer) + ([b] + tail));
            EndsNumber(close[0]) && Tokens(close) == [Punctuation(b).value] + Tokens(tail)
  {
    hide Tokens;
    TokensAfterBreak(pretty, Spaces(outer) + ([b] + tail));
    TokensAfterSpaces(outer, [b] + tail);
    TokensOfPunctuation(b, tail);
  }

  lemma TokensOfBracketed(open: byte, body: bytes, close: byte, pretty: bool, outer: uint32,
                          inside: seq<Token>, tail: bytes)
    requires Punctuation(open).Some? && (close == RIGHT_BRACKET || close == RIGHT_BRACE)
    requires var after := LineBreak(pretty) + (Spaces(outer) + ([close] + tail));
             Tokens(body + after) == inside + Tokens(after)
    ensures Tokens(Bracketed(open, body, close, pretty, outer) + tail) ==
            [Punctuation(open).value] + inside + [Punctuation(close).value] + Tokens(tail)
  {
    hide Tokens;
    var after := LineBreak(pretty) + (Spaces(outer) + ([close] + tail));
    TokensOfClose(close, pretty, outer, tail);
    TokensAfterBreak(pretty, body + after);
    TokensOfPunctuation(open, LineBreak(pretty) + (body + after));
    hide Spaces, LineBreak;
    assert Bracketed(open, body, close, pretty, outer) + tail == [open] + (LineBreak(pretty) + (body + after));
  }

  /** The tokens of the printed text are those of the tree, whatever the layout. */
  lemma {:induction false} TokensOfDump(v: Json, pretty: bool, step: uint32, current: uint32, tail: bytes)
    requires NoFloats(v)
    requires tail == [] || EndsNumber(tail[0])
    ensures Tokens(Dump(v, pretty, step, current) + tail) == Yield(TreeOf(v)) + Tokens(tail)
    decreases v, 1
  {
    hide Tokens, Quoted, IntToDecimal;
    match v
    case Null => TokensOfLiteral(NULL, tail);
    case Boolean(b) => TokensOfLiteral(if b then TRUE else FALSE, tail);
    case Integer(i) => TokensOfInteger(i, tail);
    case String(s) => TokensOfString(s, tail);
    case Array(es) => TokensOfArray(v, pretty, step, current, tail);
    case Object(ms) => TokensOfObject(v, pretty, step, current, tail);
  }

  lemma TokensOfEmpty(tail: bytes)
    ensures Tokens([LEFT_BRACKET, RIGHT_BRACKET] + tail) == [BeginArray, EndArray] + Tokens(tail)
    ensures Tokens([LEFT_BRACE, RIGHT_BRACE] + tail) == [BeginObject, EndObject] + Tokens(tail)
  {
    hide Tokens;
    TokensOfPunctuation(LEFT_BRACKET, [RIGHT_BRACKET] + tail);
    TokensOfPunctuation(RIGHT_BRACKET, tail);
    assert [LEFT_BRACKET, RIGHT_BRACKET] + tail == [LEFT_BRACKET] + ([RIGHT_BRACKET] + tail);
    TokensOfPunctuation(LEFT_BRACE, [RIGHT_BRACE] + tail);
    TokensOfPunctuation(RIGHT_BRACE, tail);
    assert [LEFT_BRACE, RIGHT_BRACE] + tail == [LEFT_BRACE] + ([RIGHT_BRACE] + tail);
  }

  lemma {:induction false} TokensOfArray(v: Json, pretty: bool, step: uint32, current: uint32, tail: bytes)
    requires NoFloats(v) && v.Array?
    ensures Tokens(Dump(v, pretty, step, current) + tail) == Yield(TreeOf(v)) + Tokens(tail)
    decreases v, 0
  {
    hide Tokens, DumpElements, YieldElements, LineBreak, Spaces, Bracketed;
    var es := v.elements;
    if es == [] {
      TokensOfEmpty(tail);
      YieldOfNone();
    } else {
      var inner := if pretty then Wrap(current + step) else current;
      var outer := if pretty then Wrap(inner - step) else inner;
      TokensOfClose(RIGHT_BRACKET, pretty, outer, tail);
      TokensOfElements(es, pretty, step, inner, LineBreak(pretty) + (Spaces(outer) + ([RIGHT_BRACKET] + tail)));
      TokensOfBracketed(LEFT_BRACKET, DumpElements(es, pretty, step, inner), RIGHT_BRACKET, pretty, outer,
                        YieldElements(TreesOf(es)), tail);
    }
  }

  lemma {:induction false} TokensOfObject(v: Json, pretty: bool, step: uint32, current: uint32, tail: bytes)
    requires NoFloats(v) && v.Object?
    ensures Tokens(Dump(v, pretty, step, current) + tail) == Yield(TreeOf(v)) + Tokens(tail)
    decreases v, 0
  {
    hide Tokens, DumpMembers, YieldMembers, LineBreak, Spaces, Bracketed;
    var ms := v.members;
    if ms == [] {
      TokensOfEmpty(tail);
      YieldOfNone();
    } else {
      var inner := if pretty then Wrap(current + step) else current;
      var outer := if pretty then Wrap(inner - step) else inner;
      TokensOfClose(RIGHT_BRACE, pretty, outer, tail);
      TokensOfMembers(ms, pretty, step, inner, LineBreak(pretty) + (Spaces(outer) + ([RIGHT_BRACE] + tail)));
      TokensOfBracketed(LEFT_BRACE, DumpMembers(ms, pretty, step, inner), RIGHT_BRACE, pretty, outer,
                        YieldMembers(MemberTreesOf(ms)), tail);
    }
  }

  lemma YieldOfNone()
    ensures Yield(ArrayTree([])) == [BeginArray, EndArray] && Yield(ObjectTree([])) == [BeginObject, EndObject]
  {
  }

  lemma {:induction false} TokensOfElements(es: seq<Json>, pretty: bool, step: uint32, inner: uint32, tail: bytes)
    requires es != [] && forall e :: e in es ==> NoFloats(e)
    requires tail != [] && EndsNumber(tail[0])
    ensures Tokens(DumpElements(es, pretty, step, inner) + tail) == YieldElements(TreesOf(es)) + Tokens(tail)
    decreases es, 2
  {
    hide Tokens, Dump, TreeOf, Yield, NoFloats;
    var d, trees := Dump(es[0], pretty, step, inner), TreesOf(es);
    if |es| == 1 {
      TokensAfterSpaces(inner, d + tail);
      TokensOfDump(es[0], pretty, step, inner, tail);
      assert DumpElements(es, pretty, step, inner) + tail == Spaces(inner) + (d + tail);
    } else {
      var more := DumpElements(es[1..], pretty, step, inner) + tail;
      var next := [COMMA] + (LineBreak(pretty) + more);
      TokensOfElements(es[1..], pretty, step, inner, tail);
      TokensAfterBreak(pretty, more);
      TokensOfPunctuation(COMMA, LineBreak(pretty) + more);
      TokensOfDump(es[0], pretty, step, inner, next);
      TokensAfterSpaces(inner, d + next);
      assert trees[1..] == TreesOf(es[1..]);
      hide Spaces, LineBreak;
      Regroup(Spaces(inner), d, [COMMA], LineBreak(pretty), DumpElements(es[1..], pretty, step, inner), tail);
    }
  }

  lemma Regroup(a: bytes, b: bytes, c: bytes, d: bytes, e: bytes, f: bytes)
    ensures a + b + (c + d + e) + f == a + (b + (c + (d + (e + f))))
  {
  }

  lemma {:induction false} TokensOfMembers(ms: seq<Member>, pretty: bool, step: uint32, inner: uint32, tail: bytes)
    requires ms != [] && forall m :: m in ms ==> NoFloats(m.value)
    requires tail != [] && EndsNumber(tail[0])
    ensures Tokens(DumpMembers(ms, pretty, step, inner) + tail) == YieldMembers(MemberTreesOf(ms)) + Tokens(tail)
    decreases ms, 2
  {
    hide Tokens, DumpPair, TreeOf, YieldMember, NoFloats, Quoted;
    var trees := MemberTreesOf(ms);
    if |ms| == 1 {
      TokensOfPair(ms[0], pretty, step, inner, tail);
      assert DumpMembers(ms, pretty, step, inner) == DumpPair(ms[0], pretty, step, inner);
    } else {
      var more := DumpMembers(ms[1..], pretty, step, inner) + tail;
      var next := [COMMA] + (LineBreak(pretty) + more);
      TokensOfMembers(ms[1..], pretty, step, inner, tail);
      TokensAfterBreak(pretty, more);
      TokensOfPunctuation(COMMA, LineBreak(pretty) + more);
      TokensOfPair(ms[0], pretty, step, inner, next);
      assert trees[1..] == MemberTreesOf(ms[1..]);
      hide Spaces, LineBreak;
      assert DumpMembers(ms, pretty, step, inner) + tail == DumpPair(ms[0], pretty, step, inner) + next;
    }
  }

  lemma {:induction false} TokensOfPair(m: Member, pretty: bool, step: uint32, inner: uint32, tail: bytes)
    requires NoFloats(m.value)
    requires tail != [] && EndsNumber(tail[0])
    ensures Tokens(DumpPair(m, pretty, step, inner) + tail) ==
            YieldMember(MemberTree(Quoted(m.key), TreeOf(m.value))) + Tokens(tail)
    decreases m, 1
  {
    hide Tokens, Dump, TreeOf, Yield, NoFloats, Quoted, Spaces;
    var d := Dump(m.value, pretty, step, inner) + tail;
    var gap := if pretty then [SPACE] else [];
    TokensOfDump(m.value, pretty, step, inner, tail);
    if pretty {
      TokensAfterSpace(SPACE, d);
    } else {
      assert [] + d == d;
    }
    assert Tokens(gap + d) == Tokens(d);
    TokensOfPunctuation(COLON, gap + d);
    TokensOfString(m.key, [COLON] + (gap + d));
    TokensAfterSpaces(inner, Quoted(m.key) + ([COLON] + (gap + d)));
    assert DumpPair(m, pretty, step, inner) + tail == Spaces(inner) + (Quoted(m.key) + ([COLON] + (gap + d)));
  }

  // ----- the tree denotes the value -----

  lemma QuotedDecodes(s: bytes)
    ensures StringValue(Quoted(s)) == Ok(s)
  {
    hide Escape, Decode, IsBody;
    DecodeUndoesEscape(s);
    assert Quoted(s)[1..|Quoted(s)| - 1] == Escape(s);
  }

  lemma {:induction false} TreeDenotes(v: Json)
    requires Storable(v) && NoFloats(v)
    ensures WellFormed(TreeOf(v)) && Denote(TreeOf(v)) == v
    decreases v, 1
  {
    hide StringValue, NumberValue, Quoted, KeyOrdered;
    match v
    case Integer(i) => NumberDenotes(i);
    case String(s) => QuotedDecodes(s);
    case Array(es) =>
      hide DenoteElements, TreesOf;
      TreesDenote(es, []);
      AfterNothing(es);
    case Object(ms) => ObjectDenotes(v);
    case _ =>
  }

  lemma AfterNothing<T>(s: seq<T>)
    ensures [] + s == s
  {
  }

  lemma {:induction false} ObjectDenotes(v: Json)
    requires v.Object? && Storable(v) && NoFloats(v)
    ensures WellFormed(TreeOf(v)) && Denote(TreeOf(v)) == v
    decreases v, 0
  {
    hide StringValue, Quoted, BytesLess, DenoteMembers, MemberTreesOf;
    AfterNothing(v.members);
    MemberTreesDenote(v.members, []);
  }

  lemma NumberDenotes(i: int)
    requires INT64_MIN <= i <= INT64_MAX
    ensures NumberValue(IntToDecimal(i)) == Integer(i)
  {
    IntDecimalRoundTrip(i);
    IntegerHasItsValue(IntToDecimal(i));
    hide ValueOf, IntToDecimal, DecimalToInt;
  }

  lemma {:induction false} TreesDenote(es: seq<Json>, done: seq<Json>)
    requires forall e :: e in es ==> Storable(e) && NoFloats(e)
    ensures forall t :: t in TreesOf(es) ==> WellFormed(t)
    ensures DenoteElements(TreesOf(es), done) == done + es
    decreases es, 1
  {
    hide Storable, NoFloats, TreeOf, WellFormed, Denote;
    if es != [] {
      TreeDenotes(es[0]);
      assert TreesOf(es)[1..] == TreesOf(es[1..]);
      assert done + [es[0]] + es[1..] == done + es;
      TreesDenote(es[1..], done + [es[0]]);
    }
  }

  lemma {:induction false} MemberTreesDenote(ms: seq<Member>, done: seq<Member>)
    requires forall m :: m in ms ==> Storable(m.value) && NoFloats(m.value)
    requires KeyOrdered(done + ms)
    ensures forall t :: t in MemberTreesOf(ms) ==> StringValue(t.name).Ok? && WellFormed(t.value)
    ensures DenoteMembers(MemberTreesOf(ms), done) == done + ms
    decreases ms, 1
  {
    hide Storable, NoFloats, TreeOf, WellFormed, Denote, StringValue, Quoted, BytesLess, Assign;
    if ms != [] {
      var m := ms[0];
      TreeDenotes(m.value);
      QuotedDecodes(m.key);
      assert (done + ms)[|done|] == m;
      forall i | 0 <= i < |done| ensures BytesLess(done[i].key, m.key) {
        assert (done + ms)[i] == done[i];
      }
      AssignAppends(done, m.key, m.value);
      assert done + [m] + ms[1..] == done + ms;
      MemberTreesDenote(ms[1..], done + [m]);
      assert MemberTreesOf(ms)[1..] == MemberTreesOf(ms[1..]);
    } else {
      assert done + ms == done;
    }
  }

  /** Round trip: for every value and every indentation, parsing the printed text gives the value. */
  lemma ParseUndoesDump(v: Json, indent: int)
    requires Storable(v) && indent < 0x8000_0000
    ensures NoFloats(v) && Parse(Tokens(DumpText(v, indent))) == Ok(v)
  {
    hide Dump, Parse, Tokens, Denote, TreeOf, Yield, WellFormed;
    StorableHasNoFloats(v);
    var pretty, step := indent >= 0, if indent >= 0 then indent else 0;
    TokensOfDump(v, pretty, step, 0, []);
    assert DumpText(v, indent) + [] == DumpText(v, indent);
    TokensOfNothing();
    TreeDenotes(v);
    var none: seq<Token> := [];
    assert Tokens(DumpText(v, indent)) == Yield(TreeOf(v)) + ([EndOfInput] + none);
    ParseIsExact(Tokens(DumpText(v, indent)), v);
  }

  lemma TokensOfNothing()
    ensures Tokens([]) == [EndOfInput]
  {
    LexEnd([]);
  }
}
