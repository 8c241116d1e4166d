/**
 The layout of the printed text: compact text has no white space, pretty text is compact text with line
 breaks and indentation, and every line of it is indented by its depth.
 */
module JsonLayout {
  import opened Bytes
  import opened JsonDump
  import opened JsonLexer
  import opened JsonNumber
  import opened JsonString
  import opened JsonText
  import opened JsonValue

  // ----- strings and scalars -----

  function Quotes(n: nat): bytes {
    seq(n, _ => QUOTE)
  }

  lemma {:induction false} StaysInside(t: bytes)
    requires QUOTE !in t && BACKSLASH !in t
    ensures After(Inside, t) == Inside && Masked(Inside, t) == Quotes(|t|)
  {
    if t != [] {
      StaysInside(t[1..]);
      assert t[0] in t;
    }
  }

  /** The escape of a byte neither ends the string nor leaves it in the middle of an escape. */
  lemma EscapeStaysInside(c: byte)
    ensures var e := EscapeByte(c); After(Inside, e) == Inside && Masked(Inside, e) == Quotes(|e|)
  {
    EscapeForms(c);
    var e := EscapeByte(c);
    hide EscapeByte, EscapedCode;
    if |e| == 1 {
      StaysInside(e);
    } else {
      var t := e[2..];
      assert e == [BACKSLASH] + ([e[1]] + t);
      StepFront(Inside, BACKSLASH, [e[1]] + t);
      StepFront(Escaped, e[1], t);
      if |e| == 6 {
        assert t == [e[2], e[3], e[4], e[5]];
      }
      StaysInside(t);
      hide After, Masked;
      assert [QUOTE] + ([QUOTE] + Quotes(|t|)) == Quotes(|e|);
    }
  }

  lemma {:induction false} EscapedStaysInside(s: bytes)
    ensures After(Inside, Escape(s)) == Inside && Masked(Inside, Escape(s)) == Quotes(|Escape(s)|)
  {
    if s != [] {
      EscapedStaysInside(s[1..]);
      EscapeStaysInside(s[0]);
      assert s == [s[0]] + s[1..];
      EscapeFront(s[0], s[1..]);
      hide Escape, EscapeByte, After, Masked;
      MaskedSum(Inside, EscapeByte(s[0]), Escape(s[1..]));
    }
  }

  lemma OuterOfQuoted(s: bytes)
    ensures Closed(Quoted(s)) && Outer(Quoted(s)) == Quotes(|Quoted(s)|)
    ensures |Quoted(s)| >= 2
  {
    EscapedStaysInside(s);
    hide Escape;
    var e := Escape(s);
    StepFront(Outside, QUOTE, e + [QUOTE]);
    MaskedSum(Inside, e, [QUOTE]);
    StepFront(Inside, QUOTE, []);
    assert [QUOTE] + [] == [QUOTE];
    assert Quoted(s) == [QUOTE] + (e + [QUOTE]);
  }

  predicate PlainByte(b: byte) {
    !White(b) && !Opening(b) && !Closing(b) && !IsChar(b, ',') && !IsChar(b, ':')
  }

  predicate Plain(s: bytes) {
    s != [] && forall i :: 0 <= i < |s| ==> PlainByte(s[i])
  }

  lemma DecimalBytes(i: int)
    ensures var d := IntToDecimal(i); d != [] && forall k :: 0 <= k < |d| ==> d[k] == MINUS || IsDigit(d[k])
  {
    IntDecimalRoundTrip(i);
    hide IntToDecimal, DecimalToInt;
  }

  predicate IsScalar(v: Json) {
    v.Null? || v.Boolean? || v.Integer? || v.String?
  }

  lemma LetterIsPlain(b: byte)
    ensures 0x61 <= b <= 0x7A ==> PlainByte(b) && b != QUOTE
  {
  }

  lemma OuterOfLiteral(t: bytes)
    requires t == NULL || t == TRUE || t == FALSE
    ensures Closed(t) && Outer(t) == t && Plain(t)
  {
    hide PlainByte, Closed, Outer;
    forall i | 0 <= i < |t| ensures t[i] != QUOTE && PlainByte(t[i]) {
      assert 0x61 <= t[i] <= 0x7A;
      LetterIsPlain(t[i]);
    }
    NoQuotes(t);
  }

  lemma OuterOfInteger(i: int)
    ensures var t := IntToDecimal(i); Closed(t) && Outer(t) == t && Plain(t)
  {
    DecimalBytes(i);
    var t := IntToDecimal(i);
    hide IntToDecimal, Closed, Outer;
    forall k | 0 <= k < |t| ensures t[k] != QUOTE && PlainByte(t[k]) {
    }
    NoQuotes(t);
  }

  lemma QuotesArePlain(s: bytes)
    ensures Closed(Quoted(s)) && Plain(Outer(Quoted(s)))
  {
    OuterOfQuoted(s);
    hide Closed, Outer, Quoted;
  }

  lemma NothingToStrip(t: bytes)
    requires Plain(Outer(t))
    ensures Strip(t) == t
  {
    hide Outer;
    KeepAll(t, Outer(t));
  }

  lemma OuterOfScalar(v: Json, pretty: bool, step: uint32, current: uint32)
    requires IsScalar(v)
    ensures var t := Dump(v, pretty, step, current);
            Closed(t) && Plain(Outer(t)) && t == Dump(v, false, 0, 0) && Strip(t) == t
  {
    var t := Dump(v, pretty, step, current);
    assert t == Dump(v, false, 0, 0);
    match v {
      case String(s) => QuotesArePlain(s);
      case Integer(i) => OuterOfInteger(i);
      case _ => OuterOfLiteral(t);
    }
    hide IntToDecimal, Closed, Outer, Quoted, Dump;
    NothingToStrip(t);
  }

  // ----- white space and brackets -----

  lemma {:induction false} KeepNone(s: bytes)
    requires forall i :: 0 <= i < |s| ==> White(s[i])
    ensures Keep(s, s) == []
  {
    if s != [] {
      KeepNone(s[1..]);
    }
  }

  lemma OuterOfSpace(s: bytes)
    requires forall i :: 0 <= i < |s| ==> White(s[i])
    ensures Closed(s) && Outer(s) == s && Strip(s) == []
  {
    NoQuotes(s);
    KeepNone(s);
  }

  lemma OuterOfByte(b: byte)
    requires b != QUOTE && !White(b)
    ensures Closed([b]) && Outer([b]) == [b] && Strip([b]) == [b]
  {
    NoQuotes([b]);
    KeepAll([b], [b]);
  }

  /** Both views of two texts one after the other. */
  lemma Join(a: bytes, b: bytes)
    requires Closed(a) && Closed(b)
    ensures Closed(a + b) && Outer(a + b) == Outer(a) + Outer(b) && Strip(a + b) == Strip(a) + Strip(b)
  {
    OuterSum(a, b);
    StripSum(a, b);
  }

  lemma OuterOfBracketed(open: byte, body: bytes, close: byte, pretty: bool, outer: uint32)
    requires Opening(open) && Closing(close) && Closed(body)
    ensures var t := Bracketed(open, body, close, pretty, outer);
            Closed(t) && Strip(t) == [open] + Strip(body) + [close] &&
            Outer(t) == [open] + LineBreak(pretty) + Outer(body) + LineBreak(pretty) + Spaces(outer) + [close]
  {
    OuterOfByte(open);
    OuterOfByte(close);
    OuterOfSpace(LineBreak(pretty));
    OuterOfSpace(Spaces(outer));
    hide Closed, Outer, Strip, LineBreak, Spaces, Opening, Closing;
    Join([open], LineBreak(pretty));
    Join([open] + LineBreak(pretty), body);
    Join([open] + LineBreak(pretty) + body, LineBreak(pretty));
    Join([open] + LineBreak(pretty) + body + LineBreak(pretty), Spaces(outer));
    Join([open] + LineBreak(pretty) + body + LineBreak(pretty) + Spaces(outer), [close]);
    Dropped(open, Strip(body), close);
  }

  lemma Dropped(open: byte, body: bytes, close: byte)
    ensures [open] + [] + body + [] + [] + [close] == [open] + body + [close]
  {
  }

  // ----- stripping gives the compact text -----

  /** The printed text ends outside strings, and without its white space it is the compact text. */
  lemma {:induction false} StripOfDump(v: Json, pretty: bool, step: uint32, current: uint32)
    requires NoFloats(v)
    ensures Closed(Dump(v, pretty, step, current)) && Strip(Dump(v, pretty, step, current)) == Dump(v, false, 0, 0)
    decreases v, 1
  {
    if IsScalar(v) {
      OuterOfScalar(v, pretty, step, current);
    } else if v.Array? {
      StripOfArray(v, pretty, step, current);
    } else {
      StripOfObject(v, pretty, step, current);
    }
  }

  lemma StripOfEmpty(open: byte, close: byte)
    requires Opening(open) && Closing(close)
    ensures Closed([open, close]) && Outer([open, close]) == [open, close] && Strip([open, close]) == [open, close]
  {
    NoQuotes([open, close]);
    KeepAll([open, close], [open, close]);
  }

  lemma {:induction false} StripOfArray(v: Json, pretty: bool, step: uint32, current: uint32)
    requires NoFloats(v) && v.Array?
    ensures Closed(Dump(v, pretty, step, current)) && Strip(Dump(v, pretty, step, current)) == Dump(v, false, 0, 0)
    decreases v, 0
  {
    hide Closed, Strip, DumpElements, Bracketed;
    StripOfEmpty(LEFT_BRACKET, RIGHT_BRACKET);
    if v.elements != [] {
      var inner := if pretty then Wrap(current + step) else current;
      var outer := if pretty then Wrap(inner - step) else inner;
      StripOfElements(v.elements, pretty, step, inner);
      OuterOfBracketed(LEFT_BRACKET, DumpElements(v.elements, pretty, step, inner), RIGHT_BRACKET, pretty, outer);
      CompactBracketed(LEFT_BRACKET, DumpElements(v.elements, false, 0, 0), RIGHT_BRACKET);
    }
  }

  lemma {:induction false} StripOfObject(v: Json, pretty: bool, step: uint32, current: uint32)
    requires NoFloats(v) && v.Object?
    ensures Closed(Dump(v, pretty, step, current)) && Strip(Dump(v, pretty, step, current)) == Dump(v, false, 0, 0)
    decreases v, 0
  {
    hide Closed, Strip, DumpMembers, Bracketed;
    StripOfEmpty(LEFT_BRACE, RIGHT_BRACE);
    if v.members != [] {
      var inner := if pretty then Wrap(current + step) else current;
      var outer := if pretty then Wrap(inner - step) else inner;
      StripOfMembers(v.members, pretty, step, inner);
      OuterOfBracketed(LEFT_BRACE, DumpMembers(v.members, pretty, step, inner), RIGHT_BRACE, pretty, outer);
      CompactBracketed(LEFT_BRACE, DumpMembers(v.members, false, 0, 0), RIGHT_BRACE);
    }
  }

  lemma CompactBracketed(open: byte, body: bytes, close: byte)
    ensures Bracketed(open, body, close, false, 0) == [open] + body + [close]
  {
  }

  /** What stands between two elements or members. */
  lemma OuterOfSeparator(pretty: bool)
    ensures var t := [COMMA] + LineBreak(pretty); Closed(t) && Outer(t) == t && Strip(t) == [COMMA]
  {
    OuterOfByte(COMMA);
    OuterOfSpace(LineBreak(pretty));
    Join([COMMA], LineBreak(pretty));
  }

  lemma OuterOfElements(es: seq<Json>, pretty: bool, step: uint32, inner: uint32)
    requires es != [] && forall e :: e in es ==> NoFloats(e)
    requires Closed(Dump(es[0], pretty, step, inner))
    requires |es| > 1 ==> Closed(DumpElements(es[1..], pretty, step, inner))
    ensures var t, first := DumpElements(es, pretty, step, inner), Dump(es[0], pretty, step, inner);
            Closed(t) &&
            if |es| == 1 then Outer(t) == Spaces(inner) + Outer(first) && Strip(t) == Strip(first)
            else
              var more := DumpElements(es[1..], pretty, step, inner);
              Outer(t) == Spaces(inner) + Outer(first) + ([COMMA] + LineBreak(pretty) + Outer(more)) &&
              Strip(t) == Strip(first) + ([COMMA] + Strip(more))
  {
    var first := Dump(es[0], pretty, step, inner);
    OuterOfSpace(Spaces(inner));
    hide Closed, Outer, Strip, LineBreak, Spaces, Dump;
    Join(Spaces(inner), first);
    Nothing(Strip(first));
    if |es| == 1 {
      assert DumpElements(es, pretty, step, inner) == Spaces(inner) + first + [];
      Nothing(Spaces(inner) + first);
    } else {
      var more := DumpElements(es[1..], pretty, step, inner);
      OuterOfSeparator(pretty);
      Join([COMMA] + LineBreak(pretty), more);
      Join(Spaces(inner) + first, [COMMA] + LineBreak(pretty) + more);
    }
  }

  lemma Nothing(s: bytes)
    ensures [] + s == s && s + [] == s
  {
  }

  lemma {:induction false} StripOfElements(es: seq<Json>, pretty: bool, step: uint32, inner: uint32)
    requires es != [] && forall e :: e in es ==> NoFloats(e)
    ensures Closed(DumpElements(es, pretty, step, inner))
    ensures Strip(DumpElements(es, pretty, step, inner)) == DumpElements(es, false, 0, 0)
    decreases es, 2
  {
    hide Closed, Outer, Strip, Dump, NoFloats;
    StripOfDump(es[0], pretty, step, inner);
    var first := Dump(es[0], false, 0, 0);
    if |es| > 1 {
      StripOfElements(es[1..], pretty, step, inner);
    }
    OuterOfElements(es, pretty, step, inner);
    assert Spaces(0) + first == first;
    Nothing(first);
  }

  /** The name of a member with its colon. */
  function Label(key: bytes, pretty: bool): bytes {
    Quoted(key) + [COLON] + if pretty then [SPACE] else []
  }

  lemma OuterOfLabel(key: bytes, pretty: bool)
    ensures Closed(Label(key, pretty)) && Strip(Label(key, pretty)) == Quoted(key) + [COLON]
    ensures Outer(Label(key, pretty)) == Quotes(|Quoted(key)|) + [COLON] + if pretty then [SPACE] else []
  {
    var q := Quoted(key);
    var gap := if pretty then [SPACE] else [];
    OuterOfQuoted(key);
    hide Quoted;
    KeepAll(q, Outer(q));
    OuterOfByte(COLON);
    OuterOfSpace(gap);
    hide Closed, Outer;
    Join(q, [COLON]);
    Join(q + [COLON], gap);
    hide Strip;
    Nothing(q + [COLON]);
  }

  lemma OuterOfMembers(ms: seq<Member>, pretty: bool, step: uint32, inner: uint32)
    requires ms != [] && forall m :: m in ms ==> NoFloats(m.value)
    requires Closed(Dump(ms[0].value, pretty, step, inner))
    requires |ms| > 1 ==> Closed(DumpMembers(ms[1..], pretty, step, inner))
    ensures var t, first := DumpMembers(ms, pretty, step, inner), Dump(ms[0].value, pretty, step, inner);
            var prefix := Label(ms[0].key, pretty);
            Closed(t) &&
            if |ms| == 1 then
              Outer(t) == Spaces(inner) + Outer(prefix) + Outer(first) && Strip(t) == Strip(prefix) + Strip(first)
            else
              var more := DumpMembers(ms[1..], pretty, step, inner);
              Outer(t) ==
              Spaces(inner) + Outer(prefix) + Outer(first) + ([COMMA] + LineBreak(pretty) + Outer(more)) &&
              Strip(t) == Strip(prefix) + Strip(first) + ([COMMA] + Strip(more))
  {
    var first, prefix := Dump(ms[0].value, pretty, step, inner), Label(ms[0].key, pretty);
    PairIsLabelled(ms[0], pretty, step, inner);
    OuterOfSpace(Spaces(inner));
    OuterOfLabel(ms[0].key, pretty);
    hide Closed, Outer, Strip, LineBreak, Spaces, Dump, Label, DumpPair;
    Join(Spaces(inner), prefix);
    Nothing(Strip(prefix));
    Join(Spaces(inner) + prefix, first);
    if |ms| == 1 {
      Nothing(Spaces(inner) + prefix + first);
    } else {
      var more := DumpMembers(ms[1..], pretty, step, inner);
      OuterOfSeparator(pretty);
      Join([COMMA] + LineBreak(pretty), more);
      Join(Spaces(inner) + prefix + first, [COMMA] + LineBreak(pretty) + more);
    }
  }

  lemma PairIsLabelled(m: Member, pretty: bool, step: uint32, inner: uint32)
    requires NoFloats(m.value)
    ensures DumpPair(m, pretty, step, inner) ==
            Spaces(inner) + Label(m.key, pretty) + Dump(m.value, pretty, step, inner)
  {
    hide Quoted, Dump, Spaces;
  }

  lemma {:induction false} StripOfMembers(ms: seq<Member>, pretty: bool, step: uint32, inner: uint32)
    requires ms != [] && forall m :: m in ms ==> NoFloats(m.value)
    ensures Closed(DumpMembers(ms, pretty, step, inner))
    ensures Strip(DumpMembers(ms, pretty, step, inner)) == DumpMembers(ms, false, 0, 0)
    decreases ms, 2
  {
    hide Closed, Outer, Strip, Dump, NoFloats, Quoted;
    var m := ms[0];
    StripOfDump(m.value, pretty, step, inner);
    if |ms| > 1 {
      StripOfMembers(ms[1..], pretty, step, inner);
    }
    OuterOfMembers(ms, pretty, step, inner);
    OuterOfLabel(m.key, pretty);
    CompactMembers(ms);
    hide DumpMembers, Label;
  }

  lemma CompactMembers(ms: seq<Member>)
    requires ms != [] && forall m :: m in ms ==> NoFloats(m.value)
    ensures var first := Quoted(ms[0].key) + [COLON] + Dump(ms[0].value, false, 0, 0);
            DumpMembers(ms, false, 0, 0) ==
            if |ms| == 1 then first else first + ([COMMA] + DumpMembers(ms[1..], false, 0, 0))
  {
    var first := Quoted(ms[0].key) + [COLON] + Dump(ms[0].value, false, 0, 0);
    CompactPair(ms[0]);
    hide Quoted, Dump, DumpPair, NoFloats;
    if |ms| == 1 {
      Nothing(first);
    } else {
      var more := DumpMembers(ms[1..], false, 0, 0);
      hide DumpMembers;
      assert LineBreak(false) == [];
      Nothing([COMMA]);
      MembersFront(ms);
    }
  }

  lemma MembersFront(ms: seq<Member>)
    requires |ms| > 1 && forall m :: m in ms ==> NoFloats(m.value)
    ensures DumpMembers(ms, false, 0, 0) ==
            DumpPair(ms[0], false, 0, 0) + ([COMMA] + LineBreak(false) + DumpMembers(ms[1..], false, 0, 0))
  {
    hide DumpPair, LineBreak, NoFloats;
  }

  lemma CompactPair(m: Member)
    requires NoFloats(m.value)
    ensures DumpPair(m, false, 0, 0) == Quoted(m.key) + [COLON] + Dump(m.value, false, 0, 0)
  {
    hide Quoted, Dump;
    assert Spaces(0) == [];
  }

  /** Compact text has no white space outside its strings. */
  lemma CompactHasNoSpace(v: Json, indent: int)
    requires NoFloats(v) && indent < 0
    ensures forall i :: 0 <= i < |Outer(DumpText(v, indent))| ==> !White(Outer(DumpText(v, indent))[i])
  {
    var t := DumpText(v, indent);
    StripOfDump(v, false, 0, 0);
    KeepAll(t, Outer(t));
  }

  /** Pretty text is compact text with white space put in, and none of it inside a string. */
  lemma PrettyStripsToCompact(v: Json, indent: int)
    requires NoFloats(v) && indent < 0x8000_0000
    ensures Closed(DumpText(v, indent)) && Strip(DumpText(v, indent)) == DumpText(v, -1)
  {
    hide Closed, Strip, Dump;
    StripOfDump(v, indent >= 0, if indent >= 0 then indent else 0, 0);
  }

  // ----- the lines of pretty text -----

  /** What may stand before a value on its line: nothing, or the name of a member. */
  predicate Head(h: bytes) {
    h == [] || (|h| >= 4 && h == Quotes(|h| - 2) + [COLON, SPACE])
  }

  predicate Suffix(s: bytes) {
    s == [] || s == [COMMA]
  }

  /** The rule at a place, with more bytes in front. */
  lemma RuleMoves(h: bytes, t: bytes, i: nat)
    requires i < |t| && RuleAt(t, i) && (i == 0 ==> !Closing(t[0]))
    ensures RuleAt(h + t, |h| + i)
  {
    var c, k := h + t, |h| + i;
    assert c[k] == t[i];
    if i > 0 {
      assert c[k - 1] == t[i - 1];
    }
    if i + 1 < |t| {
      assert c[k + 1] == t[i + 1];
    }
  }

  lemma HeadIsRight(h: bytes, t: bytes)
    requires Head(h) && ContentRule(t) && t != [] && !Closing(t[0])
    ensures ContentRule(h + t) && (h + t)[0] == if h == [] then t[0] else QUOTE
  {
    var c, n := h + t, |h|;
    forall i | 0 <= i < |c| ensures RuleAt(c, i) {
      if i >= n {
        RuleMoves(h, t, i - n);
      } else if i < n - 2 {
        assert c[i] == QUOTE;
      } else {
        assert c[n - 2] == COLON && c[n - 1] == SPACE;
      }
    }
  }

  lemma PlainIsRight(core: bytes, s: bytes)
    requires Plain(core) && Suffix(s)
    ensures ContentRule(core + s)
  {
    var t := core + s;
    forall i | 0 <= i < |t| ensures RuleAt(t, i) {
      if i < |core| {
        assert t[i] == core[i] && PlainByte(core[i]);
      } else {
        assert t[i] == COMMA;
      }
    }
  }

  lemma BracketsAreRight(open: byte, close: byte, s: bytes)
    requires Opening(open) && Match(open, close) && Suffix(s)
    ensures ContentRule([open]) && ContentRule([open, close] + s) && ContentRule([close] + s)
  {
    hide White;
    BracketIsNoSpace(open);
    BracketIsNoSpace(close);
    BracketIsNoSpace(COMMA);
    forall i | 0 <= i < 2 + |s| ensures RuleAt([open, close] + s, i) {
    }
    forall i | 0 <= i < 1 + |s| ensures RuleAt([close] + s, i) {
    }
  }

  lemma BracketIsNoSpace(b: byte)
    ensures Opening(b) || Closing(b) || b == COMMA ==> !White(b)
  {
  }

  lemma {:induction false} LeadingOf(n: nat, c: bytes)
    requires c != [] && !White(c[0])
    ensures Leading(Spaces(n) + c) == n && Content(Spaces(n) + c) == c
  {
    if n == 0 {
      assert Spaces(0) + c == c;
    } else {
      assert (Spaces(n) + c)[1..] == Spaces(n - 1) + c;
      LeadingOf(n - 1, c);
    }
  }

  lemma {:induction false} NetOfNone(s: bytes)
    requires forall i :: 0 <= i < |s| ==> Weight(s[i]) == 0
    ensures Net(s) == 0
  {
    if s != [] {
      NetOfNone(s[1..]);
    }
  }

  lemma NetOfHead(n: nat, h: bytes)
    requires Head(h)
    ensures Net(Spaces(n)) == 0 && Net(h) == 0 && NEWLINE !in Spaces(n) && NEWLINE !in h
    ensures h == [] || h[0] == QUOTE
  {
    NetOfNone(Spaces(n));
    if h != [] {
      forall i | 0 <= i < |h| ensures Weight(h[i]) == 0 && h[i] != NEWLINE {
      }
      NetOfNone(h);
    }
  }

  /** The first line of a value, or its only one. */
  lemma ValueLine(depth: nat, step: nat, h: bytes, t: bytes)
    requires Head(h) && t != [] && ContentRule(t) && !Closing(t[0]) && !White(t[0])
    ensures var line := Spaces(Indentation(depth, step)) + (h + t);
            LineRule(line, depth, step) && !Closes(line) && (Continues(line) <==> Continues(t)) &&
            Net(line) == Net(t) && (NEWLINE !in t ==> NEWLINE !in line)
  {
    var n := Indentation(depth, step);
    var c, line := h + t, Spaces(n) + (h + t);
    HeadIsRight(h, t);
    NetOfHead(n, h);
    NetSum(Spaces(n), c);
    NetSum(h, t);
    LeadingOf(n, c);
    assert line[|line| - 1] == t[|t| - 1];
    hide ContentRule, Net, Spaces;
  }

  /** The line of a closing bracket. */
  lemma ClosingLine(depth: nat, step: nat, open: byte, close: byte, s: bytes)
    requires Opening(open) && Match(open, close) && Suffix(s)
    ensures var line := Spaces(Indentation(depth, step)) + ([close] + s);
            LineRule(line, depth + 1, step) && Closes(line) && (Continues(line) <==> s == [COMMA]) &&
            Net(line) == -1 && NEWLINE !in line
  {
    var n, t := Indentation(depth, step), [close] + s;
    var line := Spaces(n) + t;
    BracketsAreRight(open, close, s);
    BracketIsNoSpace(close);
    NetOfHead(n, []);
    NetSum(Spaces(n), t);
    NetSum([close], s);
    NetOfNone(s);
    LeadingOf(n, t);
    assert line[|line| - 1] == t[|t| - 1];
    hide ContentRule, Spaces;
  }

  /** The lines of a whole value: they are laid out, close what they open, and end as the suffix says. */
  predicate Block(lines: seq<bytes>, depth: int, step: nat, s: bytes) {
    lines != [] && LaidOut(lines, depth, step) && NetOfLines(lines) == 0 &&
    !Closes(lines[0]) && (Continues(lines[|lines| - 1]) <==> s == [COMMA])
  }

  lemma LaidOutLine(line: bytes, depth: int, step: nat)
    requires LineRule(line, depth, step)
    ensures LaidOut([line], depth, step) && NetOfLines([line]) == Net(line)
  {
    hide LineRule, Net;
  }

  lemma OneLineBlock(line: bytes, depth: int, step: nat, s: bytes)
    requires LineRule(line, depth, step) && !Closes(line) && (Continues(line) <==> s == [COMMA])
    requires Net(line) == 0 && NEWLINE !in line
    ensures Block(Lines(line), depth, step, s)
  {
    OneLine(line);
    LaidOutLine(line, depth, step);
    hide Lines, Net, LineRule, Closes, Continues, LaidOut, NetOfLines;
  }

  lemma TwoBlocks(a: seq<bytes>, b: seq<bytes>, depth: int, step: nat, s: bytes)
    requires Block(a, depth, step, [COMMA]) && Block(b, depth, step, s)
    ensures Block(a + b, depth, step, s)
  {
    hide Closes, Continues, LaidOut, NetOfLines;
    Stack(a, b, depth, step);
  }

  /** A body of lines between a line that opens a bracket and a line that closes it. */
  lemma Enclosed(first: bytes, body: seq<bytes>, last: bytes, depth: int, step: nat, s: bytes)
    requires LineRule(first, depth, step) && !Closes(first) && Continues(first) && Net(first) == 1
    requires Block(body, depth + 1, step, [])
    requires LineRule(last, depth + 1, step) && Closes(last) && (Continues(last) <==> s == [COMMA]) && Net(last) == -1
    ensures Block([first] + (body + [last]), depth, step, s)
  {
    LaidOutLine(first, depth, step);
    LaidOutLine(last, depth + 1, step);
    hide Closes, Continues, LaidOut, NetOfLines, LineRule, Net;
    Stack(body, [last], depth + 1, step);
    Stack([first], body + [last], depth, step);
  }

  lemma LinesOfBracketed(open: byte, body: bytes, close: byte, depth: nat, step: nat, h: bytes, s: bytes)
    requires Opening(open) && Match(open, close) && Head(h) && Suffix(s)
    requires Block(Lines(body), depth + 1, step, [])
    ensures var margin := Spaces(Indentation(depth, step));
            var text := [open] + [NEWLINE] + body + [NEWLINE] + margin + [close];
            Block(Lines(margin + (h + (text + s))), depth, step, s)
  {
    var margin := Spaces(Indentation(depth, step));
    var text := [open] + [NEWLINE] + body + [NEWLINE] + margin + [close];
    var first, last := margin + (h + [open]), margin + ([close] + s);
    BracketsAreRight(open, close, s);
    BracketIsNoSpace(open);
    ValueLine(depth, step, h, [open]);
    ClosingLine(depth, step, open, close, s);
    NetOfBracket(open);
    hide Lines, Block, LineRule, Closes, Continues, Spaces, Indentation, ContentRule, Net, Head, Suffix;
    SplitBracketed(margin, h, open, body, close, s);
    OneLine(first);
    OneLine(last);
    LinesSum(body, last);
    LinesSum(first, body + ([NEWLINE] + last));
    Enclosed(first, Lines(body), last, depth, step, s);
  }

  lemma NetOfBracket(open: byte)
    requires Opening(open)
    ensures Net([open]) == 1 && Continues([open]) && NEWLINE !in [open] && !Closing(open)
  {
  }

  lemma SplitBracketed(margin: bytes, h: bytes, open: byte, body: bytes, close: byte, s: bytes)
    ensures var text := [open] + [NEWLINE] + body + [NEWLINE] + margin + [close];
            margin + (h + (text + s)) ==
            (margin + (h + [open])) + ([NEWLINE] + (body + ([NEWLINE] + (margin + ([close] + s)))))
  {
  }

  lemma PlainBlock(core: bytes, depth: nat, step: nat, h: bytes, s: bytes)
    requires Plain(core) && Head(h) && Suffix(s)
    ensures Block(Lines(Spaces(Indentation(depth, step)) + (h + (core + s))), depth, step, s)
  {
    var t := core + s;
    PlainIsRight(core, s);
    assert t[0] == core[0] && PlainByte(core[0]);
    PlainLine(core, s);
    ValueLine(depth, step, h, t);
    hide Lines, Block, LineRule, Closes, Continues, Spaces, Indentation, ContentRule, Net, Head, Plain;
    OneLineBlock(Spaces(Indentation(depth, step)) + (h + t), depth, step, s);
  }

  lemma PlainLine(core: bytes, s: bytes)
    requires Plain(core) && Suffix(s)
    ensures var t := core + s; Net(t) == 0 && NEWLINE !in t && (Continues(t) <==> s == [COMMA])
  {
    var t := core + s;
    forall i | 0 <= i < |t| ensures Weight(t[i]) == 0 && t[i] != NEWLINE {
      if i < |core| {
        assert t[i] == core[i] && PlainByte(core[i]);
      } else {
        assert t[i] == COMMA;
      }
    }
    NetOfNone(t);
    assert PlainByte(core[|core| - 1]);
    assert t[|t| - 1] == if s == [] then core[|core| - 1] else COMMA;
  }

  lemma EmptyBlock(open: byte, close: byte, depth: nat, step: nat, h: bytes, s: bytes)
    requires Opening(open) && Match(open, close) && Head(h) && Suffix(s)
    ensures Block(Lines(Spaces(Indentation(depth, step)) + (h + ([open, close] + s))), depth, step, s)
  {
    var t := [open, close] + s;
    BracketsAreRight(open, close, s);
    BracketIsNoSpace(open);
    EmptyLine(open, close, s);
    ValueLine(depth, step, h, t);
    hide Lines, Block, LineRule, Closes, Continues, Spaces, Indentation, ContentRule, Net, Head;
    OneLineBlock(Spaces(Indentation(depth, step)) + (h + t), depth, step, s);
  }

  lemma EmptyLine(open: byte, close: byte, s: bytes)
    requires Opening(open) && Match(open, close) && Suffix(s)
    ensures var t := [open, close] + s;
            !Closing(t[0]) && Net(t) == 0 && NEWLINE !in t && (Continues(t) <==> s == [COMMA])
  {
    var t := [open, close] + s;
    NetSum([open, close], s);
    NetOfNone(s);
    assert t[|t| - 1] == if s == [] then close else COMMA;
    assert [open, close][1..] == [close];
  }

  lemma IndentationSteps(depth: nat, step: uint32)
    ensures Wrap(Indentation(depth, step) + step) == Indentation(depth + 1, step)
    ensures Wrap(Indentation(depth + 1, step) - step) == Indentation(depth, step)
    ensures Indentation(0, step) == 0
  {
    var x := depth * step;
    assert (depth + 1) * step == x + step;
    Wrapped(x, step);
  }

  lemma Wrapped(x: nat, y: nat)
    ensures Wrap(x % 0x1_0000_0000 + y) == (x + y) % 0x1_0000_0000
    ensures Wrap((x + y) % 0x1_0000_0000 - y) == x % 0x1_0000_0000
  {
  }

  /** The lines of a printed value, behind its indentation and its name, with or without a comma at the end. */
  lemma {:induction false} LinesOfValue(v: Json, step: uint32, depth: nat, h: bytes, s: bytes)
    requires NoFloats(v) && Head(h) && Suffix(s)
    ensures var n := Indentation(depth, step);
            Block(Lines(Spaces(n) + (h + (Outer(Dump(v, true, step, n)) + s))), depth, step, s)
    decreases v, 1
  {
    var n := Indentation(depth, step);
    if IsScalar(v) {
      OuterOfScalar(v, true, step, n);
      hide Lines, Block, Spaces, Indentation, Outer, Dump, Head, Plain;
      PlainBlock(Outer(Dump(v, true, step, n)), depth, step, h, s);
    } else if v.Array? {
      LinesOfArray(v, step, depth, h, s);
    } else {
      LinesOfObject(v, step, depth, h, s);
    }
  }

  lemma {:induction false} LinesOfArray(v: Json, step: uint32, depth: nat, h: bytes, s: bytes)
    requires NoFloats(v) && Head(h) && Suffix(s) && v.Array?
    ensures var n := Indentation(depth, step);
            Block(Lines(Spaces(n) + (h + (Outer(Dump(v, true, step, n)) + s))), depth, step, s)
    decreases v, 0
  {
    hide Lines, Block, Spaces, Indentation, Outer, DumpElements, Head, Suffix, Wrap, Bracketed, Closed, Strip;
    if v.elements == [] {
      StripOfEmpty(LEFT_BRACKET, RIGHT_BRACKET);
      EmptyBlock(LEFT_BRACKET, RIGHT_BRACKET, depth, step, h, s);
    } else {
      var inner := Indentation(depth + 1, step);
      var body := DumpElements(v.elements, true, step, inner);
      IndentationSteps(depth, step);
      StripOfElements(v.elements, true, step, inner);
      OuterOfBracketed(LEFT_BRACKET, body, RIGHT_BRACKET, true, Indentation(depth, step));
      LinesOfElements(v.elements, step, depth + 1);
      LinesOfBracketed(LEFT_BRACKET, Outer(body), RIGHT_BRACKET, depth, step, h, s);
    }
  }

  lemma {:induction false} LinesOfObject(v: Json, step: uint32, depth: nat, h: bytes, s: bytes)
    requires NoFloats(v) && Head(h) && Suffix(s) && v.Object?
    ensures var n := Indentation(depth, step);
            Block(Lines(Spaces(n) + (h + (Outer(Dump(v, true, step, n)) + s))), depth, step, s)
    decreases v, 0
  {
    hide Lines, Block, Spaces, Indentation, Outer, DumpMembers, Head, Suffix, Wrap, Bracketed, Closed, Strip;
    if v.members == [] {
      StripOfEmpty(LEFT_BRACE, RIGHT_BRACE);
      EmptyBlock(LEFT_BRACE, RIGHT_BRACE, depth, step, h, s);
    } else {
      var inner := Indentation(depth + 1, step);
      var body := DumpMembers(v.members, true, step, inner);
      IndentationSteps(depth, step);
      StripOfMembers(v.members, true, step, inner);
      OuterOfBracketed(LEFT_BRACE, body, RIGHT_BRACE, true, Indentation(depth, step));
      LinesOfMembers(v.members, step, depth + 1);
      LinesOfBracketed(LEFT_BRACE, Outer(body), RIGHT_BRACE, depth, step, h, s);
    }
  }

  /** A value with its comma and the lines that follow. */
  lemma FollowedBy(first: bytes, more: bytes, depth: nat, step: nat)
    requires Block(Lines(first), depth, step, [COMMA]) && Block(Lines(more), depth, step, [])
    ensures Block(Lines(first + ([NEWLINE] + more)), depth, step, [])
  {
    hide Lines, Block;
    LinesSum(first, more);
    TwoBlocks(Lines(first), Lines(more), depth, step, []);
  }

  lemma {:induction false} LinesOfElements(es: seq<Json>, step: uint32, depth: nat)
    requires es != [] && forall e :: e in es ==> NoFloats(e)
    ensures Block(Lines(Outer(DumpElements(es, true, step, Indentation(depth, step)))), depth, step, [])
    decreases es, 2
  {
    hide Lines, Block, Spaces, Indentation, Outer, Dump, Closed, Strip, NoFloats;
    var n := Indentation(depth, step);
    var margin, first := Spaces(n), Outer(Dump(es[0], true, step, n));
    StripOfDump(es[0], true, step, n);
    if |es| == 1 {
      OuterOfElements(es, true, step, n);
      LinesOfValue(es[0], step, depth, [], []);
      Unwrap(margin, first, [], []);
    } else {
      var more := Outer(DumpElements(es[1..], true, step, n));
      StripOfElements(es[1..], true, step, n);
      OuterOfElements(es, true, step, n);
      LinesOfValue(es[0], step, depth, [], [COMMA]);
      LinesOfElements(es[1..], step, depth);
      Unwrap(margin, first, [COMMA], more);
      FollowedBy(margin + ([] + (first + [COMMA])), more, depth, step);
    }
  }

  lemma Unwrap(margin: bytes, first: bytes, s: bytes, more: bytes)
    ensures margin + ([] + (first + [])) == margin + first
    ensures margin + first + ([COMMA] + LineBreak(true) + more) ==
            margin + ([] + (first + [COMMA])) + ([NEWLINE] + more)
  {
  }

  lemma {:induction false} LinesOfMembers(ms: seq<Member>, step: uint32, depth: nat)
    requires ms != [] && forall m :: m in ms ==> NoFloats(m.value)
    ensures Block(Lines(Outer(DumpMembers(ms, true, step, Indentation(depth, step)))), depth, step, [])
    decreases ms, 2
  {
    hide Lines, Block, Spaces, Indentation, Outer, Dump, Closed, Strip, NoFloats, Label;
    var n, m := Indentation(depth, step), ms[0];
    var margin, h, first := Spaces(n), Outer(Label(m.key, true)), Outer(Dump(m.value, true, step, n));
    StripOfDump(m.value, true, step, n);
    LabelIsHead(m.key);
    if |ms| == 1 {
      OuterOfMembers(ms, true, step, n);
      LinesOfValue(m.value, step, depth, h, []);
      UnwrapLabelled(margin, h, first, []);
    } else {
      var more := Outer(DumpMembers(ms[1..], true, step, n));
      StripOfMembers(ms[1..], true, step, n);
      OuterOfMembers(ms, true, step, n);
      LinesOfValue(m.value, step, depth, h, [COMMA]);
      LinesOfMembers(ms[1..], step, depth);
      UnwrapLabelled(margin, h, first, more);
      FollowedBy(margin + (h + (first + [COMMA])), more, depth, step);
    }
  }

  lemma LabelIsHead(key: bytes)
    ensures Head(Outer(Label(key, true)))
  {
    OuterOfLabel(key, true);
    OuterOfQuoted(key);
    hide Outer, Closed, Strip, Quoted, Label;
  }

  lemma UnwrapLabelled(margin: bytes, h: bytes, first: bytes, more: bytes)
    ensures margin + (h + (first + [])) == margin + h + first
    ensures margin + h + first + ([COMMA] + LineBreak(true) + more) ==
            margin + (h + (first + [COMMA])) + ([NEWLINE] + more)
  {
  }

  /**
   Pretty text line by line, with the bytes inside strings left out of account: a line is indented by
   the brackets open before it, one fewer if it begins by closing one, times the step in 32 bits; lines
   begin after opening brackets and commas and before closing brackets, and nowhere else.
   */
  lemma PrettyIsLaidOut(v: Json, indent: int)
    requires NoFloats(v) && 0 <= indent < 0x8000_0000
    ensures LaidOut(Lines(Outer(DumpText(v, indent))), 0, indent)
    ensures NetOfLines(Lines(Outer(DumpText(v, indent)))) == 0
  {
    hide Lines, LaidOut, NetOfLines, Spaces, Outer, Dump;
    IndentationSteps(0, indent);
    hide Indentation;
    LinesOfValue(v, indent, 0, [], []);
    var t := Outer(Dump(v, true, indent, 0));
    NoMargin(t);
    hide Closes, Continues;
  }

  lemma NoMargin(t: bytes)
    ensures Spaces(0) + ([] + (t + [])) == t
  {
  }

  /** The same for each line. */
  lemma PrettyLine(v: Json, indent: int, k: nat)
    requires NoFloats(v) && 0 <= indent < 0x8000_0000 && k < |Lines(Outer(DumpText(v, indent)))|
    ensures var lines := Lines(Outer(DumpText(v, indent)));
            LineRule(lines[k], NetOfLines(lines[..k]), indent) && (k > 0 ==> BreakRule(lines[k - 1], lines[k]))
  {
    hide Lines, LaidOut, NetOfLines, Outer, LineRule, BreakRule, DumpText;
    PrettyIsLaidOut(v, indent);
    LaidOutMeans(Lines(Outer(DumpText(v, indent))), 0, indent, k);
  }
}
