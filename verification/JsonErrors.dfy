/**
 Which token a rejected text is rejected for: the first one that no accepted text has there. Up to that
 token the text could have gone on, with it nothing can help any more.
 */
module JsonErrors {
  import opened Bytes
  import opened JsonGrammar
  import opened JsonLexer
  import opened JsonString
  import opened JsonValue

  /** Some continuation makes an accepted text. */
  ghost predicate CanGoOn(ts: seq<Token>) {
    exists more: seq<Token> :: Parse(ts + more).Ok?
  }

  /** The failure is about this token. */
  predicate Reports(e: ParseFailure, token: Token) {
    match e
    case Unexpected(t) => t == token
    case BadString(error) => token.StringToken? && StringValue(token.lexeme) == Err(error)
    case OutOfTokens => false
  }

  // ----- going on and stopping, for each function of the parser -----

  /** Whatever follows, these tokens are one value. */
  ghost predicate IsValue(ts: seq<Token>) {
    forall x: seq<Token> :: ParseValue(ts + x).Ok? && ParseValue(ts + x).value.rest == x
  }

  ghost predicate ValueStops(ts: seq<Token>, e: ParseFailure) {
    forall x: seq<Token> :: ParseValue(ts + x) == Err(e)
  }

  ghost predicate IsMember(ts: seq<Token>) {
    forall x: seq<Token> :: ParseMember(ts + x).Ok? && ParseMember(ts + x).value.rest == x
  }

  ghost predicate MemberStops(ts: seq<Token>, e: ParseFailure) {
    forall x: seq<Token> :: ParseMember(ts + x) == Err(e)
  }

  ghost predicate AreElements(ts: seq<Token>, done: seq<Json>) {
    forall x: seq<Token> :: ParseElements(ts + x, done).Ok? && ParseElements(ts + x, done).value.rest == x
  }

  ghost predicate ElementsStop(ts: seq<Token>, done: seq<Json>, e: ParseFailure) {
    forall x: seq<Token> :: ParseElements(ts + x, done) == Err(e)
  }

  ghost predicate AreMembers(ts: seq<Token>, done: seq<Member>) {
    forall x: seq<Token> :: ParseMembers(ts + x, done).Ok? && ParseMembers(ts + x, done).value.rest == x
  }

  ghost predicate MembersStop(ts: seq<Token>, done: seq<Member>, e: ParseFailure) {
    forall x: seq<Token> :: ParseMembers(ts + x, done) == Err(e)
  }

  /** Position k is where the failure e lies: at the end, or at a token it reports. */
  predicate FailsAt(ts: seq<Token>, e: ParseFailure, k: nat) {
    k <= |ts| && (e.OutOfTokens? <==> k == |ts|) && (k < |ts| ==> Reports(e, ts[k]))
  }

  // ----- what was read of an accepted value does not depend on what follows -----

  /** A value v that takes up exactly the tokens u. */
  ghost predicate Gives(u: seq<Token>, v: Json) {
    forall x: seq<Token> :: ParseValue(u + x) == Ok(Parsed(v, x))
  }

  ghost predicate GivesMember(u: seq<Token>, m: Member) {
    forall x: seq<Token> :: ParseMember(u + x) == Ok(ParsedMember(m, x))
  }

  /** The tokens that were read as the value. */
  lemma ValueRead(ts: seq<Token>) returns (u: seq<Token>)
    requires ParseValue(ts).Ok?
    ensures ts == u + ParseValue(ts).value.rest && Gives(u, ParseValue(ts).value.value)
  {
    var t := ParsedIsTree(ts);
    u := Yield(t);
    hide ParseValue, Yield, Denote, WellFormed;
    forall x: seq<Token> ensures ParseValue(u + x) == Ok(Parsed(ParseValue(ts).value.value, x)) {
      TreeIsParsed(t, x);
    }
  }

  lemma MemberRead(ts: seq<Token>) returns (u: seq<Token>)
    requires ParseMember(ts).Ok?
    ensures ts == u + ParseMember(ts).value.rest && GivesMember(u, ParseMember(ts).value.member)
  {
    var m := ParsedIsMember(ts);
    u := YieldMember(m);
    hide ParseMember, YieldMember, Denote, WellFormed, StringValue;
    forall x: seq<Token> ensures ParseMember(u + x) == Ok(ParsedMember(ParseMember(ts).value.member, x)) {
      MemberIsParsed(m, x);
    }
  }

  lemma TheValue(p: seq<Token>) returns (v: Json)
    requires IsValue(p)
    ensures Gives(p, v)
  {
    hide ParseValue, Gives;
    assert ParseValue(p + []).value.rest == [];
    var u := ValueRead(p + []);
    assert u + [] == u && p + [] == p;
    v := ParseValue(p + []).value.value;
  }

  lemma TheMember(p: seq<Token>) returns (m: Member)
    requires IsMember(p)
    ensures GivesMember(p, m)
  {
    hide ParseMember, GivesMember;
    assert ParseMember(p + []).value.rest == [];
    var u := MemberRead(p + []);
    assert u + [] == u && p + [] == p;
    m := ParseMember(p + []).value.member;
  }

  // ----- where a value fails -----

  lemma {:induction false} ValueFails(ts: seq<Token>) returns (k: nat, c: seq<Token>)
    requires ParseValue(ts).Err?
    ensures FailsAt(ts, ParseValue(ts).error, k)
    ensures IsValue(ts[..k] + c)
    ensures k < |ts| ==> ValueStops(ts[..k + 1], ParseValue(ts).error)
    decreases |ts|, 1
  {
    if ts != [] && ts[0] == BeginArray {
      k, c := ArrayFails(ts);
    } else if ts != [] && ts[0] == BeginObject {
      k, c := ObjectFails(ts);
    } else {
      k, c := 0, [LiteralNull];
      ScalarFails(ts);
    }
  }

  lemma NullIsValue()
    ensures IsValue([LiteralNull])
  {
    forall x: seq<Token> ensures ParseValue([LiteralNull] + x) == Ok(Parsed(Null, x)) {
      assert ([LiteralNull] + x)[1..] == x;
    }
  }

  lemma ScalarFails(ts: seq<Token>)
    requires ParseValue(ts).Err? && (ts != [] ==> ts[0] != BeginArray && ts[0] != BeginObject)
    ensures FailsAt(ts, ParseValue(ts).error, 0) && IsValue(ts[..0] + [LiteralNull])
    ensures ts != [] ==> ValueStops(ts[..1], ParseValue(ts).error)
  {
    NullIsValue();
    assert ts[..0] + [LiteralNull] == [LiteralNull];
    if ts != [] {
      forall x: seq<Token> ensures ParseValue(ts[..1] + x) == ParseValue(ts) {
        assert (ts[..1] + x)[0] == ts[0];
      }
    }
  }

  /** The bracket at the front hands over to the loop unless the next token closes it or is a comma. */
  lemma ArrayHandsOver(ts: seq<Token>)
    requires ts != [] ==> ts[0] != EndArray && ts[0] != ValueSeparator
    ensures ParseValue([BeginArray] + ts) == ParseElements(ts, [])
  {
    hide ParseElements;
    assert ([BeginArray] + ts)[1..] == ts;
  }

  lemma ElementsStart(ts: seq<Token>, done: seq<Json>)
    requires ParseElements(ts, done).Ok?
    ensures ts != [] && StartsValue(ts[0])
  {
    hide ParseElements;
    var es := ParsedAreElements(ts, done);
    YieldElementsFirst(es);
    hide YieldElements;
  }

  lemma MembersStart(ts: seq<Token>, done: seq<Member>)
    requires ParseMembers(ts, done).Ok?
    ensures ts != [] && ts[0].StringToken?
  {
  }

  lemma ArrayGoesOn(p: seq<Token>)
    requires AreElements(p, [])
    ensures IsValue([BeginArray] + p)
  {
    hide ParseValue, ParseElements;
    forall x: seq<Token> ensures ParseValue([BeginArray] + p + x) == ParseElements(p + x, []) {
      ElementsStart(p + x, []);
      ArrayHandsOver(p + x);
      assert [BeginArray] + p + x == [BeginArray] + (p + x);
    }
  }

  lemma ArrayStops(p: seq<Token>, e: ParseFailure)
    requires p != [] && p[0] != EndArray && p[0] != ValueSeparator && ElementsStop(p, [], e)
    ensures ValueStops([BeginArray] + p, e)
  {
    hide ParseValue, ParseElements;
    forall x: seq<Token> ensures ParseValue([BeginArray] + p + x) == ParseElements(p + x, []) {
      ArrayHandsOver(p + x);
      assert [BeginArray] + p + x == [BeginArray] + (p + x);
    }
  }

  lemma EmptyIsValue()
    ensures IsValue([BeginArray, EndArray]) && IsValue([BeginObject, EndObject])
  {
    hide ParseValue;
    forall x: seq<Token>
      ensures ParseValue([BeginArray, EndArray] + x) == Ok(Parsed(Array([]), x))
      ensures ParseValue([BeginObject, EndObject] + x) == Ok(Parsed(Object([]), x))
    {
      OpensAndCloses(x);
    }
  }

  lemma CommaStops()
    ensures ValueStops([BeginArray, ValueSeparator], Unexpected(ValueSeparator))
    ensures ValueStops([BeginObject, ValueSeparator], Unexpected(ValueSeparator))
  {
  }

  lemma ObjectHandsOver(ts: seq<Token>)
    requires ts != [] ==> ts[0] != EndObject && ts[0] != ValueSeparator
    ensures ParseValue([BeginObject] + ts) == ParseMembers(ts, [])
  {
    hide ParseMembers;
    assert ([BeginObject] + ts)[1..] == ts;
  }

  lemma ObjectGoesOn(p: seq<Token>)
    requires AreMembers(p, [])
    ensures IsValue([BeginObject] + p)
  {
    hide ParseValue, ParseMembers;
    forall x: seq<Token> ensures ParseValue([BeginObject] + p + x) == ParseMembers(p + x, []) {
      MembersStart(p + x, []);
      ObjectHandsOver(p + x);
      assert [BeginObject] + p + x == [BeginObject] + (p + x);
    }
  }

  lemma ObjectStops(p: seq<Token>, e: ParseFailure)
    requires p != [] && p[0] != EndObject && p[0] != ValueSeparator && MembersStop(p, [], e)
    ensures ValueStops([BeginObject] + p, e)
  {
    hide ParseValue, ParseMembers;
    forall x: seq<Token> ensures ParseValue([BeginObject] + p + x) == ParseMembers(p + x, []) {
      ObjectHandsOver(p + x);
      assert [BeginObject] + p + x == [BeginObject] + (p + x);
    }
  }

  lemma OneBeyond(ts: seq<Token>, first: Token, rest: seq<Token>, k: nat, c: seq<Token>)
    requires ts == [first] + rest && k <= |rest|
    ensures ts[..k + 1] + c == [first] + (rest[..k] + c)
    ensures k < |rest| ==> ts[k + 1] == rest[k] && ts[..k + 2] == [first] + rest[..k + 1]
  {
  }

  lemma {:induction false} ArrayFails(ts: seq<Token>) returns (k: nat, c: seq<Token>)
    requires ts != [] && ParseValue(ts).Err? && ts[0] == BeginArray
    ensures FailsAt(ts, ParseValue(ts).error, k)
    ensures IsValue(ts[..k] + c)
    ensures k < |ts| ==> ValueStops(ts[..k + 1], ParseValue(ts).error)
    decreases |ts|, 0
  {
    var rest := ts[1..];
    assert ts == [BeginArray] + rest;
    if rest != [] && rest[0] == ValueSeparator {
      k, c := 1, [EndArray];
      CommaStops();
      EmptyIsValue();
      assert ts[..1] + c == [BeginArray, EndArray] && ts[..2] == [BeginArray, ValueSeparator];
    } else {
      assert rest != [] ==> rest[0] != EndArray;
      hide ParseValue, ParseElements, IsValue, ValueStops, AreElements, ElementsStop, Reports;
      ArrayHandsOver(rest);
      k, c := ElementsFail(rest, []);
      ArrayGoesOn(rest[..k] + c);
      OneBeyond(ts, BeginArray, rest, k, c);
      if k < |rest| {
        ArrayStops(rest[..k + 1], ParseValue(ts).error);
      }
      k := k + 1;
    }
  }

  lemma {:induction false} ObjectFails(ts: seq<Token>) returns (k: nat, c: seq<Token>)
    requires ts != [] && ParseValue(ts).Err? && ts[0] == BeginObject
    ensures FailsAt(ts, ParseValue(ts).error, k)
    ensures IsValue(ts[..k] + c)
    ensures k < |ts| ==> ValueStops(ts[..k + 1], ParseValue(ts).error)
    decreases |ts|, 0
  {
    var rest := ts[1..];
    assert ts == [BeginObject] + rest;
    if rest != [] && rest[0] == ValueSeparator {
      k, c := 1, [EndObject];
      CommaStops();
      EmptyIsValue();
      assert ts[..1] + c == [BeginObject, EndObject] && ts[..2] == [BeginObject, ValueSeparator];
    } else {
      assert rest != [] ==> rest[0] != EndObject;
      hide ParseValue, ParseMembers, IsValue, ValueStops, AreMembers, MembersStop, Reports;
      ObjectHandsOver(rest);
      k, c := MembersFail(rest, []);
      ObjectGoesOn(rest[..k] + c);
      OneBeyond(ts, BeginObject, rest, k, c);
      if k < |rest| {
        ObjectStops(rest[..k + 1], ParseValue(ts).error);
      }
      k := k + 1;
    }
  }

  // ----- where the elements fail -----

  lemma Beyond(ts: seq<Token>, u: seq<Token>, between: seq<Token>, more: seq<Token>, k: nat, c: seq<Token>)
    requires ts == u + (between + more) && k <= |more|
    ensures var n := |u| + |between|;
            n + |more| == |ts| && ts[..n + k] + c == u + (between + (more[..k] + c)) &&
            (k < |more| ==> ts[n + k] == more[k] && ts[..n + k + 1] == u + (between + more[..k + 1]))
  {
  }

  lemma Behind(ts: seq<Token>, u: seq<Token>, rest: seq<Token>)
    requires ts == u + rest
    ensures ts[..|u|] == u
    ensures rest != [] ==> ts[|u|] == rest[0] && ts[..|u| + 1] == u + [rest[0]]
  {
  }

  lemma OneElement(u: seq<Token>, v: Json, done: seq<Json>, t: Token, x: seq<Token>)
    requires Gives(u, v)
    ensures ParseElements(u + ([t] + x), done) ==
            if t == ValueSeparator then ParseElements(x, done + [v])
            else if t == EndArray then Ok(Parsed(Array(done + [v]), x))
            else Err(Unexpected(t))
  {
    hide ParseValue;
    assert ([t] + x)[1..] == x;
  }

  lemma ElementsClose(u: seq<Token>, v: Json, done: seq<Json>)
    requires Gives(u, v)
    ensures AreElements(u + [EndArray], done)
  {
    hide ParseElements, Gives;
    forall x: seq<Token> ensures ParseElements(u + [EndArray] + x, done) == Ok(Parsed(Array(done + [v]), x)) {
      OneElement(u, v, done, EndArray, x);
      assert u + [EndArray] + x == u + ([EndArray] + x);
    }
  }

  lemma ElementsStopAt(u: seq<Token>, v: Json, done: seq<Json>, t: Token)
    requires Gives(u, v) && t != ValueSeparator && t != EndArray
    ensures ElementsStop(u + [t], done, Unexpected(t))
  {
    hide ParseElements, Gives;
    forall x: seq<Token> ensures ParseElements(u + [t] + x, done) == Err(Unexpected(t)) {
      OneElement(u, v, done, t, x);
      assert u + [t] + x == u + ([t] + x);
    }
  }

  lemma ElementsAfter(u: seq<Token>, v: Json, done: seq<Json>, p: seq<Token>, e: ParseFailure)
    requires Gives(u, v)
    ensures AreElements(p, done + [v]) ==> AreElements(u + ([ValueSeparator] + p), done)
    ensures ElementsStop(p, done + [v], e) ==> ElementsStop(u + ([ValueSeparator] + p), done, e)
  {
    hide ParseElements, Gives;
    forall x: seq<Token>
      ensures ParseElements(u + ([ValueSeparator] + p) + x, done) == ParseElements(p + x, done + [v])
    {
      OneElement(u, v, done, ValueSeparator, p + x);
      assert u + ([ValueSeparator] + p) + x == u + ([ValueSeparator] + (p + x));
    }
  }

  lemma ValueStopsElements(p: seq<Token>, done: seq<Json>, e: ParseFailure)
    requires ValueStops(p, e)
    ensures ElementsStop(p, done, e)
  {
    hide ParseValue;
    forall x: seq<Token> ensures ParseElements(p + x, done) == Err(e) {
      assert ParseValue(p + x) == Err(e);
    }
  }

  lemma {:induction false} ElementsFail(ts: seq<Token>, done: seq<Json>) returns (k: nat, c: seq<Token>)
    requires ParseElements(ts, done).Err?
    ensures FailsAt(ts, ParseElements(ts, done).error, k)
    ensures AreElements(ts[..k] + c, done)
    ensures k < |ts| ==> ElementsStop(ts[..k + 1], done, ParseElements(ts, done).error)
    decreases |ts|, 2
  {
    hide ParseValue, IsValue, ValueStops, AreElements, ElementsStop, Gives;
    var e := ParseElements(ts, done).error;
    if ParseValue(ts).Err? {
      k, c := ValueFails(ts);
      var v := TheValue(ts[..k] + c);
      ElementsClose(ts[..k] + c, v, done);
      assert ts[..k] + (c + [EndArray]) == ts[..k] + c + [EndArray];
      c := c + [EndArray];
      if k < |ts| {
        ValueStopsElements(ts[..k + 1], done, e);
      }
    } else {
      var u := ValueRead(ts);
      var p := ParseValue(ts).value;
      if p.rest != [] && p.rest[0] == ValueSeparator {
        var more := p.rest[1..];
        assert ts == u + ([ValueSeparator] + more);
        k, c := ElementsFail(more, done + [p.value]);
        ElementsAfter(u, p.value, done, more[..k] + c, e);
        Beyond(ts, u, [ValueSeparator], more, k, c);
        if k < |more| {
          ElementsAfter(u, p.value, done, more[..k + 1], e);
        }
        k := |u| + 1 + k;
      } else {
        k, c := |u|, [EndArray];
        Behind(ts, u, p.rest);
        ElementsClose(u, p.value, done);
        if p.rest != [] {
          ElementsStopAt(u, p.value, done, p.rest[0]);
        }
      }
    }
  }

  // ----- where a member fails -----

  lemma MemberIs(name: Token, x: seq<Token>)
    requires name.StringToken? && StringValue(name.lexeme).Ok?
    ensures ParseMember([name, NameSeparator] + x) ==
            match ParseValue(x)
            case Err(e) => Err(e)
            case Ok(p) => Ok(ParsedMember(Member(StringValue(name.lexeme).value, p.value), p.rest))
  {
    hide ParseValue, StringValue;
    assert ([name, NameSeparator] + x)[2..] == x;
  }

  lemma MemberAfter(name: Token, p: seq<Token>, e: ParseFailure)
    requires name.StringToken? && StringValue(name.lexeme).Ok?
    ensures IsValue(p) ==> IsMember([name, NameSeparator] + p)
    ensures ValueStops(p, e) ==> MemberStops([name, NameSeparator] + p, e)
  {
    hide ParseValue, ParseMember, StringValue;
    forall x: seq<Token>
      ensures ParseValue(p + x).Ok? ==>
                ParseMember([name, NameSeparator] + p + x).Ok? &&
                ParseMember([name, NameSeparator] + p + x).value.rest == ParseValue(p + x).value.rest
      ensures ParseValue(p + x).Err? ==>
                ParseMember([name, NameSeparator] + p + x) == Err(ParseValue(p + x).error)
    {
      MemberIs(name, p + x);
      assert [name, NameSeparator] + p + x == [name, NameSeparator] + (p + x);
    }
  }

  /** A name without characters. */
  const NAME := StringToken([QUOTE, QUOTE])

  lemma NameIsRead()
    ensures StringValue(NAME.lexeme) == Ok([])
  {
    assert [QUOTE, QUOTE][1..1] == [];
  }

  lemma WrongName(ts: seq<Token>)
    requires ts != [] && !(ts[0].StringToken? && StringValue(ts[0].lexeme).Ok?)
    ensures ParseMember(ts).Err? && MemberStops(ts[..1], ParseMember(ts).error)
  {
    hide ParseValue, StringValue;
    forall x: seq<Token> ensures ParseMember(ts[..1] + x) == ParseMember(ts) {
      assert (ts[..1] + x)[0] == ts[0];
    }
  }

  lemma WrongColon(ts: seq<Token>)
    requires |ts| > 1 && ts[0].StringToken? && StringValue(ts[0].lexeme).Ok? && ts[1] != NameSeparator
    ensures ParseMember(ts) == Err(Unexpected(ts[1])) && MemberStops(ts[..2], Unexpected(ts[1]))
  {
    hide ParseValue, StringValue;
    forall x: seq<Token> ensures ParseMember(ts[..2] + x) == Err(Unexpected(ts[1])) {
      assert (ts[..2] + x)[0] == ts[0] && (ts[..2] + x)[1] == ts[1];
    }
  }

  lemma {:induction false} MemberFails(ts: seq<Token>) returns (k: nat, c: seq<Token>)
    requires ParseMember(ts).Err?
    ensures FailsAt(ts, ParseMember(ts).error, k)
    ensures IsMember(ts[..k] + c)
    ensures k < |ts| ==> MemberStops(ts[..k + 1], ParseMember(ts).error)
    decreases |ts|, 2
  {
    hide ParseValue, IsValue, ValueStops, IsMember, MemberStops, StringValue;
    var e := ParseMember(ts).error;
    NullIsValue();
    if ts == [] || !ts[0].StringToken? || StringValue(ts[0].lexeme).Err? {
      k, c := 0, [NAME, NameSeparator] + [LiteralNull];
      NameIsRead();
      MemberAfter(NAME, [LiteralNull], e);
      assert ts[..0] + c == c;
      if ts != [] {
        WrongName(ts);
      }
    } else if |ts| == 1 || ts[1] != NameSeparator {
      k, c := 1, [NameSeparator, LiteralNull];
      MemberAfter(ts[0], [LiteralNull], e);
      assert ts[..1] + c == [ts[0], NameSeparator] + [LiteralNull];
      if |ts| > 1 {
        WrongColon(ts);
      }
    } else {
      var more := ts[2..];
      assert ts == [ts[0], NameSeparator] + more;
      k, c := ValueFails(more);
      MemberAfter(ts[0], more[..k] + c, e);
      assert ts[..k + 2] + c == [ts[0], NameSeparator] + (more[..k] + c);
      if k < |more| {
        MemberAfter(ts[0], more[..k + 1], e);
        assert ts[..k + 3] == [ts[0], NameSeparator] + more[..k + 1];
      }
      k := k + 2;
    }
  }

  // ----- where the members fail -----

  lemma OneMember(u: seq<Token>, m: Member, done: seq<Member>, t: Token, x: seq<Token>)
    requires GivesMember(u, m)
    ensures var all := Assign(done, m.key, m.value);
            ParseMembers(u + ([t] + x), done) ==
            if t == ValueSeparator then ParseMembers(x, all)
            else if t == EndObject then Ok(Parsed(Object(all), x))
            else Err(Unexpected(t))
  {
    hide ParseMember, Assign;
    assert ([t] + x)[1..] == x;
  }

  lemma MembersClose(u: seq<Token>, m: Member, done: seq<Member>)
    requires GivesMember(u, m)
    ensures AreMembers(u + [EndObject], done)
  {
    hide ParseMembers, GivesMember, Assign;
    forall x: seq<Token>
      ensures ParseMembers(u + [EndObject] + x, done) == Ok(Parsed(Object(Assign(done, m.key, m.value)), x))
    {
      OneMember(u, m, done, EndObject, x);
      assert u + [EndObject] + x == u + ([EndObject] + x);
    }
  }

  lemma MembersStopAt(u: seq<Token>, m: Member, done: seq<Member>, t: Token)
    requires GivesMember(u, m) && t != ValueSeparator && t != EndObject
    ensures MembersStop(u + [t], done, Unexpected(t))
  {
    hide ParseMembers, GivesMember, Assign;
    forall x: seq<Token> ensures ParseMembers(u + [t] + x, done) == Err(Unexpected(t)) {
      OneMember(u, m, done, t, x);
      assert u + [t] + x == u + ([t] + x);
    }
  }

  lemma MembersAfter(u: seq<Token>, m: Member, done: seq<Member>, p: seq<Token>, e: ParseFailure)
    requires GivesMember(u, m)
    ensures var all := Assign(done, m.key, m.value);
            (AreMembers(p, all) ==> AreMembers(u + ([ValueSeparator] + p), done)) &&
            (MembersStop(p, all, e) ==> MembersStop(u + ([ValueSeparator] + p), done, e))
  {
    hide ParseMembers, GivesMember, Assign;
    forall x: seq<Token>
      ensures ParseMembers(u + ([ValueSeparator] + p) + x, done) ==
              ParseMembers(p + x, Assign(done, m.key, m.value))
    {
      OneMember(u, m, done, ValueSeparator, p + x);
      assert u + ([ValueSeparator] + p) + x == u + ([ValueSeparator] + (p + x));
    }
  }

  lemma MemberStopsMembers(p: seq<Token>, done: seq<Member>, e: ParseFailure)
    requires MemberStops(p, e)
    ensures MembersStop(p, done, e)
  {
    hide ParseMember;
    forall x: seq<Token> ensures ParseMembers(p + x, done) == Err(e) {
      assert ParseMember(p + x) == Err(e);
    }
  }

  lemma {:induction false} MembersFail(ts: seq<Token>, done: seq<Member>) returns (k: nat, c: seq<Token>)
    requires ParseMembers(ts, done).Err?
    ensures FailsAt(ts, ParseMembers(ts, done).error, k)
    ensures AreMembers(ts[..k] + c, done)
    ensures k < |ts| ==> MembersStop(ts[..k + 1], done, ParseMembers(ts, done).error)
    decreases |ts|, 3
  {
    hide ParseMember, IsMember, MemberStops, AreMembers, MembersStop, GivesMember, Assign;
    var e := ParseMembers(ts, done).error;
    if ParseMember(ts).Err? {
      k, c := MemberFails(ts);
      var m := TheMember(ts[..k] + c);
      MembersClose(ts[..k] + c, m, done);
      assert ts[..k] + (c + [EndObject]) == ts[..k] + c + [EndObject];
      c := c + [EndObject];
      if k < |ts| {
        MemberStopsMembers(ts[..k + 1], done, e);
      }
    } else {
      var u := MemberRead(ts);
      var p := ParseMember(ts).value;
      if p.rest != [] && p.rest[0] == ValueSeparator {
        var more, all := p.rest[1..], Assign(done, p.member.key, p.member.value);
        assert ts == u + ([ValueSeparator] + more);
        k, c := MembersFail(more, all);
        MembersAfter(u, p.member, done, more[..k] + c, e);
        Beyond(ts, u, [ValueSeparator], more, k, c);
        if k < |more| {
          MembersAfter(u, p.member, done, more[..k + 1], e);
        }
        k := |u| + 1 + k;
      } else {
        k, c := |u|, [EndObject];
        Behind(ts, u, p.rest);
        MembersClose(u, p.member, done);
        if p.rest != [] {
          MembersStopAt(u, p.member, done, p.rest[0]);
        }
      }
    }
  }

  // ----- the rejected text -----

  lemma GoesOn(p: seq<Token>)
    requires IsValue(p)
    ensures Parse(p + [EndOfInput]).Ok?
  {
    hide ParseValue;
  }

  lemma StopsForGood(p: seq<Token>, e: ParseFailure)
    requires ValueStops(p, e)
    ensures !CanGoOn(p)
  {
    hide ParseValue;
    forall x: seq<Token> ensures Parse(p + x).Err? {
      assert ParseValue(p + x) == Err(e);
    }
  }

  lemma StopsBehind(u: seq<Token>, v: Json, t: Token)
    requires Gives(u, v) && t != EndOfInput
    ensures !CanGoOn(u + [t])
  {
    hide ParseValue;
    forall x: seq<Token> ensures Parse(u + [t] + x).Err? {
      assert u + [t] + x == u + ([t] + x);
    }
  }

  /**
   A rejected text could have gone on up to the token that is reported, and with that token no
   continuation is accepted any more. A text that merely ends too early could have gone on.
   */
  lemma RejectedAtFirstWrongToken(ts: seq<Token>)
    requires Parse(ts).Err?
    ensures if Parse(ts).error.OutOfTokens? then CanGoOn(ts)
            else exists k :: 0 <= k < |ts| && Reports(Parse(ts).error, ts[k]) &&
                             CanGoOn(ts[..k]) && !CanGoOn(ts[..k + 1])
  {
    hide ParseValue, IsValue, ValueStops, Gives, CanGoOn;
    var e := Parse(ts).error;
    if ParseValue(ts).Err? {
      var k, c := ValueFails(ts);
      GoesOn(ts[..k] + c);
      Continued(ts[..k], c);
      if k < |ts| {
        StopsForGood(ts[..k + 1], e);
      } else {
        assert ts[..k] == ts;
      }
    } else {
      var u := ValueRead(ts);
      var p := ParseValue(ts).value;
      GivesIsValue(u, p.value);
      GoesOn(u + []);
      Continued(u, []);
      var k := |u|;
      assert ts[..k] == u;
      if p.rest != [] {
        StopsBehind(u, p.value, p.rest[0]);
        assert ts[..k + 1] == u + [p.rest[0]];
      } else {
        assert ts == u;
      }
    }
  }

  lemma GivesIsValue(u: seq<Token>, v: Json)
    requires Gives(u, v)
    ensures IsValue(u + [])
  {
    assert u + [] == u;
  }

  lemma Continued(p: seq<Token>, c: seq<Token>)
    requires Parse(p + c + [EndOfInput]).Ok?
    ensures CanGoOn(p)
  {
    hide Parse;
    assert p + c + [EndOfInput] == p + (c + [EndOfInput]);
  }
}
