/**
 The recursive-descent parser over tokens, and the grammar of RFC 7159, sections 2 to 5, as
 syntax trees: the parser accepts exactly the tokens that a tree yields.
 */
module JsonGrammar {
  import opened Bytes
  import opened JsonDecimal
  import opened JsonLexer
  import opened JsonString
  import opened JsonUnicode
  import opened JsonValue

  datatype ParseFailure = Unexpected(token: Token) | BadString(error: UnicodeError) | OutOfTokens

  const INT64_MIN: int := -0x8000_0000_0000_0000
  const INT64_MAX: int := 0x7FFF_FFFF_FFFF_FFFF

  /** A number that is a 64-bit integer becomes one, however it is written; any other becomes a float. */
  function NumberValue(lexeme: bytes): Json {
    var x := ValueOf(lexeme);
    if x == x.Floor as real && INT64_MIN <= x.Floor <= INT64_MAX then Integer(x.Floor) else Float(x)
  }

  /** Exactly the texts of 64-bit integers, however written, are read as integers; the others keep their value. */
  lemma NumberIsRead(lexeme: bytes, i: int)
    ensures NumberValue(lexeme) == Integer(i) <==> INT64_MIN <= i <= INT64_MAX && ValueOf(lexeme) == i as real
    ensures NumberValue(lexeme).Float? ==> NumberValue(lexeme).x == ValueOf(lexeme)
    ensures NumberValue(lexeme).Float? || NumberValue(lexeme).Integer?
  {
    hide ValueOf;
    assert (i as real).Floor == i;
  }

  /** get_string on a string lexeme; no other lexeme is a string token. */
  function StringValue(lexeme: bytes): Result<bytes, UnicodeError> {
    if IsStringLexeme(lexeme) then Decode(Inside(lexeme)) else Err(MissingLowSurrogate)
  }

  // ----- the parser -----

  datatype Parsed = Parsed(value: Json, rest: seq<Token>)

  function ParseValue(ts: seq<Token>): (r: Result<Parsed, ParseFailure>)
    ensures r.Ok? ==> |r.value.rest| < |ts|
    decreases |ts|, 0
  {
    if ts == [] then Err(OutOfTokens)
    else match ts[0]
         case BeginObject =>
           if |ts| > 1 && ts[1] == EndObject then Ok(Parsed(Object([]), ts[2..]))
           else if |ts| > 1 && ts[1] == ValueSeparator then Err(Unexpected(ValueSeparator))
           else ParseMembers(ts[1..], [])
         case BeginArray =>
           if |ts| > 1 && ts[1] == EndArray then Ok(Parsed(Array([]), ts[2..]))
           else if |ts| > 1 && ts[1] == ValueSeparator then Err(Unexpected(ValueSeparator))
           else ParseElements(ts[1..], [])
         case LiteralNull => Ok(Parsed(Null, ts[1..]))
         case LiteralTrue => Ok(Parsed(Boolean(true), ts[1..]))
         case LiteralFalse => Ok(Parsed(Boolean(false), ts[1..]))
         case NumberToken(lexeme) => Ok(Parsed(NumberValue(lexeme), ts[1..]))
         case StringToken(lexeme) =>
           (match StringValue(lexeme)
            case Ok(s) => Ok(Parsed(String(s), ts[1..]))
            case Err(e) => Err(BadString(e)))
         case _ => Err(Unexpected(ts[0]))
  }

  /** One round of the loop over members, with `done` the object so far. */
  function ParseMembers(ts: seq<Token>, done: seq<Member>): (r: Result<Parsed, ParseFailure>)
    ensures r.Ok? ==> |r.value.rest| < |ts|
    decreases |ts|, 1
  {
    match ParseMember(ts)
    case Err(e) => Err(e)
    case Ok(m) =>
      var all := Assign(done, m.member.key, m.member.value);
      if m.rest == [] then Err(OutOfTokens)
      else if m.rest[0] == ValueSeparator then ParseMembers(m.rest[1..], all)
      else if m.rest[0] == EndObject then Ok(Parsed(Object(all), m.rest[1..]))
      else Err(Unexpected(m.rest[0]))
  }

  datatype ParsedMember = ParsedMember(member: Member, rest: seq<Token>)

  function ParseMember(ts: seq<Token>): (r: Result<ParsedMember, ParseFailure>)
    ensures r.Ok? ==> |r.value.rest| < |ts|
    decreases |ts|, 0
  {
    if ts == [] then Err(OutOfTokens)
    else if !ts[0].StringToken? then Err(Unexpected(ts[0]))
    else match StringValue(ts[0].lexeme)
         case Err(e) => Err(BadString(e))
         case Ok(key) =>
           if |ts| == 1 then Err(OutOfTokens)
           else if ts[1] != NameSeparator then Err(Unexpected(ts[1]))
           else match ParseValue(ts[2..])
                case Err(e) => Err(e)
                case Ok(p) => Ok(ParsedMember(Member(key, p.value), p.rest))
  }

  /** One round of the loop over elements, with `done` the array so far. */
  function ParseElements(ts: seq<Token>, done: seq<Json>): (r: Result<Parsed, ParseFailure>)
    ensures r.Ok? ==> |r.value.rest| < |ts|
    decreases |ts|, 1
  {
    match ParseValue(ts)
    case Err(e) => Err(e)
    case Ok(p) =>
      var all := done + [p.value];
      if p.rest == [] then Err(OutOfTokens)
      else if p.rest[0] == ValueSeparator then ParseElements(p.rest[1..], all)
      else if p.rest[0] == EndArray then Ok(Parsed(Array(all), p.rest[1..]))
      else Err(Unexpected(p.rest[0]))
  }

  /** The public entry: one value and then the end of the input. */
  function Parse(ts: seq<Token>): Result<Json, ParseFailure> {
    match ParseValue(ts)
    case Err(e) => Err(e)
    case Ok(p) =>
      if p.rest == [] then Err(OutOfTokens)
      else if p.rest[0] == EndOfInput then Ok(p.value)
      else Err(Unexpected(p.rest[0]))
  }

  // ----- the grammar -----

  datatype Tree =
    | Scalar(token: Token)
    | ArrayTree(elements: seq<Tree>)
    | ObjectTree(members: seq<MemberTree>)

  datatype MemberTree = MemberTree(name: bytes, value: Tree)

  predicate WellFormed(t: Tree) {
    match t
    case Scalar(token) =>
      token.LiteralNull? || token.LiteralTrue? || token.LiteralFalse? || token.NumberToken? ||
      (token.StringToken? && StringValue(token.lexeme).Ok?)
    case ArrayTree(elements) => forall e :: e in elements ==> WellFormed(e)
    case ObjectTree(members) => forall m :: m in members ==> StringValue(m.name).Ok? && WellFormed(m.value)
  }

  function Yield(t: Tree): (ts: seq<Token>)
    ensures ts != []
    decreases t, 0
  {
    match t
    case Scalar(token) => [token]
    case ArrayTree(elements) => [BeginArray] + YieldElements(elements) + [EndArray]
    case ObjectTree(members) => [BeginObject] + YieldMembers(members) + [EndObject]
  }

  function YieldElements(es: seq<Tree>): seq<Token>
    decreases es, 1
  {
    if es == [] then []
    else if |es| == 1 then Yield(es[0])
    else Yield(es[0]) + [ValueSeparator] + YieldElements(es[1..])
  }

  function YieldMembers(ms: seq<MemberTree>): seq<Token>
    decreases ms, 1
  {
    if ms == [] then []
    else if |ms| == 1 then YieldMember(ms[0])
    else YieldMember(ms[0]) + [ValueSeparator] + YieldMembers(ms[1..])
  }

  function YieldMember(m: MemberTree): seq<Token>
    decreases m, 0
  {
    [StringToken(m.name), NameSeparator] + Yield(m.value)
  }

  /** The value a tree denotes; of two members with one name the later counts. */
  function Denote(t: Tree): Json
    requires WellFormed(t)
    decreases t, 0
  {
    match t
    case Scalar(token) =>
      (match token
       case LiteralNull => Null
       case LiteralTrue => Boolean(true)
       case LiteralFalse => Boolean(false)
       case NumberToken(lexeme) => NumberValue(lexeme)
       case StringToken(lexeme) => String(StringValue(lexeme).value))
    case ArrayTree(elements) => Array(DenoteElements(elements, []))
    case ObjectTree(members) => Object(DenoteMembers(members, []))
  }

  function DenoteElements(es: seq<Tree>, done: seq<Json>): seq<Json>
    requires forall e :: e in es ==> WellFormed(e)
    decreases es, 1
  {
    if es == [] then done else DenoteElements(es[1..], done + [Denote(es[0])])
  }

  function DenoteMembers(ms: seq<MemberTree>, done: seq<Member>): seq<Member>
    requires forall m :: m in ms ==> StringValue(m.name).Ok? && WellFormed(m.value)
    decreases ms, 1
  {
    if ms == [] then done
    else DenoteMembers(ms[1..], Assign(done, StringValue(ms[0].name).value, Denote(ms[0].value)))
  }

  /** No member from position i on is named key. */
  ghost predicate NotNamed(ms: seq<MemberTree>, key: bytes, i: nat) {
    forall j :: i <= j < |ms| ==> StringValue(ms[j].name) != Ok(key)
  }

  lemma {:induction false} OtherKeysStay(ms: seq<MemberTree>, done: seq<Member>, key: bytes)
    requires forall m :: m in ms ==> StringValue(m.name).Ok? && WellFormed(m.value)
    requires KeyOrdered(done) && NotNamed(ms, key, 0)
    ensures Lookup(DenoteMembers(ms, done), key) == Lookup(done, key)
    decreases |ms|
  {
    hide StringValue, WellFormed, Denote, KeyOrdered, Lookup, Assign;
    if ms != [] {
      var name, value := StringValue(ms[0].name).value, Denote(ms[0].value);
      AssignIsUpdate(done, name, value, key);
      OtherKeysStay(ms[1..], Assign(done, name, value), key);
    }
  }

  /** Of the members with one name the last one gives the name its value. */
  lemma {:induction false} LaterKeysWin(ms: seq<MemberTree>, done: seq<Member>, key: bytes, i: nat)
    requires forall m :: m in ms ==> StringValue(m.name).Ok? && WellFormed(m.value)
    requires KeyOrdered(done) && i < |ms| && StringValue(ms[i].name) == Ok(key) && NotNamed(ms, key, i + 1)
    ensures Lookup(DenoteMembers(ms, done), key) == Some(Denote(ms[i].value))
    decreases |ms|
  {
    hide StringValue, WellFormed, Denote, KeyOrdered, Lookup, Assign;
    var name, value := StringValue(ms[0].name).value, Denote(ms[0].value);
    AssignIsUpdate(done, name, value, key);
    if i == 0 {
      OtherKeysStay(ms[1..], Assign(done, name, value), key);
    } else {
      LaterKeysWin(ms[1..], Assign(done, name, value), key, i - 1);
    }
  }

  /** The object of an object text: in key order, and each name with the value of the last member that has it. */
  lemma ObjectIsItsLastMembers(t: Tree, key: bytes)
    requires t.ObjectTree? && WellFormed(t)
    ensures var ms, result := t.members, Denote(t).members;
            KeyOrdered(result) &&
            (NotNamed(ms, key, 0) ==> Lookup(result, key) == None) &&
            forall i :: 0 <= i < |ms| && StringValue(ms[i].name) == Ok(key) && NotNamed(ms, key, i + 1) ==>
              Lookup(result, key) == Some(Denote(ms[i].value))
  {
    hide StringValue, Lookup, KeyOrdered, DenoteMembers;
    var ms := t.members;
    KeyOrderedNone();
    if NotNamed(ms, key, 0) {
      OtherKeysStay(ms, [], key);
    }
    forall i | 0 <= i < |ms| && StringValue(ms[i].name) == Ok(key) && NotNamed(ms, key, i + 1)
      ensures Lookup(DenoteMembers(ms, []), key) == Some(Denote(ms[i].value))
    {
      LaterKeysWin(ms, [], key, i);
    }
    DenotedInOrder(ms, []);
  }

  lemma KeyOrderedNone()
    ensures KeyOrdered([]) && forall key :: Lookup([], key) == None
  {
  }

  lemma {:induction false} DenotedInOrder(ms: seq<MemberTree>, done: seq<Member>)
    requires forall m :: m in ms ==> StringValue(m.name).Ok? && WellFormed(m.value)
    requires KeyOrdered(done)
    ensures KeyOrdered(DenoteMembers(ms, done))
    decreases |ms|
  {
    hide StringValue, WellFormed, Denote, KeyOrdered, Assign;
    if ms != [] {
      AssignKeepsOrder(done, StringValue(ms[0].name).value, Denote(ms[0].value));
      DenotedInOrder(ms[1..], Assign(done, StringValue(ms[0].name).value, Denote(ms[0].value)));
    }
  }

  // ----- every tree is parsed -----

  predicate StartsValue(token: Token) {
    token.BeginArray? || token.BeginObject? || token.LiteralNull? || token.LiteralTrue? || token.LiteralFalse? ||
    token.NumberToken? || token.StringToken?
  }

  lemma YieldStartsValue(t: Tree)
    requires WellFormed(t)
    ensures StartsValue(Yield(t)[0])
  {
  }

  lemma {:induction false} TreeIsParsed(t: Tree, rest: seq<Token>)
    requires WellFormed(t)
    ensures ParseValue(Yield(t) + rest) == Ok(Parsed(Denote(t), rest))
    decreases t, 2
  {
    hide ParseValue, Yield, Denote, WellFormed;
    match t
    case Scalar(token) => ScalarIsParsed(token, rest);
    case ArrayTree(es) => ArrayIsParsed(t, rest);
    case ObjectTree(ms) => ObjectIsParsed(t, rest);
  }

  lemma ScalarIsParsed(token: Token, rest: seq<Token>)
    requires WellFormed(Scalar(token))
    ensures ParseValue(Yield(Scalar(token)) + rest) == Ok(Parsed(Denote(Scalar(token)), rest))
  {
    hide StringValue, NumberValue;
    assert ([token] + rest)[1..] == rest;
  }

  lemma OpensArray(ts: seq<Token>)
    requires ts != [] && StartsValue(ts[0])
    ensures ParseValue([BeginArray] + ts) == ParseElements(ts, [])
  {
    hide ParseElements;
    assert ([BeginArray] + ts)[1..] == ts;
  }

  lemma OpensObject(ts: seq<Token>)
    requires ts != [] && ts[0].StringToken?
    ensures ParseValue([BeginObject] + ts) == ParseMembers(ts, [])
  {
    hide ParseMembers;
    assert ([BeginObject] + ts)[1..] == ts;
  }

  lemma OpensAndCloses(rest: seq<Token>)
    ensures ParseValue([BeginArray, EndArray] + rest) == Ok(Parsed(Array([]), rest))
    ensures ParseValue([BeginObject, EndObject] + rest) == Ok(Parsed(Object([]), rest))
  {
    assert ([BeginArray, EndArray] + rest)[2..] == rest;
    assert ([BeginObject, EndObject] + rest)[2..] == rest;
  }

  lemma {:induction false} ArrayIsParsed(t: Tree, rest: seq<Token>)
    requires t.ArrayTree? && WellFormed(t)
    ensures ParseValue(Yield(t) + rest) == Ok(Parsed(Denote(t), rest))
    decreases t, 1
  {
    hide ParseValue, ParseElements;
    var es := t.elements;
    if es == [] {
      OpensAndCloses(rest);
      assert Yield(t) + rest == [BeginArray, EndArray] + rest;
    } else {
      var ts := YieldElements(es) + [EndArray] + rest;
      ElementsAreParsed(es, [], rest);
      YieldElementsFirst(es);
      OpensArray(ts);
      hide YieldElements;
      assert Yield(t) + rest == [BeginArray] + ts;
    }
  }

  lemma {:induction false} ObjectIsParsed(t: Tree, rest: seq<Token>)
    requires t.ObjectTree? && WellFormed(t)
    ensures ParseValue(Yield(t) + rest) == Ok(Parsed(Denote(t), rest))
    decreases t, 1
  {
    hide ParseValue, ParseMembers, StringValue;
    var ms := t.members;
    if ms == [] {
      OpensAndCloses(rest);
      assert Yield(t) + rest == [BeginObject, EndObject] + rest;
    } else {
      var ts := YieldMembers(ms) + [EndObject] + rest;
      MembersAreParsed(ms, [], rest);
      assert YieldMembers(ms)[0] == StringToken(ms[0].name);
      OpensObject(ts);
      hide YieldMembers;
      assert Yield(t) + rest == [BeginObject] + ts;
    }
  }

  lemma YieldElementsFirst(es: seq<Tree>)
    requires es != [] && WellFormed(es[0])
    ensures YieldElements(es) != [] && StartsValue(YieldElements(es)[0])
  {
    YieldStartsValue(es[0]);
  }

  lemma {:induction false} ElementsAreParsed(es: seq<Tree>, done: seq<Json>, rest: seq<Token>)
    requires es != [] && forall e :: e in es ==> WellFormed(e)
    ensures ParseElements(YieldElements(es) + [EndArray] + rest, done) ==
            Ok(Parsed(Array(DenoteElements(es, done)), rest))
    decreases es, 3
  {
    var ts := YieldElements(es) + [EndArray] + rest;
    hide ParseValue, Denote, WellFormed, Yield;
    if |es| == 1 {
      assert ts == Yield(es[0]) + ([EndArray] + rest);
      TreeIsParsed(es[0], [EndArray] + rest);
      assert ([EndArray] + rest)[1..] == rest;
      assert es[1..] == [];
    } else {
      var more := YieldElements(es[1..]) + [EndArray] + rest;
      assert ts == Yield(es[0]) + ([ValueSeparator] + more);
      TreeIsParsed(es[0], [ValueSeparator] + more);
      assert ([ValueSeparator] + more)[1..] == more;
      ElementsAreParsed(es[1..], done + [Denote(es[0])], rest);
    }
  }

  lemma {:induction false} MemberIsParsed(m: MemberTree, rest: seq<Token>)
    requires StringValue(m.name).Ok? && WellFormed(m.value)
    ensures ParseMember(YieldMember(m) + rest) ==
            Ok(ParsedMember(Member(StringValue(m.name).value, Denote(m.value)), rest))
    decreases m, 0
  {
    hide ParseValue, Denote, WellFormed, Yield, StringValue;
    var ts := YieldMember(m) + rest;
    assert ts[2..] == Yield(m.value) + rest;
    TreeIsParsed(m.value, rest);
  }

  lemma {:induction false} MembersAreParsed(ms: seq<MemberTree>, done: seq<Member>, rest: seq<Token>)
    requires ms != [] && forall m :: m in ms ==> StringValue(m.name).Ok? && WellFormed(m.value)
    ensures ParseMembers(YieldMembers(ms) + [EndObject] + rest, done) ==
            Ok(Parsed(Object(DenoteMembers(ms, done)), rest))
    decreases ms, 3
  {
    hide ParseValue, ParseMember, Denote, WellFormed, Yield, YieldMember, StringValue, Assign;
    var ts := YieldMembers(ms) + [EndObject] + rest;
    if |ms| == 1 {
      assert ts == YieldMember(ms[0]) + ([EndObject] + rest);
      MemberIsParsed(ms[0], [EndObject] + rest);
      assert ([EndObject] + rest)[1..] == rest;
      assert ms[1..] == [];
    } else {
      var more := YieldMembers(ms[1..]) + [EndObject] + rest;
      assert ts == YieldMember(ms[0]) + ([ValueSeparator] + more);
      MemberIsParsed(ms[0], [ValueSeparator] + more);
      assert ([ValueSeparator] + more)[1..] == more;
      MembersAreParsed(ms[1..], Assign(done, StringValue(ms[0].name).value, Denote(ms[0].value)), rest);
    }
  }

  // ----- everything parsed is a tree -----

  lemma ParsedIsScalar(ts: seq<Token>)
    requires ParseValue(ts).Ok? && ts[0] != BeginArray && ts[0] != BeginObject
    ensures WellFormed(Scalar(ts[0])) && ParseValue(ts).value == Parsed(Denote(Scalar(ts[0])), ts[1..])
  {
  }

  lemma HowArraysParse(ts: seq<Token>)
    requires ParseValue(ts).Ok? && ts[0] == BeginArray
    ensures if |ts| > 1 && ts[1] == EndArray then ParseValue(ts) == Ok(Parsed(Array([]), ts[2..]))
            else ParseValue(ts) == ParseElements(ts[1..], [])
  {
    hide ParseElements;
  }

  lemma HowObjectsParse(ts: seq<Token>)
    requires ParseValue(ts).Ok? && ts[0] == BeginObject
    ensures if |ts| > 1 && ts[1] == EndObject then ParseValue(ts) == Ok(Parsed(Object([]), ts[2..]))
            else ParseValue(ts) == ParseMembers(ts[1..], [])
  {
    hide ParseMembers;
  }

  lemma ArrayTreeOf(es: seq<Tree>)
    requires forall e :: e in es ==> WellFormed(e)
    ensures WellFormed(ArrayTree(es)) && Denote(ArrayTree(es)) == Array(DenoteElements(es, []))
    ensures Yield(ArrayTree(es)) == [BeginArray] + YieldElements(es) + [EndArray]
  {
    hide DenoteElements, YieldElements;
  }

  lemma ObjectTreeOf(ms: seq<MemberTree>)
    requires forall m :: m in ms ==> StringValue(m.name).Ok? && WellFormed(m.value)
    ensures WellFormed(ObjectTree(ms)) && Denote(ObjectTree(ms)) == Object(DenoteMembers(ms, []))
    ensures Yield(ObjectTree(ms)) == [BeginObject] + YieldMembers(ms) + [EndObject]
  {
    hide DenoteMembers, YieldMembers, StringValue;
  }

  lemma {:induction false} ParsedIsArray(ts: seq<Token>) returns (t: Tree)
    requires ParseValue(ts).Ok? && ts[0] == BeginArray
    ensures WellFormed(t) && ParseValue(ts).value.value == Denote(t)
    ensures ts == Yield(t) + ParseValue(ts).value.rest
    decreases |ts|, 0
  {
    hide StringValue, ParseValue, ParseElements, WellFormed, Denote, Yield;
    HowArraysParse(ts);
    var rest := ParseValue(ts).value.rest;
    if |ts| > 1 && ts[1] == EndArray {
      t := ArrayTree([]);
      ArrayTreeOf([]);
      assert ts == [BeginArray, EndArray] + rest;
    } else {
      hide DenoteElements, YieldElements;
      var es := ParsedAreElements(ts[1..], []);
      t := ArrayTree(es);
      ArrayTreeOf(es);
      assert ts == [BeginArray] + (YieldElements(es) + [EndArray] + rest);
    }
  }

  lemma {:induction false} ParsedIsObject(ts: seq<Token>) returns (t: Tree)
    requires ParseValue(ts).Ok? && ts[0] == BeginObject
    ensures WellFormed(t) && ParseValue(ts).value.value == Denote(t)
    ensures ts == Yield(t) + ParseValue(ts).value.rest
    decreases |ts|, 0
  {
    hide StringValue, ParseValue, ParseMembers, WellFormed, Denote, Yield;
    HowObjectsParse(ts);
    var rest := ParseValue(ts).value.rest;
    if |ts| > 1 && ts[1] == EndObject {
      t := ObjectTree([]);
      ObjectTreeOf([]);
      assert ts == [BeginObject, EndObject] + rest;
    } else {
      hide DenoteMembers, YieldMembers;
      var ms := ParsedAreMembers(ts[1..], []);
      t := ObjectTree(ms);
      ObjectTreeOf(ms);
      assert ts == [BeginObject] + (YieldMembers(ms) + [EndObject] + rest);
    }
  }

  lemma AcceptsSome(ts: seq<Token>)
    requires ParseValue(ts).Ok?
    ensures ts != []
  {
  }

  lemma {:induction false} ParsedIsTree(ts: seq<Token>) returns (t: Tree)
    requires ParseValue(ts).Ok?
    ensures WellFormed(t) && ParseValue(ts).value.value == Denote(t)
    ensures ts == Yield(t) + ParseValue(ts).value.rest
    decreases |ts|, 1
  {
    AcceptsSome(ts);
    hide ParseValue, WellFormed, Denote;
    if ts[0] == BeginArray {
      t := ParsedIsArray(ts);
    } else if ts[0] == BeginObject {
      t := ParsedIsObject(ts);
    } else {
      ParsedIsScalar(ts);
      t := Scalar(ts[0]);
      assert ts == [ts[0]] + ts[1..];
    }
  }

  lemma {:induction false} ParsedAreElements(ts: seq<Token>, done: seq<Json>) returns (es: seq<Tree>)
    requires ParseElements(ts, done).Ok?
    ensures es != [] && forall e :: e in es ==> WellFormed(e)
    ensures ParseElements(ts, done).value.value == Array(DenoteElements(es, done))
    ensures ts == YieldElements(es) + [EndArray] + ParseElements(ts, done).value.rest
    decreases |ts|, 2
  {
    hide ParseValue, WellFormed, Denote, Yield;
    var p := ParseValue(ts).value;
    var e := ParsedIsTree(ts);
    if p.rest[0] == ValueSeparator {
      var more := ParsedAreElements(p.rest[1..], done + [p.value]);
      es := [e] + more;
      assert es[1..] == more;
      assert p.rest == [ValueSeparator] + p.rest[1..];
    } else {
      es := [e];
      assert es[1..] == [];
      assert p.rest == [EndArray] + p.rest[1..];
    }
  }

  lemma {:induction false} ParsedIsMember(ts: seq<Token>) returns (m: MemberTree)
    requires ParseMember(ts).Ok?
    ensures StringValue(m.name).Ok? && WellFormed(m.value)
    ensures ParseMember(ts).value.member == Member(StringValue(m.name).value, Denote(m.value))
    ensures ts == YieldMember(m) + ParseMember(ts).value.rest
    decreases |ts|, 0
  {
    hide ParseValue, WellFormed, Denote, Yield, StringValue;
    var t := ParsedIsTree(ts[2..]);
    m := MemberTree(ts[0].lexeme, t);
    assert ts == [ts[0], NameSeparator] + ts[2..];
  }

  lemma {:induction false} ParsedAreMembers(ts: seq<Token>, done: seq<Member>) returns (ms: seq<MemberTree>)
    requires ParseMembers(ts, done).Ok?
    ensures ms != [] && forall m :: m in ms ==> StringValue(m.name).Ok? && WellFormed(m.value)
    ensures ParseMembers(ts, done).value.value == Object(DenoteMembers(ms, done))
    ensures ts == YieldMembers(ms) + [EndObject] + ParseMembers(ts, done).value.rest
    decreases |ts|, 2
  {
    hide ParseMember, WellFormed, Denote, YieldMember, StringValue, Assign;
    var p := ParseMember(ts).value;
    var m := ParsedIsMember(ts);
    if p.rest[0] == ValueSeparator {
      var more := ParsedAreMembers(p.rest[1..], Assign(done, p.member.key, p.member.value));
      ms := [m] + more;
      assert ms[1..] == more;
      assert p.rest == [ValueSeparator] + p.rest[1..];
    } else {
      ms := [m];
      assert ms[1..] == [];
      assert p.rest == [EndObject] + p.rest[1..];
    }
  }

  /** The tokens are those of a tree for v, the end of the input, and anything after it. */
  ghost predicate Derives(ts: seq<Token>, v: Json) {
    exists t: Tree, rest: seq<Token> :: WellFormed(t) && Denote(t) == v && ts == Yield(t) + ([EndOfInput] + rest)
  }

  /** Exactness: the parser returns v just when the tokens are a text for v in the grammar. */
  lemma ParseIsExact(ts: seq<Token>, v: Json)
    ensures Parse(ts) == Ok(v) <==> Derives(ts, v)
  {
    hide ParseValue, WellFormed, Denote, Yield;
    if Parse(ts) == Ok(v) {
      var t := ParsedIsTree(ts);
      var rest := ParseValue(ts).value.rest;
      assert rest == [EndOfInput] + rest[1..];
    }
    if Derives(ts, v) {
      var t: Tree, rest: seq<Token> :| WellFormed(t) && Denote(t) == v && ts == Yield(t) + ([EndOfInput] + rest);
      TreeIsParsed(t, [EndOfInput] + rest);
    }
  }
}
