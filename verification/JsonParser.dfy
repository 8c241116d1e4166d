/** The parser object: a scanner and the token last read from it. */
module JsonParser {
  import opened Bytes
  import opened JsonLexer
  import opened JsonValue
  import opened JsonGrammar

  class Parser {
    const lexer: Lexer
    var lastToken: Token

    constructor (s: bytes)
      ensures Valid() && Stream() == Tokens(s) && fresh(lexer)
    {
      var l := new Lexer(s);
      var token := l.Scan();
      lexer := l;
      lastToken := token;
    }

    ghost predicate Valid()
      reads this, lexer
    {
      (!IsFinal(lastToken) ==> lexer.cursor <= |lexer.content|) &&
      (lastToken.StringToken? ==> lexer.HoldsString(lastToken.lexeme))
    }

    /** The token last read and all tokens still to come. */
    ghost function Stream(): (ts: seq<Token>)
      reads this, lexer
      ensures ts != [] && ts[0] == lastToken
    {
      if IsFinal(lastToken) then [lastToken] else [lastToken] + Tokens(lexer.Rest())
    }

    method GetToken()
      requires Valid() && !IsFinal(lastToken)
      modifies this, lexer
      ensures Valid() && Stream() == old(Stream())[1..]
    {
      hide Lex;
      ghost var rest := lexer.Rest();
      lastToken := lexer.Scan();
      assert Stream() == Tokens(rest);
    }

    /** The parser's public entry: one value, then the end of the input. */
    method Parse() returns (r: Result<Json, ParseFailure>)
      requires Valid()
      modifies this, lexer
      ensures r == JsonGrammar.Parse(old(Stream()))
    {
      hide ParseValue;
      r := ParseInternal();
      if r.Ok? && lastToken != EndOfInput {
        r := Err(Unexpected(lastToken));
      }
    }

    method ParseInternal() returns (r: Result<Json, ParseFailure>)
      requires Valid()
      modifies this, lexer
      ensures r.Ok? ==> Valid() && ParseValue(old(Stream())) == Ok(Parsed(r.value, Stream()))
      ensures r.Err? ==> ParseValue(old(Stream())) == Err(r.error)
      decreases |Stream()|, 1
    {
      match lastToken
      case BeginObject =>
        r := ParseObject();
      case BeginArray =>
        r := ParseArray();
      case LiteralNull =>
        GetToken();
        r := Ok(Null);
      case LiteralTrue =>
        GetToken();
        r := Ok(Boolean(true));
      case LiteralFalse =>
        GetToken();
        r := Ok(Boolean(false));
      case NumberToken(lexeme) =>
        GetToken();
        r := Ok(NumberValue(lexeme));
      case StringToken(lexeme) =>
        var s := lexer.GetString(lexeme);
        if s.Err? {
          return Err(BadString(s.error));
        }
        GetToken();
        r := Ok(String(s.value));
      case _ =>
        r := Err(Unexpected(lastToken));
    }

    method ParseObject() returns (r: Result<Json, ParseFailure>)
      requires Valid() && lastToken == BeginObject
      modifies this, lexer
      ensures r.Ok? ==> Valid() && ParseValue(old(Stream())) == Ok(Parsed(r.value, Stream()))
      ensures r.Err? ==> ParseValue(old(Stream())) == Err(r.error)
      decreases |Stream()|, 0
    {
      hide ParseMember, Assign;
      GetToken();
      if lastToken == EndObject {
        GetToken();
        return Ok(Object([]));
      }
      if lastToken == ValueSeparator {
        return Err(Unexpected(lastToken));
      }
      var members: seq<Member> := [];
      while true
        invariant Valid() && |Stream()| < |old(Stream())|
        invariant ParseMembers(Stream(), members) == ParseValue(old(Stream()))
        decreases |Stream()|
      {
        var m := ParsePair();
        if m.Err? {
          return Err(m.error);
        }
        members := Assign(members, m.value.key, m.value.value);
        if lastToken != ValueSeparator {
          break;
        }
        GetToken();
      }
      if lastToken != EndObject {
        return Err(Unexpected(lastToken));
      }
      GetToken();
      r := Ok(Object(members));
    }

    /** The key, the colon and the value of one round of the loop over members. */
    method ParsePair() returns (r: Result<Member, ParseFailure>)
      requires Valid()
      modifies this, lexer
      ensures r.Ok? ==> Valid() && ParseMember(old(Stream())) == Ok(ParsedMember(r.value, Stream()))
      ensures r.Err? ==> ParseMember(old(Stream())) == Err(r.error)
      decreases |Stream()|, 2
    {
      hide ParseValue;
      if !lastToken.StringToken? {
        return Err(Unexpected(lastToken));
      }
      var key := lexer.GetString(lastToken.lexeme);
      if key.Err? {
        return Err(BadString(key.error));
      }
      GetToken();
      if lastToken != NameSeparator {
        return Err(Unexpected(lastToken));
      }
      GetToken();
      var value := ParseInternal();
      if value.Err? {
        return Err(value.error);
      }
      r := Ok(Member(key.value, value.value));
    }

    method ParseArray() returns (r: Result<Json, ParseFailure>)
      requires Valid() && lastToken == BeginArray
      modifies this, lexer
      ensures r.Ok? ==> Valid() && ParseValue(old(Stream())) == Ok(Parsed(r.value, Stream()))
      ensures r.Err? ==> ParseValue(old(Stream())) == Err(r.error)
      decreases |Stream()|, 0
    {
      GetToken();
      if lastToken == EndArray {
        GetToken();
        return Ok(Array([]));
      }
      if lastToken == ValueSeparator {
        return Err(Unexpected(lastToken));
      }
      var elements: seq<Json> := [];
      while true
        invariant Valid() && |Stream()| < |old(Stream())|
        invariant ParseElements(Stream(), elements) == ParseValue(old(Stream()))
        decreases |Stream()|
      {
        var value := ParseInternal();
        if value.Err? {
          return Err(value.error);
        }
        elements := elements + [value.value];
        if lastToken != ValueSeparator {
          break;
        }
        GetToken();
      }
      if lastToken != EndArray {
        return Err(Unexpected(lastToken));
      }
      GetToken();
      r := Ok(Array(elements));
    }
  }

  /** basic_json::parse on a text. */
  method ParseText(s: bytes) returns (r: Result<Json, ParseFailure>)
    ensures r == JsonGrammar.Parse(Tokens(s))
  {
    var parser := new Parser(s);
    r := parser.Parse();
  }
}
