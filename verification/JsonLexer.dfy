/** The JSON scanner: what one token is, and the cursor-moving scanner that finds it. */
module JsonLexer {
  import opened Bytes
  import opened JsonNumber
  import opened JsonString
  import opened JsonUnicode

  datatype Token =
    | BeginArray | EndArray | BeginObject | EndObject | NameSeparator | ValueSeparator
    | LiteralNull | LiteralTrue | LiteralFalse
    | StringToken(lexeme: bytes)
    | NumberToken(lexeme: bytes)
    | EndOfInput
    | ParseError

  const NULL: bytes := [0x6E, 0x75, 0x6C, 0x6C]
  const TRUE: bytes := [0x74, 0x72, 0x75, 0x65]
  const FALSE: bytes := [0x66, 0x61, 0x6C, 0x73, 0x65]

  predicate IsSpace(b: byte) {
    b == SPACE || b == 0x09 || b == NEWLINE || b == 0x0D
  }

  /** A byte order mark, which the scanner skips like white space. */
  predicate StartsWithMark(s: bytes) {
    |s| >= 3 && s[0] == 0xEF && s[1] == 0xBB && s[2] == 0xBF
  }

  /** A lexeme with its quotes. */
  predicate IsStringLexeme(s: bytes) {
    |s| >= 2 && s[0] == QUOTE && s[|s| - 1] == QUOTE && IsBody(s[1..|s| - 1])
  }

  function Inside(lexeme: bytes): bytes
    requires IsStringLexeme(lexeme)
  {
    lexeme[1..|lexeme| - 1]
  }

  datatype Lexed = Lexed(token: Token, rest: bytes)

  function Punctuation(b: byte): Option<Token> {
    if b == LEFT_BRACKET then Some(BeginArray)
    else if b == RIGHT_BRACKET then Some(EndArray)
    else if b == LEFT_BRACE then Some(BeginObject)
    else if b == RIGHT_BRACE then Some(EndObject)
    else if b == COLON then Some(NameSeparator)
    else if b == COMMA then Some(ValueSeparator)
    else None
  }

  function Literal(s: bytes): Option<Lexed> {
    if NULL <= s then Some(Lexed(LiteralNull, s[4..]))
    else if TRUE <= s then Some(Lexed(LiteralTrue, s[4..]))
    else if FALSE <= s then Some(Lexed(LiteralFalse, s[5..]))
    else None
  }

  /** What the scanner takes for white space and for the tokens of one byte, and how the literals are spelled. */
  lemma TokenSpelling(b: byte, s: bytes)
    ensures IsSpace(b) <==> IsChar(b, ' ') || IsChar(b, '\t') || IsChar(b, '\n') || IsChar(b, '\r')
    ensures Punctuation(b) == Some(BeginArray) <==> IsChar(b, '[')
    ensures Punctuation(b) == Some(EndArray) <==> IsChar(b, ']')
    ensures Punctuation(b) == Some(BeginObject) <==> IsChar(b, '{')
    ensures Punctuation(b) == Some(EndObject) <==> IsChar(b, '}')
    ensures Punctuation(b) == Some(NameSeparator) <==> IsChar(b, ':')
    ensures Punctuation(b) == Some(ValueSeparator) <==> IsChar(b, ',')
    ensures NULL == Ascii("null") && TRUE == Ascii("true") && FALSE == Ascii("false")
    ensures StartsWithMark(s) <==> Encode(0xFEFF) <= s
  {
  }

  /**
   The first token of s and what follows it. Numbers are the longest prefix in the grammar; a NUL
   byte reads as the end of the input; after anything else that is no token one byte is skipped.
   */
  ghost function Lex(s: bytes): (r: Lexed)
    ensures |r.rest| < |s| || (s == [] && r == Lexed(EndOfInput, []))
    decreases |s|
  {
    if s == [] then Lexed(EndOfInput, [])
    else if s[0] == 0 then Lexed(EndOfInput, s[1..])
    else if IsSpace(s[0]) then Lex(s[1..])
    else if StartsWithMark(s) then Lex(s[3..])
    else if Punctuation(s[0]).Some? then Lexed(Punctuation(s[0]).value, s[1..])
    else if s[0] == QUOTE then
      match BodyLength(s[1..])
      case None => Lexed(ParseError, s[1..])
      case Some(k) => Lexed(StringToken(s[..k + 2]), s[k + 2..])
    else if s[0] == MINUS || IsDigit(s[0]) then
      NumberLengthIsLongest(s);
      match NumberLength(s)
      case None => Lexed(ParseError, s[1..])
      case Some(n) => Lexed(NumberToken(s[..n]), s[n..])
    else if Literal(s).Some? then Literal(s).value
    else Lexed(ParseError, s[1..])
  }

  /** The lexeme of a string token is a quoted text, that of a number token a number. */
  lemma {:induction false} LexemesAreWellFormed(s: bytes)
    ensures Lex(s).token.StringToken? ==> IsStringLexeme(Lex(s).token.lexeme)
    ensures Lex(s).token.NumberToken? ==> IsNumber(Lex(s).token.lexeme)
    decreases |s|
  {
    hide IsBody, BodyLength, IsNumber, NumberLength;
    if s == [] || s[0] == 0 {
    } else if IsSpace(s[0]) {
      LexemesAreWellFormed(s[1..]);
    } else if StartsWithMark(s) {
      LexemesAreWellFormed(s[3..]);
    } else if s[0] == QUOTE && BodyLength(s[1..]).Some? {
      var k := BodyLength(s[1..]).value;
      BodyUpToQuote(s[1..]);
      var lexeme := s[..k + 2];
      assert lexeme[1..|lexeme| - 1] == s[1..][..k];
    } else if s[0] == MINUS || IsDigit(s[0]) {
      NumberLengthIsLongest(s);
    }
  }

  // ----- what the first byte decides -----

  lemma LexSpace(s: bytes)
    requires s != [] && IsSpace(s[0])
    ensures Lex(s) == Lex(s[1..])
  {
  }

  lemma LexMark(s: bytes)
    requires StartsWithMark(s)
    ensures Lex(s) == Lex(s[3..])
  {
  }

  lemma LexEnd(s: bytes)
    requires s == [] || s[0] == 0
    ensures Lex(s) == Lexed(EndOfInput, if s == [] then [] else s[1..])
  {
  }

  lemma LexString(s: bytes)
    requires s != [] && s[0] == QUOTE
    ensures Lex(s) == match BodyLength(s[1..])
                      case None => Lexed(ParseError, s[1..])
                      case Some(k) => Lexed(StringToken(s[..k + 2]), s[k + 2..])
  {
  }

  lemma LexNumber(s: bytes)
    requires s != [] && (s[0] == MINUS || IsDigit(s[0]))
    ensures Lex(s) == match NumberLength(s)
                      case None => Lexed(ParseError, s[1..])
                      case Some(n) => Lexed(NumberToken(s[..n]), s[n..])
  {
    hide NumberLength;
  }

  /**
   Maximal munch: a text that starts with a minus sign or a digit scans as the longest prefix that is
   a number, and as an error exactly when no prefix is one.
   */
  lemma NumberIsMaximalMunch(s: bytes, n: nat)
    requires s != [] && (s[0] == MINUS || IsDigit(s[0]))
    ensures LongestNumber(s, n) <==> n <= |s| && Lex(s) == Lexed(NumberToken(s[..n]), s[n..])
    ensures NoNumber(s) <==> Lex(s) == Lexed(ParseError, s[1..])
  {
    LexNumber(s);
    NumberLengthIsLongest(s);
    hide Lex, IsNumber, NumberLength;
    if LongestNumber(s, n) {
      LongestUnique(s, n, NumberLength(s).value);
    }
  }

  lemma NotPrefix(text: bytes, s: bytes, i: nat)
    requires i < |text| && At(s, i) != text[i] && text[i] != 0
    ensures !(text <= s)
  {
  }

  /** The bytes that start neither white space, a string, a number nor the end of the input. */
  predicate StartsFixed(s: bytes) {
    s != [] && s[0] != 0 && !IsSpace(s[0]) && s[0] != QUOTE && s[0] != MINUS && !IsDigit(s[0]) && !StartsWithMark(s)
  }

  lemma LexFixed(s: bytes)
    requires StartsFixed(s)
    ensures Lex(s) == if Punctuation(s[0]).Some? then Lexed(Punctuation(s[0]).value, s[1..])
                      else if Literal(s).Some? then Literal(s).value
                      else Lexed(ParseError, s[1..])
  {
  }

  /** The bytes with which strtold would go on behind a number token: 01, 1. and 0x1. */
  predicate RunsOn(b: byte) {
    IsDigit(b) || b == DOT || b == 0x78 || b == 0x58
  }

  /** Behind them no token comes that may follow a value, so such a text is rejected anyway. */
  lemma NumberRunsOn(rest: bytes)
    requires rest != [] && RunsOn(rest[0])
    ensures Lex(rest).token.NumberToken? || Lex(rest).token.ParseError?
  {
    if IsDigit(rest[0]) {
      LexNumber(rest);
    } else {
      LexFixed(rest);
    }
    hide Lex, NumberLength;
  }

  predicate IsFinal(t: Token) {
    t.EndOfInput? || t.ParseError?
  }

  /** The tokens of s up to the first end of input or scanning error. */
  ghost function Tokens(s: bytes): (ts: seq<Token>)
    ensures ts != []
    decreases |s|
  {
    var l := Lex(s);
    if IsFinal(l.token) then [l.token] else [l.token] + Tokens(l.rest)
  }

  lemma BodyLengthAtQuote(s: bytes)
    requires s != [] && s[0] == QUOTE
    ensures BodyLength(s) == Some(0)
  {
  }

  lemma NulStops(q: State)
    ensures Step(q, 0) == Dead
  {
  }

  lemma Cut(s: bytes, start: nat, end: nat)
    requires start <= end <= |s|
    ensures s[start..][..end - start] == s[start..end] && s[start..][end - start..] == s[end..]
  {
  }

  class Lexer {
    const content: bytes
    var start: nat
    var marker: nat
    var cursor: nat

    constructor (s: bytes)
      ensures content == s && start == 0 && cursor == 0
    {
      content := s;
      start, marker, cursor := 0, 0, 0;
    }

    /** What has not been scanned; the cursor may stand one past the terminating NUL. */
    ghost function Rest(): bytes
      reads this
    {
      if cursor <= |content| then content[cursor..] else []
    }

    /** The token just scanned is a string: its lexeme is the text from start to cursor. */
    ghost predicate HoldsString(lexeme: bytes)
      reads this
    {
      start <= cursor <= |content| && content[start..cursor] == lexeme && IsStringLexeme(lexeme)
    }

    /** Recognise the next token, skipping white space and byte order marks before it. */
    method Scan() returns (token: Token)
      requires cursor <= |content|
      modifies this
      ensures cursor <= |content| + 1
      ensures Lexed(token, Rest()) == Lex(old(Rest()))
      ensures !token.EndOfInput? ==> cursor <= |content|
      ensures token.StringToken? ==> HoldsString(token.lexeme)
      decreases |content| - cursor
    {
      hide Lex, IsStringLexeme;
      marker := 0;
      start := cursor;
      var b := At(content, cursor);
      if b == 0 {
        LexEnd(content[cursor..]);
        cursor := cursor + 1;
        token := EndOfInput;
      } else if IsSpace(b) {
        SkipSpaces();
        token := Scan();
      } else if b == 0xEF && At(content, cursor + 1) == 0xBB && At(content, cursor + 2) == 0xBF {
        LexMark(content[cursor..]);
        assert content[cursor..][3..] == content[cursor + 3..];
        cursor := cursor + 3;
        token := Scan();
      } else {
        token := ScanToken();
      }
    }

    /** The same, when the token starts at the cursor. */
    method ScanToken() returns (token: Token)
      requires start == cursor < |content|
      requires content[cursor] != 0 && !IsSpace(content[cursor]) && !StartsWithMark(content[cursor..])
      modifies `cursor, `marker
      ensures start < cursor <= |content|
      ensures Lexed(token, content[cursor..]) == Lex(content[start..])
      ensures token.StringToken? ==> HoldsString(token.lexeme)
    {
      hide Lex, BodyLength, NumberLength, IsStringLexeme, IsNumber, StartsWithMark, Punctuation, Literal;
      var b := content[cursor];
      ghost var s := content[start..];
      if b == QUOTE {
        LexString(s);
        LexemesAreWellFormed(s);
        Cut(content, start, start + 1);
        token := ScanString();
        Cut(content, start, cursor);
      } else if b == MINUS || IsDigit(b) {
        LexNumber(s);
        token := ScanNumber();
        Cut(content, start, cursor);
      } else {
        token := ScanFixed();
      }
    }

    method SkipSpaces()
      requires cursor < |content| && IsSpace(content[cursor])
      modifies `cursor
      ensures old(cursor) < cursor <= |content|
      ensures Lex(content[cursor..]) == Lex(content[old(cursor)..])
    {
      hide Lex;
      ghost var from := cursor;
      LexSpace(content[cursor..]);
      cursor := cursor + 1;
      while IsSpace(At(content, cursor))
        invariant from < cursor <= |content|
        invariant Lex(content[cursor..]) == Lex(content[from..])
        decreases |content| - cursor
      {
        LexSpace(content[cursor..]);
        cursor := cursor + 1;
      }
    }

    /** Labels 6 to 22 and 30, 51 to 64: punctuation, literals and bytes that start no token. */
    method ScanFixed() returns (token: Token)
      requires cursor < |content|
      requires StartsFixed(content[cursor..])
      modifies `cursor, `marker
      ensures old(cursor) < cursor <= |content|
      ensures Lexed(token, content[cursor..]) == Lex(content[old(cursor)..])
      ensures !token.StringToken?
    {
      hide Lex;
      ghost var s := content[cursor..];
      LexFixed(s);
      var b := content[cursor];
      assert s[0] == b;
      if Punctuation(b).Some? {
        cursor := cursor + 1;
        token := Punctuation(b).value;
      } else if b == 0x6E {
        token := ScanLiteral(NULL, LiteralNull);
      } else if b == 0x74 {
        token := ScanLiteral(TRUE, LiteralTrue);
      } else if b == 0x66 {
        token := ScanLiteral(FALSE, LiteralFalse);
      } else {
        cursor := cursor + 1;
        token := ParseError;
      }
    }

    method ScanLiteral(text: bytes, literal: Token) returns (token: Token)
      requires cursor < |content| && text != [] && content[cursor] == text[0]
      requires 0 !in text
      modifies `cursor, `marker
      ensures if text <= content[old(cursor)..]
              then token == literal && cursor == old(cursor) + |text|
              else token == ParseError && cursor == old(cursor) + 1
      ensures cursor <= |content|
    {
      ghost var from := cursor;
      cursor := cursor + 1;
      marker := cursor;
      var i := 1;
      while i < |text|
        invariant 1 <= i <= |text| && marker == from + 1 && cursor == from + i <= |content|
        invariant forall j :: 0 <= j < i ==> content[from + j] == text[j]
      {
        if At(content, cursor) != text[i] {
          NotPrefix(text, content[from..], i);
          cursor := marker;
          return ParseError;
        }
        cursor := cursor + 1;
        i := i + 1;
      }
      token := literal;
    }

    /** Labels 27 and 31 to 40: the text of a string, with a return to the marker on an error. */
    method ScanString() returns (token: Token)
      requires start == cursor < |content| && content[cursor] == QUOTE
      modifies `cursor, `marker
      ensures start < cursor <= |content|
      ensures match BodyLength(content[start + 1..])
              case None => token == ParseError && cursor == start + 1
              case Some(k) => token == StringToken(content[start..cursor]) && cursor == start + 1 + k + 1
    {
      hide Lex, BodyLength, ItemLength, IsBody;
      cursor := cursor + 1;
      marker := cursor;
      var found := ScanBody();
      if !found {
        cursor := marker;
        return ParseError;
      }
      cursor := cursor + 1;
      token := StringToken(content[start..cursor]);
    }

    method ScanBody() returns (found: bool)
      requires cursor <= |content|
      modifies `cursor
      ensures old(cursor) <= cursor <= |content| && (found ==> cursor < |content|)
      ensures BodyLength(content[old(cursor)..]) == if found then Some(cursor - old(cursor)) else None
    {
      hide Lex, BodyLength, ItemLength, IsBody;
      ghost var from := cursor;
      while At(content, cursor) != QUOTE
        invariant from <= cursor <= |content|
        invariant BodyLength(content[from..]) == Shifted(BodyLength(content[cursor..]), cursor - from)
        decreases |content| - cursor
      {
        BodyLengthStep(content[cursor..]);
        var n := ScanItem();
        if n == 0 {
          return false;
        }
        assert content[cursor + n..] == content[cursor..][n..];
        cursor := cursor + n;
      }
      BodyLengthAtQuote(content[cursor..]);
      found := true;
    }

    /** The length of the character or escape at the cursor, 0 when there is none. */
    method ScanItem() returns (n: nat)
      requires cursor <= |content|
      ensures n == ItemLength(content[cursor..])
    {
      ghost var rest := content[cursor..];
      var b := At(content, cursor);
      assert rest != [] ==> rest[0] == b;
      if b <= 0x0F || b == QUOTE {
        return 0;
      }
      if b != BACKSLASH {
        return 1;
      }
      var e := At(content, cursor + 1);
      assert |rest| > 1 ==> rest[1] == e;
      if SimpleEscape(e) {
        return 2;
      }
      if e == LOWER_U && IsHex(At(content, cursor + 2)) && IsHex(At(content, cursor + 3)) &&
         IsHex(At(content, cursor + 4)) && IsHex(At(content, cursor + 5)) {
        assert IsUnicodeEscape(rest);
        return 6;
      }
      assert !IsUnicodeEscape(rest);
      n := 0;
    }

    /**
     Labels 23 to 26 and 41 to 50: run the number automaton, remembering in the marker the end of
     the last complete number, and go back to it when the automaton stops in the middle of one.
     */
    method ScanNumber() returns (token: Token)
      requires start == cursor < |content| && (content[cursor] == MINUS || IsDigit(content[cursor]))
      modifies `cursor, `marker
      ensures start < cursor <= |content|
      ensures match NumberLength(content[start..])
              case None => token == ParseError && cursor == start + 1
              case Some(n) => token == NumberToken(content[start..cursor]) && cursor == start + n
    {
      hide Lex, Run, NumberLength, Scanning, Step, SetsMarker;
      ghost var s := content[start..];
      var q, accept := RunAutomaton();
      ScanningStops(s, cursor - start, q, accept, marker - start);
      if q != Exp {
        if !accept {
          return ParseError;
        }
        cursor := marker;
      }
      token := NumberToken(content[start..cursor]);
    }

    method RunAutomaton() returns (q: State, accept: bool)
      requires start == cursor < |content| && (content[cursor] == MINUS || IsDigit(content[cursor]))
      modifies `cursor, `marker
      ensures start < cursor <= |content| && start <= marker <= cursor
      ensures Scanning(content[start..], cursor - start, q, accept, marker - start)
      ensures SetsMarker(q) ==> accept && marker == cursor
      ensures cursor == |content| || Step(q, content[cursor]).Dead?
    {
      hide Run, Scanning, Step, SetsMarker;
      ghost var s := content[start..];
      ScanningStarts(s);
      q, accept := Step(Start, content[cursor]), false;
      cursor := cursor + 1;
      marker := start;
      while true
        invariant start < cursor <= |content| && start <= marker <= cursor
        invariant Scanning(s, cursor - start, q, accept, marker - start)
        decreases |content| - cursor
      {
        if SetsMarker(q) {
          ScanningMarks(s, cursor - start, q, accept, marker - start);
          marker := cursor;
          accept := true;
        }
        var next := Step(q, At(content, cursor));
        NulStops(q);
        if next == Dead {
          break;
        }
        ScanningGoesOn(s, cursor - start, q, accept, marker - start);
        cursor := cursor + 1;
        q := next;
      }
    }

    /** get_string: the decoded text between the quotes of the token just scanned. */
    method GetString(ghost lexeme: bytes) returns (r: Result<bytes, UnicodeError>)
      requires HoldsString(lexeme)
      ensures r == Decode(Inside(lexeme))
    {
      hide Decode, FirstPiece, ItemLength;
      ghost var whole := Inside(lexeme);
      SliceOfSlice(content, start, cursor, 1, cursor - start - 1);
      var result: bytes := [];
      var i := start + 1;
      PrependNothing(Decode(whole));
      while i < cursor - 1
        invariant start < i <= cursor - 1
        invariant IsBody(content[i..cursor - 1])
        invariant Decode(whole) == Prepend(result, Decode(content[i..cursor - 1]))
      {
        ghost var rest := content[i..cursor - 1];
        DecodeRound(result, rest);
        var piece := NextPiece(i);
        match piece {
          case Err(e) =>
            return Err(e);
          case Ok(p) =>
            assert content[i + p.length..cursor - 1] == rest[p.length..];
            result := result + p.text;
            i := i + p.length;
        }
      }
      DecodeEmpty(result);
      r := Ok(result);
    }

    /** One round of get_string, at position i. */
    method NextPiece(i: nat) returns (r: Result<Piece, UnicodeError>)
      requires start < i < cursor - 1 < |content| && content[cursor - 1] == QUOTE
      requires IsBody(content[i..cursor - 1])
      ensures ItemLength(content[i..cursor - 1]) > 0
      ensures IsBody(content[i..cursor - 1][ItemLength(content[i..cursor - 1])..])
      ensures r == FirstPiece(content[i..cursor - 1])
    {
      hide Encode, ToUnicode;
      ghost var rest := content[i..cursor - 1];
      if content[i] != BACKSLASH {
        return Ok(Piece([content[i]], 1));
      }
      var c := content[i + 1];
      if SimpleEscape(c) {
        return Ok(Piece([Unescape(c)], 2));
      }
      assert IsUnicodeEscape(rest);
      r := NextCode(i);
    }

    /** The same for an escaped code, with a second one behind a high surrogate. */
    method NextCode(i: nat) returns (r: Result<Piece, UnicodeError>)
      requires start < i < cursor - 1 < |content| && content[cursor - 1] == QUOTE
      requires IsUnicodeEscape(content[i..cursor - 1]) && IsBody(content[i..cursor - 1])
      ensures ItemLength(content[i..cursor - 1]) == 6 && IsBody(content[i..cursor - 1][6..])
      ensures r == FirstPiece(content[i..cursor - 1])
    {
      ghost var rest := content[i..cursor - 1];
      ghost var next := rest[6..];
      assert content[i..i + 6] == rest[..6];
      CodeOfPrefix(rest);
      var code := EscapedCode(content[i..i + 6]);
      assert ItemLength(rest) == 6;
      hide Encode, ToUnicode, EscapedCode, IsBody;
      assert IsBody(next);
      if HighSurrogate(code) {
        if i + 7 >= |content| || content[i + 6] != BACKSLASH || content[i + 7] != LOWER_U {
          return Err(MissingLowSurrogate);
        }
        assert next != [] && next[0] == BACKSLASH;
        EscapeInBody(next);
        CodeOfPrefix(next);
        assert content[i + 6..i + 12] == next[..6];
        var t := ToUnicode(code, EscapedCode(content[i + 6..i + 12]));
        match t {
          case Ok(u) => r := Ok(Piece(u, 12));
          case Err(e) => r := Err(e);
        }
      } else {
        match ToUnicode(code, 0) {
          case Ok(u) => r := Ok(Piece(u, 6));
          case Err(e) => r := Err(e);
        }
      }
    }
  }
}
