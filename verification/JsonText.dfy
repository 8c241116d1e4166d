/**
 The layout of a JSON text, read off the text alone: which bytes are outside its strings, how deep in
 brackets it is, and its lines. Nothing here refers to the printer.
 */
module JsonText {
  import opened Bytes

  // ----- what is outside the strings -----

  datatype Where = Outside | Inside | Escaped

  function Next(w: Where, b: byte): Where {
    match w
    case Outside => if b == QUOTE then Inside else Outside
    case Inside => if b == BACKSLASH then Escaped else if b == QUOTE then Outside else Inside
    case Escaped => Inside
  }

  function After(w: Where, s: bytes): Where
    decreases |s|
  {
    if s == [] then w else After(Next(w, s[0]), s[1..])
  }

  /** The text with every byte of a string replaced by a quote. */
  function Masked(w: Where, s: bytes): (r: bytes)
    ensures |r| == |s|
    decreases |s|
  {
    if s == [] then [] else [if w == Outside then s[0] else QUOTE] + Masked(Next(w, s[0]), s[1..])
  }

  function Outer(s: bytes): (r: bytes)
    ensures |r| == |s|
  {
    Masked(Outside, s)
  }

  /** No string is left open at the end. */
  predicate Closed(s: bytes) {
    After(Outside, s) == Outside
  }

  lemma StepFront(w: Where, b: byte, t: bytes)
    ensures After(w, [b] + t) == After(Next(w, b), t)
    ensures Masked(w, [b] + t) == [if w == Outside then b else QUOTE] + Masked(Next(w, b), t)
  {
    assert ([b] + t)[1..] == t;
  }

  lemma {:induction false} MaskedSum(w: Where, a: bytes, b: bytes)
    ensures After(w, a + b) == After(After(w, a), b)
    ensures Masked(w, a + b) == Masked(w, a) + Masked(After(w, a), b)
    decreases |a|
  {
    if a == [] {
      assert a + b == b;
    } else {
      MaskedSum(Next(w, a[0]), a[1..], b);
      assert a + b == [a[0]] + (a[1..] + b);
      StepFront(w, a[0], a[1..] + b);
    }
  }

  lemma OuterSum(a: bytes, b: bytes)
    requires Closed(a)
    ensures Outer(a + b) == Outer(a) + Outer(b) && (Closed(a + b) <==> Closed(b))
  {
    MaskedSum(Outside, a, b);
  }

  lemma {:induction false} NoQuotes(s: bytes)
    requires QUOTE !in s
    ensures Closed(s) && Outer(s) == s
  {
    if s != [] {
      NoQuotes(s[1..]);
      assert s == [s[0]] + s[1..];
      assert s[0] in s;
    }
  }

  // ----- white space -----

  predicate White(b: byte) {
    IsChar(b, ' ') || IsChar(b, '\t') || IsChar(b, '\n') || IsChar(b, '\r')
  }

  /** The bytes of a text where the outer text has no white space. */
  function Keep(s: bytes, outer: bytes): (r: bytes)
    requires |s| == |outer|
    ensures |r| <= |s|
  {
    if s == [] then []
    else (if White(outer[0]) then [] else [s[0]]) + Keep(s[1..], outer[1..])
  }

  /** The text without the white space outside its strings. */
  function Strip(s: bytes): bytes {
    Keep(s, Outer(s))
  }

  lemma RestOfSum<T>(a: seq<T>, b: seq<T>)
    requires a != []
    ensures (a + b)[0] == a[0] && (a + b)[1..] == a[1..] + b
  {
  }

  lemma {:induction false} KeepSum(a: bytes, p: bytes, b: bytes, q: bytes)
    requires |a| == |p| && |b| == |q|
    ensures Keep(a + b, p + q) == Keep(a, p) + Keep(b, q)
    decreases |a|
  {
    if a == [] {
      assert a + b == b && p + q == q;
    } else {
      KeepSum(a[1..], p[1..], b, q);
      RestOfSum(a, b);
      RestOfSum(p, q);
    }
  }

  lemma StripSum(a: bytes, b: bytes)
    requires Closed(a)
    ensures Strip(a + b) == Strip(a) + Strip(b)
  {
    OuterSum(a, b);
    KeepSum(a, Outer(a), b, Outer(b));
  }

  lemma {:induction false} KeepAll(s: bytes, outer: bytes)
    requires |s| == |outer|
    ensures Keep(s, outer) == s <==> forall i :: 0 <= i < |s| ==> !White(outer[i])
    decreases |s|
  {
    if s != [] {
      KeepAll(s[1..], outer[1..]);
      assert s == [s[0]] + s[1..] && outer == [outer[0]] + outer[1..];
      if White(outer[0]) {
        assert |Keep(s, outer)| < |s|;
      } else {
        assert Keep(s, outer)[1..] == Keep(s[1..], outer[1..]);
      }
    }
  }

  // ----- brackets -----

  predicate Opening(b: byte) {
    IsChar(b, '[') || IsChar(b, '{')
  }

  predicate Closing(b: byte) {
    IsChar(b, ']') || IsChar(b, '}')
  }

  predicate Match(a: byte, b: byte) {
    (IsChar(a, '[') && IsChar(b, ']')) || (IsChar(a, '{') && IsChar(b, '}'))
  }

  function Weight(b: byte): int {
    if Opening(b) then 1 else if Closing(b) then -1 else 0
  }

  /** How many more brackets are opened than closed. */
  function Net(s: bytes): int {
    if s == [] then 0 else Weight(s[0]) + Net(s[1..])
  }

  lemma {:induction false} NetSum(a: bytes, b: bytes)
    ensures Net(a + b) == Net(a) + Net(b)
    decreases |a|
  {
    if a == [] {
      assert a + b == b;
    } else {
      NetSum(a[1..], b);
      assert (a + b)[1..] == a[1..] + b;
    }
  }

  // ----- lines -----

  function Lines(s: bytes): (r: seq<bytes>)
    ensures r != []
  {
    if s == [] then [[]] else InFront(s[0], Lines(s[1..]))
  }

  /** A line break begins another line, any other byte belongs to the first line. */
  function InFront(b: byte, lines: seq<bytes>): (r: seq<bytes>)
    requires lines != []
    ensures r != []
  {
    if IsChar(b, '\n') then [[]] + lines else [[b] + lines[0]] + lines[1..]
  }

  lemma {:induction false} OneLine(a: bytes)
    requires NEWLINE !in a
    ensures Lines(a) == [a]
    decreases |a|
  {
    if a != [] {
      OneLine(a[1..]);
      assert a == [a[0]] + a[1..];
      assert a[0] in a;
    }
  }

  lemma {:induction false} LinesSum(a: bytes, b: bytes)
    ensures Lines(a + ([NEWLINE] + b)) == Lines(a) + Lines(b)
    decreases |a|
  {
    var t := [NEWLINE] + b;
    if a == [] {
      assert a + t == t && t[1..] == b;
    } else {
      LinesSum(a[1..], b);
      RestOfSum(a, t);
      LinesFront(a);
      LinesFront(a + t);
      PutInFront(a[0], Lines(a[1..]), Lines(b));
      hide Lines;
    }
  }

  lemma LinesFront(s: bytes)
    requires s != []
    ensures Lines(s) == InFront(s[0], Lines(s[1..]))
  {
  }

  lemma PutInFront(b: byte, more: seq<bytes>, rest: seq<bytes>)
    requires more != []
    ensures InFront(b, more) + rest == InFront(b, more + rest)
  {
    RestOfSum(more, rest);
  }

  /** The number of spaces a line starts with. */
  function Leading(line: bytes): (n: nat)
    ensures n <= |line|
  {
    if line == [] || !IsChar(line[0], ' ') then 0 else 1 + Leading(line[1..])
  }

  function Content(line: bytes): bytes {
    line[Leading(line)..]
  }

  /** The indentation of a line, in the 32-bit unsigned arithmetic of the printer. */
  function Indentation(depth: int, step: nat): (n: nat)
    ensures n < 0x1_0000_0000
  {
    depth * step % 0x1_0000_0000
  }

  /**
   Inside a line: an opening bracket and a comma end the line, unless the opening bracket is closed at
   once; a closing bracket closes an opening one at once or is the first byte; a colon is followed by
   one space, and there is no other white space.
   */
  predicate ContentRule(c: bytes) {
    forall i :: 0 <= i < |c| ==> RuleAt(c, i)
  }

  predicate RuleAt(c: bytes, i: nat)
    requires i < |c|
  {
    (Opening(c[i]) ==> i + 1 == |c| || Match(c[i], c[i + 1])) &&
    (IsChar(c[i], ',') ==> i + 1 == |c|) &&
    (Closing(c[i]) ==> i == 0 || Match(c[i - 1], c[i])) &&
    (White(c[i]) ==> IsChar(c[i], ' ') && i > 0 && IsChar(c[i - 1], ':')) &&
    (IsChar(c[i], ':') ==> i + 1 < |c| && IsChar(c[i + 1], ' '))
  }

  /** A line at this depth: a line that begins with a closing bracket is indented one step less. */
  predicate LineRule(line: bytes, depth: int, step: nat) {
    var c := Content(line);
    c != [] && ContentRule(c) &&
    Leading(line) == Indentation(if Closing(c[0]) then depth - 1 else depth, step)
  }

  /** The line begins with a closing bracket. */
  predicate Closes(line: bytes) {
    Content(line) != [] && Closing(Content(line)[0])
  }

  /** The line ends with an opening bracket or a comma. */
  predicate Continues(line: bytes) {
    line != [] && (Opening(line[|line| - 1]) || IsChar(line[|line| - 1], ','))
  }

  /** A new line begins after an opening bracket, after a comma and before a closing bracket, and nowhere else. */
  predicate BreakRule(line: bytes, next: bytes) {
    Closes(next) <==> !Continues(line)
  }

  /** Every line obeys the rules at the depth it begins at. */
  predicate LaidOut(lines: seq<bytes>, depth: int, step: nat) {
    lines == [] ||
    (LineRule(lines[0], depth, step) &&
     (|lines| > 1 ==> BreakRule(lines[0], lines[1])) &&
     LaidOut(lines[1..], depth + Net(lines[0]), step))
  }

  function NetOfLines(lines: seq<bytes>): int {
    if lines == [] then 0 else Net(lines[0]) + NetOfLines(lines[1..])
  }

  lemma {:induction false} Stack(a: seq<bytes>, b: seq<bytes>, depth: int, step: nat)
    requires LaidOut(a, depth, step) && LaidOut(b, depth + NetOfLines(a), step)
    requires a != [] && b != [] ==> BreakRule(a[|a| - 1], b[0])
    ensures LaidOut(a + b, depth, step) && NetOfLines(a + b) == NetOfLines(a) + NetOfLines(b)
    decreases |a|
  {
    hide LineRule, BreakRule, Net;
    if a == [] {
      assert a + b == b;
    } else {
      Stack(a[1..], b, depth + Net(a[0]), step);
      assert (a + b)[1..] == a[1..] + b;
    }
  }

  /** The same line by line: the depth of a line is what the lines before it have opened and not closed. */
  lemma {:induction false} LaidOutMeans(lines: seq<bytes>, depth: int, step: nat, k: nat)
    requires LaidOut(lines, depth, step) && k < |lines|
    ensures LineRule(lines[k], depth + NetOfLines(lines[..k]), step)
    ensures k > 0 ==> BreakRule(lines[k - 1], lines[k])
    decreases |lines|
  {
    hide LineRule, BreakRule, Net;
    if k > 0 {
      LaidOutMeans(lines[1..], depth + Net(lines[0]), step, k - 1);
      assert lines[..k][1..] == lines[1..][..k - 1];
    }
  }
}
