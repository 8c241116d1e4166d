/**
 The number part of the JSON scanner: its automaton, the grammar of RFC 7159 section 6,
 the proof that they agree, and the decimal text of an integer.
 */
module JsonNumber {
  import opened Bytes

  // ----- the grammar of RFC 7159, section 6: [ minus ] int [ frac ] [ exp ] -----

  predicate IsInt(s: bytes) {
    AllDigits(s) && |s| >= 1 && (|s| > 1 ==> s[0] != ZERO)
  }

  predicate IsSignedInt(s: bytes) {
    IsInt(s) || (|s| > 0 && s[0] == MINUS && IsInt(s[1..]))
  }

  predicate IsFrac(s: bytes) {
    |s| >= 2 && s[0] == DOT && AllDigits(s[1..])
  }

  predicate IsExpMark(b: byte) {
    b == UPPER_E || b == LOWER_E
  }

  predicate IsSign(b: byte) {
    b == PLUS || b == MINUS
  }

  predicate IsExp(s: bytes) {
    |s| >= 2 && IsExpMark(s[0]) &&
    (AllDigits(s[1..]) || (|s| >= 3 && IsSign(s[1]) && AllDigits(s[2..])))
  }

  ghost predicate IsMantissa(s: bytes) {
    IsSignedInt(s) || exists b :: 0 <= b <= |s| && IsSignedInt(s[..b]) && IsFrac(s[b..])
  }

  ghost predicate IsNumber(s: bytes) {
    IsMantissa(s) || exists c :: 0 <= c <= |s| && IsMantissa(s[..c]) && IsExp(s[c..])
  }

  // ----- the automaton; each state names the labels of the generated scanner it stands for -----

  datatype State =
    | Start      // the dispatch on the first byte
    | Minus      // 23
    | Zero       // 24 and 50
    | Digits     // 26, 41 and 42
    | Dot        // 43
    | Frac       // 48
    | Mark       // 44
    | Sign       // 45
    | Exp        // 46
    | Dead       // 7 or 33

  function Step(q: State, b: byte): State {
    match q
    case Start => if b == MINUS then Minus else if b == ZERO then Zero else if IsDigit(b) then Digits else Dead
    case Minus => if b == ZERO then Zero else if IsDigit(b) then Digits else Dead
    case Zero => if b == DOT then Dot else if IsExpMark(b) then Mark else Dead
    case Digits => if IsDigit(b) then Digits else if b == DOT then Dot else if IsExpMark(b) then Mark else Dead
    case Dot => if IsDigit(b) then Frac else Dead
    case Frac => if IsDigit(b) then Frac else if IsExpMark(b) then Mark else Dead
    case Mark => if IsSign(b) then Sign else if IsDigit(b) then Exp else Dead
    case Sign => if IsDigit(b) then Exp else Dead
    case Exp => if IsDigit(b) then Exp else Dead
    case Dead => Dead
  }

  predicate Accepting(q: State) {
    q.Zero? || q.Digits? || q.Frac? || q.Exp?
  }

  function Run(q: State, s: bytes): State {
    if s == [] then q else Step(Run(q, s[..|s| - 1]), s[|s| - 1])
  }

  lemma {:induction false} RunConcat(q: State, s: bytes, t: bytes)
    ensures Run(q, s + t) == Run(Run(q, s), t)
    decreases |t|
  {
    if t == [] {
      assert s + t == s;
    } else {
      assert (s + t)[..|s + t| - 1] == s + t[..|t| - 1];
      RunConcat(q, s, t[..|t| - 1]);
    }
  }

  lemma {:induction false} RunDead(s: bytes)
    ensures Run(Dead, s) == Dead
    decreases |s|
  {
    if s != [] {
      RunDead(s[..|s| - 1]);
    }
  }

  lemma {:induction false} RunDigits(q: State, s: bytes)
    requires q.Digits? || q.Frac? || q.Exp?
    requires AllDigits(s)
    ensures Run(q, s) == q
    decreases |s|
  {
    if s != [] {
      RunDigits(q, s[..|s| - 1]);
    }
  }

  /** Running a nonempty text is one step and then the rest. */
  lemma RunFirst(q: State, s: bytes)
    requires s != []
    ensures Run(q, s) == Run(Step(q, s[0]), s[1..])
  {
    assert s == [s[0]] + s[1..];
    assert [s[0]][..0] == [];
    assert Run(q, [s[0]]) == Step(Run(q, []), s[0]);
    RunConcat(q, [s[0]], s[1..]);
  }

  // ----- grammar to automaton -----

  lemma RunInt(q: State, s: bytes)
    requires q.Start? || q.Minus?
    requires IsInt(s)
    ensures Run(q, s) == if s[0] == ZERO then Zero else Digits
  {
    RunFirst(q, s);
    if s[0] != ZERO {
      RunDigits(Digits, s[1..]);
    }
  }

  lemma RunSignedInt(s: bytes)
    requires IsSignedInt(s)
    ensures Run(Start, s).Zero? || Run(Start, s).Digits?
  {
    if IsInt(s) {
      RunInt(Start, s);
    } else {
      RunFirst(Start, s);
      RunInt(Minus, s[1..]);
    }
  }

  lemma RunFrac(q: State, s: bytes)
    requires q.Zero? || q.Digits?
    requires IsFrac(s)
    ensures Run(q, s) == Frac
  {
    RunFirst(q, s);
    RunFirst(Dot, s[1..]);
    RunDigits(Frac, s[1..][1..]);
  }

  lemma TailDigits(s: bytes)
    requires AllDigits(s) && s != []
    ensures IsDigit(s[0]) && AllDigits(s[1..])
  {
  }

  lemma RunExp(q: State, s: bytes)
    requires q.Zero? || q.Digits? || q.Frac?
    requires IsExp(s)
    ensures Run(q, s) == Exp
  {
    RunFirst(q, s);
    var t := s[1..];
    RunFirst(Mark, t);
    var u := t[1..];
    assert s[2..] == u;
    if IsSign(t[0]) {
      assert !IsDigit(t[0]);
      assert AllDigits(u) && u != [];
      RunFirst(Sign, u);
      TailDigits(u);
      RunDigits(Exp, u[1..]);
    } else {
      TailDigits(t);
      RunDigits(Exp, u);
    }
  }

  lemma RunMantissa(s: bytes)
    requires IsMantissa(s)
    ensures Run(Start, s).Zero? || Run(Start, s).Digits? || Run(Start, s).Frac?
  {
    if IsSignedInt(s) {
      RunSignedInt(s);
    } else {
      var b :| 0 <= b <= |s| && IsSignedInt(s[..b]) && IsFrac(s[b..]);
      RunSignedInt(s[..b]);
      RunFrac(Run(Start, s[..b]), s[b..]);
      RunConcat(Start, s[..b], s[b..]);
      assert s == s[..b] + s[b..];
    }
  }

  // ----- automaton to grammar: what has been read when the automaton is in state q -----

  ghost predicate Shape(q: State, s: bytes) {
    match q
    case Start => s == []
    case Minus => s == [MINUS]
    case Zero => s == [ZERO] || s == [MINUS, ZERO]
    case Digits => IsSignedInt(s) && s != [ZERO] && s != [MINUS, ZERO]
    case Dot => |s| > 0 && s[|s| - 1] == DOT && IsSignedInt(s[..|s| - 1])
    case Frac => exists b :: 0 <= b <= |s| && IsSignedInt(s[..b]) && IsFrac(s[b..])
    case Mark => |s| > 0 && IsExpMark(s[|s| - 1]) && IsMantissa(s[..|s| - 1])
    case Sign => |s| > 1 && IsSign(s[|s| - 1]) && IsExpMark(s[|s| - 2]) && IsMantissa(s[..|s| - 2])
    case Exp => exists c :: 0 <= c <= |s| && IsMantissa(s[..c]) && IsExp(s[c..])
    case Dead => true
  }

  lemma ShapeStepInt(q: State, s: bytes, b: byte)
    requires q.Start? || q.Minus? || q.Zero? || q.Digits?
    requires Shape(q, s)
    ensures Shape(Step(q, b), s + [b])
  {
    var t := s + [b];
    assert t[..|s|] == s;
    if q.Digits? && IsDigit(b) && !IsInt(s) {
      assert t[1..] == s[1..] + [b];
    }
    if q.Minus? && IsDigit(b) {
      assert t[1..] == [b];
    }
    if q.Zero? && s == [MINUS, ZERO] {
      assert s[1..] == [ZERO];
      assert IsSignedInt(s);
    }
  }

  lemma FracGrows(s: bytes, b: byte)
    requires IsDigit(b) && (IsFrac(s) || s == [DOT])
    ensures IsFrac(s + [b])
  {
    assert (s + [b])[1..] == s[1..] + [b];
  }

  lemma ShapeStepFrac(q: State, s: bytes, b: byte)
    requires q.Dot? || q.Frac?
    requires Shape(q, s)
    ensures Shape(Step(q, b), s + [b])
  {
    hide IsSignedInt, IsFrac;
    var t := s + [b];
    assert t[..|s|] == s;
    if IsDigit(b) {
      var k: nat;
      if q.Dot? {
        k := |s| - 1;
        assert s[k..] == [DOT];
      } else {
        k :| 0 <= k <= |s| && IsSignedInt(s[..k]) && IsFrac(s[k..]);
      }
      assert t[..k] == s[..k];
      assert t[k..] == s[k..] + [b];
      FracGrows(s[k..], b);
    } else if q.Frac? {
      FracIsMantissa(s);
    }
  }

  lemma FracIsMantissa(s: bytes)
    requires Shape(Frac, s)
    ensures IsMantissa(s)
  {
    hide IsSignedInt, IsFrac;
  }

  lemma ExpGrows(s: bytes, b: byte)
    requires IsDigit(b)
    requires IsExp(s) || (|s| == 1 && IsExpMark(s[0])) || (|s| == 2 && IsExpMark(s[0]) && IsSign(s[1]))
    ensures IsExp(s + [b])
  {
    var t := s + [b];
    assert t[1..] == s[1..] + [b];
    if |s| >= 2 {
      assert t[2..] == s[2..] + [b];
    }
  }

  lemma ShapeStepExp(q: State, s: bytes, b: byte)
    requires q.Mark? || q.Sign? || q.Exp?
    requires Shape(q, s)
    ensures Shape(Step(q, b), s + [b])
  {
    hide IsMantissa, IsExp;
    var t := s + [b];
    var k: nat;
    match q {
      case Mark => k := |s| - 1;
      case Sign => k := |s| - 2;
      case Exp => k :| 0 <= k <= |s| && IsMantissa(s[..k]) && IsExp(s[k..]);
    }
    assert t[..k] == s[..k];
    assert t[k..] == s[k..] + [b];
    if IsDigit(b) {
      ExpGrows(s[k..], b);
    }
  }

  lemma ShapeStep(q: State, s: bytes, b: byte)
    requires Shape(q, s)
    ensures Shape(Step(q, b), s + [b])
  {
    match q
    case Start => ShapeStepInt(q, s, b);
    case Minus => ShapeStepInt(q, s, b);
    case Zero => ShapeStepInt(q, s, b);
    case Digits => ShapeStepInt(q, s, b);
    case Dot => ShapeStepFrac(q, s, b);
    case Frac => ShapeStepFrac(q, s, b);
    case Mark => ShapeStepExp(q, s, b);
    case Sign => ShapeStepExp(q, s, b);
    case Exp => ShapeStepExp(q, s, b);
    case Dead =>
  }

  lemma {:induction false} RunShape(s: bytes)
    ensures Shape(Run(Start, s), s)
    decreases |s|
  {
    if s != [] {
      RunShape(s[..|s| - 1]);
      ShapeStep(Run(Start, s[..|s| - 1]), s[..|s| - 1], s[|s| - 1]);
      assert s == s[..|s| - 1] + [s[|s| - 1]];
    }
  }

  lemma AcceptedIsNumber(s: bytes)
    requires Accepting(Run(Start, s))
    ensures IsNumber(s)
  {
    RunShape(s);
    match Run(Start, s)
    case Zero =>
      if s == [MINUS, ZERO] { assert s[1..] == [ZERO]; }
    case _ =>
  }

  lemma NumberIsAccepted(s: bytes)
    requires IsNumber(s)
    ensures Accepting(Run(Start, s))
  {
    hide Run, IsMantissa, IsExp;
    if IsMantissa(s) {
      RunMantissa(s);
    } else {
      var c :| 0 <= c <= |s| && IsMantissa(s[..c]) && IsExp(s[c..]);
      RunMantissa(s[..c]);
      RunExp(Run(Start, s[..c]), s[c..]);
      RunConcat(Start, s[..c], s[c..]);
      assert s == s[..c] + s[c..];
    }
  }

  /** The automaton accepts exactly the numbers of the grammar. */
  lemma AcceptsExactlyNumbers(s: bytes)
    ensures Accepting(Run(Start, s)) <==> IsNumber(s)
  {
    if Accepting(Run(Start, s)) {
      AcceptedIsNumber(s);
    }
    if IsNumber(s) {
      NumberIsAccepted(s);
    }
  }

  // ----- maximal munch -----

  /** n is the length of the longest prefix of s that is a number. */
  ghost predicate LongestNumber(s: bytes, n: nat) {
    n <= |s| && IsNumber(s[..n]) && forall m :: n < m <= |s| ==> !IsNumber(s[..m])
  }

  ghost predicate NoNumber(s: bytes) {
    forall m :: 0 <= m <= |s| ==> !IsNumber(s[..m])
  }

  lemma LongestUnique(s: bytes, m: nat, n: nat)
    requires LongestNumber(s, m) && LongestNumber(s, n)
    ensures m == n
  {
  }

  /** Once the automaton is dead it accepts no longer prefix. */
  lemma DeadEnd(s: bytes, n: nat)
    requires n <= |s|
    requires n == |s| || Step(Run(Start, s[..n]), s[n]) == Dead
    ensures forall m :: n < m <= |s| ==> !IsNumber(s[..m])
  {
    forall m | n < m <= |s| ensures !IsNumber(s[..m]) {
      var p := s[..n + 1];
      assert p[..n] == s[..n];
      assert Run(Start, p) == Dead;
      assert s[..m] == p + s[n + 1..m];
      RunConcat(Start, p, s[n + 1..m]);
      RunDead(s[n + 1..m]);
      AcceptsExactlyNumbers(s[..m]);
    }
  }

  ghost function NumberUpTo(s: bytes, n: nat): (r: Option<nat>)
    requires n <= |s|
    ensures r.Some? ==> r.value <= n
  {
    if IsNumber(s[..n]) then Some(n)
    else if n == 0 then None
    else NumberUpTo(s, n - 1)
  }

  lemma {:induction false} NumberUpToIsLongest(s: bytes, n: nat)
    requires n <= |s|
    ensures match NumberUpTo(s, n)
            case Some(k) => IsNumber(s[..k]) && forall m :: k < m <= n ==> !IsNumber(s[..m])
            case None => forall m :: 0 <= m <= n ==> !IsNumber(s[..m])
  {
    hide IsNumber;
    if !IsNumber(s[..n]) && n > 0 {
      NumberUpToIsLongest(s, n - 1);
    }
  }

  /** The length of the longest number at the front of s, if there is one. */
  ghost function NumberLength(s: bytes): (r: Option<nat>)
    ensures r.Some? ==> r.value <= |s|
  {
    NumberUpTo(s, |s|)
  }

  lemma NumberLengthIsLongest(s: bytes)
    ensures match NumberLength(s)
            case Some(n) => n > 0 && LongestNumber(s, n)
            case None => NoNumber(s)
  {
    NumberUpToIsLongest(s, |s|);
  }

  // ----- the scanner's loop: the automaton, a cursor and a marker -----

  /**
   The scanner has read n bytes of s and is in state q; `mark`, when `marked`, is the longest
   accepted prefix before the n bytes, except that after an exponent digit it is no longer kept.
   */
  ghost predicate Scanning(s: bytes, n: nat, q: State, marked: bool, mark: nat) {
    0 < n <= |s| && q == Run(Start, s[..n]) && !q.Dead? && !q.Start? &&
    (marked ==> 0 < mark <= n && Accepting(Run(Start, s[..mark]))) &&
    (q.Minus? ==> n == 1 && !marked) &&
    (marked || q.Minus? || q.Zero? || q.Digits?) &&
    (q.Exp? || forall m :: (if marked then mark else 0) < m < n ==> !Accepting(Run(Start, s[..m])))
  }

  /** Every accepting state but the last sets the marker. */
  predicate SetsMarker(q: State) {
    q.Zero? || q.Digits? || q.Frac?
  }

  lemma ScanningStarts(s: bytes)
    requires s != [] && (s[0] == MINUS || IsDigit(s[0]))
    ensures Scanning(s, 1, Step(Start, s[0]), false, 0)
  {
    assert s[..1][..0] == [];
    assert Run(Start, s[..1]) == Step(Start, s[0]);
  }

  lemma ScanningMarks(s: bytes, n: nat, q: State, marked: bool, mark: nat)
    requires Scanning(s, n, q, marked, mark) && SetsMarker(q)
    ensures Scanning(s, n, q, true, n)
  {
  }

  lemma ScanningGoesOn(s: bytes, n: nat, q: State, marked: bool, mark: nat)
    requires Scanning(s, n, q, marked, mark) && n < |s|
    requires SetsMarker(q) ==> marked && mark == n
    requires !Step(q, s[n]).Dead?
    ensures Scanning(s, n + 1, Step(q, s[n]), marked, mark)
  {
    assert s[..n + 1][..n] == s[..n];
  }

  lemma ScanningStops(s: bytes, n: nat, q: State, marked: bool, mark: nat)
    requires Scanning(s, n, q, marked, mark)
    requires SetsMarker(q) ==> marked && mark == n
    requires n == |s| || Step(q, s[n]).Dead?
    ensures NumberLength(s) == if q.Exp? then Some(n) else if marked then Some(mark) else None
    ensures marked ==> mark > 0
    ensures !q.Exp? && !marked ==> n == 1
  {
    DeadEnd(s, n);
    forall m | 0 <= m <= n ensures IsNumber(s[..m]) <==> Accepting(Run(Start, s[..m])) {
      AcceptsExactlyNumbers(s[..m]);
    }
    assert !Accepting(Run(Start, s[..0]));
    NumberLengthIsLongest(s);
    if q.Exp? {
      LongestUnique(s, n, NumberLength(s).value);
    } else if marked {
      LongestUnique(s, mark, NumberLength(s).value);
    }
  }

  // ----- decimal text of an integer -----

  function NatToDecimal(n: nat): bytes {
    if n < 10 then [(ZERO as int + n) as byte] else NatToDecimal(n / 10) + [(ZERO as int + n % 10) as byte]
  }

  function IntToDecimal(i: int): bytes {
    if i < 0 then [MINUS] + NatToDecimal(-i) else NatToDecimal(i)
  }

  function DecimalToNat(s: bytes): nat
    requires AllDigits(s)
  {
    if s == [] then 0 else 10 * DecimalToNat(s[..|s| - 1]) + (s[|s| - 1] - ZERO)
  }

  /** The value of an integer number text: no fraction and no exponent. */
  function DecimalToInt(s: bytes): int
    requires IsSignedInt(s)
  {
    if IsInt(s) then DecimalToNat(s) else 0 - DecimalToNat(s[1..])
  }

  lemma {:induction false} NatDecimalRoundTrip(n: nat)
    ensures IsInt(NatToDecimal(n)) && (n > 0 ==> NatToDecimal(n)[0] != ZERO)
    ensures DecimalToNat(NatToDecimal(n)) == n
  {
    var s := NatToDecimal(n);
    if n >= 10 {
      NatDecimalRoundTrip(n / 10);
      assert s[..|s| - 1] == NatToDecimal(n / 10);
    } else {
      assert s[..|s| - 1] == [];
    }
  }

  lemma IntDecimalRoundTrip(i: int)
    ensures IsSignedInt(IntToDecimal(i)) && DecimalToInt(IntToDecimal(i)) == i
  {
    if i < 0 {
      NatDecimalRoundTrip(-i);
      assert IntToDecimal(i)[1..] == NatToDecimal(-i);
    } else {
      NatDecimalRoundTrip(i);
    }
  }

  /** A byte that cannot extend an integer number. */
  predicate EndsNumber(b: byte) {
    !IsDigit(b) && b != DOT && !IsExpMark(b)
  }

  lemma IntegerIsLongest(s: bytes, tail: bytes)
    requires IsSignedInt(s)
    requires tail == [] || EndsNumber(tail[0])
    ensures LongestNumber(s + tail, |s|)
  {
    var t := s + tail;
    assert t[..|s|] == s;
    RunSignedInt(s);
    DeadEnd(t, |s|);
  }
}
