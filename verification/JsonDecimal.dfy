/** The exact value of a number text: a coefficient of digits and a power of ten. */
module JsonDecimal {
  import opened Bytes
  import opened JsonNumber

  function FirstMark(s: bytes): (n: nat)
    ensures n <= |s| && (n < |s| ==> IsExpMark(s[n])) && forall i :: 0 <= i < n ==> !IsExpMark(s[i])
  {
    if s == [] || IsExpMark(s[0]) then 0 else 1 + FirstMark(s[1..])
  }

  function FirstDot(s: bytes): (n: nat)
    ensures n <= |s| && (n < |s| ==> s[n] == DOT) && forall i :: 0 <= i < n ==> s[i] != DOT
  {
    if s == [] || s[0] == DOT then 0 else 1 + FirstDot(s[1..])
  }

  /** What follows position n. */
  function After(s: bytes, n: nat): bytes
    requires n <= |s|
  {
    if n < |s| then s[n + 1..] else []
  }

  function Unsigned(s: bytes): bytes {
    if s != [] && IsSign(s[0]) then s[1..] else s
  }

  predicate IsNegative(s: bytes) {
    s != [] && s[0] == MINUS
  }

  /** The text before the exponent, without its sign, and the texts around its dot. */
  function MantissaText(s: bytes): bytes {
    Unsigned(s)[..FirstMark(Unsigned(s))]
  }

  function IntegerText(s: bytes): bytes {
    MantissaText(s)[..FirstDot(MantissaText(s))]
  }

  function FractionText(s: bytes): bytes {
    After(MantissaText(s), FirstDot(MantissaText(s)))
  }

  function ExponentText(s: bytes): bytes {
    After(Unsigned(s), FirstMark(Unsigned(s)))
  }

  function Power(n: nat): (p: nat)
    ensures p >= 1
  {
    if n == 0 then 1 else 10 * Power(n - 1)
  }

  /** Only lists of digits have a value; those of a number are, see NumberTexts. */
  function DigitsValue(s: bytes): nat {
    if AllDigits(s) then DecimalToNat(s) else 0
  }

  function Signed(negative: bool, n: nat): int {
    if negative then 0 - n else n
  }

  function Scaled(coefficient: int, exponent: int): real {
    if exponent >= 0 then (coefficient * Power(exponent)) as real else coefficient as real / Power(-exponent) as real
  }

  /** The number a number text stands for. */
  function ValueOf(s: bytes): real {
    var exponent := Signed(IsNegative(ExponentText(s)), DigitsValue(Unsigned(ExponentText(s))));
    Scaled(Signed(IsNegative(s), DigitsValue(IntegerText(s) + FractionText(s))), exponent - |FractionText(s)|)
  }

  // ----- the texts a number is made of -----

  lemma MarkAt(s: bytes, n: nat)
    requires n <= |s| && (n < |s| ==> IsExpMark(s[n])) && forall i :: 0 <= i < n ==> !IsExpMark(s[i])
    ensures FirstMark(s) == n
  {
  }

  lemma DotAt(s: bytes, n: nat)
    requires n <= |s| && (n < |s| ==> s[n] == DOT) && forall i :: 0 <= i < n ==> s[i] != DOT
    ensures FirstDot(s) == n
  {
  }

  /** Digits, with a dot and digits after them or not. */
  ghost predicate IsPlain(u: bytes) {
    AllDigits(u[..FirstDot(u)]) && AllDigits(After(u, FirstDot(u))) && FirstDot(u) >= 1 &&
    forall i :: 0 <= i < |u| ==> !IsExpMark(u[i])
  }

  lemma PlainInteger(u: bytes)
    requires IsInt(u)
    ensures IsPlain(u)
  {
    DotAt(u, |u|);
  }

  lemma PlainFraction(a: bytes, f: bytes)
    requires IsInt(a) && AllDigits(f)
    ensures IsPlain(a + [DOT] + f)
  {
    var u := a + [DOT] + f;
    DotAt(u, |a|);
    assert u[..|a|] == a && u[|a| + 1..] == f;
  }

  lemma UnsignedOfSum(s: bytes, t: bytes)
    requires s != []
    ensures Unsigned(s + t) == Unsigned(s) + t
  {
  }

  lemma UnsignedInt(s: bytes)
    requires IsSignedInt(s)
    ensures IsInt(Unsigned(s))
  {
  }

  lemma MantissaIsPlain(m: bytes)
    requires IsMantissa(m)
    ensures m != [] && IsPlain(Unsigned(m))
  {
    hide IsPlain, Unsigned, AllDigits, FirstDot, FirstMark;
    if IsSignedInt(m) {
      UnsignedInt(m);
      PlainInteger(Unsigned(m));
    } else {
      var b :| 0 <= b <= |m| && IsSignedInt(m[..b]) && IsFrac(m[b..]);
      UnsignedInt(m[..b]);
      UnsignedOfSum(m[..b], m[b..]);
      assert m == m[..b] + m[b..];
      PlainFraction(Unsigned(m[..b]), m[b..][1..]);
      assert m[b..] == [DOT] + m[b..][1..];
      assert Unsigned(m[..b]) + ([DOT] + m[b..][1..]) == Unsigned(m[..b]) + [DOT] + m[b..][1..];
    }
  }

  lemma TextsOfSum(u: bytes, e: bytes)
    requires (forall i :: 0 <= i < |u| ==> !IsExpMark(u[i])) && (e != [] ==> IsExpMark(e[0]))
    ensures (u + e)[..FirstMark(u + e)] == u && After(u + e, FirstMark(u + e)) == if e == [] then [] else e[1..]
  {
    MarkAt(u + e, |u|);
  }

  /** Before the mark there is an integer with or without a fraction, after it a list of digits, signed or not. */
  lemma NumberTexts(s: bytes)
    requires IsNumber(s)
    ensures AllDigits(IntegerText(s)) && AllDigits(FractionText(s)) && IntegerText(s) != []
    ensures AllDigits(Unsigned(ExponentText(s)))
  {
    hide IsExp, IsMantissa, Unsigned, FirstMark, FirstDot;
    if IsMantissa(s) {
      MantissaIsPlain(s);
      TextsOfSum(Unsigned(s), []);
      assert Unsigned(s) + [] == Unsigned(s);
      NoSign([]);
    } else {
      var c :| 0 <= c <= |s| && IsMantissa(s[..c]) && IsExp(s[c..]);
      MantissaIsPlain(s[..c]);
      ExponentDigits(s[c..]);
      UnsignedOfSum(s[..c], s[c..]);
      assert s == s[..c] + s[c..];
      TextsOfSum(Unsigned(s[..c]), s[c..]);
    }
  }

  lemma NoSign(s: bytes)
    requires s == []
    ensures Unsigned(s) == []
  {
  }

  lemma ExponentDigits(e: bytes)
    requires IsExp(e)
    ensures e != [] && IsExpMark(e[0]) && AllDigits(Unsigned(e[1..]))
  {
    if IsSign(e[1]) {
      assert e[1..][1..] == e[2..];
    }
  }

  // ----- what the value is -----

  lemma OneMoreDigit(x: nat, p: nat, y: nat, d: nat)
    ensures 10 * (x * p + y) + d == x * (10 * p) + (10 * y + d)
  {
  }

  /** The digits before and after a dot, read as one number. */
  lemma {:induction false} JoinedDigits(a: bytes, f: bytes)
    requires AllDigits(a) && AllDigits(f)
    ensures DecimalToNat(a + f) == DecimalToNat(a) * Power(|f|) + DecimalToNat(f)
    decreases |f|
  {
    if f == [] {
      assert a + f == a;
    } else {
      var g, d := f[..|f| - 1], f[|f| - 1] - ZERO;
      JoinedDigits(a, g);
      assert (a + f)[..|a + f| - 1] == a + g;
      OneMoreDigit(DecimalToNat(a), Power(|g|), DecimalToNat(g), d);
    }
  }

  predicate AreDigits(i: bytes, f: bytes, e: bytes) {
    AllDigits(i) && AllDigits(f) && AllDigits(Unsigned(e))
  }

  /** The integer i and the fraction 0.f together, signed, and shifted by the exponent e. */
  function Reading(negative: bool, i: bytes, f: bytes, e: bytes): real
    requires AreDigits(i, f, e)
  {
    Scaled(Signed(negative, DecimalToNat(i) * Power(|f|) + DecimalToNat(f)),
           Signed(IsNegative(e), DecimalToNat(Unsigned(e))) - |f|)
  }

  lemma ReadingJoins(negative: bool, i: bytes, f: bytes, e: bytes)
    requires AreDigits(i, f, e)
    ensures Reading(negative, i, f, e) ==
            Scaled(Signed(negative, DigitsValue(i + f)), Signed(IsNegative(e), DigitsValue(Unsigned(e))) - |f|)
  {
    hide Scaled, Unsigned, IsNegative, Power, DecimalToNat;
    JoinedDigits(i, f);
  }

  /** The value of any number text is that of its integer, its fraction and its exponent. */
  lemma NumberHasItsValue(s: bytes)
    requires IsNumber(s)
    ensures AreDigits(IntegerText(s), FractionText(s), ExponentText(s))
    ensures ValueOf(s) == Reading(IsNegative(s), IntegerText(s), FractionText(s), ExponentText(s))
  {
    hide IsNumber, IntegerText, FractionText, ExponentText, Unsigned, IsNegative, AllDigits, DigitsValue, Scaled,
      Reading;
    NumberTexts(s);
    ReadingJoins(IsNegative(s), IntegerText(s), FractionText(s), ExponentText(s));
  }

  /** A text without fraction and exponent has the value of the integer. */
  lemma IntegerHasItsValue(s: bytes)
    requires IsSignedInt(s)
    ensures ValueOf(s) == DecimalToInt(s) as real
  {
    var u := Unsigned(s);
    MarkAt(u, |u|);
    assert MantissaText(s) == u;
    DotAt(u, |u|);
    assert IntegerText(s) + FractionText(s) == u;
    assert Power(0) == 1;
  }

  // ----- the value, digit by digit -----

  function TenTo(n: nat): nat {
    if n == 0 then 1 else TenTo(n - 1) * 10
  }

  lemma {:induction false} PowerIsTenTo(n: nat)
    ensures Power(n) == TenTo(n)
  {
    if n > 0 {
      PowerIsTenTo(n - 1);
    }
  }

  lemma DivideOnce(x: real, p: real)
    requires p > 0.0
    ensures x / (10.0 * p) * 10.0 == x / p
  {
    assert x / (10.0 * p) * 10.0 * p == x;
  }

  lemma NextPower(n: nat)
    ensures Power(n + 1) as real == 10.0 * Power(n) as real && Power(n) as real > 0.0
  {
  }

  lemma ScaledOnce(c: int, e: int)
    ensures Scaled(c, e + 1) == Scaled(c, e) * 10.0
  {
    if e >= 0 {
      Shift(c, Power(e));
    } else {
      NextPower(-e - 1);
      DivideOnce(c as real, Power(-e - 1) as real);
      if e == -1 {
        assert Scaled(c, 0) == c as real;
      }
    }
  }

  lemma Shift(c: int, p: int)
    ensures (c * (10 * p)) as real == (c * p) as real * 10.0
  {
    assert c * (10 * p) == 10 * (c * p);
  }

  lemma TenToGrows(n: nat, x: real)
    ensures x * TenTo(n) as real * 10.0 == x * TenTo(n + 1) as real
  {
  }

  lemma TenToNone(x: real)
    ensures x * TenTo(0) as real == x
  {
  }

  lemma {:induction false} ScaledBy(c: int, e: int, k: nat)
    ensures Scaled(c, e + k) == Scaled(c, e) * TenTo(k) as real
    decreases k
  {
    hide Scaled, TenTo;
    if k > 0 {
      ScaledBy(c, e, k - 1);
      ScaledOnce(c, e + k - 1);
      TenToGrows(k - 1, Scaled(c, e));
    } else {
      TenToNone(Scaled(c, e));
    }
  }

  /** The texts of a mantissa, and of one with an exponent behind it. */
  lemma TextsOfMantissa(m: bytes, e: bytes)
    requires IsMantissa(m) && (e != [] ==> IsExpMark(e[0]))
    ensures IsNegative(m + e) == IsNegative(m) && MantissaText(m + e) == MantissaText(m) == Unsigned(m)
    ensures ExponentText(m + e) == if e == [] then [] else e[1..]
    ensures ExponentText(m) == []
  {
    MantissaIsPlain(m);
    hide IsMantissa, Unsigned, FirstMark, FirstDot;
    UnsignedOfSum(m, e);
    TextsOfSum(Unsigned(m), e);
    TextsOfSum(Unsigned(m), []);
    assert Unsigned(m) + [] == Unsigned(m);
  }

  /** The value from the four texts. */
  lemma ValueFrom(s: bytes, negative: bool, i: bytes, f: bytes, e: bytes)
    requires IsNegative(s) == negative && IntegerText(s) == i && FractionText(s) == f && ExponentText(s) == e
    ensures ValueOf(s) ==
            Scaled(Signed(negative, DigitsValue(i + f)), Signed(IsNegative(e), DigitsValue(Unsigned(e))) - |f|)
  {
    hide IsNegative, IntegerText, FractionText, ExponentText, Scaled, Unsigned, DigitsValue;
  }

  lemma SameIntegerAndFraction(s: bytes, t: bytes)
    requires MantissaText(s) == MantissaText(t)
    ensures IntegerText(s) == IntegerText(t) && FractionText(s) == FractionText(t)
  {
    hide MantissaText;
  }

  /** The exponent of a text with a sign and digits behind the mark. */
  lemma SignedDigits(mark: byte, sign: bytes, digits: bytes)
    requires AllDigits(digits) && digits != [] && (sign == [] || sign == [PLUS] || sign == [MINUS])
    ensures var e := ([mark] + sign + digits)[1..];
            Unsigned(e) == digits && IsNegative(e) == (sign == [MINUS]) && DigitsValue(digits) == DecimalToNat(digits)
  {
    var e := ([mark] + sign + digits)[1..];
    hide DecimalToNat;
    assert e == sign + digits;
    if sign != [] {
      assert e[1..] == digits;
    }
  }

  lemma NoExponent()
    ensures Signed(IsNegative([]), DigitsValue(Unsigned([]))) == 0
  {
  }

  lemma WithExponent(m: bytes, mark: byte, sign: bytes, digits: bytes)
    requires IsMantissa(m) && IsExpMark(mark) && AllDigits(digits) && digits != []
    requires sign == [] || sign == [PLUS] || sign == [MINUS]
    ensures var c := Signed(IsNegative(m), DigitsValue(IntegerText(m) + FractionText(m)));
            ValueOf(m) == Scaled(c, 0 - |FractionText(m)|) &&
            ValueOf(m + ([mark] + sign + digits)) ==
            Scaled(c, Signed(sign == [MINUS], DecimalToNat(digits)) - |FractionText(m)|)
  {
    hide IsMantissa, ValueOf, IntegerText, FractionText, MantissaText, ExponentText, Scaled, DecimalToNat, AllDigits,
      DigitsValue, IsNegative, Unsigned;
    var e := [mark] + sign + digits;
    TextsOfMantissa(m, e);
    SameIntegerAndFraction(m, m + e);
    SignedDigits(mark, sign, digits);
    NoExponent();
    ValueFrom(m, IsNegative(m), IntegerText(m), FractionText(m), []);
    ValueFrom(m + e, IsNegative(m), IntegerText(m), FractionText(m), e[1..]);
  }

  /** An exponent multiplies by a power of ten, or divides by it when it is negative. */
  lemma ExponentValue(m: bytes, mark: byte, digits: bytes)
    requires IsMantissa(m) && IsExpMark(mark) && AllDigits(digits) && digits != []
    ensures ValueOf(m + [mark] + digits) == ValueOf(m) * TenTo(DecimalToNat(digits)) as real
    ensures ValueOf(m + [mark, PLUS] + digits) == ValueOf(m) * TenTo(DecimalToNat(digits)) as real
    ensures ValueOf(m + [mark, MINUS] + digits) * TenTo(DecimalToNat(digits)) as real == ValueOf(m)
  {
    hide IsMantissa, ValueOf, IntegerText, FractionText, MantissaText, ExponentText, Scaled, DecimalToNat, AllDigits,
      DigitsValue, IsNegative, Unsigned, TenTo;
    var k: nat, f: int := DecimalToNat(digits), |FractionText(m)|;
    var c := Signed(IsNegative(m), DigitsValue(IntegerText(m) + FractionText(m)));
    WithExponent(m, mark, [], digits);
    WithExponent(m, mark, [PLUS], digits);
    WithExponent(m, mark, [MINUS], digits);
    ScaledBy(c, 0 - f, k);
    ScaledBy(c, 0 - k - f, k);
    assert m + [mark] + digits == m + ([mark] + [] + digits);
    assert m + [mark, PLUS] + digits == m + ([mark] + [PLUS] + digits);
    assert m + [mark, MINUS] + digits == m + ([mark] + [MINUS] + digits);
  }

  lemma ScaledBack(c: int, n: nat)
    ensures Scaled(c, 0 - n) * TenTo(n) as real == c as real
  {
    hide TenTo;
    ScaledBy(c, 0 - n, n);
  }

  lemma FractionScaled(a: bytes, digits: bytes)
    requires IsSignedInt(a) && AllDigits(digits) && digits != []
    ensures ValueOf(a + [DOT] + digits) ==
            Scaled(Signed(IsNegative(a), DigitsValue(Unsigned(a) + digits)), 0 - |digits|)
  {
    hide IsSignedInt, ValueOf, IntegerText, FractionText, ExponentText, Scaled, DigitsValue, IsNegative, Unsigned,
      AllDigits;
    TextsOfFraction(a, digits);
    NoExponent();
    ValueFrom(a + [DOT] + digits, IsNegative(a), Unsigned(a), digits, []);
  }

  lemma DigitsHaveValue(s: bytes, t: bytes)
    requires IsInt(s) && AllDigits(t)
    ensures AllDigits(s + t) && DigitsValue(s + t) == DecimalToNat(s + t)
  {
    hide DecimalToNat;
  }

  /** Digits behind a dot: without the dot the same text is larger by a power of ten. */
  lemma FractionValue(a: bytes, digits: bytes)
    requires IsSignedInt(a) && AllDigits(digits) && digits != []
    ensures AllDigits(Unsigned(a) + digits)
    ensures ValueOf(a + [DOT] + digits) * TenTo(|digits|) as real ==
            Signed(IsNegative(a), DecimalToNat(Unsigned(a) + digits)) as real
  {
    hide IsSignedInt, ValueOf, Scaled, DecimalToNat, DigitsValue, IsNegative, Unsigned, TenTo, IsInt, AllDigits;
    UnsignedInt(a);
    DigitsHaveValue(Unsigned(a), digits);
    FractionScaled(a, digits);
    ScaledBack(Signed(IsNegative(a), DecimalToNat(Unsigned(a) + digits)), |digits|);
  }

  lemma ScaledByNone(c: int)
    ensures Scaled(c, 0) == c as real
  {
  }

  lemma TextsOfFraction(a: bytes, digits: bytes)
    requires IsSignedInt(a) && AllDigits(digits) && digits != []
    ensures var s := a + [DOT] + digits;
            IsNegative(s) == IsNegative(a) && IntegerText(s) == Unsigned(a) && FractionText(s) == digits &&
            ExponentText(s) == []
  {
    UnsignedInt(a);
    var s, u := a + [DOT] + digits, Unsigned(a) + [DOT] + digits;
    assert s == a + ([DOT] + digits) && u == Unsigned(a) + ([DOT] + digits);
    UnsignedOfSum(a, [DOT] + digits);
    assert forall i :: 0 <= i < |u| ==> !IsExpMark(u[i]);
    MarkAt(u, |u|);
    DotAt(u, |Unsigned(a)|);
    assert u[..|u|] == u && u[..|Unsigned(a)|] == Unsigned(a) && u[|Unsigned(a)| + 1..] == digits;
  }

  /** One digit is its own value, and each further one counts ten times less than the one before. */
  lemma DigitsByPlace(s: bytes, b: byte)
    requires AllDigits(s) && IsDigit(b)
    ensures DecimalToNat([b]) == b as int - '0' as int
    ensures DecimalToNat(s + [b]) == DecimalToNat(s) * 10 + DecimalToNat([b])
  {
    assert [b][..0] == [];
    assert (s + [b])[..|s|] == s;
  }
}
