/** Printing a binary128 number exactly and reading the text back is the identity. */
module Binary128RoundTrip {
  import opened Common
  import opened Powers
  import opened DecimalText
  import opened Binary128
  import opened Binary128Meaning
  import opened Binary128Nearest
  import opened Binary128Order
  import opened Binary128Text

  lemma DigitsSplit(digits: string, i: nat)
    requires AllDigits(digits) && i <= |digits|
    ensures AllDigits(digits[..i]) && AllDigits(digits[i..]) && digits[..i] + digits[i..] == digits
  {
  }

  /** Short numbers without a fraction. */
  lemma ReadWholeForm(negative: bool, digits: string, zeros: nat)
    requires |digits| > 0 && AllDigits(digits)
    ensures ReadDecimal(SignText(negative) + digits + Zeros(zeros) + ".0") ==
            Some(Number(negative, DigitsValue(digits) * Pow(10, zeros + 1), -1))
  {
    hide ReadDecimal, DigitsValue, Zeros, SignText;
    var whole := digits + Zeros(zeros);
    assert ".0" == "." + "0";
    assert SignText(negative) + digits + Zeros(zeros) + ".0" == SignText(negative) + (whole + "." + "0" + "");
    ReadSpelled(negative, whole, "0", "", 0);
    assert whole + "0" == digits + Zeros(zeros + 1) by {
      ZerosBack(zeros);
      assert digits + Zeros(zeros) + "0" == digits + (Zeros(zeros) + "0");
    }
    ZerosAround(digits, zeros + 1);
  }

  /** Short numbers with the point inside. */
  lemma ReadPointForm(negative: bool, digits: string, point: nat)
    requires 0 < point < |digits| && AllDigits(digits)
    ensures ReadDecimal(SignText(negative) + digits[..point] + "." + digits[point..]) ==
            Some(Number(negative, DigitsValue(digits), point - |digits|))
  {
    hide ReadDecimal, DigitsValue, SignText;
    DigitsSplit(digits, point);
    var whole, fraction := digits[..point], digits[point..];
    assert SignText(negative) + whole + "." + fraction == SignText(negative) + (whole + "." + fraction + "");
    ReadSpelled(negative, whole, fraction, "", 0);
  }

  /** Short numbers below one. */
  lemma ReadSmallForm(negative: bool, digits: string, zeros: nat)
    requires |digits| > 0 && AllDigits(digits)
    ensures ReadDecimal(SignText(negative) + "0." + Zeros(zeros) + digits) ==
            Some(Number(negative, DigitsValue(digits), -(zeros as int) - |digits|))
  {
    hide ReadDecimal, DigitsValue, Zeros, SignText;
    var fraction := Zeros(zeros) + digits;
    assert "0." == "0" + ".";
    assert SignText(negative) + "0." + Zeros(zeros) + digits == SignText(negative) + ("0" + "." + fraction + "");
    ReadSpelled(negative, "0", fraction, "", 0);
    assert "0" + fraction == Zeros(zeros + 1) + digits by {
      ZeroInFront(zeros);
      assert "0" + (Zeros(zeros) + digits) == "0" + Zeros(zeros) + digits;
    }
    ZerosAround(digits, zeros + 1);
  }

  lemma ZerosBack(k: nat)
    ensures Zeros(k) + "0" == Zeros(k + 1)
  {
  }

  /** Scientific form, with a zero put in when there is one digit. */
  lemma ReadScientificForm(negative: bool, digits: string, e: int)
    requires |digits| > 0 && AllDigits(digits) && -INT_LIMIT <= e < INT_LIMIT
    ensures var tail := if e >= 0 then "e+" + ToText(e) else "e-" + ToText(-e);
            var more := if |digits| > 1 then digits[1..] else "0";
            var k := if |digits| > 1 then 0 else 1;
            ReadDecimal(SignText(negative) + (digits[..1] + "." + more) + tail) ==
            Some(Number(negative, DigitsValue(digits) * Pow(10, k), e + 1 - |digits| - k))
  {
    hide ReadDecimal, DigitsValue, ToText, SignText;
    var tail := if e >= 0 then "e+" + ToText(e) else "e-" + ToText(-e);
    var more := if |digits| > 1 then digits[1..] else "0";
    ExponentTail(e);
    DigitsSplit(digits, 1);
    assert SignText(negative) + (digits[..1] + "." + more) + tail ==
           SignText(negative) + (digits[..1] + "." + more + tail);
    ReadSpelled(negative, digits[..1], more, tail, e);
    assert Pow(10, 0) == 1;
    if |digits| == 1 {
      assert digits[..1] + more == digits + Zeros(1);
      ZerosAround(digits, 1);
    }
  }

  /** All three spellings read back as 0.digits * 10^point, up to zeros appended to the significand. */
  lemma ReadRendered(negative: bool, digits: string, point: int) returns (k: nat)
    requires |digits| > 0 && AllDigits(digits) && -INT_LIMIT < point < INT_LIMIT
    ensures ReadDecimal(Render(negative, digits, point)) ==
            Some(Number(negative, DigitsValue(digits) * Pow(10, k), point - |digits| - k))
  {
    hide ReadDecimal, DigitsValue;
    assert Pow(10, 0) == 1;
    k := 0;
    if 0 < point <= 34 {
      if |digits| <= point {
        k := point - |digits| + 1;
        ReadWholeForm(negative, digits, point - |digits|);
      } else {
        ReadPointForm(negative, digits, point);
      }
    } else if -6 < point <= 0 {
      ReadSmallForm(negative, digits, -point);
    } else {
      k := if |digits| > 1 then 0 else 1;
      ReadScientificForm(negative, digits, point - 1);
      var mantissa := digits[..1] + "." + (if |digits| > 1 then digits[1..] else "0");
      assert SignText(negative) + mantissa + "e+" + ToText(if point >= 1 then point - 1 else 0) ==
             SignText(negative) + mantissa + ("e+" + ToText(if point >= 1 then point - 1 else 0));
      assert SignText(negative) + mantissa + "e-" + ToText(if point < 1 then 1 - point else 0) ==
             SignText(negative) + mantissa + ("e-" + ToText(if point < 1 then 1 - point else 0));
    }
  }

  // ---- the value printed is the value of the pattern ----

  /** D*10^k at exponent t - scale - k is (D*10^t) / 10^scale. */
  lemma DecimalRatio(dv: nat, k: nat, t: nat, scale: nat)
    ensures var ex := t - scale - k;
            Numerator(dv * Pow(10, k), ex) * Pow(10, scale) == dv * Pow(10, t) * Denominator(ex)
  {
    hide Pow, Numerator, Denominator;
    var ex := t - scale - k;
    if ex >= 0 {
      RatioUp(dv, k, ex, scale);
      assert k + ex + scale == t;
    } else {
      RatioDown(dv, k, t, scale, -ex);
    }
  }

  lemma RatioUp(dv: nat, k: nat, ex: nat, scale: nat)
    ensures Numerator(dv * Pow(10, k), ex) * Pow(10, scale) == dv * Pow(10, k + ex + scale) * Denominator(ex)
  {
    hide Pow;
    ThreeTens(dv, k, ex, scale);
  }

  lemma RatioDown(dv: nat, k: nat, t: nat, scale: nat, down: nat)
    requires down > 0 && t + down == k + scale
    ensures var ex := -(down as int);
            Numerator(dv * Pow(10, k), ex) * Pow(10, scale) == dv * Pow(10, t) * Denominator(ex)
  {
    hide Pow;
    TwoTens(dv, k, scale);
    TwoTens(dv, t, down);
  }

  lemma TwoTens(x: nat, a: nat, b: nat)
    ensures x * Pow(10, a) * Pow(10, b) == x * Pow(10, a + b)
  {
    hide Pow;
    MulAssoc(x, Pow(10, a), Pow(10, b));
    PowAdd(10, a, b);
  }

  lemma ThreeTens(x: nat, a: nat, b: nat, c: nat)
    ensures x * Pow(10, a) * Pow(10, b) * Pow(10, c) == x * Pow(10, a + b + c)
  {
    hide Pow;
    TwoTens(x, a, b);
    TwoTens(x, a + b, c);
  }

  /** The expansion over 10^scale is the value over 2^LEAST_EXPONENT. */
  lemma ExpansionRatio(significand: nat, place: nat)
    requires place <= EXPONENT_MAX
    ensures var exponent := place - LEAST_EXPONENT;
            Expansion(significand, exponent) * Pow2(LEAST_EXPONENT) ==
            significand * Pow2(place) * Pow(10, Scale(exponent))
  {
    hide Pow, Pow2;
    var exponent := place - LEAST_EXPONENT;
    if exponent >= 0 {
      MulAssoc(significand, Pow2(exponent), Pow2(LEAST_EXPONENT));
      Pow2Add(exponent, LEAST_EXPONENT);
      assert Pow(10, 0) == 1 by { PowZero(10); }
    } else {
      var s := -exponent;
      // 2^LEAST_EXPONENT = 2^place * 2^s, and 10^s = 2^s * 5^s.
      Pow2Add(place, s);
      TenIsTwoTimesFive(s);
      Rearrange(significand, Pow(5, s), Pow2(place), Pow2(s));
    }
  }

  lemma PowZero(b: nat)
    ensures Pow(b, 0) == 1
  {
  }

  lemma TenIsTwoTimesFive(s: nat)
    ensures Pow(10, s) == Pow2(s) * Pow(5, s)
  {
    PowOfProduct(2, 5, s);
    Pow2IsPow(s);
  }

  lemma Rearrange(a: int, f: int, x: int, y: int)
    ensures a * f * (x * y) == a * x * (y * f)
  {
    MulFour(a, f, x, y);
    assert f * y == y * f;
  }

  /** Hence the text's fraction is the value's fraction. */
  lemma ChainRatios(num: nat, den: nat, x: nat, tens: nat, v: nat, twos: nat)
    requires tens > 0 && num * tens == x * den && x * twos == v * tens
    ensures num * twos == v * den
  {
    Commute(num, tens, twos);
    Commute(x, den, twos);
    Commute(v, tens, den);
    MulCancelEq(num * twos, v * den, tens);
  }

  /** Trimming takes the trailing zeros into the power of ten. */
  lemma TrimmedValue(n: nat)
    requires n > 0
    ensures var all := ToText(n);
            var trimmed := TrimRightZeros(all);
            && trimmed != [] && AllDigits(trimmed) && DigitsValue(trimmed) > 0
            && DigitsValue(trimmed) * Pow(10, |all| - |trimmed|) == n
  {
    hide Pow, DigitsValue, ToText;
    var all := ToText(n);
    var trimmed := TrimRightZeros(all);
    var t := |all| - |trimmed|;
    TrimmedPlusZeros(all);
    ValueOfText(n);
    TrimmedIsDigits(all, trimmed);
    ZerosAround(trimmed, t);
    var dv := DigitsValue(trimmed);
    assert 0 * Pow(10, t) == 0;
    if trimmed == [] { EmptyValue(); }
  }

  lemma EmptyValue()
    ensures DigitsValue([]) == 0
  {
  }

  /** The text reads as a number with the value of the expansion. */
  lemma ReadExpansion(negative: bool, expansion: nat, scale: nat) returns (sig: nat, ex: int)
    requires expansion > 0 && |ToText(expansion)| < 20000 && scale < 20000
    ensures var all := ToText(expansion);
            var trimmed := TrimRightZeros(all);
            && trimmed != []
            && ReadDecimal(Render(negative, trimmed, |all| - scale)) == Some(Number(negative, sig, ex))
    ensures sig > 0 && Numerator(sig, ex) * Pow(10, scale) == expansion * Denominator(ex)
  {
    hide ReadDecimal, DigitsValue, Render, Pow, Numerator, Denominator, ToText, TrimRightZeros;
    var all := ToText(expansion);
    var trimmed := TrimRightZeros(all);
    TrimmedValue(expansion);
    var k := ReadRendered(negative, trimmed, |all| - scale);
    var dv := DigitsValue(trimmed);
    sig, ex := dv * Pow(10, k), |all| - scale - |trimmed| - k;
    DecimalRatio(dv, k, |all| - |trimmed|, scale);
    PowPositive(10, k);
    MulStrict(0, dv, Pow(10, k));
  }

  lemma TrimmedIsDigits(all: string, trimmed: string)
    requires AllDigits(all) && |trimmed| <= |all| && trimmed == all[..|trimmed|]
    ensures AllDigits(trimmed)
  {
  }

  // ---- the round trip ----

  lemma {:induction false} Pow2BelowPow10(n: nat)
    ensures Pow2(n) <= Pow(10, n)
  {
    if n > 0 { Pow2BelowPow10(n - 1); }
  }

  lemma {:induction false} Pow5BelowPow10(n: nat)
    ensures Pow(5, n) <= Pow(10, n)
  {
    if n > 0 { Pow5BelowPow10(n - 1); }
  }

  /** An expansion has fewer than 20000 digits. */
  lemma ExpansionIsShort(significand: nat, place: nat)
    requires significand < Pow2(113) && place < EXPONENT_MAX
    ensures |ToText(Expansion(significand, place - LEAST_EXPONENT))| < 20000
  {
    hide Pow, Pow2, ToText;
    var exponent := place - LEAST_EXPONENT;
    var s := if exponent >= 0 then exponent else -exponent;
    var factor := if exponent >= 0 then Pow2(s) else Pow(5, s);
    Pow2BelowPow10(113);
    Pow2BelowPow10(s);
    Pow5BelowPow10(s);
    PowPositive(10, s);
    MulMono(factor, Pow(10, s), significand);
    MulStrict(significand, Pow(10, 113), Pow(10, s));
    PowAdd(10, 113, s);
    assert significand * Pow(10, s) == Pow(10, s) * significand;
    TextLength(Expansion(significand, exponent), 113 + s);
  }

  /** The significand and place of a finite pattern, as printing takes them apart. */
  lemma PatternParts(b: nat) returns (significand: nat, place: nat)
    requires 0 < b < Infinity()
    ensures var biased := ExponentField(b);
            && biased < EXPONENT_MAX
            && significand == (if biased == 0 then Fraction(b) else Fraction(b) + Pow2(112))
            && place == (if biased == 0 then 0 else biased - 1)
            && 0 < significand < Pow2(113) && place < EXPONENT_MAX
            && Value(b) == significand * Pow2(place)
  {
    var p := Pow2(112);
    Pow2Next(112);
    Pow2Zero();
    FieldsOf(b, p);
    hide Pow2;
    if ExponentField(b) == 0 {
      significand, place := b, 0;
    } else {
      significand, place := p + b % p, ExponentField(b) - 1;
    }
  }

  lemma FieldsOf(b: nat, p: nat)
    requires p > 0
    ensures b / p >= 0 && 0 <= b % p < p && b == (b / p) * p + b % p
    ensures b / p == 0 ==> b % p == b
    ensures b < EXPONENT_MAX * p ==> b / p < EXPONENT_MAX
  {
    Quotient(b, p);
    assert 0 * p == 0;
    if b / p >= EXPONENT_MAX {
      MulMono(EXPONENT_MAX, b / p, p);
    }
  }

  /** A finite number other than zero reads back as itself. */
  lemma FiniteRoundTrip(negative: bool, b: nat)
    requires 0 < b < Infinity()
    ensures FromDecimal(ToExactDecimal(Sign(negative) + b)) == Some(Sign(negative) + b)
  {
    hide Pow, Pow2, ToText, ReadDecimal, Render, Value, ExponentField, Fraction, FromFraction,
         Expansion, Numerator, Denominator, TrimRightZeros, Infinity;
    var significand, place := PatternParts(b);
    var exponent := place - LEAST_EXPONENT;
    var x := Expansion(significand, exponent);
    MagnitudeOf(negative, b);
    ExpansionPositive(significand, exponent);
    ExpansionIsShort(significand, place);
    var sig, ex := ReadExpansion(negative, x, Scale(exponent));
    ExpansionRatio(significand, place);
    PowPositive(10, Scale(exponent));
    var num, den := Numerator(sig, ex), Denominator(ex);
    ChainRatios(num, den, x, Pow(10, Scale(exponent)), Value(b), Pow2(LEAST_EXPONENT));
    NumeratorPositive(sig, ex);
    ExactIsIdentity(b);
    SameFraction(negative, num, den, Value(b), Pow2(LEAST_EXPONENT));
    NearestExactly(Value(b), Pow2(LEAST_EXPONENT));
    assert FromFraction(negative, num, den) == Sign(negative) + b;
  }

  lemma ExpansionPositive(significand: nat, exponent: int)
    requires significand > 0
    ensures Expansion(significand, exponent) > 0
  {
    if exponent >= 0 {
      MulStrict(0, significand, Pow2(exponent));
    } else {
      PowPositive(5, -exponent);
      MulStrict(0, significand, Pow(5, -exponent));
    }
  }

  lemma NumeratorPositive(sig: nat, ex: int)
    requires sig > 0
    ensures Numerator(sig, ex) > 0
  {
    if ex >= 0 {
      PowPositive(10, ex);
      MulStrict(0, sig, Pow(10, ex));
    }
  }

  /** The sign bit stands above every magnitude. */
  lemma MagnitudeOf(negative: bool, b: nat)
    requires b <= Infinity()
    ensures negative <==> Sign(negative) + b >= SignMask()
    ensures (if negative then Sign(negative) + b - SignMask() else Sign(negative) + b) == b
  {
    hide Pow2;
    SignMaskIs();
  }

  lemma SignMaskIs()
    ensures SignMask() == 0x8000 * Pow2(112)
  {
    hide Pow2;
    Pow2Next(112); Pow2Next(113); Pow2Next(114); Pow2Next(115); Pow2Next(116);
    Pow2Next(117); Pow2Next(118); Pow2Next(119); Pow2Next(120); Pow2Next(121);
    Pow2Next(122); Pow2Next(123); Pow2Next(124); Pow2Next(125); Pow2Next(126);
  }

  lemma InfinityFields()
    ensures ExponentField(Infinity()) == EXPONENT_MAX && Fraction(Infinity()) == 0
    ensures ExponentField(0) == 0 && Fraction(0) == 0
  {
    var p := Pow2(112);
    hide Pow2;
    DivModUnique(p, EXPONENT_MAX, 0);
    DivModUnique(p, 0, 0);
  }

  lemma InfinitiesReadBack()
    ensures FromDecimal("inf") == Some(Infinity()) && FromDecimal("-inf") == Some(Infinity() + SignMask())
  {
    hide Pow2, Infinity, ReadUnsigned;
    TrimNothing("inf");
    TrimNothing("-inf");
    assert ToLower("inf") == "inf" && ToLower("-inf") == "-inf";
    assert |"+inf"| == 4 && "-inf"[0] != "+inf"[0];
    assert "-inf" !in {"inf", "+inf", "infinity", "+infinity"};
  }

  lemma ZerosReadBack()
    ensures FromDecimal("0.0") == Some(0) && FromDecimal("-0.0") == Some(SignMask())
  {
    hide Pow2, ReadDecimal;
    ReadSpelled(false, "0", "0", "", 0);
    ReadSpelled(true, "0", "0", "", 0);
    assert "" + ("0" + "." + "0" + "") == "0.0" && "-" + ("0" + "." + "0" + "") == "-0.0";
    assert Zeros(2) == "0" + "0" by { ZerosBack(1); ZerosBack(0); }
    ValueOfZeros(2);
  }

  predicate IsNaN(bits: nat) {
    var magnitude := if bits >= SignMask() then bits - SignMask() else bits;
    ExponentField(magnitude) == EXPONENT_MAX && Fraction(magnitude) != 0
  }

  /** Printing and reading back is the identity on every pattern that is not a NaN: zeros of both
      signs, subnormal and normal numbers, and infinities of both signs. */
  lemma PrintReadIdentity(negative: bool, b: nat)
    requires b <= Infinity()
    ensures FromDecimal(ToExactDecimal(Sign(negative) + b)) == Some(Sign(negative) + b)
  {
    hide Pow2, FromDecimal, Infinity, ExponentField, Fraction;
    if 0 < b < Infinity() {
      FiniteRoundTrip(negative, b);
    } else {
      MagnitudeOf(negative, b);
      InfinityFields();
      InfinitiesReadBack();
      ZerosReadBack();
    }
  }

  /** Every pattern of 128 bits that is not a NaN is of that form. */
  lemma PatternsCovered(bits: nat) returns (negative: bool, b: nat)
    requires bits < 2 * SignMask() && !IsNaN(bits)
    ensures b <= Infinity() && bits == Sign(negative) + b
  {
    negative := bits >= SignMask();
    b := if negative then bits - SignMask() else bits;
    var p := Pow2(112);
    SignMaskIs();
    hide Pow2;
    var q := b / p;
    FieldsOf(b, p);
    if q >= EXPONENT_MAX + 1 { MulMono(EXPONENT_MAX + 1, q, p); }
    if q < EXPONENT_MAX { MulMono(q + 1, EXPONENT_MAX, p); MulAdd(q, 1, p); }
  }
}
