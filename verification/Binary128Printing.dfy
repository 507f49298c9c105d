/** Which text a binary128 number is printed as. */
module Binary128Printing {
  import opened Common
  import opened Powers
  import opened DecimalText
  import opened Binary128
  import opened Binary128Nearest
  import opened Binary128Text
  import opened Binary128RoundTrip
  import opened DecimalGrammar

  /** A decimal as it is printed: a point with digits on both sides, no zero that could be left out, and in scientific
      form one digit before the point and a signed exponent. */
  predicate Printed(d: Decimal, negative: bool) {
    && WellFormed(d) && d.point && d.before == "" && d.after == "" && d.sign == (if negative then "-" else "")
    && d.whole != "" && (d.whole == "0" || d.whole[0] != '0')
    && d.fraction != "" && (d.fraction == "0" || d.fraction[|d.fraction| - 1] != '0')
    && (d.exponent.Some? ==>
          && |d.whole| == 1 && d.whole != "0"
          && d.exponent.value.mark == 'e' && d.exponent.value.sign in {"+", "-"}
          && d.exponent.value.digits[0] != '0')
  }

  /** Digits without a zero at either end. */
  predicate Tight(digits: string) {
    digits != "" && AllDigits(digits) && digits[0] != '0' && digits[|digits| - 1] != '0'
  }

  // ---- digits ----

  lemma {:induction false} TrimEnds(s: string)
    ensures var t := TrimRightZeros(s); t != "" ==> t[|t| - 1] != '0'
  {
    if s != [] && s[|s| - 1] == '0' { TrimEnds(s[..|s| - 1]); }
  }

  lemma TrimmedIsTight(n: nat)
    requires n > 0
    ensures Tight(TrimRightZeros(ToText(n)))
  {
    hide ToText, TrimRightZeros, DigitsValue, Pow;
    TrimmedValue(n);
    TrimEnds(ToText(n));
    TextLeads(n);
  }

  /** A number has more than k digits exactly from 10^k on. */
  lemma {:induction false} HasDigits(n: nat, k: nat)
    requires n > 0
    ensures |ToText(n)| > k <==> n >= Pow(10, k)
  {
    if k == 0 {
      assert Pow(10, 0) == 1;
    } else if n < 10 {
      PowPositive(10, k - 1);
    } else {
      HasDigits(n / 10, k - 1);
      assert n / 10 >= Pow(10, k - 1) <==> n >= 10 * Pow(10, k - 1);
    }
  }

  // ---- where the exponent begins ----

  /** The point of an expansion against the value: right of the 34th digit from 10^34 on. */
  lemma LargeExactly(x: nat, scale: nat)
    requires x > 0
    ensures |ToText(x)| - scale > 34 <==> x >= Pow(10, 34) * Pow(10, scale)
  {
    hide Pow, ToText;
    HasDigits(x, 34 + scale);
    PowAdd(10, 34, scale);
  }

  /** And six or more zeros behind the point below 10^-6. */
  lemma SmallExactly(x: nat, scale: nat)
    requires x > 0
    ensures |ToText(x)| - scale <= -6 <==> x * Pow(10, 6) < Pow(10, scale)
  {
    hide Pow, ToText;
    var n := |ToText(x)|;
    if n + 6 <= scale {
      HasDigits(x, n);
      PowPositive(10, 6);
      MulStrict(x, Pow(10, n), Pow(10, 6));
      PowAdd(10, n, 6);
      PowMono(10, n + 6, scale);
    } else {
      HasDigits(x, n - 1);
      MulMono(Pow(10, n - 1), x, Pow(10, 6));
      PowAdd(10, n - 1, 6);
      PowMono(10, scale, n + 5);
    }
  }

  /** x / tens is v / twos, so they compare alike with every number. */
  lemma SameComparison(x: nat, tens: nat, v: nat, twos: nat, c: nat)
    requires tens > 0 && twos > 0 && x * twos == v * tens
    ensures x >= c * tens <==> v >= c * twos
    ensures x * c < tens <==> v * c < twos
  {
    CompareScaled(c * tens, x, twos);
    CompareScaled(c * twos, v, tens);
    assert c * tens * twos == c * twos * tens by { Commute3(c, tens, twos); }
    CompareScaled(x * c, tens, twos);
    CompareScaled(v * c, twos, tens);
    assert x * c * twos == v * c * tens by { Commute3(x, c, twos); Commute3(v, c, tens); }
    MulCommute(tens, twos);
  }

  lemma Commute3(a: int, b: int, c: int)
    ensures a * b * c == a * c * b
  {
    MulAssoc(a, b, c);
    MulAssoc(a, c, b);
    MulCommute(b, c);
  }

  // ---- the four layouts ----

  function Plain(negative: bool, whole: string, fraction: string, exponent: Option<Exponent>): Decimal {
    Decimal("", SignText(negative), whole, true, fraction, exponent, "")
  }

  lemma WholeLayout(negative: bool, digits: string, zeros: nat) returns (d: Decimal)
    requires Tight(digits)
    ensures Text(d) == SignText(negative) + digits + Zeros(zeros) + ".0" && Printed(d, negative) && d.exponent.None?
  {
    hide Zeros;
    var whole := digits + Zeros(zeros);
    AllDigitsConcat(digits, Zeros(zeros));
    d := Plain(negative, whole, "0", None);
    assert ".0" == "." + "0";
    assert Text(d) == SignText(negative) + whole + ".0";
    assert SignText(negative) + digits + Zeros(zeros) == SignText(negative) + whole;
  }

  lemma PointLayout(negative: bool, digits: string, point: nat) returns (d: Decimal)
    requires Tight(digits) && 0 < point < |digits|
    ensures Text(d) == SignText(negative) + digits[..point] + "." + digits[point..]
    ensures Printed(d, negative) && d.exponent.None?
  {
    DigitsSplit(digits, point);
    d := Plain(negative, digits[..point], digits[point..], None);
    assert digits[..point][0] == digits[0];
  }

  lemma SmallLayout(negative: bool, digits: string, zeros: nat) returns (d: Decimal)
    requires Tight(digits)
    ensures Text(d) == SignText(negative) + "0." + Zeros(zeros) + digits && Printed(d, negative) && d.exponent.None?
  {
    hide Zeros;
    var fraction := Zeros(zeros) + digits;
    AllDigitsConcat(Zeros(zeros), digits);
    d := Plain(negative, "0", fraction, None);
    assert "0." == "0" + ".";
    assert Text(d) == SignText(negative) + "0." + fraction;
    assert SignText(negative) + "0." + Zeros(zeros) + digits == SignText(negative) + "0." + fraction;
  }

  lemma ScientificLayout(negative: bool, digits: string, e: int) returns (d: Decimal)
    requires Tight(digits) && e != 0 && -INT_LIMIT <= e < INT_LIMIT
    ensures var more := if |digits| > 1 then digits[1..] else "0";
            var tail := if e >= 0 then "e+" + ToText(e) else "e-" + ToText(-e);
            Text(d) == SignText(negative) + (digits[..1] + "." + more) + tail
    ensures Printed(d, negative) && d.exponent.Some?
    ensures d.exponent.value.sign == if e > 0 then "+" else "-"
  {
    hide ToText, DigitsValue, ExponentWellFormed, ExponentText;
    var more := if |digits| > 1 then digits[1..] else "0";
    var x := ExponentLayout(e);
    DigitsSplit(digits, 1);
    d := Plain(negative, digits[..1], more, Some(x));
    assert digits[..1][0] == digits[0];
    var mantissa := digits[..1] + "." + more;
    assert Text(d) == SignText(negative) + (digits[..1] + ("." + more) + ExponentText(Some(x)));
    assert digits[..1] + ("." + more) == mantissa;
  }

  lemma ExponentLayout(e: int) returns (x: Exponent)
    requires e != 0 && -INT_LIMIT <= e < INT_LIMIT
    ensures ExponentWellFormed(x) && x.mark == 'e' && x.sign == (if e > 0 then "+" else "-") && x.digits[0] != '0'
    ensures ExponentText(Some(x)) == if e >= 0 then "e+" + ToText(e) else "e-" + ToText(-e)
  {
    hide ToText, DigitsValue;
    var n := if e > 0 then e else -e;
    x := Exponent('e', if e > 0 then "+" else "-", ToText(n));
    ValueOfText(n);
    TextLeads(n);
    assert ['e'] + (x.sign + x.digits) == (if e > 0 then "e+" else "e-") + ToText(n);
  }

  /** What is rendered is a printed decimal, scientific exactly where the point lies too far off. */
  lemma RenderedForm(negative: bool, digits: string, point: int) returns (d: Decimal)
    requires Tight(digits) && -INT_LIMIT < point < INT_LIMIT
    ensures Render(negative, digits, point) == Text(d) && Printed(d, negative)
    ensures d.exponent.Some? <==> point > 34 || point <= -6
    ensures d.exponent.Some? ==> d.exponent.value.sign == if point > 34 then "+" else "-"
  {
    hide Text, Printed, Zeros, ToText;
    if 0 < point <= 34 {
      if |digits| <= point {
        d := WholeLayout(negative, digits, point - |digits|);
      } else {
        d := PointLayout(negative, digits, point);
      }
    } else if -6 < point <= 0 {
      d := SmallLayout(negative, digits, -point);
    } else {
      d := ScientificLayout(negative, digits, point - 1);
      var mantissa := digits[..1] + "." + (if |digits| > 1 then digits[1..] else "0");
      assert SignText(negative) + mantissa + "e+" + ToText(if point >= 1 then point - 1 else 0) ==
             SignText(negative) + mantissa + ("e+" + ToText(if point >= 1 then point - 1 else 0));
      assert SignText(negative) + mantissa + "e-" + ToText(if point < 1 then 1 - point else 0) ==
             SignText(negative) + mantissa + ("e-" + ToText(if point < 1 then 1 - point else 0));
    }
  }

  // ---- the text of a pattern ----

  /** The text of a finite number other than zero spells it exactly, as a printed decimal, with an exponent exactly
      below 10^-6 and from 10^34 on. */
  lemma PrintedExactly(negative: bool, b: nat) returns (d: Decimal, significand: nat, exponent: int)
    requires 0 < b < Infinity()
    ensures ToExactDecimal(Sign(negative) + b) == Text(d) && Printed(d, negative)
    ensures Meaning(d) == Number(negative, significand, exponent)
    ensures Numerator(significand, exponent) * Pow2(16494) == Value(b) * Denominator(exponent)
    ensures d.exponent.Some? <==> Value(b) * Pow(10, 6) < Pow2(16494) || Value(b) >= Pow(10, 34) * Pow2(16494)
    ensures d.exponent.Some? ==> d.exponent.value.sign == if Value(b) >= Pow2(16494) then "+" else "-"
  {
    hide Pow, Pow2, ToText, ReadDecimal, Render, Value, ExponentField, Fraction, Expansion, Numerator, Denominator,
         TrimRightZeros, Infinity, Printed, Text, Meaning, Tight;
    var s, place := PatternParts(b);
    var x, scale := Expansion(s, place - LEAST_EXPONENT), Scale(place - LEAST_EXPONENT);
    MagnitudeOf(negative, b);
    ExpansionPositive(s, place - LEAST_EXPONENT);
    ExpansionIsShort(s, place);
    TrimmedIsTight(x);
    TightIsSome(x);
    var all := ToText(x);
    d := RenderedForm(negative, TrimRightZeros(all), |all| - scale);
    significand, exponent := ReadExpansion(negative, x, scale);
    PrintedIsWellFormed(d, negative);
    GrammarIsRead(d);
    ExpansionRatio(s, place);
    PowPositive(10, scale);
    ChainRatios(Numerator(significand, exponent), Denominator(exponent), x, Pow(10, scale), Value(b), Pow2(16494));
    LargeExactly(x, scale);
    SmallExactly(x, scale);
    SameComparison(x, Pow(10, scale), Value(b), Pow2(16494), Pow(10, 34));
    SameComparison(x, Pow(10, scale), Value(b), Pow2(16494), Pow(10, 6));
    FarApart(Value(b), Pow2(16494));
  }

  lemma TightIsSome(n: nat)
    requires Tight(TrimRightZeros(ToText(n)))
    ensures TrimRightZeros(ToText(n)) != []
  {
  }

  lemma PrintedIsWellFormed(d: Decimal, negative: bool)
    requires Printed(d, negative)
    ensures WellFormed(d)
  {
  }

  /** Nothing is both below 10^-6 and at least one, or both at least 10^34 and below one. */
  lemma FarApart(v: nat, one: nat)
    requires one > 0
    ensures v * Pow(10, 6) < one ==> v < one
    ensures v >= Pow(10, 34) * one ==> v >= one
  {
    hide Pow;
    PowPositive(10, 6);
    PowPositive(10, 34);
    MulMono(1, Pow(10, 6), v);
    MulMono(1, Pow(10, 34), one);
    MulCommute(v, Pow(10, 6));
  }

  /** Zeros, infinities and NaNs have texts of their own. */
  lemma SpecialTexts(negative: bool, payload: nat)
    requires 0 < payload < Pow2(112)
    ensures ToExactDecimal(Sign(negative)) == if negative then "-0.0" else "0.0"
    ensures ToExactDecimal(Sign(negative) + Infinity()) == if negative then "-inf" else "inf"
    ensures ToExactDecimal(Sign(negative) + Infinity() + payload) == "nan"
  {
    hide Pow2, ExponentField, Fraction, Render, Expansion, TrimRightZeros, ToText, Infinity;
    InfinityFields();
    MagnitudeOf(negative, 0);
    MagnitudeOf(negative, Infinity());
    PayloadFields(negative, payload);
  }

  lemma PayloadFields(negative: bool, payload: nat)
    requires 0 < payload < Pow2(112)
    ensures var b := Infinity() + payload;
            && ExponentField(b) == EXPONENT_MAX && Fraction(b) == payload
            && (negative <==> Sign(negative) + b >= SignMask())
            && (if negative then Sign(negative) + b - SignMask() else Sign(negative) + b) == b
  {
    hide Pow2;
    DivModUnique(Pow2(112), EXPONENT_MAX, payload);
    SignMaskIs();
  }
}
