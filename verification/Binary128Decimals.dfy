/** Correct rounding and order, for every decimal text that spells a number. */
module Binary128Decimals {
  import opened Common
  import opened Powers
  import opened DecimalText
  import opened Binary128
  import opened Binary128Meaning
  import opened Binary128Nearest
  import opened Binary128Order
  import opened Binary128Text
  import opened Binary128RoundTrip
  import G = DecimalGrammar

  /** A decimal text with this sign, these digits and this power of ten, by the grammar. */
  ghost predicate SpellsNumber(text: string, negative: bool, significand: nat, exponent: int) {
    exists d :: G.WellFormed(d) && G.Text(d) == text && G.Meaning(d) == Number(negative, significand, exponent)
  }

  lemma SpelledIsRead(text: string, negative: bool, significand: nat, exponent: int)
    ensures SpellsNumber(text, negative, significand, exponent) <==>
            ReadDecimal(text) == Some(Number(negative, significand, exponent))
  {
    hide ReadDecimal, G.WellFormed, G.Text, G.Meaning;
    G.ReadsExactlyTheGrammar(text, Number(negative, significand, exponent));
  }

  /** A decimal text is read as its sign and the binary128 magnitude nearest to its value, exactly unless
      the value misleads the second rounding; from the smallest normal number on it never does. */
  lemma DecimalIsNearest(text: string, negative: bool, significand: nat, exponent: int)
    requires SpellsNumber(text, negative, significand, exponent) && significand > 0
    ensures FromDecimal(text).Some? && FromDecimal(text).value >= Sign(negative)
    ensures var n, d := Numerator(significand, exponent), Denominator(exponent);
            var b := FromDecimal(text).value - Sign(negative);
            && IsNeighbour(Units(n), d, b)
            && (IsNearest(Units(n), d, b) <==> !DoubleRoundingHazard(n, d))
            && (Pow2(112) * d <= Units(n) ==> IsNearest(Units(n), d, b))
  {
    hide Pow2, Pow, ReadDecimal, FromFraction, IsNearest, Units, Numerator, Denominator, Value, SpellsNumber;
    SpelledIsRead(text, negative, significand, exponent);
    NumeratorPositive(significand, exponent);
    NearestExactly(Numerator(significand, exponent), Denominator(exponent));
  }

  /** Patterns in the order of the numbers they stand for, both zeros alike. */
  function Rank(bits: nat): int {
    if bits >= SignMask() then SignMask() - bits else bits
  }

  function SignedNumerator(negative: bool, significand: nat, exponent: int): int {
    if negative then -(Numerator(significand, exponent) as int) else Numerator(significand, exponent)
  }

  function Magnitude(significand: nat, exponent: int): nat {
    if significand == 0 then 0 else FromFraction(false, Numerator(significand, exponent), Denominator(exponent))
  }

  lemma RankOfDecimal(negative: bool, significand: nat, exponent: int)
    ensures var magnitude: int := Magnitude(significand, exponent);
            Rank(PatternOfSpelling(Number(negative, significand, exponent))) ==
            if negative then -magnitude else magnitude
  {
    hide Pow2, Pow, FromFraction, IsNearest, Units, Numerator, Denominator, Value;
    if significand > 0 {
      NumeratorPositive(significand, exponent);
      NearestExactly(Numerator(significand, exponent), Denominator(exponent));
      MagnitudeOf(negative, Magnitude(significand, exponent));
    } else {
      MagnitudeOf(negative, 0);
    }
  }

  lemma NumeratorOfZero(e: int)
    ensures Numerator(0, e) == 0
  {
  }

  lemma MagnitudesOrdered(s1: nat, e1: int, s2: nat, e2: int)
    requires Numerator(s1, e1) * Denominator(e2) <= Numerator(s2, e2) * Denominator(e1)
    ensures Magnitude(s1, e1) <= Magnitude(s2, e2)
  {
    hide Pow2, Pow, FromFraction, Denominator;
    if s1 > 0 {
      NumeratorPositive(s1, e1);
      MulStrict(0, Numerator(s1, e1), Denominator(e2));
      if s2 == 0 {
        NumeratorOfZero(e2);
        assert false;
      } else {
        NumeratorPositive(s2, e2);
        hide Numerator;
        Monotone(Numerator(s1, e1), Denominator(e1), Numerator(s2, e2), Denominator(e2));
      }
    }
  }

  /** Reading keeps the order of any two decimals, of either sign. */
  lemma DecimalsStayInOrder(t1: string, neg1: bool, s1: nat, e1: int, t2: string, neg2: bool, s2: nat, e2: int)
    requires SpellsNumber(t1, neg1, s1, e1) && SpellsNumber(t2, neg2, s2, e2)
    requires SignedNumerator(neg1, s1, e1) * Denominator(e2) <= SignedNumerator(neg2, s2, e2) * Denominator(e1)
    ensures FromDecimal(t1).Some? && FromDecimal(t2).Some?
    ensures Rank(FromDecimal(t1).value) <= Rank(FromDecimal(t2).value)
  {
    hide Pow2, Pow, ReadDecimal, PatternOfSpelling, Denominator, Rank, Magnitude, SpellsNumber;
    SpelledIsRead(t1, neg1, s1, e1);
    SpelledIsRead(t2, neg2, s2, e2);
    RankOfDecimal(neg1, s1, e1);
    RankOfDecimal(neg2, s2, e2);
    var n1, d1, n2, d2 := Numerator(s1, e1), Denominator(e1), Numerator(s2, e2), Denominator(e2);
    hide Numerator;
    NegateProduct(n1, d2);
    NegateProduct(n2, d1);
    if !neg1 && !neg2 {
      MagnitudesOrdered(s1, e1, s2, e2);
    } else if neg1 && neg2 {
      MagnitudesOrdered(s2, e2, s1, e1);
    } else if !neg1 && neg2 {
      MulMono(0, n1, d2);
      MulMono(0, n2, d1);
      ZeroMagnitude(s1, e1, d2);
      ZeroMagnitude(s2, e2, d1);
    }
  }

  lemma NegateProduct(n: int, d: int)
    ensures (-n) * d == -(n * d)
  {
  }

  lemma ZeroMagnitude(significand: nat, exponent: int, d: nat)
    requires d > 0 && Numerator(significand, exponent) * d == 0
    ensures Magnitude(significand, exponent) == 0
  {
    if significand > 0 {
      NumeratorPositive(significand, exponent);
      MulStrict(0, Numerator(significand, exponent), d);
    }
  }

  /** The text of a decimal that is not rounded to nearest. */
  function MisreadText(): string {
    ToText((Pow2(114) + 11) * Pow(5, LEAST_EXPONENT + 3)) + "." + "0" + ("e-" + ToText(LEAST_EXPONENT + 3))
  }

  lemma DecimalMisread()
    ensures var n, d := Pow2(114) + 11, Pow2(LEAST_EXPONENT + 3);
            && FromDecimal(MisreadText()) == Some(FromFraction(false, n, d))
            && !IsNearest(Units(n), d, FromFraction(false, n, d))
  {
    hide Pow2, Pow, ToText, ReadDecimal, FromFraction, IsNearest, Units, DigitsValue, Numerator, Denominator;
    var k := LEAST_EXPONENT + 3;
    var n, d := Pow2(114) + 11, Pow2(k);
    DoubleRoundingWitness();
    var x := n * Pow(5, k);
    ExponentTail(-k);
    ReadSpelled(false, ToText(x), "0", "e-" + ToText(k), -k);
    assert "" + MisreadText() == MisreadText();
    MisreadValue(x);
    MisreadRatio(n, k);
    PowPositive(5, k);
    MulStrict(0, n, Pow(5, k));
    NumeratorPositive(x * 10, -k - 1);
    SameFraction(false, Numerator(x * 10, -k - 1), Denominator(-k - 1), n, d);
  }

  lemma MisreadValue(x: nat)
    ensures AllDigits(ToText(x) + "0") && DigitsValue(ToText(x) + "0") == x * 10
  {
    hide ToText;
    assert Zeros(1) == "0" by { ZerosBack(0); assert "" + "0" == "0"; }
    ZerosAround(ToText(x), 1);
    ValueOfText(x);
    assert Pow(10, 1) == 10 * Pow(10, 0);
  }

  lemma MisreadRatio(n: nat, k: nat)
    ensures Numerator(n * Pow(5, k) * 10, -(k as int) - 1) * Pow2(k) == n * Denominator(-(k as int) - 1)
  {
    assert Pow(10, k + 1) == 10 * Pow(10, k);
    hide Pow, Pow2;
    TenIsTwoTimesFive(k);
    var f, t := Pow(5, k), Pow2(k);
    RearrangeTen(n, f, t);
  }

  lemma RearrangeTen(n: int, f: int, t: int)
    ensures n * f * 10 * t == n * (10 * (t * f))
  {
    Commute(n * f, 10, t);
    MulAssoc(n, f, t);
    assert f * t == t * f;
    assert n * (t * f) * 10 == n * (10 * (t * f));
  }
}
