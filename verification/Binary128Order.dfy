/** The main theorems on converting fractions to binary128. */
module Binary128Order {
  import opened Powers
  import opened Rounding
  import opened Binary128
  import opened Binary128Meaning
  import opened Binary128Nearest

  /** A positive number is brought to 113 bits by one power of two only. */
  lemma ScaleIsUnique(num: nat, d: nat, s: nat, t: nat)
    requires d > 0 && In113Bits(num * Pow2(s), d) && In113Bits(num * Pow2(t), d)
    ensures s == t
  {
    if s < t { LargerScale(num, d, s, t); }
    if t < s { LargerScale(num, d, t, s); }
  }

  lemma LargerScale(num: nat, d: nat, s: nat, t: nat)
    requires s < t && Pow2(112) * d <= num * Pow2(s)
    ensures Pow2(113) * d <= num * Pow2(t)
  {
    hide Pow2;
    Pow2Strict(s, t);
    Pow2Next(112);
    MulAssoc(2, Pow2(112), d);
    MulMono(2 * Pow2(s), Pow2(t), num);
    MulAssoc(2, Pow2(s), num);
  }

  /** From the smallest normal number on there is no hazard. */
  lemma NormalHasNoHazard(n: nat, d: nat)
    requires d > 0 && Pow2(112) * d <= Units(n)
    ensures !DoubleRoundingHazard(n, d)
  {
    hide Pow2, RoundsTo, Units;
    forall s: nat, m: nat ensures !Misleads(Units(n), d, s, m) {
      if Misleads(Units(n), d, s, m) {
        Pow2Zero();
        LargerScale(Units(n), d, 0, s);
      }
    }
  }

  lemma BinadeIsNormal(num: nat, d: nat, g: nat)
    requires d > 0 && In113Bits(num, d * Pow2(g))
    ensures Pow2(112) * d <= num
  {
    hide Pow2;
    Pow2Zero();
    Pow2Mono(0, g);
    ProductMono(Pow2(112), d, 1, Pow2(g));
  }

  lemma HazardAt(n: nat, d: nat, s: nat, m: nat)
    requires d > 0 && s > 0 && In113Bits(Units(n) * Pow2(s), d) && RoundsTo(Units(n) * Pow2(s), d, m)
    ensures DoubleRoundingHazard(n, d) <==> Misleads(Units(n), d, s, m)
  {
    hide Pow2, RoundsTo, In113Bits, Units;
    if DoubleRoundingHazard(n, d) {
      var t: nat, k: nat :| Misleads(Units(n), d, t, k);
      ScaleIsUnique(Units(n), d, s, t);
      RoundsToUnique(Units(n) * Pow2(s), d, m, k);
    }
  }

  /** num/d lies strictly between the patterns next to b. */
  predicate IsNeighbour(num: nat, d: nat, b: nat) {
    && b <= Infinity()
    && (b > 0 ==> Value(b - 1) * d < num)
    && (b < Infinity() ==> num < Value(b + 1) * d)
  }

  lemma SubnormalResult(n: nat, d: nat, s: nat, m: nat, b: nat)
    requires d > 0 && s > 0 && Composed(n, d, -(s as int), m, b)
    ensures IsNeighbour(Units(n), d, b)
    ensures IsNearest(Units(n), d, b) <==> !Misleads(Units(n), d, s, m)
  {
    hide Pow2, In113Bits, Units, Value, Infinity;
    var num := Units(n);
    SecondRoundingRange(s, m, b);
    RoundedTwiceIsNeighbour(num, d, s, m, b);
    NearestIsRounded(num, d, b);
    Pow2Next(s - 1);
    RoundTwice(num, d, Pow2(s), Pow2(s - 1), m, b);
    BelowInfinity(b);
    if b < Pow2(112) { SubnormalValue(b + 1); } else { SubnormalAbove(); }
    if b > 0 { SubnormalValue(b - 1); }
  }

  lemma SecondRoundingRange(s: nat, m: nat, b: nat)
    requires s > 0 && m <= Pow2(113) && RoundsTo(m, Pow2(s), b)
    ensures b <= Pow2(112)
  {
    hide Pow2, RoundsTo;
    Pow2Zero();
    Pow2Next(0);
    Pow2Mono(1, s);
    Pow2Next(112);
    MulMono(2, Pow2(s), Pow2(112));
    RoundsToWithin(m, Pow2(s), b, 0, Pow2(112));
  }

  lemma NearestIsNeighbour(num: nat, d: nat, b: nat)
    requires d > 0 && IsNearest(num, d, b)
    ensures IsNeighbour(num, d, b)
  {
    hide Value, Infinity;
    if b > 0 {
      ValueMonotone(b - 1, b);
      MulStrict(Value(b - 1), Value(b), d);
      assert Distance(num, d, b) <= Distance(num, d, b - 1);
    }
    if b < Infinity() {
      ValueMonotone(b, b + 1);
      MulStrict(Value(b), Value(b + 1), d);
      assert Distance(num, d, b) <= Distance(num, d, b + 1);
    }
  }

  /** Correct rounding, exactly: the result is the nearest binary128, ties to even and overflow to
      infinity, for every fraction but those that mislead the second rounding of a subnormal result;
      and there it is still one of the two neighbours. */
  lemma NearestExactly(n: nat, d: nat)
    requires n > 0 && d > 0
    ensures var b := FromFraction(false, n, d);
            && IsNeighbour(Units(n), d, b)
            && (IsNearest(Units(n), d, b) <==> !DoubleRoundingHazard(n, d))
    ensures Pow2(112) * d <= Units(n) ==> IsNearest(Units(n), d, FromFraction(false, n, d))
    ensures FromFraction(true, n, d) == SignMask() + FromFraction(false, n, d)
  {
    hide Pow2, Units, Value, IsNearest, RoundsTo, In113Bits, Capped;
    var b := FromFraction(false, n, d);
    var g, m := FromFractionMeans(n, d);
    hide FromFraction;
    if g >= 0 {
      NormalIsNearest(n, d, g, m, b);
      NearestIsNeighbour(Units(n), d, b);
      BinadeIsNormal(Units(n), d, g);
      NormalHasNoHazard(n, d);
    } else {
      SubnormalResult(n, d, -g, m, b);
      HazardAt(n, d, -g, m);
      if Pow2(112) * d <= Units(n) {
        NormalHasNoHazard(n, d);
      }
    }
  }

  // ---- order ----

  lemma UnitsOrder(n1: nat, d1: nat, n2: nat, d2: nat)
    requires n1 * d2 <= n2 * d1
    ensures Units(n1) * d2 <= Units(n2) * d1
  {
    hide Pow2;
    var k := Pow2(LEAST_EXPONENT);
    MulMono(n1 * d2, n2 * d1, k);
    Commute(n1, k, d2);
    Commute(n2, k, d1);
  }

  lemma Commute(a: int, k: int, d: int)
    ensures a * k * d == a * d * k
  {
    MulAssoc(a, k, d);
    MulAssoc(a, d, k);
  }

  /** The numerator and denominator of the first rounding at exponent g. */
  function Num(n: nat, g: int): nat {
    if g >= 0 then Units(n) else Units(n) * Pow2(-g)
  }

  function Den(d: nat, g: int): nat {
    if g >= 0 then d * Pow2(g) else d
  }

  lemma DenPositive(d: nat, g: int)
    requires d > 0
    ensures Den(d, g) > 0
  {
    hide Pow2;
    if g >= 0 { MulStrict(0, d, Pow2(g)); }
  }

  /** At one exponent fractions keep their order. */
  lemma OrderAtExponent(n1: nat, d1: nat, n2: nat, d2: nat, g: int)
    requires Units(n1) * d2 <= Units(n2) * d1
    ensures Num(n1, g) * Den(d2, g) <= Num(n2, g) * Den(d1, g)
  {
    hide Pow2, Units;
    var u1, u2 := Units(n1), Units(n2);
    var k := if g >= 0 then Pow2(g) else Pow2(-g);
    MulMono(u1 * d2, u2 * d1, k);
    MulAssoc(u1, d2, k);
    MulAssoc(u2, d1, k);
    Commute(u1, k, d2);
    Commute(u2, k, d1);
  }

  /** A smaller fraction needs no larger exponent. */
  lemma ExponentOrder(n1: nat, d1: nat, g1: int, n2: nat, d2: nat, g2: int)
    requires d1 > 0 && d2 > 0 && Units(n1) * d2 <= Units(n2) * d1
    requires In113Bits(Num(n1, g1), Den(d1, g1)) && In113Bits(Num(n2, g2), Den(d2, g2))
    ensures g1 <= g2
  {
    hide Pow2, Units;
    if g2 < g1 {
      OrderAtExponent(n1, d1, n2, d2, g1);
      LowerExponent(n2, d2, g2, g1);
      DenPositive(d1, g1);
      DenPositive(d2, g1);
      var a, b := Num(n1, g1), Num(n2, g1);
      var p, q := Den(d1, g1), Den(d2, g1);
      // 2^112 p <= a, b < 2^112 q and a q <= b p cannot all be.
      MulMono(Pow2(112) * p, a, q);
      MulStrict(b, Pow2(112) * q, p);
      Commute(Pow2(112), p, q);
    }
  }

  /** What fits 113 bits at one exponent is below 2^112 at any higher one. */
  lemma LowerExponent(n: nat, d: nat, g: int, h: int)
    requires d > 0 && g < h && In113Bits(Num(n, g), Den(d, g))
    ensures Num(n, h) < Pow2(112) * Den(d, h)
  {
    hide Pow2, Units;
    var u := Units(n);
    if g >= 0 {
      LowerNormal(u, d, g, h);
    } else if h > 0 {
      LowerAcross(u, d, -g, h);
    } else {
      Pow2Zero();
      LowerSubnormal(u, d, -g, -h);
    }
  }

  lemma LowerNormal(u: nat, d: nat, g: nat, h: nat)
    requires g < h && u < Pow2(113) * (d * Pow2(g))
    ensures u < Pow2(112) * (d * Pow2(h))
  {
    hide Pow2;
    Pow2Next(112);
    Pow2Strict(g, h);
    ProductMono(Pow2(112), d, 2 * Pow2(g), Pow2(h));
    Doubling(Pow2(112), d, Pow2(g), 2 * Pow2(g));
  }

  lemma LowerAcross(u: nat, d: nat, s: nat, h: nat)
    requires s > 0 && h > 0 && u * Pow2(s) < Pow2(113) * d
    ensures u < Pow2(112) * (d * Pow2(h))
  {
    hide Pow2;
    Pow2Zero();
    Pow2Strict(0, s);
    Pow2Mono(0, h);
    Pow2Next(112);
    Halve(u, Pow2(s), Pow2(112), d);
    ProductMono(Pow2(112), d, 1, Pow2(h));
  }

  lemma Halve(u: nat, k: nat, p: nat, d: nat)
    requires k >= 2 && u * k < 2 * p * d
    ensures u < p * d
  {
    MulMono(2, k, u);
    MulAssoc(2, p, d);
  }

  lemma LowerSubnormal(u: nat, d: nat, s: nat, t: nat)
    requires t < s && u * Pow2(s) < Pow2(113) * d
    ensures u * Pow2(t) < Pow2(112) * d
  {
    hide Pow2;
    Pow2Strict(t, s);
    Pow2Next(112);
    MulMono(2 * Pow2(t), Pow2(s), u);
    MulAssoc(2, Pow2(t), u);
    MulAssoc(2, Pow2(112), d);
  }

  /** At equal exponents, or from one to a higher, the results keep the order of the first rounding. */
  lemma ResultOrder(g1: int, m1: nat, b1: nat, g2: int, m2: nat, b2: nat)
    requires Pow2(112) <= m1 <= Pow2(113) && Pow2(112) <= m2 <= Pow2(113)
    requires if g1 >= 0 then b1 == Capped(g1, m1) else RoundsTo(m1, Pow2(-g1), b1)
    requires if g2 >= 0 then b2 == Capped(g2, m2) else RoundsTo(m2, Pow2(-g2), b2)
    requires g1 < g2 || (g1 == g2 && m1 <= m2)
    ensures b1 <= b2
  {
    hide Pow2, RoundsTo, Infinity;
    Pow2Next(112);
    if g1 >= 0 {
      if g1 < g2 {
        MulMono(g1 + 1, g2, Pow2(112));
        MulAdd(g1, 1, Pow2(112));
      }
    } else if g2 >= 0 {
      SecondRoundingRange(-g1, m1, b1);
      MulMono(0, g2, Pow2(112));
      BelowInfinity(Pow2(112));
    } else if g1 == g2 {
      MulMono(m1, m2, Pow2(-g1));
      RoundsToMonotone(m1, Pow2(-g1), b1, m2, Pow2(-g2), b2);
    } else {
      CrossBinade(m1, -g1, m2, -g2);
      RoundsToMonotone(m1, Pow2(-g1), b1, m2, Pow2(-g2), b2);
    }
  }

  lemma CrossBinade(m1: nat, s1: nat, m2: nat, s2: nat)
    requires s2 < s1 && m1 <= Pow2(113) && Pow2(112) <= m2
    ensures m1 * Pow2(s2) <= m2 * Pow2(s1)
  {
    hide Pow2;
    Pow2Strict(s2, s1);
    Pow2Next(112);
    MulMono(m1, 2 * m2, Pow2(s2));
    MulMono(2 * Pow2(s2), Pow2(s1), m2);
    assert 2 * m2 * Pow2(s2) == 2 * Pow2(s2) * m2;
  }

  /** The conversion never gets two fractions out of order. */
  lemma Monotone(n1: nat, d1: nat, n2: nat, d2: nat)
    requires n1 > 0 && d1 > 0 && n2 > 0 && d2 > 0 && n1 * d2 <= n2 * d1
    ensures FromFraction(false, n1, d1) <= FromFraction(false, n2, d2)
  {
    hide Pow2, Units, RoundsTo, In113Bits, Capped;
    var g1, m1 := FromFractionMeans(n1, d1);
    var g2, m2 := FromFractionMeans(n2, d2);
    var b1, b2 := FromFraction(false, n1, d1), FromFraction(false, n2, d2);
    hide FromFraction;
    UnitsOrder(n1, d1, n2, d2);
    ExponentOrder(n1, d1, g1, n2, d2, g2);
    if g1 == g2 {
      OrderAtExponent(n1, d1, n2, d2, g1);
      DenPositive(d1, g1);
      DenPositive(d2, g1);
      RoundsToMonotone(Num(n1, g1), Den(d1, g1), m1, Num(n2, g1), Den(d2, g1), m2);
    }
    ResultOrder(g1, m1, b1, g2, m2, b2);
  }

  /** Only the value of the fraction counts. */
  lemma SameFraction(negative: bool, n1: nat, d1: nat, n2: nat, d2: nat)
    requires n1 > 0 && d1 > 0 && n2 > 0 && d2 > 0 && n1 * d2 == n2 * d1
    ensures FromFraction(negative, n1, d1) == FromFraction(negative, n2, d2)
  {
    Monotone(n1, d1, n2, d2);
    Monotone(n2, d2, n1, d1);
    var g1, m1 := FromFractionMeans(n1, d1);
    var g2, m2 := FromFractionMeans(n2, d2);
  }

  // ---- exact values and the failing family ----

  lemma ExactMisleadsNot(v: nat, d: nat, s: nat, m: nat)
    requires d > 0
    ensures !Misleads(v * d, d, s, m)
  {
    hide Pow2, In113Bits, RoundsTo;
    if Misleads(v * d, d, s, m) {
      Commute(v, d, Pow2(s));
      RoundsToExact(v * Pow2(s), d);
      RoundsToUnique(v * d * Pow2(s), d, m, v * Pow2(s));
    }
  }

  /** A finite binary128 number is converted to itself. */
  lemma ExactIsIdentity(b: nat)
    requires 0 < b < Infinity()
    ensures Value(b) > 0 && FromFraction(false, Value(b), Pow2(LEAST_EXPONENT)) == b
  {
    hide Pow2, Value, FromFraction, Infinity;
    var v, d := Value(b), Pow2(LEAST_EXPONENT);
    ValueMonotone(0, b);
    assert Units(v) == v * d;
    NearestExactly(v, d);
    forall s: nat, m: nat ensures !Misleads(Units(v), d, s, m) {
      ExactMisleadsNot(v, d, s, m);
    }
    var c := FromFraction(false, v, d);
    assert Distance(Units(v), d, c) <= Distance(Units(v), d, b) == 0;
    MulCancelEq(Value(c), v, d);
    if c < b { ValueMonotone(c, b); }
    if b < c { ValueMonotone(b, c); }
  }

  /** A number that is not rounded correctly: (2^114 + 11) * 2^-16497 lies at 2^111 + 1.375 units. The
      first rounding takes it to 2^111 + 1.5, and the tie goes to 2^111 + 2. */
  lemma DoubleRoundingWitness()
    ensures var n, d := Pow2(114) + 11, Pow2(LEAST_EXPONENT + 3);
            DoubleRoundingHazard(n, d) && !IsNearest(Units(n), d, FromFraction(false, n, d))
  {
    hide Pow2, FromFraction, IsNearest, In113Bits, RoundsTo;
    var n, k, d := Pow2(114) + 11, Pow2(LEAST_EXPONENT), Pow2(LEAST_EXPONENT + 3);
    Pow2Next(LEAST_EXPONENT);
    Pow2Next(LEAST_EXPONENT + 1);
    Pow2Next(LEAST_EXPONENT + 2);
    assert d == 8 * k;
    Pow2Next(112);
    Pow2Next(113);
    Pow2Next(111);
    Pow2Next(110);
    Pow2Next(109);
    Pow2Zero();
    Pow2Next(0);
    var q := Pow2(111);
    WitnessFacts(q, k);
    assert Units(n) == (8 * q + 11) * k;
    assert Misleads(Units(n), d, 1, 2 * q + 3);
    NearestExactly(n, d);
  }

  lemma WitnessFacts(q: nat, k: nat)
    requires k > 0 && q % 2 == 0 && q == Pow2(111) && q > 3
    ensures var num, d, m := (8 * q + 11) * k * 2, 8 * k, 2 * q + 3;
            && In113Bits(num, d) && RoundsTo(num, d, m) && num < m * d
            && m % 2 == 1 && (m / 2) % 2 == 1
  {
    hide Pow2, RoundsTo;
    Pow2Next(111);
    Pow2Next(112);
    MulMono(4, q, k);
    Affine(8, 11, q, k);
    EightTimes(2, 0, q, k);
    EightTimes(4, 0, q, k);
    EightTimes(2, 3, q, k);
    WitnessRounds(q, k);
    assert (2 * q + 3) / 2 == q + 1;
  }

  lemma WitnessRounds(q: nat, k: nat)
    requires k > 0
    ensures RoundsTo((8 * q + 11) * k * 2, 8 * k, 2 * q + 3)
  {
    Affine(8, 11, q, k);
    EightTimes(4, 5, q, k);
    EightTimes(4, 7, q, k);
    StrictlyInside((8 * q + 11) * k * 2, 8 * k, 2 * q + 3);
  }

  lemma StrictlyInside(num: nat, d: nat, m: nat)
    requires (2 * m - 1) * d < 2 * num < (2 * m + 1) * d
    ensures RoundsTo(num, d, m)
  {
  }

  lemma EightTimes(a: int, b: int, q: int, k: int)
    ensures (a * q + b) * (8 * k) == 8 * (a * (q * k)) + 8 * b * k
  {
    Affine(a, b, q, k);
    MulAssoc(a * q + b, 8, k);
    MulCommute(a * q + b, 8);
    MulAssoc(8, a * q + b, k);
    MulAssoc(8, b, k);
  }

  lemma Affine(a: int, b: int, q: int, k: int)
    ensures (a * q + b) * k == a * (q * k) + b * k
  {
    MulAdd(a * q, b, k);
    MulAssoc(a, q, k);
  }
}
