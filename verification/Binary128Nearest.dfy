/** The conversion of fractions rounds correctly, exactly where it does, and never out of order. */
module Binary128Nearest {
  import opened Powers
  import opened Rounding
  import opened Binary128
  import opened Binary128Meaning

  /** The value of a magnitude pattern in units of the least subnormal number. Infinity counts as the
      number that would come after the largest finite one, as IEEE 754-2008 section 4.3.1 has it. */
  function Value(b: nat): nat {
    if ExponentField(b) == 0 then b
    else Significand(b) * Pow2(ExponentField(b) - 1)
  }

  function ExponentField(b: nat): nat {
    QuotientNatural(b, Pow2(112));
    b / Pow2(112)
  }

  lemma QuotientNatural(b: nat, p: nat)
    requires p > 0
    ensures b / p >= 0
  {
  }

  function Significand(b: nat): nat
  {
    Pow2(112) + b % Pow2(112)
  }

  function Distance(num: nat, den: nat, b: nat): nat {
    var v := Value(b) * den;
    if num >= v then num - v else v - num
  }

  /** No pattern is nearer to num/den than b, and b is even if another is as near. */
  ghost predicate IsNearest(num: nat, den: nat, b: nat) {
    && b <= Infinity()
    && forall c: nat :: c <= Infinity() ==>
         && Distance(num, den, b) <= Distance(num, den, c)
         && (Distance(num, den, b) == Distance(num, den, c) && c != b ==> b % 2 == 0)
  }

  lemma PatternFields(g: nat, m: nat)
    requires Pow2(112) <= m < 2 * Pow2(112)
    ensures ExponentField(Pattern(g, m)) == g + 1 && Significand(Pattern(g, m)) == m
  {
    hide Pow2;
    var p := Pow2(112);
    MulAdd(g, 1, p);
    DivModUnique(p, g + 1, m - p);
    MulMono(0, g, p);
  }

  lemma ValueOfPattern(g: nat, m: nat)
    requires Pow2(112) <= m <= Pow2(113)
    ensures Value(Pattern(g, m)) == m * Pow2(g)
  {
    hide Pow2, ExponentField, Significand;
    var p := Pow2(112);
    Pow2Next(112);
    Pow2Next(g);
    if m < 2 * p {
      PatternFields(g, m);
    } else {
      MulAdd(g, 1, p);
      assert Pattern(g, m) == Pattern(g + 1, p);
      PatternFields(g + 1, p);
      MulAssoc(p, 2, Pow2(g));
    }
  }

  /** Every pattern from the smallest normal number on is of this form. */
  lemma PatternOf(b: nat) returns (g: nat, m: nat)
    requires Pow2(112) <= b
    ensures Pow2(112) <= m < 2 * Pow2(112) && b == Pattern(g, m)
  {
    hide Pow2;
    var p := Pow2(112);
    var q := b / p;
    assert b == q * p + b % p;
    assert 0 * p == 0;
    g, m := q - 1, p + b % p;
    MulAdd(g, 1, p);
  }

  lemma SubnormalField(b: nat)
    ensures ExponentField(b) == 0 <==> b < Pow2(112)
  {
    var p := Pow2(112);
    assert b == (b / p) * p + b % p;
    assert 0 * p == 0;
    if b / p >= 1 { MulMono(1, b / p, p); }
  }

  lemma NormalStep(b: nat)
    requires b >= Pow2(112)
    ensures Value(b) < Value(b + 1)
  {
    hide Pow2, Value;
    Pow2Next(112);
    var g, m := PatternOf(b);
    assert b + 1 == Pattern(g, m + 1);
    ValueOfPattern(g, m);
    ValueOfPattern(g, m + 1);
    MulStrict(m, m + 1, Pow2(g));
  }

  lemma SubnormalValue(b: nat)
    requires b <= Pow2(112)
    ensures Value(b) == b
  {
    hide Pow2, ExponentField, Significand;
    SubnormalField(b);
    if b == Pow2(112) {
      Pow2Next(112);
      ValueOfPattern(0, b);
      Pow2Zero();
    }
  }

  lemma ValueStep(b: nat)
    ensures Value(b) < Value(b + 1)
  {
    hide Pow2, Value;
    if b < Pow2(112) {
      SubnormalValue(b);
      SubnormalValue(b + 1);
    } else {
      NormalStep(b);
    }
  }

  lemma {:induction false} ValueMonotone(b: nat, c: nat)
    requires b <= c
    ensures Value(b) <= Value(c) && (b < c ==> Value(b) < Value(c))
    decreases c
  {
    if b < c {
      ValueMonotone(b, c - 1);
      ValueStep(c - 1);
    }
  }

  /** b is on the right side of the midpoint to a neighbour above or below. */
  predicate AtMostMidpoint(num: nat, den: nat, b: nat, c: nat) {
    2 * num <= Value(b) * den + Value(c) * den && (2 * num == Value(b) * den + Value(c) * den ==> b % 2 == 0)
  }

  predicate AtLeastMidpoint(num: nat, den: nat, b: nat, c: nat) {
    2 * num >= Value(b) * den + Value(c) * den && (2 * num == Value(b) * den + Value(c) * den ==> b % 2 == 0)
  }

  lemma CloserThanAbove(num: nat, den: nat, b: nat, c: nat)
    requires den > 0 && b < c && AtMostMidpoint(num, den, b, b + 1)
    ensures Distance(num, den, b) <= Distance(num, den, c)
    ensures Distance(num, den, b) == Distance(num, den, c) ==> b % 2 == 0
  {
    hide Value;
    ValueMonotone(b + 1, c);
    ValueMonotone(b, c);
    var vb, v1, vc := Value(b) * den, Value(b + 1) * den, Value(c) * den;
    MulMono(Value(b + 1), Value(c), den);
    MulStrict(Value(b), Value(c), den);
  }

  lemma CloserThanBelow(num: nat, den: nat, b: nat, c: nat)
    requires den > 0 && c < b && AtLeastMidpoint(num, den, b, b - 1)
    ensures Distance(num, den, b) <= Distance(num, den, c)
    ensures Distance(num, den, b) == Distance(num, den, c) ==> b % 2 == 0
  {
    hide Value;
    ValueMonotone(c, b - 1);
    ValueMonotone(c, b);
    var vb, v1, vc := Value(b) * den, Value(b - 1) * den, Value(c) * den;
    MulMono(Value(c), Value(b - 1), den);
    MulStrict(Value(c), Value(b), den);
  }

  /** Being on the right side of both midpoints is being nearest. */
  lemma LocalIsGlobal(num: nat, den: nat, b: nat)
    requires den > 0 && b <= Infinity()
    requires b > 0 ==> AtLeastMidpoint(num, den, b, b - 1)
    requires b < Infinity() ==> AtMostMidpoint(num, den, b, b + 1)
    ensures IsNearest(num, den, b)
  {
    forall c: nat | c <= Infinity()
      ensures Distance(num, den, b) <= Distance(num, den, c)
      ensures Distance(num, den, b) == Distance(num, den, c) && c != b ==> b % 2 == 0
    {
      if c > b { CloserThanAbove(num, den, b, c); }
      if c < b { CloserThanBelow(num, den, b, c); }
    }
  }

  // ---- from the smallest normal number on ----

  /** Without overflow the neighbours of a rounded significand are at least half a place away. */
  lemma PlaceIsMidpoint(num: nat, d: nat, g: nat, m: nat)
    requires d > 0 && Pow2(112) <= m <= Pow2(113)
    requires In113Bits(num, d * Pow2(g)) && RoundsTo(num, d * Pow2(g), m)
    ensures AtMostMidpoint(num, d, Pattern(g, m), Pattern(g, m) + 1)
    ensures Pattern(g, m) > 0 && AtLeastMidpoint(num, d, Pattern(g, m), Pattern(g, m) - 1)
  {
    PlaceAbove(num, d, g, m);
    PlaceBelow(num, d, g, m);
  }

  lemma EvenPlus(g: nat, p: nat, h: nat, m: nat)
    requires p == 2 * h
    ensures (g * p + m) % 2 == m % 2
  {
    assert g * p == 2 * (g * h);
  }

  lemma PatternParity(g: nat, m: nat)
    ensures Pattern(g, m) % 2 == m % 2
  {
    hide Pow2;
    Pow2Next(111);
    EvenPlus(g, Pow2(112), Pow2(111), m);
  }

  lemma ScaledValue(g: nat, m: nat, d: nat)
    requires Pow2(112) <= m <= Pow2(113)
    ensures Value(Pattern(g, m)) * d == m * (d * Pow2(g))
  {
    hide Pow2, Value;
    ValueOfPattern(g, m);
    MulAssoc(m, Pow2(g), d);
    assert Pow2(g) * d == d * Pow2(g);
  }

  lemma Between(m: int, k: int)
    ensures (2 * m + 1) * k == m * k + (m + 1) * k
    ensures (2 * m - 1) * k == m * k + (m - 1) * k
  {
  }

  /** The pattern after 2^113 at exponent g is two places up. */
  lemma ScaledAfterCarry(g: nat, d: nat)
    ensures var p := Pow2(112);
            Value(Pattern(g, 2 * p) + 1) * d == (2 * (p + 1)) * (d * Pow2(g))
  {
    hide Pow2, Value, Pattern;
    var p, k := Pow2(112), Pow2(g);
    Pow2Next(112);
    Pow2Next(g);
    NextPattern(g, p);
    ScaledValue(g + 1, p + 1, d);
    Doubling(p + 1, d, k, Pow2(g + 1));
  }

  lemma Doubling(a: int, d: int, k: int, k2: int)
    requires k2 == 2 * k
    ensures a * (d * k2) == (2 * a) * (d * k)
  {
    assert d * k2 == 2 * (d * k);
    MulAssoc(a, 2, d * k);
  }

  lemma ProductMono(a: nat, d: nat, x: nat, y: nat)
    requires x <= y
    ensures a * (d * x) <= a * (d * y)
  {
    MulMono(x, y, d);
    MulMono(d * x, d * y, a);
  }

  lemma NextPattern(g: nat, p: nat)
    requires p == Pow2(112)
    ensures Pattern(g, 2 * p) + 1 == Pattern(g + 1, p + 1)
  {
    hide Pow2;
    MulAdd(g, 1, p);
  }

  lemma PlaceAbove(num: nat, d: nat, g: nat, m: nat)
    requires d > 0 && Pow2(112) <= m <= Pow2(113) && RoundsTo(num, d * Pow2(g), m)
    ensures AtMostMidpoint(num, d, Pattern(g, m), Pattern(g, m) + 1)
  {
    hide Pow2, Value;
    var p, place := Pow2(112), d * Pow2(g);
    Pow2Next(112);
    MulStrict(0, d, Pow2(g));
    PatternParity(g, m);
    ScaledValue(g, m, d);
    Between(m, place);
    if m < 2 * p {
      assert Pattern(g, m) + 1 == Pattern(g, m + 1);
      ScaledValue(g, m + 1, d);
    } else {
      ScaledAfterCarry(g, d);
      MulStrict(m + 1, 2 * (p + 1), place);
    }
  }

  lemma PlaceBelow(num: nat, d: nat, g: nat, m: nat)
    requires d > 0 && Pow2(112) <= m <= Pow2(113)
    requires In113Bits(num, d * Pow2(g)) && RoundsTo(num, d * Pow2(g), m)
    ensures Pattern(g, m) > 0 && AtLeastMidpoint(num, d, Pattern(g, m), Pattern(g, m) - 1)
  {
    hide Pow2, Value;
    var p := Pow2(112);
    var b := Pattern(g, m);
    Pow2Next(112);
    MulMono(0, g, p);
    PatternParity(g, m);
    ScaledValue(g, m, d);
    if m > p {
      assert b - 1 == Pattern(g, m - 1);
      ScaledValue(g, m - 1, d);
      Between(m, d * Pow2(g));
    } else {
      NotBelowPattern(num, d, b);
    }
  }

  /** A number at or above a pattern is past the midpoint below it. */
  lemma NotBelowPattern(num: nat, d: nat, b: nat)
    requires d > 0 && b > 0 && Value(b) * d <= num
    ensures AtLeastMidpoint(num, d, b, b - 1)
  {
    hide Value;
    ValueMonotone(b - 1, b);
    MulStrict(Value(b - 1), Value(b), d);
  }

  /** Overflow is past the midpoint of the largest finite number and the next. */
  lemma OverflowIsNearest(num: nat, d: nat, g: nat, m: nat)
    requires d > 0 && Pow2(112) <= m <= Pow2(113)
    requires In113Bits(num, d * Pow2(g)) && RoundsTo(num, d * Pow2(g), m)
    requires Pattern(g, m) >= Infinity()
    ensures IsNearest(num, d, Infinity())
  {
    hide Pow2, Value, Infinity, Pattern, In113Bits, RoundsTo;
    InfinityPattern();
    OverflowExponent(g, m);
    if g == EXPONENT_MAX - 2 {
      PlaceBelow(num, d, g, m);
    } else {
      BeyondInfinity(num, d, g);
    }
    LocalIsGlobal(num, d, Infinity());
  }

  lemma OverflowExponent(g: nat, m: nat)
    requires m <= Pow2(113) && Pattern(g, m) >= Infinity()
    ensures g >= EXPONENT_MAX - 2
    ensures g == EXPONENT_MAX - 2 ==> m == Pow2(113)
  {
    var p := Pow2(112);
    hide Pow2;
    Pow2Next(112);
    if g <= EXPONENT_MAX - 3 {
      MulMono(g, EXPONENT_MAX - 3, p);
    }
  }

  lemma InfinityPattern()
    ensures Infinity() == Pattern(EXPONENT_MAX - 2, Pow2(113)) && Infinity() % 2 == 0 && Infinity() > 0
  {
    hide Pow2;
    Pow2Next(112);
    PatternParity(EXPONENT_MAX - 2, Pow2(113));
  }

  lemma BeyondInfinity(num: nat, d: nat, g: nat)
    requires d > 0 && g > EXPONENT_MAX - 2 && In113Bits(num, d * Pow2(g))
    ensures Infinity() > 0 && AtLeastMidpoint(num, d, Infinity(), Infinity() - 1)
  {
    var p := Pow2(112);
    var top := EXPONENT_MAX - 2;
    hide Pow2, Value, Infinity, Pattern;
    Pow2Next(112);
    Pow2Next(top);
    InfinityPattern();
    ScaledValue(top, 2 * p, d);
    Doubling(p, d, Pow2(top), Pow2(top + 1));
    Pow2Mono(top + 1, g);
    ProductMono(p, d, Pow2(top + 1), Pow2(g));
    NotBelowPattern(num, d, Infinity());
  }

  lemma NormalIsNearest(n: nat, d: nat, g: nat, m: nat, b: nat)
    requires d > 0 && Composed(n, d, g, m, b)
    ensures IsNearest(Units(n), d, b)
  {
    hide Pow2, Value, Infinity, In113Bits, RoundsTo, Units;
    if Pattern(g, m) >= Infinity() {
      OverflowIsNearest(Units(n), d, g, m);
    } else {
      PlaceIsMidpoint(Units(n), d, g, m);
      LocalIsGlobal(Units(n), d, b);
    }
  }

  // ---- below the smallest normal number ----

  lemma SubnormalAbove()
    ensures Value(Pow2(112) + 1) == Pow2(112) + 1
  {
    hide Pow2, Value;
    Pow2Next(112);
    Pow2Zero();
    ValueOfPattern(0, Pow2(112) + 1);
  }

  /** Among whole units, nearest is nearest integer. */
  lemma NearestIsRounded(num: nat, d: nat, b: nat)
    requires d > 0 && b <= Pow2(112) && num < (b + 1) * d && (b > 0 ==> (b - 1) * d < num)
    ensures IsNearest(num, d, b) <==> RoundsTo(num, d, b)
  {
    hide Pow2, Value;
    SubnormalValue(b);
    if b < Pow2(112) { SubnormalValue(b + 1); } else { SubnormalAbove(); }
    if b > 0 { SubnormalValue(b - 1); }
    Between(b, d);
    BelowInfinity(b);
    if RoundsTo(num, d, b) {
      LocalIsGlobal(num, d, b);
    }
    if IsNearest(num, d, b) {
      assert Distance(num, d, b) <= Distance(num, d, b + 1);
      if b > 0 {
        assert Distance(num, d, b) <= Distance(num, d, b - 1);
      }
    }
  }

  lemma BelowInfinity(b: nat)
    requires b <= Pow2(112)
    ensures b + 1 <= Infinity()
  {
    hide Pow2;
  }

  /** Rounding twice stays within one unit: the result is one of the two neighbours. */
  lemma RoundedTwiceIsNeighbour(num: nat, d: nat, s: nat, m: nat, b: nat)
    requires d > 0 && s > 0 && RoundsTo(num * Pow2(s), d, m) && RoundsTo(m, Pow2(s), b)
    ensures num < (b + 1) * d && (b > 0 ==> (b - 1) * d < num)
  {
    var p := Pow2(s);
    assert p >= 2;
    hide Pow2;
    TwiceAbove(num, d, p, m, b);
    if b > 0 { TwiceBelow(num, d, p, m, b); }
  }

  lemma TwiceAbove(num: nat, d: nat, p: nat, m: nat, b: nat)
    requires d > 0 && p >= 2 && 2 * (num * p) <= (2 * m + 1) * d && 2 * m <= (2 * b + 1) * p
    ensures num < (b + 1) * d
  {
    MulMono(2 * m + 1, (2 * b + 1) * p + 1, d);
    MulStrict((2 * b + 1) * p + 1, (2 * b + 2) * p, d) by { assert (2 * b + 2) * p == (2 * b + 1) * p + p; }
    assert (2 * b + 2) * p * d == 2 * ((b + 1) * d * p) by { Regroup(b + 1, p, d); }
    if (b + 1) * d <= num { MulMono((b + 1) * d, num, p); }
  }

  lemma Regroup(a: int, p: int, d: int)
    ensures (2 * a) * p * d == 2 * (a * d * p)
  {
  }

  lemma TwiceBelow(num: nat, d: nat, p: nat, m: nat, b: nat)
    requires d > 0 && p >= 2 && b > 0 && (2 * m - 1) * d <= 2 * (num * p) && (2 * b - 1) * p <= 2 * m
    ensures (b - 1) * d < num
  {
    MulMono((2 * b - 1) * p - 1, 2 * m - 1, d);
    MulStrict((2 * b - 2) * p, (2 * b - 1) * p - 1, d) by { assert (2 * b - 2) * p == (2 * b - 1) * p - p; }
    assert (2 * b - 2) * p * d == 2 * ((b - 1) * d * p) by { Regroup(b - 1, p, d); }
    if num <= (b - 1) * d { MulMono(num, (b - 1) * d, p); }
  }

  /** The input for which rounding twice goes wrong: rounded to 113 bits it falls on the middle between
      two subnormal numbers, without being the middle, and the tie then breaks to the other side. */
  predicate Misleads(num: nat, d: nat, s: nat, m: nat) {
    && s > 0 && In113Bits(num * Pow2(s), d) && RoundsTo(num * Pow2(s), d, m)
    && m % Pow2(s) == Pow2(s - 1)
    && var even := (m / Pow2(s)) % 2 == 0;
       if even then num * Pow2(s) > m * d else num * Pow2(s) < m * d
  }

  ghost predicate DoubleRoundingHazard(n: nat, d: nat) {
    exists s: nat, m: nat :: Misleads(Units(n), d, s, m)
  }

  /** Where the first rounding lies decides where the exact value lies, except on the threshold itself. */
  lemma Threshold(num: nat, d: nat, p: nat, h: nat, m: nat, c: int)
    requires d > 0 && h > 0 && p == 2 * h && RoundsTo(num * p, d, m)
    ensures m < c * h ==> 2 * num < c * d
    ensures m > c * h ==> 2 * num > c * d
    ensures m == c * h ==> (2 * num < c * d <==> num * p < m * d) && (2 * num > c * d <==> num * p > m * d)
  {
    RoundedSide(num * p, d, m, c * h);
    Rescale(num, d, p, h, c);
    CompareScaled(2 * num, c * d, h);
  }

  lemma RoundedSide(x: nat, d: nat, m: nat, t: int)
    requires d > 0 && RoundsTo(x, d, m)
    ensures m < t ==> x < t * d
    ensures m > t ==> x > t * d
  {
    Between(m, d);
    if m < t { MulMono(m + 1, t, d); }
    if m > t { MulMono(t, m - 1, d); }
  }

  lemma Rescale(num: nat, d: nat, p: nat, h: nat, c: int)
    requires p == 2 * h
    ensures num * p == 2 * num * h && c * h * d == c * d * h
  {
    MulAssoc(num, 2, h);
    MulAssoc(c, h, d);
    MulAssoc(c, d, h);
    assert h * d == d * h;
  }

  lemma CompareScaled(a: int, b: int, k: int)
    requires k > 0
    ensures a < b <==> a * k < b * k
    ensures a > b <==> a * k > b * k
  {
    if a < b { MulStrict(a, b, k); }
    if a > b { MulStrict(b, a, k); }
  }

  /** m is a middle exactly at an odd multiple of half a unit. */
  lemma MiddleMeans(m: nat, p: nat, h: nat, j: nat)
    requires h > 0 && p == 2 * h
    ensures m == (2 * j + 1) * h ==> m % p == h && m / p == j
    ensures m % p == h ==> m == (2 * (m / p) + 1) * h
  {
    if m == (2 * j + 1) * h {
      OddHalves(j, p, h);
      DivModUnique(p, j, h);
    }
    if m % p == h {
      OddHalves(m / p, p, h);
      Quotient(m, p);
    }
  }

  lemma OddHalves(j: nat, p: nat, h: nat)
    requires p == 2 * h
    ensures (2 * j + 1) * h == j * p + h
  {
    MulAdd(2 * j, 1, h);
    MulAssoc(j, 2, h);
    MulCommute(2, j);
  }

  /** Rounding m = num*p/d off to units gives num/d rounded, unless m misleads. */
  lemma RoundTwice(num: nat, d: nat, p: nat, h: nat, m: nat, b: nat)
    requires d > 0 && h > 0 && p == 2 * h && RoundsTo(num * p, d, m) && RoundsTo(m, p, b)
    ensures RoundsTo(num, d, b) <==>
            !(m % p == h && if (m / p) % 2 == 0 then num * p > m * d else num * p < m * d)
  {
    Threshold(num, d, p, h, m, 2 * b + 1);
    Threshold(num, d, p, h, m, 2 * b - 1);
    Thresholds(m, p, h, b);
  }

  /** The second rounding in terms of halves: b is the unit between (2b-1)h and (2b+1)h. */
  lemma Thresholds(m: nat, p: nat, h: nat, b: nat)
    requires h > 0 && p == 2 * h && RoundsTo(m, p, b)
    ensures (2 * b - 1) * h <= m <= (2 * b + 1) * h
    ensures m == (2 * b + 1) * h ==> m % p == h && m / p == b && b % 2 == 0
    ensures m == (2 * b - 1) * h ==> m % p == h && m / p == b - 1 && b % 2 == 0
    ensures (2 * b - 1) * h < m < (2 * b + 1) * h ==> m % p != h
  {
    assert (2 * b + 1) * p == 2 * ((2 * b + 1) * h);
    assert (2 * b - 1) * p == 2 * ((2 * b - 1) * h);
    MiddleMeans(m, p, h, b);
    if b > 0 {
      MiddleMeans(m, p, h, b - 1);
      assert 2 * (b - 1) + 1 == 2 * b - 1;
    }
    if m % p == h && (2 * b - 1) * h < m < (2 * b + 1) * h {
      var c := 2 * (m / p) + 1;
      if c <= 2 * b - 1 { MulMono(c, 2 * b - 1, h); }
      if c >= 2 * b + 1 { MulMono(2 * b + 1, c, h); }
    }
  }
}
