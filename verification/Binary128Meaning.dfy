/** What the conversion of a fraction computes, stated without quotients, sticky bits and exponents. */
module Binary128Meaning {
  import opened Powers
  import opened Rounding
  import opened Binary128

  /** The fraction n/d, counted in units of the least subnormal number: Units(n)/d. */
  function Units(n: nat): nat {
    n * Pow2(LEAST_EXPONENT)
  }

  /** num/den needs exactly the 113 bits of a significand before the point. */
  predicate In113Bits(num: nat, den: nat) {
    Pow2(112) * den <= num < Pow2(113) * den
  }

  /** b is the magnitude the conversion gives: with 2^g units to the last of 113 bits, m is the value
      rounded to 113 bits. From g = 0 on that is the result, short of overflow; below, m is rounded
      once more, to whole units. */
  predicate Composed(n: nat, d: nat, g: int, m: nat, b: nat) {
    && Pow2(112) <= m <= Pow2(113)
    && (g >= 0 ==>
          && In113Bits(Units(n), d * Pow2(g)) && RoundsTo(Units(n), d * Pow2(g), m)
          && b == Capped(g, m))
    && (g < 0 ==>
          && In113Bits(Units(n) * Pow2(-g), d) && RoundsTo(Units(n) * Pow2(-g), d, m)
          && RoundsTo(m, Pow2(-g), b))
  }

  function Pattern(g: nat, m: nat): nat {
    g * Pow2(112) + m
  }

  function Capped(g: nat, m: nat): nat {
    if Pattern(g, m) >= Infinity() then Infinity() else Pattern(g, m)
  }

  lemma ScaledAtLeast(n: nat, a: nat, shift: nat, d: nat, b: nat, k: nat)
    requires a > 0 && Pow2(a - 1) <= n && d < Pow2(b) && k + b <= a - 1 + shift
    ensures Pow2(k) * d <= n * Pow2(shift)
  {
    hide Pow2;
    MulMono(d, Pow2(b), Pow2(k));
    MulCommute(Pow2(k), d);
    MulCommute(Pow2(k), Pow2(b));
    Pow2Add(k, b);
    Pow2Mono(k + b, a - 1 + shift);
    Pow2Add(a - 1, shift);
    MulMono(Pow2(a - 1), n, Pow2(shift));
  }

  lemma ScaledBelow(n: nat, a: nat, shift: nat, d: nat, b: nat, k: nat)
    requires b > 0 && n < Pow2(a) && Pow2(b - 1) <= d && a + shift == k + (b - 1)
    ensures n * Pow2(shift) < Pow2(k) * d
  {
    hide Pow2;
    MulCommute(Pow2(k), d);
    MulCommute(Pow2(k), Pow2(b - 1));
    MulStrict(n, Pow2(a), Pow2(shift));
    Pow2Add(a, shift);
    Pow2Add(k, b - 1);
    MulMono(Pow2(b - 1), d, Pow2(k));
  }

  /** The scaled numerator has at least 130 bits before the point, and at most 131 if it was shifted. */
  lemma QuotientLeads(n: nat, d: nat)
    requires n > 0 && d > 0
    ensures var shift := ScaleShift(n, d);
            && Pow2(129) * d <= n * Pow2(shift)
            && (shift > 0 ==> n * Pow2(shift) < Pow2(131) * d)
  {
    hide Pow2;
    var shift := ScaleShift(n, d);
    BitLenBounds(n);
    BitLenBounds(d);
    ScaledAtLeast(n, BitLen(n), shift, d, BitLen(d), 129);
    if shift > 0 {
      ScaledBelow(n, BitLen(n), shift, d, BitLen(d), 131);
    }
  }

  lemma Pow2Even(k: nat)
    requires k > 0
    ensures Pow2(k) % 2 == 0
  {
  }

  /** The leading bit of the sticky quotient is the leading bit of the exact one. */
  lemma SignificandLeads(n: nat, d: nat) returns (lead: nat)
    requires n > 0 && d > 0
    ensures var shift := ScaleShift(n, d);
            var scaled := n * Pow2(shift);
            && lead == BitLen(StickyQuotient(scaled, d)) - 1 && lead >= 129
            && (shift > 0 ==> lead <= 130)
            && Pow2(lead) * d <= scaled < Pow2(lead + 1) * d
  {
    hide Pow2, StickyQuotient, BitLen, ScaleShift;
    var shift := ScaleShift(n, d);
    var scaled := n * Pow2(shift);
    var v := StickyQuotient(scaled, d);
    QuotientLeads(n, d);
    Pow2Even(129);
    StickyCompares(scaled, d, Pow2(129));
    BitLenBounds(v);
    assert v >= Pow2(129);
    if BitLen(v) < 130 { Pow2Mono(BitLen(v), 129); }
    lead := BitLen(v) - 1;
    Pow2Even(lead);
    Pow2Even(lead + 1);
    StickyCompares(scaled, d, Pow2(lead));
    StickyCompares(scaled, d, Pow2(lead + 1));
    if shift > 0 && lead > 130 {
      Pow2Mono(131, lead);
      MulMono(Pow2(131), Pow2(lead), d);
    }
  }

  /** The first rounding: to 113 bits. */
  lemma FirstRounding(n: nat, d: nat) returns (drop: nat, m: nat)
    requires n > 0 && d > 0
    ensures var shift := ScaleShift(n, d);
            var scaled := n * Pow2(shift);
            var v := StickyQuotient(scaled, d);
            && v > 0 && drop >= 17 && (shift > 0 ==> drop <= 18)
            && In113Bits(scaled, d * Pow2(drop)) && RoundsTo(scaled, d * Pow2(drop), m)
            && Pow2(112) <= m <= Pow2(113)
            && Normalized(v, -(shift as int)).0 == (if m == Pow2(113) then Pow2(112) else m)
            && Normalized(v, -(shift as int)).1 == drop - shift + (if m == Pow2(113) then 1 else 0)
  {
    hide Pow2, StickyQuotient, BitLen, ScaleShift, ShiftRound, RoundsTo;
    var shift := ScaleShift(n, d);
    var scaled := n * Pow2(shift);
    var v := StickyQuotient(scaled, d);
    var lead := SignificandLeads(n, d);
    drop := lead - 112;
    m := ShiftRound(v, drop).0;
    ShiftRoundMeans(v, drop);
    StickyRounds(scaled, d, drop, m);
    var den := d * Pow2(drop);
    MulStrict(0, d, Pow2(drop));
    BinadeOf(lead, d, drop);
    RoundsToWithin(scaled, den, m, Pow2(112), Pow2(113));
    BitLenOfRounded(m);
  }

  lemma BinadeOf(lead: nat, d: nat, drop: nat)
    requires lead == 112 + drop
    ensures Pow2(lead) * d == Pow2(112) * (d * Pow2(drop))
    ensures Pow2(lead + 1) * d == Pow2(113) * (d * Pow2(drop))
  {
    hide Pow2;
    Pow2Add(112, drop);
    Pow2Add(113, drop);
    var p := Pow2(drop);
    MulAssoc(Pow2(112), p, d);
    MulAssoc(Pow2(113), p, d);
    assert p * d == d * p;
  }

  lemma BitLenOfRounded(m: nat)
    requires Pow2(112) <= m <= Pow2(113)
    ensures BitLen(m) - 1 > 112 <==> m == Pow2(113)
    ensures m == Pow2(113) ==> m / 2 == Pow2(112)
  {
    if m == Pow2(113) {
      BitLenUnique(m, 113);
    } else {
      BitLenUnique(m, 112);
    }
  }

  lemma In113BitsRatio(n1: nat, d1: nat, n2: nat, d2: nat)
    requires d1 > 0 && d2 > 0 && n1 * d2 == n2 * d1 && In113Bits(n1, d1)
    ensures In113Bits(n2, d2)
  {
    hide Pow2;
    RatioCompare(2 * Pow2(112), n1, d1, n2, d2);
    RatioCompare(2 * Pow2(113), n1, d1, n2, d2);
  }

  /** The same fraction, scaled by powers of two on either side. */
  lemma ScaledRatio(n: nat, d: nat, shift: nat, drop: nat, up: nat, down: nat)
    requires shift + down == up + drop
    ensures (n * Pow2(shift)) * (d * Pow2(down)) == (n * Pow2(up)) * (d * Pow2(drop))
  {
    hide Pow2;
    MulFour(n, Pow2(shift), d, Pow2(down));
    MulFour(n, Pow2(up), d, Pow2(drop));
    Pow2Add(shift, down);
    Pow2Add(up, drop);
  }

  /** The first rounding, told in units. */
  lemma FirstRoundingInUnits(n: nat, d: nat, shift: nat, drop: nat, m: nat)
    requires d > 0
    requires In113Bits(n * Pow2(shift), d * Pow2(drop)) && RoundsTo(n * Pow2(shift), d * Pow2(drop), m)
    ensures var g := LEAST_EXPONENT + drop - shift;
            if g >= 0 then In113Bits(Units(n), d * Pow2(g)) && RoundsTo(Units(n), d * Pow2(g), m)
            else In113Bits(Units(n) * Pow2(-g), d) && RoundsTo(Units(n) * Pow2(-g), d, m)
  {
    hide Pow2, RoundsTo, In113Bits;
    var g := LEAST_EXPONENT + drop - shift;
    MulStrict(0, d, Pow2(drop));
    if g >= 0 {
      ScaledRatio(n, d, shift, drop, LEAST_EXPONENT, g);
      MulStrict(0, d, Pow2(g));
      In113BitsRatio(n * Pow2(shift), d * Pow2(drop), Units(n), d * Pow2(g));
      RoundsToRatio(n * Pow2(shift), d * Pow2(drop), Units(n), d * Pow2(g), m);
    } else {
      ScaledRatio(n, d, shift, drop, LEAST_EXPONENT - g, 0);
      Pow2Add(LEAST_EXPONENT, -g);
      MulAssoc(n, Pow2(LEAST_EXPONENT), Pow2(-g));
      assert Pow2(0) == 1 by { Pow2Zero(); }
      In113BitsRatio(n * Pow2(shift), d * Pow2(drop), Units(n) * Pow2(-g), d);
      RoundsToRatio(n * Pow2(shift), d * Pow2(drop), Units(n) * Pow2(-g), d, m);
    }
  }

  lemma Pow2Zero()
    ensures Pow2(0) == 1
  {
  }

  /** Putting the parts together above the subnormal range. */
  lemma PackedMeans(g: nat, m: nat)
    requires Pow2(112) <= m <= Pow2(113)
    ensures var carry := if m == Pow2(113) then 1 else 0;
            var value := if m == Pow2(113) then Pow2(112) else m;
            if g + 1 + carry >= EXPONENT_MAX then Capped(g, m) == Infinity()
            else Packed(g + 1 + carry, value) == Capped(g, m)
  {
    var p := Pow2(112);
    assert Pow2(113) == 2 * p;
    var gp := g * p;
    assert (g + 1) * p == gp + p && (g + 2) * p == gp + 2 * p;
    if m == Pow2(113) {
      assert p % p == 0;
      CompareWithInfinity(g + 2, 0);
    } else {
      assert m % p == m - p by { assert m == p + (m - p); RemainderOf(p, m - p); }
      CompareWithInfinity(g + 1, m - p);
    }
  }

  lemma RemainderOf(p: nat, r: nat)
    requires r < p
    ensures (p + r) % p == r
  {
  }

  lemma CompareWithInfinity(e: nat, r: nat)
    requires r < Pow2(112)
    ensures e * Pow2(112) + r >= Infinity() <==> e >= EXPONENT_MAX
  {
    var p := Pow2(112);
    if e >= EXPONENT_MAX {
      MulMono(EXPONENT_MAX, e, p);
    } else {
      MulMono(e + 1, EXPONENT_MAX, p);
      assert (e + 1) * p == e * p + p;
    }
  }

  /** The second rounding, with or without the carry of the first. */
  lemma SecondRounding(s: nat, m: nat)
    requires s > 0 && Pow2(112) <= m <= Pow2(113)
    ensures var carry := if m == Pow2(113) then 1 else 0;
            var value := if m == Pow2(113) then Pow2(112) else m;
            if s - carry > 0 then RoundsTo(m, Pow2(s), ShiftRound(value, s - carry).0)
            else RoundsTo(m, Pow2(s), Packed(1, value))
  {
    hide RoundsTo, ShiftRound;
    var p := Pow2(112);
    if m != Pow2(113) {
      ShiftRoundMeans(m, s);
    } else if s == 1 {
      assert RoundsTo(p, 1, p) by { RoundsToExact(p, 1); }
      RoundsToDoubled(p, 1, p);
      assert p % p == 0;
    } else {
      ShiftRoundMeans(p, s - 1);
      RoundsToDoubled(p, Pow2(s - 1), ShiftRound(p, s - 1).0);
    }
  }

  lemma RoundsToDoubled(num: nat, den: nat, r: nat)
    requires den > 0 && RoundsTo(num, den, r)
    ensures RoundsTo(2 * num, 2 * den, r)
  {
    hide RoundsTo;
    assert num * (2 * den) == (2 * num) * den;
    RoundsToRatio(num, den, 2 * num, 2 * den, r);
  }

  /** Far below the least subnormal number everything rounds to zero. */
  lemma NegligibleIsZero(s: nat, m: nat)
    requires s >= 115 && m <= Pow2(113)
    ensures RoundsTo(m, Pow2(s), 0)
  {
    Pow2Mono(115, s);
  }

  lemma FromFractionMeans(n: nat, d: nat) returns (g: int, m: nat)
    requires n > 0 && d > 0
    ensures Composed(n, d, g, m, FromFraction(false, n, d))
    ensures FromFraction(true, n, d) == SignMask() + FromFraction(false, n, d)
  {
    hide Pow2, RoundsTo, In113Bits, Packed, ShiftRound, Normalized, Capped;
    var shift := ScaleShift(n, d);
    var drop;
    drop, m := FirstRounding(n, d);
    FirstRoundingInUnits(n, d, shift, drop, m);
    g := LEAST_EXPONENT + drop - shift;
    if g >= 0 {
      PackedMeans(g, m);
    } else {
      SecondRounding(-g, m);
      if shift > FRACTION_BITS + 1 + EXPONENT_BIAS + 200 {
        NegligibleIsZero(-g, m);
      }
    }
  }
}
