/**
 The conversion of an exact fraction to IEEE 754 binary128: one sign bit, fifteen
 exponent bits biased by 16383, and 112 stored fraction bits. A pattern is the
 number its 128 bits spell.
 */
module Binary128 {
  import opened Powers
  import opened Rounding

  const FRACTION_BITS := 112
  const EXPONENT_BIAS := 16383
  const EXPONENT_MAX := 0x7FFF
  const WANTED := 130

  /** The weight of a pattern's last bit below the smallest normal number is 2^-LEAST_EXPONENT. */
  const LEAST_EXPONENT := EXPONENT_BIAS + FRACTION_BITS - 1

  function SignMask(): nat { Pow2(127) }

  function Infinity(): nat { EXPONENT_MAX * Pow2(FRACTION_BITS) }

  function Sign(negative: bool): nat {
    if negative then SignMask() else 0
  }

  /** The integer nearest to value / 2^shift, the even one of two, and whether the quotient had a remainder. */
  function ShiftRound(value: nat, shift: int): (nat, bool) {
    if shift <= 0 then (value, false)
    else
      var kept := value / Pow2(shift);
      var dropped := value % Pow2(shift);
      if dropped == 0 then (kept, false)
      else
        var half := Pow2(shift - 1);
        if dropped > half || (dropped == half && kept % 2 == 1) then (kept + 1, true) else (kept, true)
  }

  /** The pattern of a significand and a binary exponent. The parts of a pattern share no bits, so
      their union is their sum. */
  function Compose(negative: bool, significand: nat, exponent: int): (nat, bool) {
    if significand == 0 then (Sign(negative), false)
    else if exponent > EXPONENT_MAX then (Sign(negative) + Infinity(), true)
    else if exponent < -(FRACTION_BITS + 1 + EXPONENT_BIAS + 200) then (Sign(negative), true)
    else
      var (value, exponent1, lost) := Normalized(significand, exponent);
      var biased := exponent1 + EXPONENT_BIAS + FRACTION_BITS;
      if biased >= EXPONENT_MAX then (Sign(negative) + Infinity(), true)
      else if biased <= 0 then
        // A fraction that rounds up to 2^112 is the smallest normal number on its own.
        var (rounded, dropped) := ShiftRound(value, 1 - biased);
        (Sign(negative) + rounded, lost || dropped)
      else (Sign(negative) + Packed(biased, value), lost)
  }

  /** The exponent field above the fraction field. */
  function Packed(biased: nat, value: nat): nat {
    biased * Pow2(FRACTION_BITS) + value % Pow2(FRACTION_BITS)
  }

  /** The significand brought to 113 bits, with the exponent that goes with it. */
  function Normalized(significand: nat, exponent: int): (nat, int, bool) {
    var leading := BitLen(significand) - 1;
    if leading > FRACTION_BITS then
      var drop := leading - FRACTION_BITS;
      var (value, lost) := ShiftRound(significand, drop);
      if BitLen(value) - 1 > FRACTION_BITS then (value / 2, exponent + drop + 1, lost)
      else (value, exponent + drop, lost)
    else
      var shift := FRACTION_BITS - leading;
      (significand * Pow2(shift), exponent - shift, false)
  }

  /** How far the numerator is shifted so that the quotient has bits to spare. */
  function ScaleShift(numerator: nat, denominator: nat): nat {
    var shift := WANTED - (BitLen(numerator) - BitLen(denominator));
    if shift < 0 then 0 else shift
  }

  /** The scaled quotient with everything discarded folded into its last bit. */
  function StickyQuotient(scaled: nat, denominator: nat): nat
    requires denominator > 0
  {
    var quotient, remainder := scaled / denominator, scaled % denominator;
    if remainder != 0 && quotient % 2 == 0 then quotient + 1 else quotient
  }

  function FromFraction(negative: bool, numerator: nat, denominator: nat): nat
    requires denominator > 0
  {
    var shift := ScaleShift(numerator, denominator);
    Compose(negative, StickyQuotient(numerator * Pow2(shift), denominator), -(shift as int)).0
  }

  // ---- what the pieces compute ----

  lemma ShiftRoundMeans(value: nat, shift: nat)
    requires shift > 0
    ensures RoundsTo(value, Pow2(shift), ShiftRound(value, shift).0)
    ensures ShiftRound(value, shift).1 <==> value % Pow2(shift) != 0
  {
    HalfRounds(value, Pow2(shift), Pow2(shift - 1));
  }

  lemma HalfRounds(value: nat, p: nat, half: nat)
    requires p == 2 * half > 0
    ensures var kept, dropped := value / p, value % p;
            var up := dropped > half || (dropped == half && kept % 2 == 1);
            RoundsTo(value, p, if up then kept + 1 else kept)
  {
    var kept, dropped := value / p, value % p;
    var kp := kept * p;
    assert value == kp + dropped;
    Spread(kept, p);
    Spread(kept + 1, p);
    assert (kept + 1) * p == kp + p;
  }

  lemma Spread(r: int, p: int)
    ensures (2 * r - 1) * p == 2 * (r * p) - p && (2 * r + 1) * p == 2 * (r * p) + p
  {
  }

  /** An even threshold compares with the sticky quotient as with the exact one. */
  lemma StickyCompares(scaled: nat, d: nat, t: int)
    requires d > 0 && t % 2 == 0
    ensures t < StickyQuotient(scaled, d) <==> t * d < scaled
    ensures t > StickyQuotient(scaled, d) <==> t * d > scaled
  {
    var q := scaled / d;
    var v := StickyQuotient(scaled, d);
    assert scaled == q * d + scaled % d;
    if t <= q {
      MulMono(t, q, d);
      if t < q { MulStrict(t, q, d); }
    } else {
      MulMono(q + 1, t, d);
      assert (q + 1) * d == q * d + d;
    }
  }

  /** Rounding the sticky quotient off rounds the exact fraction, once. */
  lemma StickyRounds(scaled: nat, d: nat, s: nat, r: nat)
    requires d > 0 && s >= 2 && RoundsTo(StickyQuotient(scaled, d), Pow2(s), r)
    ensures RoundsTo(scaled, d * Pow2(s), r)
  {
    var h := Pow2(s - 2);
    assert Pow2(s) == 4 * h;
    StickyThreshold(scaled, d, h, 2 * r - 1);
    StickyThreshold(scaled, d, h, 2 * r + 1);
  }

  lemma StickyThreshold(scaled: nat, d: nat, h: nat, c: int)
    requires d > 0
    ensures var v := StickyQuotient(scaled, d);
            && (c * (4 * h) <= 2 * v <==> c * (d * (4 * h)) <= 2 * scaled)
            && (c * (4 * h) >= 2 * v <==> c * (d * (4 * h)) >= 2 * scaled)
  {
    var t := 2 * (c * h);
    StickyCompares(scaled, d, t);
    assert c * (4 * h) == 2 * t;
    assert c * (d * (4 * h)) == 2 * (t * d);
  }
}
