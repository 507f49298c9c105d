/** Rounding a fraction to the nearest integer, ties to even (IEEE 754-2008 section 4.3.1). */
module Rounding {
  import opened Powers

  /** r is num/den rounded to nearest, ties to even. */
  predicate RoundsTo(num: nat, den: nat, r: nat) {
    && (2 * r - 1) * den <= 2 * num <= (2 * r + 1) * den
    && (2 * num == (2 * r - 1) * den || 2 * num == (2 * r + 1) * den ==> r % 2 == 0)
  }

  /** Only the value of the fraction counts. */
  lemma RoundsToRatio(n1: nat, d1: nat, n2: nat, d2: nat, r: nat)
    requires d1 > 0 && d2 > 0 && n1 * d2 == n2 * d1 && RoundsTo(n1, d1, r)
    ensures RoundsTo(n2, d2, r)
  {
    var lo, hi := 2 * r - 1, 2 * r + 1;
    RatioCompare(lo, n1, d1, n2, d2);
    RatioCompare(hi, n1, d1, n2, d2);
  }

  /** Equal fractions compare equally with c/2. */
  lemma RatioCompare(c: int, n1: nat, d1: nat, n2: nat, d2: nat)
    requires d1 > 0 && d2 > 0 && n1 * d2 == n2 * d1
    ensures c * d1 <= 2 * n1 <==> c * d2 <= 2 * n2
    ensures c * d1 >= 2 * n1 <==> c * d2 >= 2 * n2
  {
    var a, b := c * d1, c * d2;
    assert a * d2 == b * d1;
    assert (2 * n1) * d2 == (2 * n2) * d1;
    if a <= 2 * n1 { MulMono(a, 2 * n1, d2); MulCancel(b, 2 * n2, d1); }
    if b <= 2 * n2 { MulMono(b, 2 * n2, d1); MulCancel(a, 2 * n1, d2); }
    if a >= 2 * n1 { MulMono(2 * n1, a, d2); MulCancel(2 * n2, b, d1); }
    if b >= 2 * n2 { MulMono(2 * n2, b, d1); MulCancel(2 * n1, a, d2); }
  }

  /** a/2 <= n1/d1 <= n2/d2 <= b/2 bounds a by b, with equality only throughout. */
  lemma CrossBounds(a: int, n1: nat, d1: nat, n2: nat, d2: nat, b: int)
    requires d1 > 0 && d2 > 0 && a * d1 <= 2 * n1 && n1 * d2 <= n2 * d1 && 2 * n2 <= b * d2
    ensures a <= b
    ensures a == b ==> a * d1 == 2 * n1 && 2 * n2 == b * d2
  {
    var lo, hi := a * d1, b * d2;
    MulMono(lo, 2 * n1, d2);
    MulMono(2 * n2, hi, d1);
    assert 2 * n1 * d2 == 2 * (n1 * d2) && 2 * n2 * d1 == 2 * (n2 * d1);
    MulAssoc(a, d1, d2);
    MulAssoc(b, d2, d1);
    var dd := d1 * d2;
    assert dd == d2 * d1;
    MulStrict(0, d1, d2);
    MulCancel(a, b, dd);
    if a == b {
      MulCancelEq(lo, 2 * n1, d2);
      MulCancelEq(2 * n2, hi, d1);
    }
  }

  /** Rounding is monotone. */
  lemma RoundsToMonotone(n1: nat, d1: nat, r1: nat, n2: nat, d2: nat, r2: nat)
    requires d1 > 0 && d2 > 0 && n1 * d2 <= n2 * d1
    requires RoundsTo(n1, d1, r1) && RoundsTo(n2, d2, r2)
    ensures r1 <= r2
  {
    CrossBounds(2 * r1 - 1, n1, d1, n2, d2, 2 * r2 + 1);
  }

  lemma RoundsToUnique(num: nat, den: nat, r1: nat, r2: nat)
    requires den > 0 && RoundsTo(num, den, r1) && RoundsTo(num, den, r2)
    ensures r1 == r2
  {
    RoundsToMonotone(num, den, r1, num, den, r2);
    RoundsToMonotone(num, den, r2, num, den, r1);
  }

  lemma RoundsToExact(r: nat, den: nat)
    requires den > 0
    ensures RoundsTo(r * den, den, r)
  {
    assert (2 * r - 1) * den == 2 * (r * den) - den;
    assert (2 * r + 1) * den == 2 * (r * den) + den;
  }

  /** The result lies within the integers that bound the fraction. */
  lemma RoundsToWithin(num: nat, den: nat, r: nat, lo: nat, hi: nat)
    requires den > 0 && RoundsTo(num, den, r) && lo * den <= num <= hi * den
    ensures lo <= r <= hi
  {
    RoundsToExact(lo, den);
    RoundsToExact(hi, den);
    assert lo * den * den == (lo * den) * den && num * den <= (hi * den) * den;
    MulMono(lo * den, num, den);
    RoundsToMonotone(lo * den, den, lo, num, den, r);
    RoundsToMonotone(num, den, r, hi * den, den, hi);
  }
}
