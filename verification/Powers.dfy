/** Powers, bit lengths and the few facts about products that the arithmetic needs. */
module Powers {

  function Pow(b: nat, e: nat): nat {
    if e == 0 then 1 else b * Pow(b, e - 1)
  }

  function Pow2(n: nat): (p: nat)
    ensures p > 0
  {
    if n == 0 then 1 else 2 * Pow2(n - 1)
  }

  lemma MulMono(a: int, b: int, k: int)
    requires a <= b && k >= 0
    ensures a * k <= b * k
  {
  }

  lemma MulStrict(a: int, b: int, k: int)
    requires a < b && k > 0
    ensures a * k < b * k
  {
  }

  lemma MulCancel(a: int, b: int, k: int)
    requires a * k <= b * k && k > 0
    ensures a <= b
  {
    if b < a { MulStrict(b, a, k); }
  }

  lemma MulCancelEq(a: int, b: int, k: int)
    requires a * k == b * k && k > 0
    ensures a == b
  {
    MulCancel(a, b, k);
    MulCancel(b, a, k);
  }

  lemma MulAssoc(a: int, b: int, c: int)
    ensures a * (b * c) == a * b * c
  {
  }

  lemma MulAdd(a: int, b: int, k: int)
    ensures (a + b) * k == a * k + b * k
  {
  }

  lemma MulCommute(a: int, b: int)
    ensures a * b == b * a
  {
  }

  lemma DivModUnique(p: nat, g: nat, r: nat)
    requires r < p
    ensures (g * p + r) / p == g && (g * p + r) % p == r
  {
    var x := g * p + r;
    var q, m := x / p, x % p;
    assert x == q * p + m;
    MulAdd(q, 1, p);
    MulAdd(g, 1, p);
    if q < g { MulMono(q + 1, g, p); }
    if q > g { MulMono(g + 1, q, p); }
  }

  lemma Quotient(m: nat, p: nat)
    requires p > 0
    ensures m == (m / p) * p + m % p
  {
  }

  lemma DivTwice(n: nat, a: nat, p: nat)
    requires a > 0 && p > 0
    ensures n / a / p == n / (a * p)
  {
    var q, r := n / a / p, n / a % p;
    Quotient(n, a);
    Quotient(n / a, p);
    MulAdd(q * p, r, a);
    MulAssoc(q, p, a);
    MulCommute(p, a);
    assert n == q * (a * p) + (r * a + n % a);
    MulMono(r + 1, p, a);
    MulAdd(r, 1, a);
    MulMono(0, r, a);
    DivModUnique(a * p, q, r * a + n % a);
  }

  lemma MulFour(a: int, b: int, x: int, y: int)
    ensures a * b * (x * y) == (a * x) * (b * y)
  {
    MulAssoc(a, b, x * y);
    MulAssoc(b, x, y);
    assert b * x == x * b;
    MulAssoc(x, b, y);
    MulAssoc(a, x, b * y);
  }

  lemma {:induction false} PowPositive(b: nat, e: nat)
    requires b > 0
    ensures Pow(b, e) > 0
  {
    if e > 0 {
      PowPositive(b, e - 1);
      MulStrict(0, b, Pow(b, e - 1));
    }
  }

  lemma {:induction false} PowAdd(b: nat, m: nat, n: nat)
    ensures Pow(b, m + n) == Pow(b, m) * Pow(b, n)
  {
    if m > 0 {
      PowAdd(b, m - 1, n);
      MulAssoc(b, Pow(b, m - 1), Pow(b, n));
    }
  }

  lemma {:induction false} PowMono(b: nat, m: nat, n: nat)
    requires b > 0 && m <= n
    ensures Pow(b, m) <= Pow(b, n)
  {
    if m < n {
      PowMono(b, m, n - 1);
      PowPositive(b, n - 1);
      MulMono(1, b, Pow(b, n - 1));
    }
  }

  lemma {:induction false} PowOfProduct(a: nat, b: nat, e: nat)
    ensures Pow(a * b, e) == Pow(a, e) * Pow(b, e)
  {
    if e > 0 {
      PowOfProduct(a, b, e - 1);
      MulFour(a, b, Pow(a, e - 1), Pow(b, e - 1));
    }
  }

  lemma {:induction false} Pow2IsPow(n: nat)
    ensures Pow2(n) == Pow(2, n)
  {
    if n > 0 { Pow2IsPow(n - 1); }
  }

  lemma {:induction false} Pow2Add(m: nat, n: nat)
    ensures Pow2(m + n) == Pow2(m) * Pow2(n)
  {
    if m > 0 {
      Pow2Add(m - 1, n);
      MulAssoc(2, Pow2(m - 1), Pow2(n));
    }
  }

  lemma Pow2Next(n: nat)
    ensures Pow2(n + 1) == 2 * Pow2(n)
  {
  }

  lemma {:induction false} Pow2Mono(m: nat, n: nat)
    requires m <= n
    ensures Pow2(m) <= Pow2(n)
    decreases n
  {
    if m < n { Pow2Mono(m, n - 1); }
  }

  lemma Pow2Strict(m: nat, n: nat)
    requires m < n
    ensures 2 * Pow2(m) <= Pow2(n)
  {
    Pow2Mono(m + 1, n);
  }

  /** The number of bits of n. */
  function BitLen(n: nat): nat {
    if n == 0 then 0 else 1 + BitLen(n / 2)
  }

  lemma {:induction false} BitLenBounds(n: nat)
    ensures n < Pow2(BitLen(n))
    ensures n > 0 ==> BitLen(n) > 0 && Pow2(BitLen(n) - 1) <= n
  {
    if n > 1 { BitLenBounds(n / 2); }
  }

  lemma BitLenUnique(n: nat, k: nat)
    requires Pow2(k) <= n < Pow2(k + 1)
    ensures BitLen(n) == k + 1
  {
    BitLenBounds(n);
    if BitLen(n) <= k { Pow2Mono(BitLen(n), k); }
    if BitLen(n) > k + 1 { Pow2Mono(k + 1, BitLen(n) - 1); }
  }
}
