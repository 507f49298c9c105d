/**
 Serial-number arithmetic of RFC 1982 section 3.2 on 16 bits, as the reliable
 stream compares sequence numbers.
 */
module SerialNumbers {
  import opened Common

  /** The 16-bit number that stands for the unbounded number `n`: unsigned 16-bit wrap-around. */
  function Wrap(n: int): U16 {
    n % 0x1_0000
  }

  /** a < b in serial order. At distance exactly 2^15 neither is before the other. */
  predicate SeqLt(a: U16, b: U16) {
    var d := Wrap(b as int - a as int);
    d != 0 && d < 0x8000
  }

  predicate SeqGt(a: U16, b: U16) {
    SeqLt(b, a)
  }

  /** How far `k` lies past `anchor`, counted upwards modulo 2^16. */
  function Offset(anchor: U16, k: U16): (d: nat)
    ensures d < 0x1_0000 && Wrap(anchor as int + d) == k
  {
    Wrap(k as int - anchor as int)
  }

  /** Serial order is the true order exactly as long as the numbers are less than 2^15 apart. */
  lemma SerialOrderIsTrueOrder(m: int, n: int)
    requires -0x8000 <= m - n <= 0x8000
    ensures SeqLt(Wrap(m), Wrap(n)) <==> m < n && n - m != 0x8000
  {
    WrapDifference(m, n);
  }

  /** Beyond that range the comparison is wrong: past 2^15 the later number reads as the earlier. */
  lemma SerialOrderFailsPastHalf(m: int, n: int)
    requires 0x8000 < n - m < 0x1_0000
    ensures SeqLt(Wrap(n), Wrap(m))
  {
    WrapDifference(n, m);
  }

  lemma WrapDifference(m: int, n: int)
    ensures Wrap(Wrap(n) as int - Wrap(m) as int) == Wrap(n - m)
  {
  }

  lemma WrapInjective(m: int, n: int)
    requires -0x1_0000 < m - n < 0x1_0000
    requires Wrap(m) == Wrap(n)
    ensures m == n
  {
  }

  lemma WrapAdd(n: int, i: int)
    ensures Wrap(Wrap(n) as int + i) == Wrap(n + i)
  {
  }

  lemma OffsetOfWrap(base: int, n: int)
    requires 0 <= n - base < 0x1_0000
    ensures Offset(Wrap(base), Wrap(n)) == n - base
  {
    WrapDifference(base, n);
  }

  /** Within half a turn above an anchor, serial order is the order of the offsets. */
  lemma SerialOrderIsOffsetOrder(anchor: U16, a: U16, b: U16)
    requires Offset(anchor, a) < 0x8000 && Offset(anchor, b) < 0x8000
    ensures SeqLt(a, b) <==> Offset(anchor, a) < Offset(anchor, b)
  {
    SerialOrderIsTrueOrder(anchor as int + Offset(anchor, a), anchor as int + Offset(anchor, b));
  }
}
