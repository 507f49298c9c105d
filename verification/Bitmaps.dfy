/** Bits of a natural number, as the ACKNACK bitmap uses them. */
module Bitmaps {
  import opened Powers

  lemma Pow2Of16()
    ensures Pow2(16) == 0x1_0000
  {
    assert Pow2(4) == 16 && Pow2(8) == 256 && Pow2(12) == 4096;
  }

  /** (b >> i) & 1. */
  predicate BitAt(b: nat, i: nat) {
    if i == 0 then b % 2 == 1 else BitAt(b / 2, i - 1)
  }

  /** Bit i counts 2^i. */
  lemma {:induction false} BitWeighs(b: nat, i: nat)
    ensures BitAt(b, i) <==> b / Pow2(i) % 2 == 1
  {
    if i > 0 {
      BitWeighs(b / 2, i - 1);
      DivTwice(b, 2, Pow2(i - 1));
    }
  }

  /** The low k bits of a number are those of its low part, the others those of its high part. */
  lemma {:induction false} BitsOfParts(low: nat, high: nat, k: nat, i: nat)
    requires low < Pow2(k)
    ensures BitAt(low + Pow2(k) * high, i) <==> if i < k then BitAt(low, i) else BitAt(high, i - k)
    decreases k
  {
    if k > 0 {
      var n := low + Pow2(k) * high;
      MulAssoc(2, Pow2(k - 1), high);
      assert n / 2 == low / 2 + Pow2(k - 1) * high && n % 2 == low % 2;
      if i > 0 { BitsOfParts(low / 2, high, k - 1, i - 1); }
    }
  }

  /** The number whose bit i is bits[i]. */
  function FromBits(bits: seq<bool>): (b: nat)
    ensures b < Pow2(|bits|)
  {
    if bits == [] then 0 else (if bits[0] then 1 else 0) + 2 * FromBits(bits[1..])
  }

  lemma {:induction false} BitOfFromBits(bits: seq<bool>, i: nat)
    requires i < |bits|
    ensures BitAt(FromBits(bits), i) == bits[i]
  {
    if i > 0 {
      BitOfFromBits(bits[1..], i - 1);
      assert FromBits(bits) / 2 == FromBits(bits[1..]);
    }
  }

  /** Setting the next higher bit adds its weight. */
  lemma {:induction false} FromBitsAppend(bits: seq<bool>, bit: bool)
    ensures FromBits(bits + [bit]) == FromBits(bits) + (if bit then Pow2(|bits|) else 0)
  {
    if bits == [] {
      assert [bit][1..] == [];
    } else {
      assert (bits + [bit])[1..] == bits[1..] + [bit];
      FromBitsAppend(bits[1..], bit);
    }
  }

  lemma FromBitsNext(bits: seq<bool>, i: nat)
    requires i < |bits|
    ensures FromBits(bits[..i + 1]) == FromBits(bits[..i]) + (if bits[i] then Pow2(i) else 0)
  {
    assert bits[..i + 1] == bits[..i] + [bits[i]];
    FromBitsAppend(bits[..i], bits[i]);
  }
}
