/** The FCS-16 of RFC 1662 Appendix C.2: reflected polynomial 0x8408, initial value 0xFFFF, complemented. */
module Fcs16 {
  type Octet = bv8

  function Shift(crc: bv16): bv16 {
    if crc & 1 != 0 then (crc >> 1) ^ 0x8408 else crc >> 1
  }

  function Shift8(crc: bv16): bv16 {
    Shift(Shift(Shift(Shift(Shift(Shift(Shift(Shift(crc))))))))
  }

  function Absorb(crc: bv16, octet: Octet): bv16 {
    Shift8(crc ^ (octet as bv16))
  }

  function Register(crc: bv16, data: seq<Octet>): bv16
    decreases |data|
  {
    if data == [] then crc else Register(Absorb(crc, data[0]), data[1..])
  }

  function Fcs(data: seq<Octet>): bv16 {
    !Register(0xFFFF, data)
  }

  method ComputeFcs(data: seq<Octet>, from: nat, to: nat) returns (fcs: bv16)
    requires from <= to <= |data|
    ensures fcs == Fcs(data[from..to])
  {
    hide Shift8, Register;
    var crc: bv16 := 0xFFFF;
    for j := from to to
      invariant Register(crc, data[j..to]) == Register(0xFFFF, data[from..to])
    {
      RegisterStep(crc, data, j, to);
      crc := ShiftOctet(crc ^ (data[j] as bv16));
    }
    RegisterEnd(crc, data, to);
    fcs := !crc;
  }

  lemma RegisterStep(crc: bv16, data: seq<Octet>, j: nat, to: nat)
    requires j < to <= |data|
    ensures Register(crc, data[j..to]) == Register(Shift8(crc ^ (data[j] as bv16)), data[j + 1..to])
  {
    assert data[j..to][1..] == data[j + 1..to];
  }

  lemma RegisterEnd(crc: bv16, data: seq<Octet>, to: nat)
    requires to <= |data|
    ensures Register(crc, data[to..to]) == crc
  {
  }

  /** The inner loop of eight shifts. */
  method ShiftOctet(mixed: bv16) returns (crc: bv16)
    ensures crc == Shift8(mixed)
  {
    crc := mixed;
    for i := 0 to 8
      invariant crc == ShiftTimes(mixed, i)
    {
      crc := if crc & 1 != 0 then (crc >> 1) ^ 0x8408 else crc >> 1;
    }
    ShiftTimesEight(mixed);
  }

  function ShiftTimes(crc: bv16, n: nat): bv16 {
    if n == 0 then crc else Shift(ShiftTimes(crc, n - 1))
  }

  lemma ShiftTimesEight(crc: bv16)
    ensures ShiftTimes(crc, 8) == Shift8(crc)
  {
    hide Shift;
    assert ShiftTimes(crc, 1) == Shift(ShiftTimes(crc, 0));
    assert ShiftTimes(crc, 3) == Shift(Shift(ShiftTimes(crc, 1)));
    assert ShiftTimes(crc, 5) == Shift(Shift(ShiftTimes(crc, 3)));
    assert ShiftTimes(crc, 7) == Shift(Shift(ShiftTimes(crc, 5)));
  }

  /** A shift loses nothing: bit 15 of its result is bit 0 of its argument. */
  lemma ShiftInjective(a: bv16, b: bv16)
    requires Shift(a) == Shift(b)
    ensures a == b
  {
  }

  lemma Shift8Injective(a: bv16, b: bv16)
    requires Shift8(a) == Shift8(b)
    ensures a == b
  {
    hide Shift;
    ShiftInjective(Shift(Shift(Shift(Shift(Shift(Shift(Shift(a))))))),
                   Shift(Shift(Shift(Shift(Shift(Shift(Shift(b))))))));
    ShiftInjective(Shift(Shift(Shift(Shift(Shift(Shift(a)))))), Shift(Shift(Shift(Shift(Shift(Shift(b)))))));
    ShiftInjective(Shift(Shift(Shift(Shift(Shift(a))))), Shift(Shift(Shift(Shift(Shift(b))))));
    ShiftInjective(Shift(Shift(Shift(Shift(a)))), Shift(Shift(Shift(Shift(b)))));
    ShiftInjective(Shift(Shift(Shift(a))), Shift(Shift(Shift(b))));
    ShiftInjective(Shift(Shift(a)), Shift(Shift(b)));
    ShiftInjective(Shift(a), Shift(b));
    ShiftInjective(a, b);
  }

  lemma AbsorbInjective(a: bv16, b: bv16, octet: Octet)
    requires Absorb(a, octet) == Absorb(b, octet)
    ensures a == b
  {
    hide Shift8;
    Shift8Injective(a ^ (octet as bv16), b ^ (octet as bv16));
  }

  // ---- shifting is linear ----

  /** Exclusive or, by a name that a proof can keep closed. */
  function Xor(a: bv16, b: bv16): bv16 { a ^ b }

  predicate IsOdd(a: bv16) { a & 1 != 0 }

  lemma BothEven(a: bv16, b: bv16)
    requires !IsOdd(a) && !IsOdd(b)
    ensures Shift(Xor(a, b)) == Xor(Shift(a), Shift(b))
  {
  }

  lemma FirstOdd(a: bv16, b: bv16)
    requires IsOdd(a) && !IsOdd(b)
    ensures Shift(Xor(a, b)) == Xor(Shift(a), Shift(b))
  {
  }

  lemma BothOdd(a: bv16, b: bv16)
    requires IsOdd(a) && IsOdd(b)
    ensures Shift(Xor(a, b)) == Xor(Shift(a), Shift(b))
  {
  }

  lemma ShiftLinear(a: bv16, b: bv16)
    ensures Shift(Xor(a, b)) == Xor(Shift(a), Shift(b))
  {
    hide Shift, Xor, IsOdd;
    if IsOdd(a) && IsOdd(b) {
      BothOdd(a, b);
    } else if IsOdd(a) {
      FirstOdd(a, b);
    } else if IsOdd(b) {
      FirstOdd(b, a);
      XorCommutes(a, b);
      XorCommutes(Shift(a), Shift(b));
    } else {
      BothEven(a, b);
    }
  }

  lemma Shift8Linear(a: bv16, b: bv16)
    ensures Shift8(Xor(a, b)) == Xor(Shift8(a), Shift8(b))
  {
    hide Shift, Xor;
    ShiftLinear(a, b);
    ShiftLinear(Shift(a), Shift(b));
    ShiftLinear(Shift(Shift(a)), Shift(Shift(b)));
    ShiftLinear(Shift(Shift(Shift(a))), Shift(Shift(Shift(b))));
    ShiftLinear(Shift(Shift(Shift(Shift(a)))), Shift(Shift(Shift(Shift(b)))));
    ShiftLinear(Shift(Shift(Shift(Shift(Shift(a))))), Shift(Shift(Shift(Shift(Shift(b))))));
    ShiftLinear(Shift(Shift(Shift(Shift(Shift(Shift(a)))))), Shift(Shift(Shift(Shift(Shift(Shift(b)))))));
    ShiftLinear(Shift(Shift(Shift(Shift(Shift(Shift(Shift(a))))))),
                Shift(Shift(Shift(Shift(Shift(Shift(Shift(b))))))));
  }

  /** What one octet more makes of the difference of two registers. */
  lemma AbsorbLinear(a: bv16, b: bv16, x: Octet, y: Octet)
    ensures Xor(Absorb(a, x), Absorb(b, y)) == Shift8(Xor(Xor(a, b), (x ^ y) as bv16))
  {
    hide Shift8, Absorb, Xor;
    var u, v := Xor(a, x as bv16), Xor(b, y as bv16);
    AbsorbIs(a, x);
    AbsorbIs(b, y);
    Shift8Linear(u, v);
    Regroup(a, b, x, y);
  }

  lemma AbsorbIs(crc: bv16, octet: Octet)
    ensures Absorb(crc, octet) == Shift8(Xor(crc, octet as bv16))
  {
    hide Shift8;
  }

  lemma Regroup(a: bv16, b: bv16, x: Octet, y: Octet)
    ensures Xor(Xor(a, x as bv16), Xor(b, y as bv16)) == Xor(Xor(a, b), (x ^ y) as bv16)
  {
    hide Xor;
    var u, v := x as bv16, y as bv16;
    WideXor(x, y);
    XorAssociates(Xor(a, u), b, v);
    XorAssociates(a, u, b);
    XorCommutes(u, b);
    XorAssociates(a, b, u);
    XorAssociates(Xor(a, b), u, v);
  }

  lemma WideXor(x: Octet, y: Octet)
    ensures (x ^ y) as bv16 == Xor(x as bv16, y as bv16)
  {
  }

  lemma XorAssociates(a: bv16, b: bv16, c: bv16)
    ensures Xor(Xor(a, b), c) == Xor(a, Xor(b, c))
  {
  }

  lemma XorCommutes(a: bv16, b: bv16)
    ensures Xor(a, b) == Xor(b, a)
  {
  }

  // ---- bursts ----

  /** The low k bits, which the register takes in first. */
  function LowBits(k: nat): Octet
    requires k < 8
  {
    match k
    case 0 => 0x00
    case 1 => 0x01
    case 2 => 0x03
    case 3 => 0x07
    case 4 => 0x0F
    case 5 => 0x1F
    case 6 => 0x3F
    case 7 => 0x7F
  }

  /** The differences of three octets lie in the sixteen bits from bit k of the first. */
  predicate SpansSixteen(d0: Octet, d2: Octet, k: nat)
    requires k < 8
  {
    d0 & LowBits(k) == 0 && d2 & !LowBits(k) == 0
  }

  /** A nonzero difference of sixteen neighbouring bits is never shifted into the next octets' difference. */
  lemma SixteenBitsTell(d0: bv16, d1: bv16, d2: bv16, mask: bv16)
    requires d0 & 0xFF00 == 0 && d1 & 0xFF00 == 0 && d2 & 0xFF00 == 0
    requires mask in {0x00, 0x01, 0x03, 0x07, 0x0F, 0x1F, 0x3F, 0x7F}
    requires d0 & mask == 0 && d2 & !mask == 0
    requires Shift8(Xor(Shift8(d0), d1)) == d2
    ensures d0 == 0 && d1 == 0 && d2 == 0
  {
  }

  lemma Widened(d0: Octet, d2: Octet, k: nat)
    requires k < 8 && SpansSixteen(d0, d2, k)
    ensures var mask := LowBits(k) as bv16;
            && mask in {0x00, 0x01, 0x03, 0x07, 0x0F, 0x1F, 0x3F, 0x7F}
            && (d0 as bv16) & mask == 0 && (d2 as bv16) & !mask == 0
  {
  }

  lemma OctetIsLow(d: Octet)
    ensures (d as bv16) & 0xFF00 == 0
    ensures d as bv16 == 0 ==> d == 0
  {
  }

  lemma XorCancels(a: bv16, b: bv16)
    ensures Xor(a, b) == 0 <==> a == b
    ensures Xor(a, a) == 0 && Xor(0, a) == a
  {
  }

  lemma OctetXorCancels(x: Octet, y: Octet)
    ensures x ^ y == 0 <==> x == y
  {
  }

  lemma Shift8Zero()
    ensures Shift8(0) == 0
  {
  }

  /** If two runs over three octets meet again, the last difference is what the shifts made of the first two. */
  lemma ThreeDifferences(crc: bv16, x: seq<Octet>, y: seq<Octet>)
    requires |x| == |y| == 3
    requires Absorb(Absorb(Absorb(crc, x[0]), x[1]), x[2]) == Absorb(Absorb(Absorb(crc, y[0]), y[1]), y[2])
    ensures Shift8(Xor(Shift8((x[0] ^ y[0]) as bv16), (x[1] ^ y[1]) as bv16)) == (x[2] ^ y[2]) as bv16
  {
    hide Shift8, Absorb, Xor;
    var a1, b1 := Absorb(crc, x[0]), Absorb(crc, y[0]);
    var a2, b2 := Absorb(a1, x[1]), Absorb(b1, y[1]);
    var d2 := (x[2] ^ y[2]) as bv16;
    AbsorbLinear(crc, crc, x[0], y[0]);
    XorCancels(crc, crc);
    XorCancels((x[0] ^ y[0]) as bv16, 0);
    AbsorbLinear(a1, b1, x[1], y[1]);
    AbsorbLinear(a2, b2, x[2], y[2]);
    XorCancels(Absorb(a2, x[2]), Absorb(b2, y[2]));
    Shift8Zero();
    Shift8Injective(Xor(Xor(a2, b2), d2), 0);
    XorCancels(Xor(a2, b2), d2);
  }

  lemma AbsorbThreeInjective(crc: bv16, x: seq<Octet>, y: seq<Octet>, k: nat)
    requires |x| == |y| == 3 && k < 8 && SpansSixteen(x[0] ^ y[0], x[2] ^ y[2], k)
    requires Absorb(Absorb(Absorb(crc, x[0]), x[1]), x[2]) == Absorb(Absorb(Absorb(crc, y[0]), y[1]), y[2])
    ensures x == y
  {
    hide Shift8, Absorb, Xor, LowBits, SpansSixteen;
    ThreeDifferences(crc, x, y);
    BurstIsEmpty(x[0] ^ y[0], x[1] ^ y[1], x[2] ^ y[2], k);
    OctetXorCancels(x[0], y[0]);
    OctetXorCancels(x[1], y[1]);
    OctetXorCancels(x[2], y[2]);
  }

  lemma BurstIsEmpty(d0: Octet, d1: Octet, d2: Octet, k: nat)
    requires k < 8 && SpansSixteen(d0, d2, k)
    requires Shift8(Xor(Shift8(d0 as bv16), d1 as bv16)) == d2 as bv16
    ensures d0 == 0 && d1 == 0 && d2 == 0
  {
    hide Shift8, Xor, LowBits, SpansSixteen;
    OctetIsLow(d0);
    OctetIsLow(d1);
    OctetIsLow(d2);
    Widened(d0, d2, k);
    SixteenBitsTell(d0 as bv16, d1 as bv16, d2 as bv16, LowBits(k) as bv16);
  }

  lemma {:induction false} RegisterInjective(a: bv16, b: bv16, data: seq<Octet>)
    requires Register(a, data) == Register(b, data)
    ensures a == b
    decreases |data|
  {
    hide Shift8;
    if data != [] {
      RegisterInjective(Absorb(a, data[0]), Absorb(b, data[0]), data[1..]);
      AbsorbInjective(a, b, data[0]);
    }
  }

  /** The messages differ only inside the sixteen bits from bit k of octet i, in the order of the register. */
  predicate DifferInBurst(m1: seq<Octet>, m2: seq<Octet>, i: nat, k: nat) {
    && |m1| == |m2| && m1 != m2 && k < 8
    && (forall j :: 0 <= j < |m1| && !(i <= j <= i + 2) ==> m1[j] == m2[j])
    && (i < |m1| ==> (m1[i] ^ m2[i]) & LowBits(k) == 0)
    && (i + 2 < |m1| ==> (m1[i + 2] ^ m2[i + 2]) & !LowBits(k) == 0)
  }

  /** The messages agree outside octets i and i + 1. */
  predicate DifferWithinTwo(m1: seq<Octet>, m2: seq<Octet>, i: nat) {
    |m1| == |m2| && m1 != m2 && forall j :: 0 <= j < |m1| && j != i && j != i + 1 ==> m1[j] == m2[j]
  }

  lemma WithinTwoIsBurst(m1: seq<Octet>, m2: seq<Octet>, i: nat)
    requires DifferWithinTwo(m1, m2, i)
    ensures DifferInBurst(m1, m2, i, 0)
  {
    if i < |m1| { NoLowBits(m1[i] ^ m2[i]); }
    if i + 2 < |m1| {
      OctetXorCancels(m1[i + 2], m2[i + 2]);
      NoLowBits(0);
    }
  }

  lemma NoLowBits(d: Octet)
    ensures d & LowBits(0) == 0 && 0 & !LowBits(0) == 0 as Octet
  {
  }

  lemma {:induction false} RegisterAppend(crc: bv16, data: seq<Octet>, more: seq<Octet>)
    ensures Register(crc, data + more) == Register(Register(crc, data), more)
    decreases |data|
  {
    hide Absorb;
    if data == [] {
      assert data + more == more;
    } else {
      assert (data + more)[1..] == data[1..] + more;
      RegisterAppend(Absorb(crc, data[0]), data[1..], more);
    }
  }

  lemma RegisterOfThree(crc: bv16, data: seq<Octet>)
    requires |data| >= 3
    ensures Register(crc, data) == Register(Absorb(Absorb(Absorb(crc, data[0]), data[1]), data[2]), data[3..])
  {
    hide Absorb;
    assert data[1..][1..] == data[2..] && data[2..][1..] == data[3..];
    assert Register(crc, data) == Register(Absorb(crc, data[0]), data[1..]);
    assert Register(Absorb(crc, data[0]), data[1..]) == Register(Absorb(Absorb(crc, data[0]), data[1]), data[2..]);
  }

  /** Messages of one length that differ only inside a burst have different registers. */
  lemma {:induction false} BurstChangesRegister(crc: bv16, m1: seq<Octet>, m2: seq<Octet>, i: nat, k: nat)
    requires DifferInBurst(m1, m2, i, k)
    ensures Register(crc, m1) != Register(crc, m2)
    decreases |m1|
  {
    hide Absorb, LowBits;
    if i > 0 {
      assert m1[0] == m2[0];
      assert m1[1..] != m2[1..] by { assert m1 == [m1[0]] + m1[1..] && m2 == [m2[0]] + m2[1..]; }
      BurstChangesRegister(Absorb(crc, m1[0]), m1[1..], m2[1..], i - 1, k);
    } else if |m1| >= 3 {
      LeadingBurst(crc, m1, m2, k);
    } else {
      var pad: seq<Octet> := [0, 0];
      assert m1 != m2 ==> m1 + pad != m2 + pad by { assert (m1 + pad)[..|m1|] == m1 && (m2 + pad)[..|m2|] == m2; }
      OctetXorCancels(0, 0);
      NothingSpans(k);
      LeadingBurst(crc, m1 + pad, m2 + pad, k);
      RegisterAppend(crc, m1, pad);
      RegisterAppend(crc, m2, pad);
    }
  }

  lemma NothingSpans(k: nat)
    requires k < 8
    ensures 0 & !LowBits(k) == 0 as Octet
  {
  }

  lemma LeadingBurst(crc: bv16, m1: seq<Octet>, m2: seq<Octet>, k: nat)
    requires DifferInBurst(m1, m2, 0, k) && |m1| >= 3
    ensures Register(crc, m1) != Register(crc, m2)
  {
    hide Absorb, LowBits;
    RegisterOfThree(crc, m1);
    RegisterOfThree(crc, m2);
    assert m1[3..] == m2[3..];
    assert m1 == m1[..3] + m1[3..] && m2 == m2[..3] + m2[3..];
    if Register(crc, m1) == Register(crc, m2) {
      RegisterInjective(Absorb(Absorb(Absorb(crc, m1[0]), m1[1]), m1[2]),
                        Absorb(Absorb(Absorb(crc, m2[0]), m2[1]), m2[2]), m1[3..]);
      AbsorbThreeInjective(crc, m1[..3], m2[..3], k);
    }
  }

  /** So the FCS-16 tells any two such messages apart. */
  lemma BurstChangesFcs(m1: seq<Octet>, m2: seq<Octet>, i: nat, k: nat)
    requires DifferInBurst(m1, m2, i, k)
    ensures Fcs(m1) != Fcs(m2)
  {
    BurstChangesRegister(0xFFFF, m1, m2, i, k);
  }
}
