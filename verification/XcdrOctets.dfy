/** Integers as octets in either byte order, and padding. */
module XcdrOctets {
  import opened Common
  import opened Powers

  /** The low `width` octets of v, least significant first. */
  function LittleEndian(v: nat, width: nat): (b: Octets)
    ensures |b| == width
  {
    if width == 0 then [] else [v % 256] + LittleEndian(v / 256, width - 1)
  }

  /** The octets in the other order, last one first. */
  function Mirrored(b: Octets): (r: Octets)
    ensures |r| == |b|
  {
    if b == [] then [] else [b[|b| - 1]] + Mirrored(b[..|b| - 1])
  }

  function ToOctets(little: bool, v: nat, width: nat): (b: Octets)
    ensures |b| == width
  {
    if little then LittleEndian(v, width) else Mirrored(LittleEndian(v, width))
  }

  function FromLittleEndian(b: Octets): nat {
    if b == [] then 0 else b[0] as nat + 256 * FromLittleEndian(b[1..])
  }

  function FromOctets(little: bool, b: Octets): nat {
    FromLittleEndian(if little then b else Mirrored(b))
  }

  lemma {:induction false} MirroredAt(b: Octets, i: nat)
    requires i < |b|
    ensures Mirrored(b)[i] == b[|b| - 1 - i]
  {
    if i > 0 { MirroredAt(b[..|b| - 1], i - 1); }
  }

  lemma MirroredTwice(b: Octets)
    ensures Mirrored(Mirrored(b)) == b
  {
    forall i | 0 <= i < |b| ensures Mirrored(Mirrored(b))[i] == b[i] {
      MirroredAt(Mirrored(b), i);
      MirroredAt(b, |b| - 1 - i);
    }
  }

  lemma {:induction false} LittleEndianInverse(v: nat, width: nat)
    requires v < Pow(256, width)
    ensures FromLittleEndian(LittleEndian(v, width)) == v
  {
    if width > 0 { LittleEndianInverse(v / 256, width - 1); }
  }

  /** Reading an integer inverts writing it, in either byte order. */
  lemma OctetsInverse(little: bool, v: nat, width: nat)
    requires v < Pow(256, width)
    ensures FromOctets(little, ToOctets(little, v, width)) == v
  {
    LittleEndianInverse(v, width);
    MirroredTwice(LittleEndian(v, width));
  }

  /** v >> 8i. */
  function ShiftRight8(v: nat, i: nat): nat {
    if i == 0 then v else ShiftRight8(v / 256, i - 1)
  }

  lemma {:induction false} LittleEndianAt(v: nat, width: nat, i: nat)
    requires i < width
    ensures LittleEndian(v, width)[i] == ShiftRight8(v, i) % 256
  {
    if i > 0 { LittleEndianAt(v / 256, width - 1, i - 1); }
  }

  /** The least significant octet comes first in little-endian order and last in the other. */
  lemma OctetOrder(a: Byte, b: Byte, c: Byte, d: Byte)
    ensures ToOctets(true, a as nat + 256 * b as nat, 2) == [a, b]
    ensures ToOctets(false, a as nat + 256 * b as nat, 2) == [b, a]
    ensures ToOctets(true, a as nat + 256 * (b as nat + 256 * (c as nat + 256 * d as nat)), 4) == [a, b, c, d]
    ensures ToOctets(false, a as nat + 256 * (b as nat + 256 * (c as nat + 256 * d as nat)), 4) == [d, c, b, a]
  {
    hide LittleEndian, Mirrored;
    LittleEndianOf(a, b as nat, 1);
    LittleEndianOf(b, 0, 0);
    LittleEndianOf(d, 0, 0);
    LittleEndianOf(c, d as nat, 1);
    LittleEndianOf(b, c as nat + 256 * d as nat, 2);
    LittleEndianOf(a, b as nat + 256 * (c as nat + 256 * d as nat), 3);
    MirroredPair(a, b);
    MirroredFour(a, b, c, d);
  }

  lemma LittleEndianOf(low: Byte, high: nat, width: nat)
    ensures LittleEndian(low as nat + 256 * high, width + 1) == [low] + LittleEndian(high, width)
    ensures LittleEndian(low as nat, 1) == [low]
  {
    assert (low as nat + 256 * high) / 256 == high;
  }

  lemma MirroredPair(a: Byte, b: Byte)
    ensures Mirrored([a, b]) == [b, a]
  {
    MirroredAt([a, b], 0);
    MirroredAt([a, b], 1);
  }

  lemma MirroredFour(a: Byte, b: Byte, c: Byte, d: Byte)
    ensures Mirrored([a, b, c, d]) == [d, c, b, a]
  {
    var s := [a, b, c, d];
    MirroredAt(s, 0);
    MirroredAt(s, 1);
    MirroredAt(s, 2);
    MirroredAt(s, 3);
  }

  function Zeros(n: nat): (z: Octets)
    ensures |z| == n
  {
    seq(n, _ => 0)
  }

  /** Octets of padding at `pos`, counted from the origin, for an alignment capped at `cap`. */
  function PadLen(pos: nat, align: nat, cap: nat): (n: nat)
    requires align > 0 && cap > 0
    ensures n < align
  {
    var a := if align > cap then cap else align;
    (a - pos % a) % a
  }

  /** The boundary a value of `align` octets is put on. */
  function Boundary(align: nat, cap: nat): nat {
    if align < cap then align else cap
  }

  /** `pos'` is the first multiple of the boundary that is not before `pos`. */
  predicate IsNextBoundary(pos: nat, pos': nat, align: nat, cap: nat)
    requires align > 0 && cap > 0
  {
    pos <= pos' < pos + Boundary(align, cap) && pos' % Boundary(align, cap) == 0
  }

  /** Padding leads to the next multiple of the boundary and no further. */
  lemma PadReachesBoundary(pos: nat, align: nat, cap: nat)
    requires align in {1, 2, 4, 8} && cap in {4, 8}
    ensures IsNextBoundary(pos, pos + PadLen(pos, align, cap), align, cap)
  {
    hide PadLen;
    if Boundary(align, cap) == 8 {
      PadTo8(pos);
    } else if align == 1 {
      PadTo1(pos, cap);
    } else if align == 2 {
      PadTo2(pos, cap);
    } else {
      PadTo4(pos, align, cap);
    }
  }

  lemma PadTo1(pos: nat, cap: nat)
    requires cap in {4, 8}
    ensures PadLen(pos, 1, cap) == 0
  {
  }

  lemma PadTo2(pos: nat, cap: nat)
    requires cap in {4, 8}
    ensures PadLen(pos, 2, cap) < 2 && (pos + PadLen(pos, 2, cap)) % 2 == 0
  {
    Modulo2(pos / 2 + pos % 2, 0);
  }

  lemma PadTo4(pos: nat, align: nat, cap: nat)
    requires (align == 4 && cap in {4, 8}) || (align == 8 && cap == 4)
    ensures PadLen(pos, align, cap) < 4 && (pos + PadLen(pos, align, cap)) % 4 == 0
  {
    Modulo4(pos / 4 + (if pos % 4 == 0 then 0 else 1), 0);
  }

  lemma PadTo8(pos: nat)
    ensures PadLen(pos, 8, 8) < 8 && (pos + PadLen(pos, 8, 8)) % 8 == 0
  {
    Modulo8(pos / 8 + (if pos % 8 == 0 then 0 else 1), 0);
  }

  /** Two positions an alignment cannot tell apart. */
  predicate Congruent(pos: nat, pos': nat, cap: nat)
    requires cap > 0
  {
    pos % cap == pos' % cap
  }

  lemma AdvanceCongruent(pos: nat, pos': nat, n: nat, cap: nat)
    requires cap in {4, 8} && Congruent(pos, pos', cap)
    ensures Congruent(pos + n, pos' + n, cap)
  {
    var x := pos % cap + n;
    if cap == 4 {
      Shifted4(pos / 4, x);
      Shifted4(pos' / 4, x);
    } else {
      Shifted8(pos / 8, x);
      Shifted8(pos' / 8, x);
    }
  }

  lemma Shifted4(q: nat, x: nat)
    ensures (4 * q + x) % 4 == x % 4
  {
    Modulo4(q + x / 4, x % 4);
  }

  lemma Shifted8(q: nat, x: nat)
    ensures (8 * q + x) % 8 == x % 8
  {
    Modulo8(q + x / 8, x % 8);
  }

  lemma CongruentMod4(pos: nat, pos': nat, cap: nat)
    requires cap in {4, 8} && Congruent(pos, pos', cap)
    ensures pos % 4 == pos' % 4
  {
    Remainders(pos);
    Remainders(pos');
  }

  /** With the caps and alignments XCDR uses, padding depends on the position modulo the cap only. */
  lemma PadPeriodic(pos: nat, pos': nat, align: nat, cap: nat)
    requires cap in {4, 8} && align in {1, 2, 4, 8} && Congruent(pos, pos', cap)
    ensures PadLen(pos, align, cap) == PadLen(pos', align, cap)
  {
    Remainders(pos);
    Remainders(pos');
    var a := if align > cap then cap else align;
    assert a == 1 || a == 2 || a == 4 || a == 8;
    assert pos % a == pos' % a;
  }

  lemma Remainders(x: nat)
    ensures (x % 8) % 4 == x % 4 && (x % 8) % 2 == x % 2 && (x % 4) % 2 == x % 2 && x % 1 == 0
  {
    Halves(x / 8, x % 8);
    Quarters(x / 8, x % 8);
    EvenOdd(x / 4, x % 4);
  }

  lemma Quarters(q: nat, r: nat)
    requires r < 8
    ensures (8 * q + r) % 4 == r % 4
  {
    if r < 4 {
      Modulo4(2 * q, r);
    } else {
      Modulo4(2 * q + 1, r - 4);
    }
  }

  lemma Halves(q: nat, r: nat)
    ensures (8 * q + r) % 2 == r % 2
  {
    Modulo2(4 * q + r / 2, r % 2);
  }

  lemma EvenOdd(q: nat, r: nat)
    ensures (4 * q + r) % 2 == r % 2
  {
    Modulo2(2 * q + r / 2, r % 2);
  }

  lemma Modulo2(q: nat, r: nat)
    requires r < 2
    ensures (2 * q + r) % 2 == r
  {
  }

  lemma Modulo8(q: nat, r: nat)
    requires r < 8
    ensures (8 * q + r) % 8 == r
  {
  }

  lemma Modulo4(q: nat, r: nat)
    requires r < 4
    ensures (4 * q + r) % 4 == r
  {
  }

  // ---- octets standing in a buffer ----

  /** `part` stands in `data` at `at`. */
  predicate At(data: Octets, at: nat, part: Octets) {
    at + |part| <= |data| && data[at..at + |part|] == part
  }

  lemma AtConcat(data: Octets, at: nat, a: Octets, b: Octets)
    ensures At(data, at, a + b) <==> At(data, at, a) && At(data, at + |a|, b)
  {
    if at + |a + b| <= |data| {
      var whole := data[at..at + |a + b|];
      assert whole[..|a|] == data[at..at + |a|] && whole[|a|..] == data[at + |a|..at + |a| + |b|];
      assert whole == whole[..|a|] + whole[|a|..];
      assert (a + b)[..|a|] == a && (a + b)[|a|..] == b;
    }
  }
}
