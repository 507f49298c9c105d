/** A wide string octet by octet, and big-endian text read by its mark or without one. */
module WstringLayout {
  import opened Common
  import opened Powers
  import opened XcdrOctets
  import opened XcdrValue
  import opened XcdrWriter
  import opened XcdrReader
  import opened Wstrings

  /** A unit in two or four octets. */
  function UnitForm(unit: U16, wide: bool, little: bool): Octets {
    match (wide, little)
    case (false, true) => [unit % 256, unit / 256]
    case (false, false) => [unit / 256, unit % 256]
    case (true, true) => [unit % 256, unit / 256, 0, 0]
    case (true, false) => [0, 0, unit / 256, unit % 256]
  }

  lemma UnitFormIs(unit: U16, wide: bool, little: bool)
    ensures ToOctets(little, unit, if wide then 4 else 2) == UnitForm(unit, wide, little)
  {
    hide ToOctets;
    OctetOrder(unit % 256, unit / 256, 0, 0);
  }

  /** The units of a text stand one after the other behind the length: in the order of the stream, always big-endian, or
      always little-endian. */
  lemma UnitStands(cfg: Config, text: seq<Scalar>, cell: Cell, order: UnitOrder, pos: nat, i: nat)
    requires cfg.Valid() && i < |WireUnits(text, cell, order)|
    ensures var little := if order == StreamOrder then cfg.little else order != BigEndianAlways;
            var width := if cell.wide then 4 else 2;
            var length := EncInt(cfg, LengthField(WireUnits(text, cell, order), cell) % 0x1_0000_0000, 4, pos);
            At(EncWstring(cfg, text, cell, order, pos), |length| + i * width,
               UnitForm(WireUnits(text, cell, order)[i], cell.wide, little))
  {
    hide ToOctets, EncInt, UnitOctets, WireUnits, UnitForm, LengthField, At;
    var units, width, little := WireUnits(text, cell, order), cell.Width(), LittleUnits(cfg, order);
    var length := EncInt(cfg, LengthField(units, cell) % 0x1_0000_0000, 4, pos);
    var data := EncWstring(cfg, text, cell, order, pos);
    WholeStands(data);
    AtConcat(data, 0, length, UnitOctets(units, width, little));
    UnitAmong(units, width, little, data, |length|, i);
    UnitFormIs(units[i], cell.wide, little);
  }

  lemma WholeStands(data: Octets)
    ensures At(data, 0, data)
  {
    assert data[0..|data|] == data;
  }

  lemma {:induction false} UnitAmong(units: seq<U16>, width: nat, little: bool, data: Octets, at: nat, i: nat)
    requires i < |units| && At(data, at, UnitOctets(units, width, little))
    ensures At(data, at + i * width, ToOctets(little, units[i], width))
    decreases i
  {
    hide ToOctets, At;
    var first := ToOctets(little, units[0], width);
    AtConcat(data, at, first, UnitOctets(units[1..], width, little));
    if i > 0 {
      UnitAmong(units[1..], width, little, data, at + width, i - 1);
      MulAdd(i - 1, 1, width);
    }
  }

  /** What the length counts: every unit on the wire, the mark and the terminator among them, or their octets. */
  lemma LengthCounts(text: seq<Scalar>, cell: Cell, order: UnitOrder)
    ensures var units := WireUnits(text, cell, order);
            var extra := (if cell.terminated then 1 else 0) +
                         (if order == ByteOrderMark && (text != [] || cell.terminated) then 1 else 0);
            && |units| == |Units(text)| + extra
            && LengthField(units, cell) == |units| * (if cell.countsCharacters then 1 else if cell.wide then 4 else 2)
            && (order == ByteOrderMark && |units| > 0 ==> units[0] == 0xFEFF)
            && (cell.terminated ==> units[|units| - 1] == 0)
  {
  }

  /** A length that counts two-octet units as characters takes exactly the texts that have as many of the one as of the
      other; every other length takes every text. */
  lemma AcceptedExactly(text: seq<Scalar>, cell: Cell)
    ensures Accepted(text, cell) <==> !cell.countsCharacters || cell.wide || |Units(text)| == |text|
  {
    UnitsAtLeast(text);
  }

  lemma {:induction false} UnitsAtLeast(text: seq<Scalar>)
    ensures |Units(text)| >= |text|
    ensures |Units(text)| == |text| <==> forall i :: 0 <= i < |text| ==> text[i] < 0x1_0000
  {
    if text != [] {
      UnitsAtLeast(text[1..]);
      assert text == [text[0]] + text[1..];
    }
  }

  /** A musical G clef, U+1D11E, in the form the specification gives it. */
  lemma ClefInUnits(little: bool, framing: Framing)
    requires framing.highestShortId < PID_ID_LIMIT
    ensures EncWstring(Config(little, 8, framing, false), [0x1D11E], Cell(false, false, false), StreamOrder, 0) ==
            if little then [4, 0, 0, 0, 0x34, 0xD8, 0x1E, 0xDD] else [0, 0, 0, 4, 0xD8, 0x34, 0xDD, 0x1E]
  {
    hide ToOctets;
    var units := WireUnits([0x1D11E], Cell(false, false, false), StreamOrder);
    assert [0x1D11E as Scalar][1..] == [];
    assert units == [0xD834, 0xDD1E];
    assert units[1..] == [0xDD1E] && units[1..][1..] == [];
    OctetOrder(4, 0, 0, 0);
    UnitFormIs(0xD834, false, little);
    UnitFormIs(0xDD1E, false, little);
    assert Zeros(0) == [];
  }

  // ---- big-endian text under the byte order mark ----

  lemma SwappedOf(low: Byte, high: Byte)
    ensures Swapped(Word16(low, high)) == Word16(high, low)
  {
  }

  lemma SwappedTwice(u: U16)
    ensures Swapped(Swapped(u)) == u && (Swapped(u) == 0 <==> u == 0)
    ensures (Swapped(u) == 0xFEFF <==> u == 0xFFFE) && (Swapped(u) == 0xFFFE <==> u == 0xFEFF)
  {
    hide Swapped;
    var low: Byte, high: Byte := u % 256, u / 256;
    assert u == Word16(low, high);
    SwappedOf(low, high);
    SwappedOf(high, low);
  }

  lemma SwappedBack(unit: U16)
    ensures FromOctets(true, ToOctets(false, unit, 2)) == Swapped(unit)
  {
    hide ToOctets, FromOctets, Pow;
    UnitFormIs(unit, false, false);
    OctetOrder(unit / 256, unit % 256, 0, 0);
    Pow256Of4();
    OctetsInverse(true, Swapped(unit), 2);
  }

  lemma {:induction false} UnitsSwapped(units: seq<U16>, data: Octets, at: nat)
    requires At(data, at, UnitOctets(units, 2, false))
    ensures UnitsAt(data, at, |units|, 2, true) == Some(AllSwapped(units))
    decreases |units|
  {
    hide ToOctets, FromOctets, At, Swapped;
    if units != [] {
      var first := ToOctets(false, units[0], 2);
      AtConcat(data, at, first, UnitOctets(units[1..], 2, false));
      UnitsSwapped(units[1..], data, at + 2);
      SwappedBack(units[0]);
      AtOctets(data, at, first);
      assert [Swapped(units[0])] + AllSwapped(units[1..]) == AllSwapped(units);
    }
  }

  lemma SwappedAgain(units: seq<U16>)
    ensures AllSwapped(AllSwapped(units)) == units
  {
    forall i | 0 <= i < |units| ensures AllSwapped(AllSwapped(units))[i] == units[i] {
      SwappedTwice(units[i]);
    }
  }

  /** The text of a frame whose units were read with their octets exchanged. */
  lemma SwappedFrame(text: seq<Scalar>, cell: Cell)
    requires !(cell.terminated && 0 in text)
    ensures text == [] || text[0] !in {0xFEFF, 0xFFFE} ==>
              TextOfFrame(AllSwapped(WireUnits(text, cell, BigEndianAlways)), cell, ByteOrderMark) == Some(text)
    ensures text != [] && text[0] == 0xFEFF ==>
              TextOfFrame(AllSwapped(WireUnits(text, cell, BigEndianAlways)), cell, ByteOrderMark) == Some(text[1..])
  {
    hide TextOfUnits, Units, Swapped;
    var units, wire := Units(text), WireUnits(text, cell, BigEndianAlways);
    SwappedTwice(0);
    NulUnits(text);
    TextOfItsUnits(text);
    var body := AllSwapped(units);
    forall i | 0 <= i < |units| ensures body[i] == 0 <==> units[i] == 0 { SwappedTwice(units[i]); }
    assert 0 !in body || !cell.terminated;
    if cell.terminated {
      assert AllSwapped(wire) == body + [0];
      assert AllSwapped(wire)[..|wire| - 1] == body;
    } else {
      assert wire == units;
    }
    if text != [] {
      LeadingUnit(text);
      SwappedTwice(units[0]);
      if text[0] == 0xFEFF {
        TextOfItsUnits(text[1..]);
        assert body[1..] == AllSwapped(units[1..]);
        SwappedAgain(units[1..]);
      } else {
        SwappedAgain(units);
      }
    } else {
      NoUnits();
    }
  }

  lemma LeadingUnit(text: seq<Scalar>)
    requires text != []
    ensures Units(text) != []
    ensures text[0] < 0x1_0000 ==> Units(text)[0] == text[0] && Units(text)[1..] == Units(text[1..])
    ensures text[0] >= 0x1_0000 ==> Units(text)[0] !in {0xFEFF, 0xFFFE}
  {
  }

  /** Big-endian text of two-octet units, with the mark in front or without one, reads back under the byte order mark: a
      leading U+FEFF is taken for the mark and gone, and without it the text is as it was written. */
  lemma BigEndianIsRead(cfg: Config, text: seq<Scalar>, cell: Cell, data: Octets, at: nat, origin: nat)
    requires cfg.Valid() && origin <= at && !cell.wide && !(cell.terminated && 0 in text)
    requires LengthField(WireUnits(text, cell, BigEndianAlways), cell) < 0x1_0000_0000
    requires At(data, at, EncWstring(cfg, text, cell, BigEndianAlways, at - origin))
    ensures var end := at + |EncWstring(cfg, text, cell, BigEndianAlways, at - origin)|;
            var read := WstringAt(cfg, data, at, origin, cell, ByteOrderMark);
            && (text == [] || text[0] !in {0xFEFF, 0xFFFE} ==> read == Some(Read(text, end)))
            && (text != [] && text[0] == 0xFEFF ==> read == Some(Read(text[1..], end)))
  {
    hide ToOctets, Pow, At, UnitsAt, UnitOctets, TextOfFrame, WireUnits, UnsignedAt, EncInt, UnitCount, AllSwapped;
    var units := WireUnits(text, cell, BigEndianAlways);
    var declared := LengthField(units, cell);
    var length := EncInt(cfg, declared, 4, at - origin);
    Pow256Of4();
    AtConcat(data, at, length, UnitOctets(units, 2, false));
    UnsignedBack(cfg, declared, 4, data, at, origin);
    CountBack(|units|, cell);
    UnitsSwapped(units, data, at + |length|);
    UnitsBack(units, 2, false, data, at + |length|);
    SwappedFrame(text, cell);
  }
}
