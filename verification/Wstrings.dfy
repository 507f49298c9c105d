/** Wide strings: UTF-16 units in eight length, terminator and width cells and four unit orders. */
module Wstrings {
  import opened Common
  import opened Powers
  import opened XcdrOctets
  import opened XcdrValue
  import opened XcdrWriter
  import opened XcdrReader
  import Utf8

  type Scalar = Utf8.Scalar

  /** What the length counts, whether a NUL ends the text, and the octets of a unit. */
  datatype Cell = Cell(countsCharacters: bool, terminated: bool, wide: bool)
  {
    function Width(): nat { if wide then 4 else 2 }
  }

  datatype UnitOrder = StreamOrder | BigEndianAlways | ByteOrderMark | HostUnswapped

  const BYTE_ORDER_MARK: U16 := 0xFEFF
  const SWAPPED_BYTE_ORDER_MARK: U16 := 0xFFFE

  // ---- UTF-16 ----

  function UnitsOfScalar(c: Scalar): seq<U16> {
    if c < 0x1_0000 then [c] else [0xD800 + (c - 0x1_0000) / 0x400, 0xDC00 + (c - 0x1_0000) % 0x400]
  }

  function Units(text: seq<Scalar>): seq<U16> {
    if text == [] then [] else UnitsOfScalar(text[0]) + Units(text[1..])
  }

  predicate IsHigh(u: U16) { 0xD800 <= u <= 0xDBFF }

  predicate IsLow(u: U16) { 0xDC00 <= u <= 0xDFFF }

  /** The text of a run of units, unless there is a lone surrogate in it. */
  function TextOfUnits(units: seq<U16>): Option<seq<Scalar>> {
    if units == [] then Some([])
    else if IsHigh(units[0]) && 1 < |units| && IsLow(units[1]) then
      Prepend(0x1_0000 + (units[0] as int - 0xD800) * 0x400 + (units[1] as int - 0xDC00), TextOfUnits(units[2..]))
    else if IsHigh(units[0]) || IsLow(units[0]) then None
    else Prepend(units[0], TextOfUnits(units[1..]))
  }

  function Prepend(c: Scalar, rest: Option<seq<Scalar>>): Option<seq<Scalar>> {
    match rest
    case None => None
    case Some(text) => Some([c] + text)
  }

  /** Decoding UTF-16 inverts encoding it, surrogate pairs included. */
  lemma {:induction false} TextOfItsUnits(text: seq<Scalar>)
    ensures TextOfUnits(Units(text)) == Some(text)
  {
    if text != [] {
      TextOfItsUnits(text[1..]);
      var c, rest := text[0], Units(text[1..]);
      assert text == [c] + text[1..];
      if c < 0x1_0000 {
        assert Units(text)[1..] == rest;
      } else {
        PairBack(c);
        assert Units(text)[2..] == rest;
      }
    }
  }

  lemma PairBack(c: Scalar)
    requires c >= 0x1_0000
    ensures var pair := UnitsOfScalar(c);
            && |pair| == 2 && IsHigh(pair[0]) && IsLow(pair[1])
            && 0x1_0000 + (pair[0] as int - 0xD800) * 0x400 + (pair[1] as int - 0xDC00) == c
  {
  }

  lemma {:induction false} UnitsAppend(text: seq<Scalar>, c: Scalar)
    ensures Units(text + [c]) == Units(text) + UnitsOfScalar(c)
  {
    if text == [] {
      assert text + [c] == [c] && [c][1..] == [];
    } else {
      assert (text + [c])[1..] == text[1..] + [c];
      UnitsAppend(text[1..], c);
    }
  }

  /** The units of a text given as UTF-8, refused exactly if it is not UTF-8. */
  method Utf16UnitsOf(v: Octets) returns (units: Option<seq<U16>>)
    ensures units == if Utf8.Valid(v) then Some(Units(Utf8.Decode(v).value)) else None
  {
    hide Units, Utf8.Decode, Utf8.DecodeRune;
    var out: seq<U16> := [];
    ghost var done: seq<Scalar> := [];
    NoUnits();
    JoinedNone(Utf8.Decode(v));
    assert v[0..] == v;
    var i := 0;
    while i < |v|
      invariant 0 <= i <= |v| && out == Units(done)
      invariant Utf8.Decode(v) == Joined(done, Utf8.Decode(v[i..]))
      decreases |v| - i
    {
      var rune := Utf8.DecodeRune(v[i..]);
      DecodeNext(v[i..]);
      if rune.None? {
        return None;
      }
      var c, size := rune.value.scalar as int, rune.value.size;
      assert v[i..][size..] == v[i + size..];
      JoinedPrepend(done, c, Utf8.Decode(v[i + size..]));
      UnitsAppend(done, c);
      if c < 0x1_0000 {
        out := out + [c];
      } else {
        var offset: nat := c - 0x1_0000;
        out := out + [0xD800 + offset / 0x400, 0xDC00 + offset % 0x400];
      }
      done := done + [c];
      i := i + size;
    }
    NoOctets();
    assert v[i..] == [] && done + [] == done;
    units := Some(out);
  }

  lemma DecodeNext(b: Octets)
    requires b != []
    ensures Utf8.Decode(b) ==
            match Utf8.DecodeRune(b)
            case None => None
            case Some(rune) => Prepend(rune.scalar, Utf8.Decode(b[rune.size..]))
  {
    hide Utf8.DecodeRune;
  }

  lemma NoOctets()
    ensures Utf8.Decode([]) == Some([])
  {
  }

  lemma NoUnits()
    ensures Units([]) == []
  {
  }

  /** The text as the reader puts it together, refusing a lone surrogate. */
  method TextOf(units: seq<U16>) returns (text: Option<seq<Scalar>>)
    ensures text == TextOfUnits(units)
  {
    var out: seq<Scalar> := [];
    var i := 0;
    assert units[0..] == units;
    JoinedNone(TextOfUnits(units));
    while i < |units|
      invariant 0 <= i <= |units|
      invariant TextOfUnits(units) == Joined(out, TextOfUnits(units[i..]))
    {
      var unit := units[i];
      ghost var rest := units[i..];
      assert rest[0] == unit && (|rest| > 1 ==> rest[1] == units[i + 1]);
      if IsHigh(unit) && i + 1 < |units| && IsLow(units[i + 1]) {
        var c: Scalar := 0x1_0000 + (unit as int - 0xD800) * 0x400 + (units[i + 1] as int - 0xDC00);
        assert rest[2..] == units[i + 2..];
        JoinedPrepend(out, c, TextOfUnits(units[i + 2..]));
        out := out + [c];
        i := i + 2;
      } else if IsHigh(unit) || IsLow(unit) {
        return None;
      } else {
        assert rest[1..] == units[i + 1..];
        JoinedPrepend(out, unit, TextOfUnits(units[i + 1..]));
        out := out + [unit];
        i := i + 1;
      }
    }
    assert units[i..] == [];
    assert out + [] == out;
    text := Some(out);
  }

  function Joined(out: seq<Scalar>, rest: Option<seq<Scalar>>): Option<seq<Scalar>> {
    match rest
    case None => None
    case Some(text) => Some(out + text)
  }

  lemma JoinedNone(rest: Option<seq<Scalar>>)
    ensures Joined([], rest) == rest
  {
    if rest.Some? { assert [] + rest.value == rest.value; }
  }

  lemma JoinedPrepend(out: seq<Scalar>, c: Scalar, rest: Option<seq<Scalar>>)
    ensures Joined(out, Prepend(c, rest)) == Joined(out + [c], rest)
  {
    if rest.Some? { assert out + ([c] + rest.value) == out + [c] + rest.value; }
  }

  // ---- the frame ----

  /** The units on the wire: a mark in front of any, a NUL behind. */
  function WireUnits(text: seq<Scalar>, cell: Cell, order: UnitOrder): seq<U16> {
    var units := Units(text) + (if cell.terminated then [0] else []);
    if order == ByteOrderMark && |units| > 0 then [BYTE_ORDER_MARK] + units else units
  }

  function Swapped(u: U16): U16 { Word16(Hi(u), Lo(u)) }

  function AllSwapped(units: seq<U16>): (r: seq<U16>)
    ensures |r| == |units|
  {
    seq(|units|, i requires 0 <= i < |units| => Swapped(units[i]))
  }

  /** Units read least significant octet first, put right by the mark in front of them; none means big-endian. */
  function StripByteOrderMark(units: seq<U16>): seq<U16> {
    if units == [] then units
    else if units[0] == BYTE_ORDER_MARK then units[1..]
    else AllSwapped(if units[0] == SWAPPED_BYTE_ORDER_MARK then units[1..] else units)
  }

  /** What the reader makes of the units of a frame. */
  function TextOfFrame(units: seq<U16>, cell: Cell, order: UnitOrder): Option<seq<Scalar>> {
    if cell.terminated && (units == [] || units[|units| - 1] != 0 || 0 in units[..|units| - 1]) then None
    else
      var body := if cell.terminated then units[..|units| - 1] else units;
      TextOfUnits(if order == ByteOrderMark then StripByteOrderMark(body) else body)
  }

  lemma {:induction false} NulUnits(text: seq<Scalar>)
    ensures 0 in Units(text) <==> 0 in text
  {
    if text != [] {
      NulUnits(text[1..]);
      assert text == [text[0]] + text[1..];
      var first := UnitsOfScalar(text[0]);
      assert 0 in first <==> text[0] == 0;
    }
  }

  /** The reader undoes the frame, except that it refuses a NUL inside a terminated text. */
  lemma FrameBack(text: seq<Scalar>, cell: Cell, order: UnitOrder)
    ensures TextOfFrame(WireUnits(text, cell, order), cell, order) ==
            if cell.terminated && 0 in text then None else Some(text)
  {
    hide TextOfUnits, Units;
    var units := WireUnits(text, cell, order);
    NulUnits(text);
    TextOfItsUnits(text);
    var marked := order == ByteOrderMark && (cell.terminated || Units(text) != []);
    var mark: seq<U16> := if marked then [BYTE_ORDER_MARK] else [];
    if cell.terminated {
      assert units == mark + Units(text) + [0];
      assert units[..|units| - 1] == mark + Units(text);
    } else {
      assert units == mark + Units(text);
    }
    if marked {
      assert (mark + Units(text))[1..] == Units(text);
    } else {
      assert mark + Units(text) == Units(text);
    }
  }

  // ---- octets ----

  /** Whether a unit goes least significant octet first. */
  function LittleUnits(cfg: Config, order: UnitOrder): bool {
    match order
    case StreamOrder => cfg.little
    case BigEndianAlways => false
    case _ => true
  }

  function UnitOctets(units: seq<U16>, width: nat, little: bool): Octets {
    if units == [] then [] else ToOctets(little, units[0], width) + UnitOctets(units[1..], width, little)
  }

  /** The length field: characters or octets. */
  function LengthField(units: seq<U16>, cell: Cell): nat {
    if cell.countsCharacters then |units| else |units| * cell.Width()
  }

  function EncWstring(cfg: Config, text: seq<Scalar>, cell: Cell, order: UnitOrder, pos: nat): Octets
    requires cfg.Valid()
  {
    var units := WireUnits(text, cell, order);
    EncInt(cfg, LengthField(units, cell) % 0x1_0000_0000, 4, pos) +
    UnitOctets(units, cell.Width(), LittleUnits(cfg, order))
  }

  /** Which texts a cell takes: where each unit counts as a character, only those of one unit per character. */
  predicate Accepted(text: seq<Scalar>, cell: Cell) {
    cell.countsCharacters && !cell.wide ==> forall i :: 0 <= i < |text| ==> text[i] < 0x1_0000
  }

  lemma {:induction false} SurrogatesTell(text: seq<Scalar>)
    ensures (exists i :: 0 <= i < |Units(text)| && 0xD800 <= Units(text)[i] <= 0xDFFF) <==>
            (exists i :: 0 <= i < |text| && text[i] >= 0x1_0000)
  {
    if text != [] {
      SurrogatesTell(text[1..]);
      var first, rest := UnitsOfScalar(text[0]), Units(text[1..]);
      assert Units(text) == first + rest;
      assert text == [text[0]] + text[1..];
      if i :| 0 <= i < |rest| && 0xD800 <= rest[i] <= 0xDFFF { assert Units(text)[|first| + i] == rest[i]; }
      if i :| 0 <= i < |text[1..]| && text[1..][i] >= 0x1_0000 { assert text[i + 1] == text[1..][i]; }
      if text[0] >= 0x1_0000 { assert Units(text)[0] == first[0] && 0xD800 <= first[0] <= 0xDFFF; }
    }
  }

  method WriteWstring(w: Writer, v: Octets, cell: Cell, order: UnitOrder) returns (ok: bool)
    requires w.Valid()
    modifies w`out
    ensures w.Valid() && (ok <==> Utf8.Valid(v) && Accepted(Utf8.Decode(v).value, cell))
    ensures w.out == if ok then old(w.out) + EncWstring(w.cfg, Utf8.Decode(v).value, cell, order, old(w.Pos()))
                     else old(w.out)
  {
    hide ToOctets, PadLen, EncInt, UnitOctets, Units, Utf8.Decode;
    var decoded := Utf16UnitsOf(v);
    if decoded.None? {
      return false;
    }
    var units := decoded.value;
    ghost var text := Utf8.Decode(v).value;
    SurrogatesTell(text);
    if cell.countsCharacters && !cell.wide {
      for i := 0 to |units|
        invariant forall k :: 0 <= k < i ==> !(0xD800 <= units[k] <= 0xDFFF)
      {
        if 0xD800 <= units[i] <= 0xDFFF {
          return false;
        }
      }
    }
    if cell.terminated {
      units := units + [0];
    }
    if order == ByteOrderMark && |units| > 0 {
      units := [BYTE_ORDER_MARK] + units;
    }
    assert Units(text) + [] == Units(text);
    assert units == WireUnits(text, cell, order);
    w.WriteInt(LengthField(units, cell) % 0x1_0000_0000, 4);
    AfterLength(w.cfg, LengthField(units, cell) % 0x1_0000_0000, old(w.Pos()));
    WriteUnits(w, units, cell.Width(), LittleUnits(w.cfg, order));
    ok := true;
  }

  /** Behind the length no unit needs padding. */
  lemma AfterLength(cfg: Config, v: nat, pos: nat)
    requires cfg.Valid()
    ensures (pos + |EncInt(cfg, v, 4, pos)|) % 4 == 0
  {
    OnBoundary(pos, cfg.maxAlign);
  }

  method WriteUnit(w: Writer, unit: U16, width: nat, little: bool)
    requires w.Valid() && width in {2, 4} && w.Pos() % width == 0
    modifies w`out
    ensures w.Valid() && w.out == old(w.out) + ToOctets(little, unit, width)
  {
    hide ToOctets, PadLen;
    NoPad(w.Pos(), width, w.cfg.maxAlign);
    w.AlignTo(width);
    assert Zeros(0) == [];
    w.out := w.out + ToOctets(little, unit, width);
  }

  method WriteUnits(w: Writer, units: seq<U16>, width: nat, little: bool)
    requires w.Valid() && width in {2, 4} && w.Pos() % width == 0
    modifies w`out
    ensures w.Valid() && w.out == old(w.out) + UnitOctets(units, width, little)
  {
    hide ToOctets, UnitOctets;
    assert units[0..] == units;
    for i := 0 to |units|
      invariant w.Valid() && w.Pos() % width == 0
      invariant w.out + UnitOctets(units[i..], width, little) == old(w.out) + UnitOctets(units, width, little)
    {
      ghost var before := w.out;
      WriteUnit(w, units[i], width, little);
      NextUnit(units, i, width, little);
      Grouped(before, ToOctets(little, units[i], width), UnitOctets(units[i + 1..], width, little));
      NextMultiple(|before| - w.origin, width);
    }
    NoUnitOctets(width, little);
    assert units[|units|..] == [] && w.out + [] == w.out;
  }

  lemma NextMultiple(pos: nat, width: nat)
    requires width in {2, 4} && pos % width == 0
    ensures (pos + width) % width == 0
  {
    if width == 2 {
      Multiple(2, pos / 2 + 1, pos + 2);
    } else {
      Multiple(4, pos / 4 + 1, pos + 4);
    }
  }

  lemma Grouped(a: Octets, b: Octets, c: Octets)
    ensures a + (b + c) == a + b + c
  {
  }

  lemma NextUnit(units: seq<U16>, i: nat, width: nat, little: bool)
    requires i < |units|
    ensures UnitOctets(units[i..], width, little) ==
            ToOctets(little, units[i], width) + UnitOctets(units[i + 1..], width, little)
  {
    assert units[i..][1..] == units[i + 1..];
  }

  lemma NoUnitOctets(width: nat, little: bool)
    ensures UnitOctets([], width, little) == []
  {
  }

  // ---- reading ----

  /** `count` units from `at`; a four-octet unit above sixteen bits is refused. */
  function UnitsAt(data: Octets, at: nat, count: nat, width: nat, little: bool): (r: Option<seq<U16>>)
    ensures r.Some? ==> |r.value| == count
    decreases count
  {
    if count == 0 then Some([])
    else if at + width > |data| then None
    else
      var unit := FromOctets(little, data[at..at + width]);
      if unit > 0xFFFF then None
      else
        match UnitsAt(data, at + width, count - 1, width, little)
        case None => None
        case Some(rest) => Some([unit] + rest)
  }

  /** The number of units a length field announces, refused if the width does not divide it. */
  function UnitCount(declared: nat, cell: Cell): Option<nat> {
    if cell.countsCharacters then Some(declared)
    else if declared % cell.Width() != 0 then None
    else Some(declared / cell.Width())
  }

  function WstringAt(cfg: Config, data: Octets, at: nat, origin: nat, cell: Cell,
                     order: UnitOrder): Option<Read<seq<Scalar>>>
    requires cfg.Valid() && origin <= at
  {
    match UnsignedAt(cfg, data, at, origin, 4)
    case None => None
    case Some(declared) =>
      match UnitCount(declared.value, cell)
      case None => None
      case Some(count) =>
        match UnitsAt(data, declared.at, count, cell.Width(), LittleUnits(cfg, order))
        case None => None
        case Some(units) =>
          match TextOfFrame(units, cell, order)
          case None => None
          case Some(text) => Some(Read(text, declared.at + count * cell.Width()))
  }

  lemma {:induction false} UnitsBack(units: seq<U16>, width: nat, little: bool, data: Octets, at: nat)
    requires width in {2, 4} && At(data, at, UnitOctets(units, width, little))
    ensures UnitsAt(data, at, |units|, width, little) == Some(units)
    ensures |UnitOctets(units, width, little)| == |units| * width
    decreases |units|
  {
    hide ToOctets, FromOctets, Pow, At;
    if units != [] {
      var first := ToOctets(little, units[0], width);
      AtConcat(data, at, first, UnitOctets(units[1..], width, little));
      UnitsBack(units[1..], width, little, data, at + width);
      Pow256Of4();
      OctetsInverse(little, units[0], width);
      AtOctets(data, at, first);
      assert units == [units[0]] + units[1..];
    }
  }

  lemma AtOctets(data: Octets, at: nat, part: Octets)
    requires At(data, at, part)
    ensures at + |part| <= |data| && data[at..at + |part|] == part
  {
  }

  lemma CountBack(n: nat, cell: Cell)
    ensures UnitCount(if cell.countsCharacters then n else n * cell.Width(), cell) == Some(n)
  {
  }

  /** What was written for a text reads back as that text, in every cell and order, wherever it stands, exactly
      if its length fits the field and a terminated text holds no NUL. */
  lemma WstringBack(cfg: Config, text: seq<Scalar>, cell: Cell, order: UnitOrder, data: Octets, at: nat, origin: nat)
    requires cfg.Valid() && origin <= at && At(data, at, EncWstring(cfg, text, cell, order, at - origin))
    ensures var end := at + |EncWstring(cfg, text, cell, order, at - origin)|;
            WstringAt(cfg, data, at, origin, cell, order) == Some(Read(text, end)) <==>
            LengthField(WireUnits(text, cell, order), cell) < 0x1_0000_0000 && !(cell.terminated && 0 in text)
  {
    hide At, TextOfFrame, WireUnits, UnsignedAt, EncInt, EncWstring, WstringAt;
    var units := WireUnits(text, cell, order);
    if LengthField(units, cell) < 0x1_0000_0000 {
      ShortWstringBack(cfg, text, cell, order, data, at, origin);
    } else {
      LongWstringLeavesRest(cfg, text, cell, order, data, at, origin);
    }
  }

  lemma ShortWstringBack(cfg: Config, text: seq<Scalar>, cell: Cell, order: UnitOrder, data: Octets, at: nat,
                         origin: nat)
    requires cfg.Valid() && origin <= at && At(data, at, EncWstring(cfg, text, cell, order, at - origin))
    requires LengthField(WireUnits(text, cell, order), cell) < 0x1_0000_0000
    ensures WstringAt(cfg, data, at, origin, cell, order) ==
            if cell.terminated && 0 in text then None
            else Some(Read(text, at + |EncWstring(cfg, text, cell, order, at - origin)|))
  {
    hide ToOctets, Pow, At, UnitsAt, UnitOctets, TextOfFrame, WireUnits, UnsignedAt, EncInt, UnitCount;
    var units, width, little := WireUnits(text, cell, order), cell.Width(), LittleUnits(cfg, order);
    var declared := LengthField(units, cell);
    var length := EncInt(cfg, declared, 4, at - origin);
    Pow256Of4();
    AtConcat(data, at, length, UnitOctets(units, width, little));
    UnsignedBack(cfg, declared, 4, data, at, origin);
    CountBack(|units|, cell);
    UnitsBack(units, width, little, data, at + |length|);
    FrameBack(text, cell, order);
  }

  /** A length that does not fit is written short, so that the reader stops before the last unit. */
  lemma LongWstringLeavesRest(cfg: Config, text: seq<Scalar>, cell: Cell, order: UnitOrder, data: Octets, at: nat,
                              origin: nat)
    requires cfg.Valid() && origin <= at && At(data, at, EncWstring(cfg, text, cell, order, at - origin))
    requires LengthField(WireUnits(text, cell, order), cell) >= 0x1_0000_0000
    ensures var r := WstringAt(cfg, data, at, origin, cell, order);
            r.Some? ==> r.value.at < at + |EncWstring(cfg, text, cell, order, at - origin)|
  {
    hide ToOctets, Pow, At, UnitsAt, UnitOctets, TextOfFrame, WireUnits, UnsignedAt, EncInt, UnitCount;
    var units, width, little := WireUnits(text, cell, order), cell.Width(), LittleUnits(cfg, order);
    var declared := LengthField(units, cell) % 0x1_0000_0000;
    var length := EncInt(cfg, declared, 4, at - origin);
    Pow256Of4();
    AtConcat(data, at, length, UnitOctets(units, width, little));
    UnsignedBack(cfg, declared, 4, data, at, origin);
    UnitsBack(units, width, little, data, at + |length|);
    FewerUnits(|units|, declared, cell);
  }

  lemma FewerUnits(n: nat, declared: nat, cell: Cell)
    requires declared < if cell.countsCharacters then n else n * cell.Width()
    ensures var count := UnitCount(declared, cell); count.Some? ==> count.value * cell.Width() < n * cell.Width()
  {
  }

  lemma {:induction false} UnitsInside(data: Octets, at: nat, count: nat, width: nat, little: bool)
    requires UnitsAt(data, at, count, width, little).Some? && at <= |data|
    ensures at + count * width <= |data|
    decreases count
  {
    if count > 0 {
      UnitsInside(data, at + width, count - 1, width, little);
      MulAdd(count - 1, 1, width);
    } else {
      assert 0 * width == 0;
    }
  }

  method ReadUnit(r: Reader, width: nat, little: bool) returns (unit: Option<U16>)
    requires r.Valid() && width in {2, 4} && (r.at - r.origin) % width == 0 && r.at + width <= |r.data|
    modifies r`at
    ensures r.Valid() && r.at == old(r.at) + width
    ensures var value := FromOctets(little, r.data[old(r.at)..old(r.at) + width]);
            unit == if value > 0xFFFF then None else Some(value)
  {
    hide FromOctets, PadLen;
    NoPad(r.at - r.origin, width, r.cfg.maxAlign);
    r.AlignTo(width);
    var raw := r.Take(width);
    var value := Assemble(little, raw.value);
    unit := if value > 0xFFFF then None else Some(value);
  }

  method ReadUnits(r: Reader, count: nat, width: nat, little: bool) returns (units: Option<seq<U16>>)
    requires r.Valid() && width in {2, 4} && (r.at - r.origin) % width == 0 && r.at <= |r.data|
    modifies r`at
    ensures r.Valid() && units == UnitsAt(r.data, old(r.at), count, width, little)
    ensures units.Some? ==> r.at == old(r.at) + count * width
  {
    hide FromOctets, UnitsAt;
    ghost var start := r.at;
    if count * width > |r.data| - r.at {
      if UnitsAt(r.data, start, count, width, little).Some? {
        UnitsInside(r.data, start, count, width, little);
      }
      return None;
    }
    var out: seq<U16> := [];
    ghost var all := UnitsAt(r.data, start, count, width, little);
    JoinedUnits(all);
    for i := 0 to count
      invariant r.Valid() && r.at == start + i * width && (r.at - r.origin) % width == 0
      invariant all == UnitsThen(out, UnitsAt(r.data, r.at, count - i, width, little))
    {
      MulMono(i + 1, count, width);
      MulAdd(i, 1, width);
      NextMultiple(r.at - r.origin, width);
      UnitsAtNext(r.data, r.at, count - i, width, little, out);
      var unit := ReadUnit(r, width, little);
      if unit.None? {
        return None;
      }
      out := out + [unit.value];
    }
    NoUnitsAt(r.data, r.at, width, little);
    assert out + [] == out;
    units := Some(out);
  }

  function UnitsThen(out: seq<U16>, rest: Option<seq<U16>>): Option<seq<U16>> {
    match rest
    case None => None
    case Some(units) => Some(out + units)
  }

  lemma JoinedUnits(rest: Option<seq<U16>>)
    ensures UnitsThen([], rest) == rest
  {
    if rest.Some? { assert [] + rest.value == rest.value; }
  }

  lemma NoUnitsAt(data: Octets, at: nat, width: nat, little: bool)
    ensures UnitsAt(data, at, 0, width, little) == Some([])
  {
  }

  lemma UnitsAtNext(data: Octets, at: nat, count: nat, width: nat, little: bool, out: seq<U16>)
    requires count > 0 && at + width <= |data|
    ensures var unit := FromOctets(little, data[at..at + width]);
            UnitsThen(out, UnitsAt(data, at, count, width, little)) ==
            if unit > 0xFFFF then None else UnitsThen(out + [unit], UnitsAt(data, at + width, count - 1, width, little))
  {
    hide FromOctets;
    var unit := FromOctets(little, data[at..at + width]);
    var rest := UnitsAt(data, at + width, count - 1, width, little);
    if unit <= 0xFFFF && rest.Some? { assert out + ([unit] + rest.value) == out + [unit] + rest.value; }
  }

  /** Reads the length, the units, and the text out of them, and gives it as UTF-8. */
  method ReadWstring(r: Reader, cell: Cell, order: UnitOrder) returns (v: Option<Octets>)
    requires r.Valid()
    modifies r`at
    ensures r.Valid()
    ensures var read := WstringAt(r.cfg, r.data, old(r.at), r.origin, cell, order);
            && (v.Some? <==> read.Some?)
            && (v.Some? ==> v.value == Utf8.Encode(read.value.value) && r.at == read.value.at)
  {
    hide UnitsAt, TextOfFrame, PadLen, FromOctets, UnsignedAt;
    var declared := r.ReadUnsigned(4);
    if declared.None? {
      return None;
    }
    var width := cell.Width();
    var count := declared.value;
    if !cell.countsCharacters {
      if declared.value % width != 0 {
        return None;
      }
      count := declared.value / width;
    }
    AfterLengthRead(r.cfg, r.data, old(r.at), r.origin);
    var units := ReadUnits(r, count, width, LittleUnits(r.cfg, order));
    if units.None? {
      return None;
    }
    var text := TextInFrame(units.value, cell, order);
    v := if text.None? then None else Some(Utf8.Encode(text.value));
  }

  /** Written and read back, a string is the same octets again, exactly if it is UTF-8 that the cell takes, its length
      fits the field and a terminated text holds no NUL. */
  method WriteThenRead(cfg: Config, v: Octets, cell: Cell, order: UnitOrder) returns (same: bool)
    requires cfg.Valid()
    ensures same <==>
              && Utf8.Valid(v) && Accepted(Utf8.Decode(v).value, cell)
              && LengthField(WireUnits(Utf8.Decode(v).value, cell, order), cell) < 0x1_0000_0000
              && !(cell.terminated && 0 in Utf8.Decode(v).value)
  {
    hide Utf8.Decode, Utf8.Encode, EncWstring, WstringAt, LengthField, WireUnits, Accepted;
    var w := new Writer(cfg);
    var ok := WriteWstring(w, v, cell, order);
    if !ok {
      return false;
    }
    var data := w.out;
    ghost var text := Utf8.Decode(v).value;
    assert At(data, 0, EncWstring(cfg, text, cell, order, 0)) by {
      assert data == EncWstring(cfg, text, cell, order, 0);
    }
    WstringBack(cfg, text, cell, order, data, 0, 0);
    Utf8.ValidIsEncoded(v);
    var r := new Reader(cfg, data);
    var back := ReadWstring(r, cell, order);
    if back.Some? {
      Utf8.DecodeInvertsEncode(WstringAt(cfg, data, 0, 0, cell, order).value.value);
    }
    same := back == Some(v) && r.at == |data|;
  }

  /** A terminated text must end in a NUL and hold no other. */
  method TextInFrame(units: seq<U16>, cell: Cell, order: UnitOrder) returns (text: Option<seq<Scalar>>)
    ensures text == TextOfFrame(units, cell, order)
  {
    hide TextOfUnits;
    var body := units;
    if cell.terminated {
      if |body| < 1 || body[|body| - 1] != 0 {
        return None;
      }
      body := body[..|body| - 1];
      for i := 0 to |body|
        invariant forall k :: 0 <= k < i ==> body[k] != 0
      {
        if body[i] == 0 {
          return None;
        }
      }
    }
    if order == ByteOrderMark {
      body := StripByteOrderMark(body);
    }
    text := TextOf(body);
  }

  lemma AfterLengthRead(cfg: Config, data: Octets, at: nat, origin: nat)
    requires cfg.Valid() && origin <= at && UnsignedAt(cfg, data, at, origin, 4).Some?
    ensures var read := UnsignedAt(cfg, data, at, origin, 4).value;
            read.at <= |data| && (read.at - origin) % 4 == 0 && (read.at - origin) % 2 == 0
  {
    hide FromOctets, PadLen;
    var pos := at - origin;
    OnBoundary(pos, cfg.maxAlign);
    Fourths(pos + PadLen(pos, 4, cfg.maxAlign));
    Fourths(pos + PadLen(pos, 4, cfg.maxAlign) + 4);
  }
}
