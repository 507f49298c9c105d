/**
 Where the numbers and texts of a value stand in its encoding: each at a boundary
 of its own, counted from the origin that holds there, in the order of the value.
 */
module XcdrAlignment {
  import opened Common
  import opened Powers
  import opened XcdrOctets
  import opened XcdrValue
  import opened XcdrWriter
  import opened XcdrRoundTrip

  /** The parameter that holds an item: its id and flag. */
  datatype Owner = Sample | Parameter(id: nat, must: bool)

  /** A number of `width` octets, or one octet after the other, and the innermost parameter it is in. */
  datatype Item = Number(width: nat, bits: nat, owner: Owner) | Raw(octets: Octets, owner: Owner) {
    function Written(little: bool): Octets {
      if Number? then ToOctets(little, bits, width) else octets
    }

    function Boundary(cap: nat): nat {
      if Number? then XcdrOctets.Boundary(width, cap) else 1
    }
  }

  /** The numbers and texts of a value, a length or count before what it counts, in order, at every depth. */
  function Items(v: Value, owner: Owner): seq<Item>
    decreases v, 0
  {
    match v
    case Prim(width, bits) => [Number(width, bits, owner)]
    case Str(octets) => [Number(4, |octets| + 1, owner), Raw(octets, owner), Number(1, 0, owner)]
    case Blob(octets) => [Number(4, |octets|, owner), Raw(octets, owner)]
    case Aggregate(ext, members) => MemberItems(members, ext, owner)
    case Sequence(elements) => [Number(4, Count(elements), owner)] + ElementItems(elements, owner)
  }

  function ElementItems(vs: Values, owner: Owner): seq<Item>
    decreases vs, 0
  {
    match vs
    case NoValues => []
    case ValueThen(v, tail) => Items(v, owner) + ElementItems(tail, owner)
  }

  function MemberItems(ms: Members, ext: Extensibility, owner: Owner): seq<Item>
    decreases ms, 0
  {
    match ms
    case NoMembers => []
    case Member(id, must, v, rest) =>
      Items(v, if ext.ParameterList? then Parameter(id, must) else owner) + MemberItems(rest, ext, owner)
  }

  /** Where an item begins, and the octet its alignment is counted from. */
  datatype Place = Place(at: nat, origin: nat)

  /** A header of the parameter, in either form, ends where its value begins. */
  ghost predicate HeaderBefore(cfg: Config, data: Octets, origin: nat, id: nat, must: bool) {
    exists declared: nat ::
      var header := FinalHeader(cfg, id, must, declared);
      |header| <= origin && At(data, origin - |header|, header)
  }

  /** Outside parameters the origin is the sample's, inside one it is the first octet of its value. */
  ghost predicate OriginOf(cfg: Config, data: Octets, owner: Owner, origin: nat, sample: nat) {
    match owner
    case Sample => origin == sample
    case Parameter(id, must) => HeaderBefore(cfg, data, origin, id, must)
  }

  /** The item stands at the place, on its boundary. */
  ghost predicate Stands(cfg: Config, data: Octets, item: Item, place: Place, sample: nat)
    requires cfg.Valid()
  {
    && At(data, place.at, item.Written(cfg.little))
    && place.origin <= place.at
    && item.Boundary(cfg.maxAlign) > 0 && (place.at - place.origin) % item.Boundary(cfg.maxAlign) == 0
    && OriginOf(cfg, data, item.owner, place.origin, sample)
  }

  /** Items one behind the other between two positions. */
  ghost predicate Laid(cfg: Config, data: Octets, items: seq<Item>, places: seq<Place>, from: nat, to: nat, sample: nat)
    requires cfg.Valid()
  {
    if items == [] then places == [] && from <= to
    else
      && places != [] && from <= places[0].at && Stands(cfg, data, items[0], places[0], sample)
      && Laid(cfg, data, items[1..], places[1..], places[0].at + |items[0].Written(cfg.little)|, to, sample)
  }

  lemma {:induction false} LaidEarlier(cfg: Config, data: Octets, items: seq<Item>, places: seq<Place>,
                                       from: nat, from': nat, to: nat, sample: nat)
    requires cfg.Valid() && from <= from' && Laid(cfg, data, items, places, from', to, sample)
    ensures Laid(cfg, data, items, places, from, to, sample)
  {
  }

  lemma {:induction false} LaidBoth(cfg: Config, data: Octets, items: seq<Item>, places: seq<Place>, more: seq<Item>,
                                    morePlaces: seq<Place>, from: nat, mid: nat, to: nat, sample: nat)
    requires cfg.Valid() && Laid(cfg, data, items, places, from, mid, sample)
    requires Laid(cfg, data, more, morePlaces, mid, to, sample)
    ensures Laid(cfg, data, items + more, places + morePlaces, from, to, sample)
  {
    hide Stands;
    if items == [] {
      LaidEarlier(cfg, data, more, morePlaces, from, mid, to, sample);
      assert items + more == more && places + morePlaces == morePlaces;
    } else {
      LaidBoth(cfg, data, items[1..], places[1..], more, morePlaces,
               places[0].at + |items[0].Written(cfg.little)|, mid, to, sample);
      assert (items + more)[1..] == items[1..] + more && (places + morePlaces)[1..] == places[1..] + morePlaces;
    }
  }

  /** A number behind its padding. */
  lemma NumberLaid(cfg: Config, width: nat, bits: nat, owner: Owner, data: Octets, at: nat, origin: nat, sample: nat)
    returns (places: seq<Place>)
    requires cfg.Valid() && width in {1, 2, 4, 8} && origin <= at
    requires At(data, at, EncInt(cfg, bits, width, at - origin)) && OriginOf(cfg, data, owner, origin, sample)
    ensures Laid(cfg, data, [Number(width, bits, owner)], places, at,
                 at + |EncInt(cfg, bits, width, at - origin)|, sample)
  {
    hide ToOctets, PadLen, OriginOf;
    var pad := Padding(cfg, at - origin, width);
    AtConcat(data, at, pad, ToOctets(cfg.little, bits, width));
    PadReachesBoundary(at - origin, width, cfg.maxAlign);
    places := [Place(at + |pad|, origin)];
  }

  lemma RawLaid(cfg: Config, octets: Octets, owner: Owner, data: Octets, at: nat, origin: nat, sample: nat)
    returns (places: seq<Place>)
    requires cfg.Valid() && origin <= at && At(data, at, octets) && OriginOf(cfg, data, owner, origin, sample)
    ensures Laid(cfg, data, [Raw(octets, owner)], places, at, at + |octets|, sample)
  {
    hide OriginOf;
    places := [Place(at, origin)];
  }

  /** A counted text: its count on a boundary of four, its octets right behind. */
  lemma CountedLaid(cfg: Config, count: nat, octets: Octets, owner: Owner, data: Octets, at: nat, origin: nat,
                    sample: nat)
    returns (places: seq<Place>)
    requires cfg.Valid() && origin <= at && OriginOf(cfg, data, owner, origin, sample)
    requires At(data, at, EncInt(cfg, count, 4, at - origin) + octets)
    ensures Laid(cfg, data, [Number(4, count, owner), Raw(octets, owner)], places, at,
                 at + |EncInt(cfg, count, 4, at - origin) + octets|, sample)
  {
    hide EncInt, Laid, OriginOf;
    var field := EncInt(cfg, count, 4, at - origin);
    AtConcat(data, at, field, octets);
    var first := NumberLaid(cfg, 4, count, owner, data, at, origin, sample);
    var second := RawLaid(cfg, octets, owner, data, at + |field|, origin, sample);
    LaidBoth(cfg, data, [Number(4, count, owner)], first, [Raw(octets, owner)], second,
             at, at + |field|, at + |field| + |octets|, sample);
    assert [Number(4, count, owner)] + [Raw(octets, owner)] == [Number(4, count, owner), Raw(octets, owner)];
    places := first + second;
  }

  lemma TextLaid(cfg: Config, octets: Octets, owner: Owner, data: Octets, at: nat, origin: nat, sample: nat)
    returns (places: seq<Place>)
    requires cfg.Valid() && origin <= at && OriginOf(cfg, data, owner, origin, sample)
    requires At(data, at, Enc(cfg, Str(octets), at - origin))
    ensures Laid(cfg, data, Items(Str(octets), owner), places, at, at + |Enc(cfg, Str(octets), at - origin)|, sample)
  {
    hide EncInt, Laid, OriginOf;
    var text := EncInt(cfg, |octets| + 1, 4, at - origin) + octets;
    AtConcat(data, at, text, [0]);
    var first := CountedLaid(cfg, |octets| + 1, octets, owner, data, at, origin, sample);
    OneOctet(cfg, 0, at + |text| - origin);
    var last := NumberLaid(cfg, 1, 0, owner, data, at + |text|, origin, sample);
    var head := [Number(4, |octets| + 1, owner), Raw(octets, owner)];
    LaidBoth(cfg, data, head, first, [Number(1, 0, owner)], last, at, at + |text|, at + |text| + 1, sample);
    assert head + [Number(1, 0, owner)] == Items(Str(octets), owner);
    places := first + last;
  }

  lemma OneOctet(cfg: Config, b: Byte, pos: nat)
    requires cfg.Valid()
    ensures EncInt(cfg, b as nat, 1, pos) == [b]
  {
    assert PadLen(pos, 1, cfg.maxAlign) == 0;
    assert LittleEndian(b as nat, 1) == [b];
    assert Mirrored([b]) == [b];
  }

  /** Wherever the encoding of a value stands, its items stand in it. */
  lemma {:induction false} ValueLaid(cfg: Config, v: Value, owner: Owner, data: Octets, at: nat, origin: nat,
                                     sample: nat)
    returns (places: seq<Place>)
    requires cfg.Valid() && WellFormed(v) && origin <= at && OriginOf(cfg, data, owner, origin, sample)
    requires At(data, at, Enc(cfg, v, at - origin))
    ensures Laid(cfg, data, Items(v, owner), places, at, at + |Enc(cfg, v, at - origin)|, sample)
    decreases v, 0
  {
    hide EncInt, EncMembers, EncElements, Laid, OriginOf, At, Delimited, MemberItems, ElementItems;
    match v {
      case Prim(width, bits) => places := NumberLaid(cfg, width, bits, owner, data, at, origin, sample);
      case Str(octets) => places := TextLaid(cfg, octets, owner, data, at, origin, sample);
      case Blob(octets) => places := CountedLaid(cfg, |octets|, octets, owner, data, at, origin, sample);
      case Aggregate(ext, members) =>
        if ext.Final? || ext.ParameterList? {
          places := MembersLaid(cfg, ext, members, owner, data, at, origin, sample);
        } else {
          var start := BodyAt(cfg, EncMembers(cfg, ext, members, AfterWord(cfg, at - origin)), data, at, origin);
          places := MembersLaid(cfg, ext, members, owner, data, start, origin, sample);
          LaidEarlier(cfg, data, Items(v, owner), places, at, start, at + |Enc(cfg, v, at - origin)|, sample);
        }
      case Sequence(elements) =>
        var start := BodyAt(cfg, EncElements(cfg, elements, AfterWord(cfg, at - origin)), data, at, origin);
        places := ElementsLaid(cfg, elements, owner, data, start, origin, sample);
        LaidEarlier(cfg, data, Items(v, owner), places, at, start, at + |Enc(cfg, v, at - origin)|, sample);
    }
  }

  /** Where a body begins behind its DHEADER. */
  lemma BodyAt(cfg: Config, body: Octets, data: Octets, at: nat, origin: nat) returns (start: nat)
    requires cfg.Valid() && origin <= at && At(data, at, Delimited(cfg, at - origin, body))
    ensures at <= start && start == origin + AfterWord(cfg, at - origin) && At(data, start, body)
    ensures start + |body| == at + |Delimited(cfg, at - origin, body)|
  {
    hide PadLen, ToOctets;
    AtConcat(data, at, Padding(cfg, at - origin, 4) + U32(cfg, |body|), body);
    start := at + |Padding(cfg, at - origin, 4)| + 4;
  }

  lemma {:induction false} ElementsLaid(cfg: Config, vs: Values, owner: Owner, data: Octets, at: nat, origin: nat,
                                        sample: nat)
    returns (places: seq<Place>)
    requires cfg.Valid() && ValuesWellFormed(vs) && origin <= at && OriginOf(cfg, data, owner, origin, sample)
    requires At(data, at, EncElements(cfg, vs, at - origin))
    ensures Laid(cfg, data, [Number(4, Count(vs), owner)] + ElementItems(vs, owner), places, at,
                 at + |EncElements(cfg, vs, at - origin)|, sample)
    decreases vs, 1
  {
    hide EncInt, EncValues, Laid, OriginOf, At, ElementItems;
    var count := EncInt(cfg, Count(vs), 4, at - origin);
    AtConcat(data, at, count, EncValues(cfg, vs, at - origin + |count|));
    var first := NumberLaid(cfg, 4, Count(vs), owner, data, at, origin, sample);
    var rest := ValuesLaid(cfg, vs, owner, data, at + |count|, origin, sample);
    LaidBoth(cfg, data, [Number(4, Count(vs), owner)], first, ElementItems(vs, owner), rest,
             at, at + |count|, at + |EncElements(cfg, vs, at - origin)|, sample);
    places := first + rest;
  }

  lemma {:induction false} ValuesLaid(cfg: Config, vs: Values, owner: Owner, data: Octets, at: nat, origin: nat,
                                      sample: nat)
    returns (places: seq<Place>)
    requires cfg.Valid() && ValuesWellFormed(vs) && origin <= at && OriginOf(cfg, data, owner, origin, sample)
    requires At(data, at, EncValues(cfg, vs, at - origin))
    ensures Laid(cfg, data, ElementItems(vs, owner), places, at, at + |EncValues(cfg, vs, at - origin)|, sample)
    decreases vs, 0
  {
    hide Enc, Items, OriginOf, At, Stands;
    if vs.NoValues? {
      places := [];
    } else {
      var first := Enc(cfg, vs.head, at - origin);
      AtConcat(data, at, first, EncValues(cfg, vs.tail, at - origin + |first|));
      var head := ValueLaid(cfg, vs.head, owner, data, at, origin, sample);
      var tail := ValuesLaid(cfg, vs.tail, owner, data, at + |first|, origin, sample);
      LaidBoth(cfg, data, Items(vs.head, owner), head, ElementItems(vs.tail, owner), tail,
               at, at + |first|, at + |EncValues(cfg, vs, at - origin)|, sample);
      places := head + tail;
    }
  }

  lemma {:induction false} MembersLaid(cfg: Config, ext: Extensibility, ms: Members, owner: Owner, data: Octets,
                                       at: nat, origin: nat, sample: nat)
    returns (places: seq<Place>)
    requires cfg.Valid() && MembersWellFormed(ms) && origin <= at && OriginOf(cfg, data, owner, origin, sample)
    requires At(data, at, EncMembers(cfg, ext, ms, at - origin))
    ensures Laid(cfg, data, MemberItems(ms, ext, owner), places, at, at + |EncMembers(cfg, ext, ms, at - origin)|,
                 sample)
    decreases ms, 0
  {
    hide EncMember, EncSentinel, Items, OriginOf, At, Stands;
    if ms.NoMembers? {
      places := [];
    } else {
      var first := EncMember(cfg, ext, ms.id, ms.must, ms.value, at - origin);
      AtConcat(data, at, first, EncMembers(cfg, ext, ms.rest, at - origin + |first|));
      var head := MemberLaid(cfg, ext, ms.id, ms.must, ms.value, owner, data, at, origin, sample);
      var tail := MembersLaid(cfg, ext, ms.rest, owner, data, at + |first|, origin, sample);
      LaidBoth(cfg, data, Items(ms.value, if ext.ParameterList? then Parameter(ms.id, ms.must) else owner), head,
               MemberItems(ms.rest, ext, owner), tail,
               at, at + |first|, at + |EncMembers(cfg, ext, ms, at - origin)|, sample);
      places := head + tail;
    }
  }

  lemma {:induction false} MemberLaid(cfg: Config, ext: Extensibility, id: nat, must: bool, v: Value, owner: Owner,
                                      data: Octets, at: nat, origin: nat, sample: nat)
    returns (places: seq<Place>)
    requires cfg.Valid() && WellFormed(v) && origin <= at && OriginOf(cfg, data, owner, origin, sample)
    requires At(data, at, EncMember(cfg, ext, id, must, v, at - origin))
    ensures Laid(cfg, data, Items(v, if ext.ParameterList? then Parameter(id, must) else owner), places, at,
                 at + |EncMember(cfg, ext, id, must, v, at - origin)|, sample)
    decreases v, 1
  {
    hide Enc, EncMutableMember, EncParameter, Items, OriginOf, At, Laid;
    var end := at + |EncMember(cfg, ext, id, must, v, at - origin)|;
    if ext.Mutable? {
      var start := MutableValueAt(cfg, id, must, v, data, at, origin);
      places := ValueLaid(cfg, v, owner, data, start, origin, sample);
      LaidEarlier(cfg, data, Items(v, owner), places, at, start, end, sample);
    } else if ext.ParameterList? {
      var start := ParameterValueAt(cfg, id, must, Enc(cfg, v, 0), data, at, origin);
      OwnedBy(cfg, data, id, must, start, sample);
      places := ValueLaid(cfg, v, Parameter(id, must), data, start, start, sample);
      LaidWithin(cfg, data, Items(v, Parameter(id, must)), places, start, start + |Enc(cfg, v, 0)|, end, sample);
      LaidEarlier(cfg, data, Items(v, Parameter(id, must)), places, at, start, end, sample);
    } else {
      places := ValueLaid(cfg, v, owner, data, at, origin, sample);
    }
  }

  lemma OwnedBy(cfg: Config, data: Octets, id: nat, must: bool, origin: nat, sample: nat)
    requires HeaderBefore(cfg, data, origin, id, must)
    ensures OriginOf(cfg, data, Parameter(id, must), origin, sample)
  {
  }

  lemma {:induction false} LaidWithin(cfg: Config, data: Octets, items: seq<Item>, places: seq<Place>,
                                      from: nat, to: nat, to': nat, sample: nat)
    requires cfg.Valid() && to <= to' && Laid(cfg, data, items, places, from, to, sample)
    ensures Laid(cfg, data, items, places, from, to', sample)
  {
    hide Stands;
    if items != [] {
      LaidWithin(cfg, data, items[1..], places[1..], places[0].at + |items[0].Written(cfg.little)|, to, to', sample);
    }
  }

  lemma MutableValueAt(cfg: Config, id: nat, must: bool, v: Value, data: Octets, at: nat, origin: nat)
    returns (start: nat)
    requires cfg.Valid() && WellFormed(v) && origin <= at
    requires At(data, at, EncMutableMember(cfg, id, must, v, at - origin))
    ensures at <= start && At(data, start, Enc(cfg, v, start - origin))
    ensures start + |Enc(cfg, v, start - origin)| == at + |EncMutableMember(cfg, id, must, v, at - origin)|
  {
    hide Enc, ToOctets, PadLen, EmWord;
    var pos := at - origin;
    var pad := Padding(cfg, pos, 4);
    var direct := Enc(cfg, v, AfterWord(cfg, pos));
    if cfg.shortLengthCodes && ShortCode(|direct|) != 4 {
      AtConcat(data, at, pad + U32(cfg, EmWord(id, ShortCode(|direct|), must)), direct);
      start := at + |pad| + 4;
    } else {
      var body := Enc(cfg, v, AfterWord(cfg, pos) + 4);
      AtConcat(data, at, pad + U32(cfg, EmWord(id, 4, must)) + U32(cfg, |body|), body);
      start := at + |pad| + 8;
    }
  }

  lemma ParameterValueAt(cfg: Config, id: nat, must: bool, body: Octets, data: Octets, at: nat, origin: nat)
    returns (start: nat)
    requires cfg.Valid() && origin <= at
    requires At(data, at, EncParameter(cfg, ParameterMember, id, must, body, at - origin))
    ensures at <= start && At(data, start, body) && HeaderBefore(cfg, data, start, id, must)
    ensures start + |body| <= at + |EncParameter(cfg, ParameterMember, id, must, body, at - origin)|
  {
    hide PadLen, ToOctets, DeclaredLength, ShortPidHeader, ExtendedPidHeader;
    var pos := at - origin;
    var pad := Padding(cfg, pos, 4);
    var declared := DeclaredLength(cfg, ParameterMember, |body|, pos + |pad| + 4 + |body|);
    var header := FinalHeader(cfg, id, must, declared);
    var after := if cfg.framing.padAfterValue then Padding(cfg, pos + |pad| + |header| + |body|, 4) else [];
    assert EncParameter(cfg, ParameterMember, id, must, body, pos) == pad + header + body + after;
    AtConcat(data, at, pad + header + body, after);
    AtConcat(data, at, pad + header, body);
    AtConcat(data, at, pad, header);
    start := at + |pad| + |header|;
  }

  /** In the octets of a sample every number, at every depth, begins at a multiple of its width, capped, from its
      origin: the first octet of the sample, or of the value of the innermost parameter it is in. All numbers and texts
      of the value are there, in its order, one behind the other. */
  lemma ItemsAreAligned(cfg: Config, v: Value)
    requires cfg.Valid() && WellFormed(v)
    ensures exists places: seq<Place> ::
              Laid(cfg, Enc(cfg, v, 0), Items(v, Sample), places, 0, |Enc(cfg, v, 0)|, 0)
  {
    hide Enc, Items, Laid;
    var data := Enc(cfg, v, 0);
    assert At(data, 0, data) by { assert data[0..|data|] == data; }
    var places := ValueLaid(cfg, v, Sample, data, 0, 0, 0);
  }

  /** What that means for the i-th of them. */
  lemma {:induction false} LaidMeans(cfg: Config, data: Octets, items: seq<Item>, places: seq<Place>, from: nat,
                                     to: nat, sample: nat, i: nat)
    requires cfg.Valid() && Laid(cfg, data, items, places, from, to, sample) && i < |items|
    ensures |places| == |items| && from <= places[i].at
    ensures Stands(cfg, data, items[i], places[i], sample)
    ensures places[i].at + |items[i].Written(cfg.little)| <= if i + 1 < |items| then places[i + 1].at else to
  {
    hide Stands;
    if i > 0 {
      LaidMeans(cfg, data, items[1..], places[1..], places[0].at + |items[0].Written(cfg.little)|, to, sample, i - 1);
    } else if |items| > 1 {
      LaidMeans(cfg, data, items[1..], places[1..], places[0].at + |items[0].Written(cfg.little)|, to, sample, 0);
    }
  }

  /** An octet and a number behind it: the octets between them are zero, as many as the number's boundary asks for. */
  lemma OctetThenNumber(cfg: Config, a: Byte, width: nat, bits: nat, id: nat, id': nat)
    requires cfg.Valid() && width in {1, 2, 4, 8} && bits < Pow(256, width)
    ensures var last := Member(id', false, Prim(width, bits), NoMembers);
            var v := Aggregate(Final, Member(id, false, Prim(1, a as nat), last));
            && WellFormed(v)
            && Enc(cfg, v, 0) ==
               (if width == 1 then [a]
                else if width == 2 then [a, 0]
                else if width == 4 || cfg.maxAlign == 4 then [a, 0, 0, 0]
                else [a, 0, 0, 0, 0, 0, 0, 0]) + ToOctets(cfg.little, bits, width)
  {
    hide ToOctets, Pow, PadLen, EncInt;
    assert Pow(256, 1) == 256 by { Pow256Of4(); }
    OneOctet(cfg, a, 0);
    PadAfterOctet(width, cfg.maxAlign);
    LastMember(cfg, id', Prim(width, bits), 1);
    var tail := Member(id', false, Prim(width, bits), NoMembers);
    var v := Member(id, false, Prim(1, a as nat), tail);
    assert WellFormed(Prim(1, a as nat)) && MembersWellFormed(tail);
    assert WellFormed(Aggregate(Final, v));
    assert EncMember(cfg, Final, id, false, Prim(1, a as nat), 0) == [a];
    assert EncMembers(cfg, Final, v, 0) == [a] + EncMembers(cfg, Final, tail, 1);
    assert Zeros(0) == [] && Zeros(1) == [0] && Zeros(3) == [0, 0, 0] && Zeros(7) == [0, 0, 0, 0, 0, 0, 0];
    assert EncInt(cfg, bits, width, 1) == Zeros(PadLen(1, width, cfg.maxAlign)) + ToOctets(cfg.little, bits, width) by {
      IntIs(cfg, bits, width, 1);
    }
  }

  lemma LastMember(cfg: Config, id: nat, v: Value, pos: nat)
    requires cfg.Valid() && WellFormed(v)
    ensures EncMembers(cfg, Final, Member(id, false, v, NoMembers), pos) == Enc(cfg, v, pos)
  {
    hide Enc;
    assert EncMembers(cfg, Final, NoMembers, pos + |Enc(cfg, v, pos)|) == [];
  }

  lemma IntIs(cfg: Config, v: nat, width: nat, pos: nat)
    requires cfg.Valid() && width > 0
    ensures EncInt(cfg, v, width, pos) == Zeros(PadLen(pos, width, cfg.maxAlign)) + ToOctets(cfg.little, v, width)
  {
  }

  lemma PadAfterOctet(width: nat, cap: nat)
    requires width in {1, 2, 4, 8} && cap in {4, 8}
    ensures PadLen(1, width, cap) ==
            if width == 1 then 0 else if width == 2 then 1 else if width == 4 || cap == 4 then 3 else 7
  {
  }
}
