/**
 Members under length codes 5 to 7: the value begins with a count of its own, which
 the header has stand in for its NEXTINT.
 */
module XcdrCounted {
  import opened Common
  import opened Powers
  import opened XcdrOctets
  import opened XcdrValue
  import opened XcdrWriter
  import opened XcdrEncode
  import opened XcdrReader
  import opened XcdrDecode
  import opened XcdrRoundTrip

  /** A value that opens with the number of octets behind it, or a bare count over numbers of one width. */
  datatype Counted = Whole(v: Value) | Numbers(width: nat, vs: Values) {
    predicate Valid() {
      match this
      case Whole(v) => WellFormed(v) && OpensWithLength(v)
      case Numbers(width, vs) => width in {1, 4, 8} && ValuesWellFormed(vs) && AllOfWidth(vs, width)
    }

    /** Octets per counted thing. */
    function Unit(): nat {
      if Whole? then 1 else width
    }

    function LengthCode(): nat {
      if Unit() == 1 then 5 else if Unit() == 4 then 6 else 7
    }

    function Body(cfg: Config, pos: nat): Octets
      requires cfg.Valid() && Valid()
    {
      match this
      case Whole(v) => Enc(cfg, v, pos)
      case Numbers(_, vs) => EncElements(cfg, vs, pos)
    }

    /** No padding between the count and the numbers, for a count at `pos`. */
    predicate NoGap(cfg: Config, pos: nat) {
      Numbers? && width == 8 && cfg.maxAlign == 8 && vs.ValueThen? ==> (pos + 4) % 8 == 0
    }
  }

  predicate OpensWithLength(v: Value) {
    match v
    case Prim(_, _) => false
    case Aggregate(ext, _) => ext.Appendable? || ext.Mutable?
    case _ => true
  }

  predicate AllOfWidth(vs: Values, width: nat) {
    vs.ValueThen? ==> vs.head.Prim? && vs.head.width == width && AllOfWidth(vs.tail, width)
  }

  /** The member as written: the header word, and the value right behind it. */
  function CountedMember(cfg: Config, id: nat, must: bool, c: Counted, pos: nat): Octets
    requires cfg.Valid() && c.Valid()
  {
    Padding(cfg, pos, 4) + U32(cfg, EmWord(id, c.LengthCode(), must)) + c.Body(cfg, AfterWord(cfg, pos))
  }

  // ---- what the count says of the length ----

  lemma WordFirst(cfg: Config, n: nat, rest: Octets, pos: nat)
    requires cfg.Valid()
    ensures EncInt(cfg, n, 4, AfterWord(cfg, pos)) + rest == U32(cfg, n) + rest
    ensures Delimited(cfg, AfterWord(cfg, pos), rest) == U32(cfg, |rest|) + rest
  {
    hide PadLen, ToOctets;
    WordAfterWord(cfg, n, pos);
    WordAfterWord(cfg, |rest|, pos);
  }

  lemma WholeIsCounted(cfg: Config, v: Value, pos: nat) returns (rest: Octets)
    requires cfg.Valid() && WellFormed(v) && OpensWithLength(v)
    ensures Enc(cfg, v, AfterWord(cfg, pos)) == U32(cfg, |rest|) + rest
  {
    hide EncInt, AfterWord, ToOctets, EncMembers, EncElements, Delimited;
    var start := AfterWord(cfg, pos);
    match v {
      case Str(octets) =>
        rest := octets + [0];
        WordFirst(cfg, |rest|, rest, pos);
        assert EncInt(cfg, |rest|, 4, start) + octets + [0] == EncInt(cfg, |rest|, 4, start) + rest;
      case Blob(octets) =>
        rest := octets;
        WordFirst(cfg, |rest|, rest, pos);
      case Aggregate(ext, members) =>
        rest := EncMembers(cfg, ext, members, AfterWord(cfg, start));
        WordFirst(cfg, 0, rest, pos);
      case Sequence(elements) =>
        rest := EncElements(cfg, elements, AfterWord(cfg, start));
        WordFirst(cfg, 0, rest, pos);
    }
  }

  /** Numbers of one width lie packed once the first is on its boundary. */
  lemma {:induction false} NumbersLength(cfg: Config, vs: Values, width: nat, pos: nat)
    requires cfg.Valid() && width in {1, 4, 8} && ValuesWellFormed(vs) && AllOfWidth(vs, width)
    ensures |EncValues(cfg, vs, pos)| ==
            Count(vs) * width + if vs.ValueThen? then PadLen(pos, width, cfg.maxAlign) else 0
  {
    hide PadLen, ToOctets;
    if vs.ValueThen? {
      var next := pos + PadLen(pos, width, cfg.maxAlign) + width;
      NumbersLength(cfg, vs.tail, width, next);
      StaysOnBoundary(pos, width, cfg.maxAlign);
      assert Enc(cfg, vs.head, pos) == EncInt(cfg, vs.head.bits, width, pos);
    }
  }

  lemma StaysOnBoundary(pos: nat, width: nat, cap: nat)
    requires cap in {4, 8} && width in {1, 4, 8}
    ensures PadLen(pos + PadLen(pos, width, cap) + width, width, cap) == 0
  {
    hide PadLen;
    var start := pos + PadLen(pos, width, cap);
    if width == 1 {
      PadTo1(start + width, cap);
    } else if width == 8 && cap == 8 {
      PadTo8(pos);
      Modulo8(start / 8 + 1, 0);
      NoPadTo8(start + 8);
    } else {
      PadTo4(pos, width, cap);
      Modulo4(start / 4 + width / 4, 0);
      NoPadTo4(start + width, width, cap);
    }
  }

  lemma NoPadTo8(pos: nat)
    ensures PadLen(pos, 8, 8) == 0 <==> pos % 8 == 0
  {
  }

  lemma NoPadTo4(pos: nat, width: nat, cap: nat)
    requires (width == 4 && cap in {4, 8}) || (width == 8 && cap == 4)
    ensures PadLen(pos, width, cap) == 0 <==> pos % 4 == 0
  {
  }

  lemma GapExactly(cfg: Config, width: nat, pos: nat)
    requires cfg.Valid() && width in {1, 4, 8}
    ensures PadLen(AfterWord(cfg, pos) + 4, width, cfg.maxAlign) == 0 <==>
            !(width == 8 && cfg.maxAlign == 8) || (AfterWord(cfg, pos) + 4) % 8 == 0
  {
    hide PadLen;
    var start := AfterWord(cfg, pos) + 4;
    AlignedNeedsNoPad(pos, cfg.maxAlign);
    PaddedTwice(AfterWord(cfg, pos), cfg.maxAlign);
    NoPadTo4(start, 4, cfg.maxAlign);
    if width == 1 {
      PadTo1(start, cfg.maxAlign);
    } else if width == 8 {
      if cfg.maxAlign == 4 { NoPadTo4(start, 8, 4); } else { NoPadTo8(start); }
    }
  }

  /** The body is its count and what is counted; they come to the extent the header gives exactly without a gap. */
  lemma BodyIsCounted(cfg: Config, c: Counted, pos: nat) returns (count: nat, rest: Octets)
    requires cfg.Valid() && c.Valid()
    ensures c.Body(cfg, AfterWord(cfg, pos)) == U32(cfg, count) + rest
    ensures |rest| == count * c.Unit() <==> c.NoGap(cfg, AfterWord(cfg, pos))
    ensures count == if c.Whole? then |c.Body(cfg, AfterWord(cfg, pos))| - 4 else Count(c.vs)
  {
    hide PadLen, ToOctets, AfterWord, EncInt, EncValues, Enc;
    match c {
      case Whole(v) =>
        rest := WholeIsCounted(cfg, v, pos);
        count := |rest|;
      case Numbers(width, vs) =>
        var start := AfterWord(cfg, pos);
        count := Count(vs);
        WordAfterWord(cfg, count, pos);
        rest := EncValues(cfg, vs, start + 4);
        NumbersLength(cfg, vs, width, start + 4);
        GapExactly(cfg, width, pos);
    }
  }

  // ---- the header read back ----

  function Count32(c: Counted, cfg: Config, pos: nat): nat
    requires cfg.Valid() && c.Valid()
  {
    if c.Whole? then |c.Body(cfg, AfterWord(cfg, pos))| else Count(c.vs)
  }

  /** The header gives back id, flag and code, leaves the cursor before the count, and its extent is the length of the
      value exactly if there is no gap: always, but for eight-octet numbers under a cap of eight. */
  lemma CountedHeaderBack(cfg: Config, id: nat, must: bool, c: Counted, data: Octets, at: nat, origin: nat)
    requires cfg.Valid() && c.Valid() && origin <= at && id <= E_MEMBER_ID_MASK
    requires Count32(c, cfg, at - origin) < 0x1_0000_0000
    requires At(data, at, CountedMember(cfg, id, must, c, at - origin))
    ensures var start := origin + AfterWord(cfg, at - origin);
            var body := c.Body(cfg, AfterWord(cfg, at - origin));
            var h := EmheaderAt(cfg, data, at, origin);
            && h.Some? && h.value.value.id == id && h.value.value.must == must
            && h.value.value.lengthCode == c.LengthCode() && h.value.at == start && At(data, start, body)
            && start + |body| == at + |CountedMember(cfg, id, must, c, at - origin)|
            && (h.value.value.extent == |body| <==> c.NoGap(cfg, AfterWord(cfg, at - origin)))
  {
    hide ToOctets, PadLen, EmheaderAt, EmWord, Enc, EncElements, At, Counted.Body, Counted.NoGap;
    var count, rest := BodyIsCounted(cfg, c, at - origin);
    WordBeforeCount(cfg, id, c.LengthCode(), must, count, rest, data, at, origin);
  }

  /** The header over a count and what it counts: the cursor stands before the count, and the extent is the count's own
      four octets and its multiple. */
  lemma WordBeforeCount(cfg: Config, id: nat, code: nat, must: bool, count: nat, rest: Octets, data: Octets, at: nat,
                        origin: nat)
    requires cfg.Valid() && origin <= at && id <= E_MEMBER_ID_MASK && code in {5, 6, 7} && count < 0x1_0000_0000
    requires At(data, at, Padding(cfg, at - origin, 4) + U32(cfg, EmWord(id, code, must)) + (U32(cfg, count) + rest))
    ensures var start := origin + AfterWord(cfg, at - origin);
            var unit := if code == 5 then 1 else if code == 6 then 4 else 8;
            && EmheaderAt(cfg, data, at, origin) == Some(Read(EmRead(id, code, must, 4 + count * unit), start))
            && At(data, start, U32(cfg, count) + rest)
  {
    hide ToOctets, PadLen, EmWord, UnsignedAt, Pow;
    Pow256Of4();
    var pos := at - origin;
    EmWordFits(id, code, must);
    EmWordParts(id, code, must);
    var word := EncInt(cfg, EmWord(id, code, must), 4, pos);
    AtConcat(data, at, word, U32(cfg, count) + rest);
    AtConcat(data, at + |word|, U32(cfg, count), rest);
    UnsignedBack(cfg, EmWord(id, code, must), 4, data, at, origin);
    WordAfterWord(cfg, count, pos);
    UnsignedBack(cfg, count, 4, data, at + |word|, origin);
  }

  // ---- in a mutable aggregate ----

  lemma {:induction false} UnknownStays(cfg: Config, fs: Fields, id: nat, data: Octets, at: nat, origin: nat)
    requires cfg.Valid() && FieldsProper(fs) && origin <= at && !Known(fs, id)
    ensures DecKnown(cfg, fs, id, data, at, origin) == Unknown
  {
    hide Dec;
    if fs.Field? { UnknownStays(cfg, fs.rest, id, data, at, origin); }
  }

  /** One member off a mutable aggregate, by what its header says. */
  lemma NextMutable(cfg: Config, fs: Fields, data: Octets, at: nat, origin: nat, end: nat)
    requires cfg.Valid() && FieldsProper(fs) && origin <= at < end && EmheaderAt(cfg, data, at, origin).Some?
    requires at < EmheaderAt(cfg, data, at, origin).value.at
    ensures var h := EmheaderAt(cfg, data, at, origin).value;
            var outcome := DecKnown(cfg, fs, h.value.id, data, h.at, origin);
            var next := Framed(data, h.at, h.at + h.value.extent, outcome);
            next.Some? ==>
              && origin <= next.value
              && DecMutable(cfg, fs, data, at, origin, end) ==
                 WithMember(h.value.id, h.value.must, outcome, DecMutable(cfg, fs, data, next.value, origin, end))
  {
    hide EmheaderAt, DecKnown;
  }

  /** A reader that does not know the member goes on right behind it. */
  lemma CountedIsSkipped(cfg: Config, id: nat, must: bool, c: Counted, fs: Fields, data: Octets, at: nat, origin: nat,
                         end: nat)
    requires cfg.Valid() && c.Valid() && FieldsProper(fs) && origin <= at < end && id <= E_MEMBER_ID_MASK
    requires Count32(c, cfg, at - origin) < 0x1_0000_0000 && c.NoGap(cfg, AfterWord(cfg, at - origin))
    requires At(data, at, CountedMember(cfg, id, must, c, at - origin)) && !Known(fs, id)
    ensures DecMutable(cfg, fs, data, at, origin, end) ==
            DecMutable(cfg, fs, data, at + |CountedMember(cfg, id, must, c, at - origin)|, origin, end)
  {
    hide EmheaderAt, DecKnown, At, CountedMember, Counted.Body, Counted.LengthCode, PadLen, DecMutable;
    CountedHeaderBack(cfg, id, must, c, data, at, origin);
    AtInside(data, at, CountedMember(cfg, id, must, c, at - origin));
    UnknownStays(cfg, fs, id, data, EmheaderAt(cfg, data, at, origin).value.at, origin);
    NextMutable(cfg, fs, data, at, origin, end);
  }

  /** A reader that knows it reads the value with the count it leads with, and goes on right behind it. */
  lemma CountedIsRead(cfg: Config, id: nat, must: bool, v: Value, fs: Fields, exact: bool, data: Octets, at: nat,
                      origin: nat, end: nat)
    requires Decodable(cfg) && WellFormed(v) && OpensWithLength(v) && FieldsProper(fs) && origin <= at < end
    requires id <= E_MEMBER_ID_MASK && Known(fs, id) && FieldMatches(v, fs, id, exact)
    requires Fits(cfg, v, AfterWord(cfg, at - origin)) && |Enc(cfg, v, AfterWord(cfg, at - origin))| < 0x1_0000_0000
    requires At(data, at, CountedMember(cfg, id, must, Whole(v), at - origin))
    ensures var next := at + |CountedMember(cfg, id, must, Whole(v), at - origin)|;
            DecMutable(cfg, fs, data, at, origin, end) ==
            WithMember(id, must, Decoded(SeenAs(v, fs, id), next), DecMutable(cfg, fs, data, next, origin, end))
  {
    hide EmheaderAt, DecKnown, At, CountedMember, Counted.LengthCode, PadLen, DecMutable;
    hide Enc, Fits, FieldMatches, SeenAs, Known;
    CountedHeaderBack(cfg, id, must, Whole(v), data, at, origin);
    AtInside(data, at, CountedMember(cfg, id, must, Whole(v), at - origin));
    KnownBack(cfg, v, fs, id, exact, data, EmheaderAt(cfg, data, at, origin).value.at, origin);
    NextMutable(cfg, fs, data, at, origin, end);
  }

  // ---- written through the writer ----

  predicate CountedFits(cfg: Config, id: nat, c: Counted, pos: nat)
    requires cfg.Valid() && c.Valid()
  {
    && id <= E_MEMBER_ID_MASK
    && if c.Whole? then Fits(cfg, c.v, AfterWord(cfg, pos)) else ElementsFit(cfg, c.vs, AfterWord(cfg, pos))
  }

  method EncodeCounted(w: Writer, id: nat, must: bool, c: Counted) returns (ok: bool)
    requires w.Valid() && w.cfg.ShortensSafely() && c.Valid()
    modifies w
    ensures ok <==> CountedFits(w.cfg, id, c, old(w.Pos()))
    ensures ok ==> w.Valid() && w.origin == old(w.origin)
    ensures ok ==> w.out == old(w.out) + CountedMember(w.cfg, id, must, c, old(w.Pos()))
  {
    hide ToOctets, PadLen, EmWord, Enc, EncElements, Fits, ElementsFit, Pow;
    ghost var pos := w.Pos();
    var h;
    h, ok := w.WriteEmheader(id, c.LengthCode(), must);
    if !ok {
      return;
    }
    assert w.Pos() == AfterWord(w.cfg, pos);
    match c {
      case Whole(v) => ok := EncodeValue(w, v);
      case Numbers(_, vs) => ok := EncodeElements(w, vs);
    }
    if !ok {
      return;
    }
    ok := w.FinishEmheader(h);
  }
}
