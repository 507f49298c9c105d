/** Decoding inverts encoding, and every length a header states is the length of what it frames. */
module XcdrRoundTrip {
  import opened Common
  import opened Powers
  import opened XcdrOctets
  import opened XcdrValue
  import opened XcdrWriter
  import opened XcdrEncode
  import opened XcdrReader
  import opened XcdrDecode
  import Utf8

  /** A framing whose parameter headers carry all a reader needs: the must-understand flag belongs to the
      member, short ids stay below the reserved ones, and every value is padded to four. */
  predicate Readable(f: Framing) {
    f.memberMustUnderstand && !f.pidFlags.ImplExtensionMembers? && f.highestShortId <= PID_SHORT_MAX_ID
  }

  lemma SpecificationIsReadable()
    ensures Readable(SPECIFICATION_FRAMING)
  {
  }

  predicate Decodable(cfg: Config) {
    cfg.Valid() && cfg.ShortensSafely() && Readable(cfg.framing)
  }

  // ---- headers ----

  lemma EmWordParts(id: nat, code: nat, must: bool)
    requires id <= E_MEMBER_ID_MASK && code < 8
    ensures var word := EmWord(id, code, must);
            && word % 0x1000_0000 == id && (word / 0x1000_0000) % 8 == code
            && (word / 0x8000_0000 != 0 <==> must)
  {
    var word := EmWord(id, code, must);
    var top := if must then 8 + code else code;
    assert word == top * 0x1000_0000 + id;
    assert word / 0x1000_0000 == top;
  }

  /** Behind a header word, a second word stands without padding. */
  lemma WordAfterWord(cfg: Config, v: nat, pos: nat)
    requires cfg.Valid()
    ensures EncInt(cfg, v, 4, AfterWord(cfg, pos)) == U32(cfg, v)
  {
    hide ToOctets, PadLen;
    AlignedNeedsNoPad(pos, cfg.maxAlign);
    assert Zeros(0) == [];
    assert [] + U32(cfg, v) == U32(cfg, v);
  }

  lemma ShortEmheaderBack(cfg: Config, id: nat, code: nat, must: bool, body: Octets, data: Octets, at: nat, origin: nat)
    requires cfg.Valid() && origin <= at && id <= E_MEMBER_ID_MASK && code < 4
    requires At(data, at, Padding(cfg, at - origin, 4) + U32(cfg, EmWord(id, code, must)) + body)
    ensures EmheaderAt(cfg, data, at, origin) ==
            Some(Read(EmRead(id, code, must, CodeLength(code)), origin + AfterWord(cfg, at - origin)))
    ensures At(data, origin + AfterWord(cfg, at - origin), body)
  {
    hide ToOctets, PadLen, EmWord, UnsignedAt;
    EmWordFits(id, code, must);
    EmWordParts(id, code, must);
    AtConcat(data, at, EncInt(cfg, EmWord(id, code, must), 4, at - origin), body);
    UnsignedBack(cfg, EmWord(id, code, must), 4, data, at, origin);
  }

  lemma LongEmheaderBack(cfg: Config, id: nat, must: bool, body: Octets, data: Octets, at: nat, origin: nat)
    requires cfg.Valid() && origin <= at && id <= E_MEMBER_ID_MASK && |body| < 0x1_0000_0000
    requires At(data, at, Padding(cfg, at - origin, 4) + U32(cfg, EmWord(id, 4, must)) + U32(cfg, |body|) + body)
    ensures EmheaderAt(cfg, data, at, origin) ==
            Some(Read(EmRead(id, 4, must, |body|), origin + AfterWord(cfg, at - origin) + 4))
    ensures At(data, origin + AfterWord(cfg, at - origin) + 4, body)
  {
    hide ToOctets, PadLen, EmWord, UnsignedAt, Pow;
    Pow256Of4();
    EmWordFits(id, 4, must);
    EmWordParts(id, 4, must);
    var word := EncInt(cfg, EmWord(id, 4, must), 4, at - origin);
    AtConcat(data, at, word + U32(cfg, |body|), body);
    AtConcat(data, at, word, U32(cfg, |body|));
    UnsignedBack(cfg, EmWord(id, 4, must), 4, data, at, origin);
    WordAfterWord(cfg, |body|, at - origin);
    UnsignedBack(cfg, |body|, 4, data, at + |word|, origin);
  }

  lemma ShortPidParts(cfg: Config, id: nat, must: bool, declared: nat)
    requires Decodable(cfg) && id <= cfg.framing.highestShortId
    ensures var word := ShortPidWord(cfg, id, must);
            && word < 0x1_0000 && word % PID_ID_LIMIT == id
            && ShortPid(cfg, word, declared) == PidRead(id, declared, false, must, false, false, false)
  {
  }

  lemma MarkerParts(cfg: Config)
    requires Readable(cfg.framing)
    ensures var word := FlaggedPid(cfg, PID_EXTENDED, AtExtendedMarker);
            word < 0x1_0000 && word % PID_ID_LIMIT == PID_EXTENDED
    ensures var word := FlaggedPid(cfg, PID_LIST_END, AtSentinel);
            word < 0x1_0000 && word % PID_ID_LIMIT == PID_LIST_END && ShortPid(cfg, word, 0).end
  {
  }

  lemma ExtendedParts(cfg: Config, id: nat, must: bool, declared: nat)
    requires Readable(cfg.framing) && id <= E_MEMBER_ID_MASK
    ensures var word := ExtendedMemberHeader(cfg, id, must);
            && word < 0x1_0000_0000
            && ExtendedPid(word, declared) == PidRead(id, declared, false, must, false, false, false)
  {
  }

  /** Two 16-bit fields behind an alignment to four, read one after the other. */
  lemma HalvesBack(cfg: Config, a: nat, b: nat, data: Octets, at: nat, origin: nat)
    requires cfg.Valid() && origin <= at && a < 0x1_0000 && b < 0x1_0000
    requires At(data, at, Padding(cfg, at - origin, 4) + U16Octets(cfg, a) + U16Octets(cfg, b))
    ensures var start := Aligned(cfg, at, origin, 4);
            && UnsignedAt(cfg, data, start, origin, 2) == Some(Read(a, start + 2))
            && UnsignedAt(cfg, data, start + 2, origin, 2) == Some(Read(b, start + 4))
  {
    hide ToOctets, PadLen, UnsignedAt, Pow;
    Pow256Of4();
    var pad := Padding(cfg, at - origin, 4);
    var start := at + |pad|;
    AtConcat(data, at, pad + U16Octets(cfg, a), U16Octets(cfg, b));
    AtConcat(data, at, pad, U16Octets(cfg, a));
    AlignedNeedsNoPad(at - origin, cfg.maxAlign);
    assert Zeros(0) == [];
    assert EncInt(cfg, a, 2, start - origin) == U16Octets(cfg, a);
    assert EncInt(cfg, b, 2, start + 2 - origin) == U16Octets(cfg, b);
    UnsignedBack(cfg, a, 2, data, start, origin);
    UnsignedBack(cfg, b, 2, data, start + 2, origin);
  }

  lemma ShortHeaderBack(cfg: Config, id: nat, must: bool, declared: nat, data: Octets, at: nat, origin: nat)
    requires Decodable(cfg) && origin <= at
    requires id <= cfg.framing.highestShortId && declared <= PID_SHORT_MAX_LEN
    requires At(data, at, Padding(cfg, at - origin, 4) + ShortPidHeader(cfg, id, must, declared))
    ensures PidHeaderAt(cfg, data, at, origin) ==
            Some(Read(PidRead(id, declared, false, must, false, false, false), Aligned(cfg, at, origin, 4) + 4))
  {
    hide ToOctets, PadLen, UnsignedAt, ShortPidWord, ShortPid;
    ShortPidParts(cfg, id, must, declared);
    var pad, word := Padding(cfg, at - origin, 4), U16Octets(cfg, ShortPidWord(cfg, id, must));
    assert pad + ShortPidHeader(cfg, id, must, declared) == pad + word + U16Octets(cfg, declared);
    HalvesBack(cfg, ShortPidWord(cfg, id, must), declared, data, at, origin);
  }

  lemma SentinelBack(cfg: Config, data: Octets, at: nat, origin: nat)
    requires Decodable(cfg) && origin <= at
    requires At(data, at, EncSentinel(cfg, at - origin))
    ensures var h := PidHeaderAt(cfg, data, at, origin);
            h.Some? && h.value.value.end && h.value.at == at + |EncSentinel(cfg, at - origin)|
  {
    hide ToOctets, PadLen, UnsignedAt, FlaggedPid, ShortPid;
    MarkerParts(cfg);
    HalvesBack(cfg, FlaggedPid(cfg, PID_LIST_END, AtSentinel), 0, data, at, origin);
  }

  lemma ExtendedHeaderBack(cfg: Config, id: nat, must: bool, declared: nat, data: Octets, at: nat, origin: nat)
    requires Decodable(cfg) && origin <= at
    requires id <= E_MEMBER_ID_MASK && declared < 0x1_0000_0000
    requires At(data, at, Padding(cfg, at - origin, 4) + ExtendedPidHeader(cfg, id, must, declared))
    ensures PidHeaderAt(cfg, data, at, origin) ==
            Some(Read(PidRead(id, declared, false, must, false, false, false), Aligned(cfg, at, origin, 4) + 12))
  {
    hide ToOctets, PadLen, UnsignedAt, FlaggedPid, ExtendedMemberHeader, ExtendedPid, Pow;
    Pow256Of4();
    MarkerParts(cfg);
    ExtendedParts(cfg, id, must, declared);
    var marker, header := FlaggedPid(cfg, PID_EXTENDED, AtExtendedMarker), ExtendedMemberHeader(cfg, id, must);
    var pos := at - origin;
    var halves := Padding(cfg, pos, 4) + U16Octets(cfg, marker) + U16Octets(cfg, 8);
    assert Padding(cfg, pos, 4) + ExtendedPidHeader(cfg, id, must, declared) ==
           halves + U32(cfg, header) + U32(cfg, declared);
    AtConcat(data, at, halves + U32(cfg, header), U32(cfg, declared));
    AtConcat(data, at, halves, U32(cfg, header));
    HalvesBack(cfg, marker, 8, data, at, origin);
    WordAfterWord(cfg, header, pos);
    UnsignedBack(cfg, header, 4, data, at + |halves|, origin);
    ThirdWord(cfg, declared, pos);
    UnsignedBack(cfg, declared, 4, data, at + |halves| + 4, origin);
  }

  lemma ThirdWord(cfg: Config, v: nat, pos: nat)
    requires cfg.Valid()
    ensures EncInt(cfg, v, 4, AfterWord(cfg, pos) + 4) == U32(cfg, v)
  {
    hide ToOctets, PadLen;
    AlignedNeedsNoPad(pos, cfg.maxAlign);
    PaddedTwice(AfterWord(cfg, pos), cfg.maxAlign);
    assert Zeros(0) == [];
    assert [] + U32(cfg, v) == U32(cfg, v);
  }

  lemma PaddedTwice(pos: nat, cap: nat)
    requires cap in {4, 8} && PadLen(pos, 4, cap) == 0
    ensures PadLen(pos + 4, 4, cap) == 0
  {
  }

  /** Skipping by the declared length and aligning lands where the padding after the value does. */
  lemma DeclaredEnds(cfg: Config, role: ParameterRole, length: nat, end: nat)
    requires cfg.Valid()
    ensures var declared := DeclaredLength(cfg, role, length, end);
            && length <= declared <= length + PadLen(end, 4, cfg.maxAlign)
            && declared + PadLen(end + declared - length, 4, cfg.maxAlign) == length + PadLen(end, 4, cfg.maxAlign)
  {
  }

  /** Any header form, at `at`, in front of the rest of its parameter. */
  lemma HeaderBack(cfg: Config, id: nat, must: bool, declared: nat, rest: Octets, data: Octets, at: nat, origin: nat)
    requires Decodable(cfg) && origin <= at
    requires id <= E_MEMBER_ID_MASK && declared < 0x1_0000_0000
    requires At(data, at, Padding(cfg, at - origin, 4) + FinalHeader(cfg, id, must, declared) + rest)
    ensures var start := at + |Padding(cfg, at - origin, 4)| + |FinalHeader(cfg, id, must, declared)|;
            && PidHeaderAt(cfg, data, at, origin) ==
               Some(Read(PidRead(id, declared, false, must, false, false, false), start))
            && At(data, start, rest)
  {
    hide ToOctets, PadLen, PidHeaderAt, ShortPidHeader, ExtendedPidHeader;
    HeaderSizes(cfg, id, must, declared);
    AtConcat(data, at, Padding(cfg, at - origin, 4) + FinalHeader(cfg, id, must, declared), rest);
    if id <= cfg.framing.highestShortId && declared <= PID_SHORT_MAX_LEN {
      ShortHeaderBack(cfg, id, must, declared, data, at, origin);
    } else {
      ExtendedHeaderBack(cfg, id, must, declared, data, at, origin);
    }
  }

  function FinalHeader(cfg: Config, id: nat, must: bool, declared: nat): Octets {
    if id <= cfg.framing.highestShortId && declared <= PID_SHORT_MAX_LEN then ShortPidHeader(cfg, id, must, declared)
    else ExtendedPidHeader(cfg, id, must, declared)
  }

  /** A parameter reads back: its id and flag, its value where the header leaves the cursor, and the boundary of the
      next header where skipping by the length and aligning to the enclosing origin leads. */
  lemma ParameterBack(cfg: Config, id: nat, must: bool, body: Octets, data: Octets, at: nat, origin: nat)
    requires Decodable(cfg) && origin <= at && id <= E_MEMBER_ID_MASK
    requires DeclaredLength(cfg, ParameterMember, |body|, AfterWord(cfg, at - origin) + |body|) < 0x1_0000_0000
    requires At(data, at, EncParameter(cfg, ParameterMember, id, must, body, at - origin))
    ensures var h := PidHeaderAt(cfg, data, at, origin);
            && h.Some? && h.value.value.pid == id && h.value.value.must == must
            && !h.value.value.end && h.value.value.IsUserMember()
            && at < h.value.at && At(data, h.value.at, body) && |body| <= h.value.value.length
            && Aligned(cfg, h.value.at + h.value.value.length, origin, 4) ==
               Aligned(cfg, at + |EncParameter(cfg, ParameterMember, id, must, body, at - origin)|, origin, 4)
  {
    hide ToOctets, PadLen, PidHeaderAt, DeclaredLength, ShortPidHeader, ExtendedPidHeader, At;
    var pos := at - origin;
    var pad := Padding(cfg, pos, 4);
    var declared := DeclaredLength(cfg, ParameterMember, |body|, pos + |pad| + 4 + |body|);
    HeaderSizes(cfg, id, must, declared);
    var header := FinalHeader(cfg, id, must, declared);
    var end := pos + |pad| + |header| + |body|;
    var after := if cfg.framing.padAfterValue then Padding(cfg, end, 4) else [];
    EightLater(cfg, ParameterMember, |body|, pos + |pad| + 4 + |body|);
    DeclaredEnds(cfg, ParameterMember, |body|, end);
    AlignedNeedsNoPad(end, cfg.maxAlign);
    assert EncParameter(cfg, ParameterMember, id, must, body, pos) == pad + header + body + after;
    assert pad + header + body + after == pad + header + (body + after);
    HeaderBack(cfg, id, must, declared, body + after, data, at, origin);
    AtConcat(data, at + |pad| + |header|, body, after);
  }

  // ---- values ----

  predicate Gives<T(==)>(r: Option<Read<T>>, value: T, at: nat) {
    r.Some? && r.value.value == value && r.value.at == at
  }

  /** A string reads back, with the cursor behind its terminator, exactly if it is UTF-8 and its length fits. */
  lemma TextBack(cfg: Config, text: Octets, data: Octets, at: nat, origin: nat)
    requires cfg.Valid() && origin <= at
    requires At(data, at, EncInt(cfg, |text| + 1, 4, at - origin) + text + [0])
    ensures var end := at + |EncInt(cfg, |text| + 1, 4, at - origin)| + |text| + 1;
            TextAt(cfg, data, at, origin) == Some(Read(text, end)) <==> Utf8.Valid(text) && |text| + 1 < COUNT_LIMIT
  {
    hide ToOctets, PadLen, Pow, UnsignedAt, EncInt, Utf8.Valid;
    Pow256Of4();
    var count := EncInt(cfg, |text| + 1, 4, at - origin);
    AtConcat(data, at, count + text, [0]);
    AtConcat(data, at, count, text);
    if |text| + 1 < COUNT_LIMIT {
      UnsignedBack(cfg, |text| + 1, 4, data, at, origin);
    } else {
      UnsignedTruncated(cfg, |text| + 1, data, at, origin);
    }
  }

  lemma BlobBack(cfg: Config, octets: Octets, data: Octets, at: nat, origin: nat)
    requires cfg.Valid() && origin <= at
    requires At(data, at, EncInt(cfg, |octets|, 4, at - origin) + octets)
    ensures var end := at + |EncInt(cfg, |octets|, 4, at - origin)| + |octets|;
            BlobAt(cfg, data, at, origin) == Some(Read(octets, end)) <==> |octets| < COUNT_LIMIT
  {
    hide ToOctets, PadLen, Pow, UnsignedAt, EncInt;
    Pow256Of4();
    AtConcat(data, at, EncInt(cfg, |octets|, 4, at - origin), octets);
    if |octets| < COUNT_LIMIT {
      UnsignedBack(cfg, |octets|, 4, data, at, origin);
    } else {
      UnsignedTruncated(cfg, |octets|, data, at, origin);
    }
  }

  /** What encoding a value wrote, a reader of a type it matches reads: all of it that the type has, wherever
      in the data it stands, and with the cursor at its end. */
  lemma {:induction false} DecodeInvertsEncode(cfg: Config, v: Value, ty: Type, exact: bool, data: Octets,
                                               at: nat, origin: nat)
    requires Decodable(cfg) && WellFormed(v) && Proper(ty) && Matches(v, ty, exact) && origin <= at
    requires Fits(cfg, v, at - origin) && At(data, at, Enc(cfg, v, at - origin))
    ensures Gives(Dec(cfg, ty, data, at, origin), Seen(v, ty), at + |Enc(cfg, v, at - origin)|)
    decreases v, 0
  {
    hide Dec, Enc, Fits, Seen, At;
    match v {
      case Aggregate(ext, members) =>
        assert ty == TAggregate(ext, ty.fields);
        if ext.Final? || ext.ParameterList? {
          UndelimitedBack(cfg, ext, members, ty.fields, exact, data, at, origin);
        } else {
          DelimitedBack(cfg, ext, members, ty.fields, exact, data, at, origin);
        }
      case Sequence(elements) =>
        assert ty == TSequence(ty.element);
        SequenceBack(cfg, elements, ty.element, exact, data, at, origin);
      case _ => LeafBack(cfg, v, ty, data, at, origin);
    }
  }

  lemma LeafBack(cfg: Config, v: Value, ty: Type, data: Octets, at: nat, origin: nat)
    requires cfg.Valid() && WellFormed(v) && Proper(ty) && Matches(v, ty, false) && origin <= at
    requires !v.Aggregate? && !v.Sequence? && At(data, at, Enc(cfg, v, at - origin))
    ensures Gives(Dec(cfg, ty, data, at, origin), Seen(v, ty), at + |Enc(cfg, v, at - origin)|)
  {
    hide ToOctets, PadLen, UnsignedAt, EncInt, TextAt, BlobAt, At, Utf8.Valid;
    match v {
      case Prim(width, bits) => UnsignedBack(cfg, bits, width, data, at, origin);
      case Str(octets) => TextBack(cfg, octets, data, at, origin);
      case Blob(octets) => BlobBack(cfg, octets, data, at, origin);
    }
  }

  lemma {:induction false} UndelimitedBack(cfg: Config, ext: Extensibility, ms: Members, fs: Fields,
                                           exact: bool, data: Octets, at: nat, origin: nat)
    requires Decodable(cfg) && MembersWellFormed(ms) && FieldsProper(fs) && origin <= at
    requires ext.Final? || ext.ParameterList?
    requires Matches(Aggregate(ext, ms), TAggregate(ext, fs), exact)
    requires Fits(cfg, Aggregate(ext, ms), at - origin) && At(data, at, Enc(cfg, Aggregate(ext, ms), at - origin))
    ensures Gives(Dec(cfg, TAggregate(ext, fs), data, at, origin), Seen(Aggregate(ext, ms), TAggregate(ext, fs)),
                  at + |Enc(cfg, Aggregate(ext, ms), at - origin)|)
    decreases ms, 1
  {
    hide PadLen, DecFields, DecParameters, At, EncMembers, MembersFit;
    if ext.Final? {
      FieldsBack(cfg, ext, ms, fs, exact, data, at, origin);
    } else {
      ParametersBack(cfg, ms, fs, exact, data, at, origin);
    }
  }

  lemma {:induction false} DelimitedBack(cfg: Config, ext: Extensibility, ms: Members, fs: Fields, exact: bool,
                                         data: Octets, at: nat, origin: nat)
    requires Decodable(cfg) && MembersWellFormed(ms) && FieldsProper(fs) && origin <= at
    requires ext.Appendable? || ext.Mutable?
    requires Matches(Aggregate(ext, ms), TAggregate(ext, fs), exact)
    requires Fits(cfg, Aggregate(ext, ms), at - origin) && At(data, at, Enc(cfg, Aggregate(ext, ms), at - origin))
    ensures Gives(Dec(cfg, TAggregate(ext, fs), data, at, origin), Seen(Aggregate(ext, ms), TAggregate(ext, fs)),
                  at + |Enc(cfg, Aggregate(ext, ms), at - origin)|)
    decreases ms, 1
  {
    hide ToOctets, PadLen, DheaderAt, DecFields, DecMutable, Delimited, At, EncMembers, MembersFit;
    var start := origin + AfterWord(cfg, at - origin);
    var body := EncMembers(cfg, ext, ms, start - origin);
    DheaderBack(cfg, body, data, at, origin);
    assert start + |body| <= |data| by { assert At(data, start, body); AtInside(data, start, body); }
    if ext.Appendable? {
      FieldsBack(cfg, ext, ms, fs, exact, data, start, origin);
    } else {
      MutableBack(cfg, ms, fs, exact, data, start, origin);
    }
  }

  lemma AtInside(data: Octets, at: nat, part: Octets)
    requires At(data, at, part)
    ensures at + |part| <= |data|
  {
  }

  lemma {:induction false} SequenceBack(cfg: Config, vs: Values, ty: Type, exact: bool, data: Octets, at: nat,
                                        origin: nat)
    requires Decodable(cfg) && WellFormed(Sequence(vs)) && Proper(ty) && origin <= at
    requires Matches(Sequence(vs), TSequence(ty), exact)
    requires Fits(cfg, Sequence(vs), at - origin) && At(data, at, Enc(cfg, Sequence(vs), at - origin))
    ensures Gives(Dec(cfg, TSequence(ty), data, at, origin), Seen(Sequence(vs), TSequence(ty)),
                  at + |Enc(cfg, Sequence(vs), at - origin)|)
    decreases vs, 2
  {
    hide ToOctets, PadLen, Dec, DheaderAt, UnsignedAt, DecValues, Delimited, At, EncElements, ElementsFit;
    hide Count, ValuesWellFormed, AllMatch, AllSeen, Proper, Readable;
    var start := origin + AfterWord(cfg, at - origin);
    var body := EncElements(cfg, vs, start - origin);
    DheaderBack(cfg, body, data, at, origin);
    AtInside(data, start, body);
    ElementsBack(cfg, vs, ty, exact, data, start, origin);
    SequenceReads(cfg, ty, data, at, origin, AllSeen(vs, ty), start + |body|);
  }

  lemma SequenceReads(cfg: Config, ty: Type, data: Octets, at: nat, origin: nat, vs: Values, end: nat)
    requires cfg.Valid() && Proper(ty) && origin <= at && end <= |data|
    requires DheaderAt(cfg, data, at, origin).Some?
    requires var h := DheaderAt(cfg, data, at, origin).value;
             && h.at >= at && h.at + h.value == end
             && var count := UnsignedAt(cfg, data, h.at, origin, 4);
                && count.Some? && count.value.at >= at
                && Gives(DecValues(cfg, ty, count.value.value, data, count.value.at, origin), vs, end)
    ensures Gives(Dec(cfg, TSequence(ty), data, at, origin), Sequence(vs), end)
  {
    hide DheaderAt, UnsignedAt, DecValues;
  }

  lemma {:induction false} ElementsBack(cfg: Config, vs: Values, ty: Type, exact: bool, data: Octets, at: nat,
                                        origin: nat)
    requires Decodable(cfg) && ValuesWellFormed(vs) && Proper(ty) && AllMatch(vs, ty, exact) && origin <= at
    requires Count(vs) < 0x1_0000_0000 && ElementsFit(cfg, vs, at - origin)
    requires At(data, at, EncElements(cfg, vs, at - origin))
    ensures var count := UnsignedAt(cfg, data, at, origin, 4);
            && count.Some? && count.value.value == Count(vs) && count.value.at >= at
            && Gives(DecValues(cfg, ty, Count(vs), data, count.value.at, origin), AllSeen(vs, ty),
                     at + |EncElements(cfg, vs, at - origin)|)
    decreases vs, 1
  {
    hide ToOctets, PadLen, UnsignedAt, EncInt, EncValues, DecValues, Pow;
    Pow256Of4();
    var count := EncInt(cfg, Count(vs), 4, at - origin);
    AtConcat(data, at, count, EncValues(cfg, vs, at - origin + |count|));
    UnsignedBack(cfg, Count(vs), 4, data, at, origin);
    ValuesBack(cfg, vs, Count(vs), ty, exact, data, at + |count|, origin);
  }

  lemma {:induction false} ValuesBack(cfg: Config, vs: Values, n: nat, ty: Type, exact: bool, data: Octets,
                                      at: nat, origin: nat)
    requires Decodable(cfg) && ValuesWellFormed(vs) && Proper(ty) && AllMatch(vs, ty, exact) && origin <= at
    requires ValuesFit(cfg, vs, at - origin) && At(data, at, EncValues(cfg, vs, at - origin)) && n == Count(vs)
    ensures Gives(DecValues(cfg, ty, n, data, at, origin), AllSeen(vs, ty), at + |EncValues(cfg, vs, at - origin)|)
    decreases vs, 0
  {
    hide Enc, Dec, Fits, Matches, Seen, At, WellFormed;
    if vs.ValueThen? {
      var first := Enc(cfg, vs.head, at - origin);
      AtConcat(data, at, first, EncValues(cfg, vs.tail, at - origin + |first|));
      DecodeInvertsEncode(cfg, vs.head, ty, exact, data, at, origin);
      ValuesBack(cfg, vs.tail, n - 1, ty, exact, data, at + |first|, origin);
    }
  }

  /** Without headers: the fields of the type are read, and what follows them is left to the DHEADER. */
  lemma {:induction false} FieldsBack(cfg: Config, ext: Extensibility, ms: Members, fs: Fields, exact: bool,
                                      data: Octets, at: nat, origin: nat)
    requires Decodable(cfg) && MembersWellFormed(ms) && FieldsProper(fs) && origin <= at
    requires (ext.Final? || ext.Appendable?) && InOrder(ms, fs, exact || ext.Final?, exact)
    requires MembersFit(cfg, ext, ms, at - origin) && At(data, at, EncMembers(cfg, ext, ms, at - origin))
    ensures var r := DecFields(cfg, fs, data, at, origin);
            var end := at + |EncMembers(cfg, ext, ms, at - origin)|;
            r.Some? && r.value.value == SeenInOrder(ms, fs) && r.value.at <= end && (ext.Final? ==> r.value.at == end)
    decreases ms, 0
  {
    hide Enc, Dec, Fits, Matches, Seen;
    if fs.Field? {
      var first := Enc(cfg, ms.value, at - origin);
      AtConcat(data, at, first, EncMembers(cfg, ext, ms.rest, at - origin + |first|));
      DecodeInvertsEncode(cfg, ms.value, fs.ty, exact, data, at, origin);
      FieldsBack(cfg, ext, ms.rest, fs.rest, exact, data, at + |first|, origin);
    }
  }

  /** A member found by its id, or found to be unknown. */
  lemma {:induction false} KnownBack(cfg: Config, v: Value, fs: Fields, id: nat, exact: bool, data: Octets,
                                     at: nat, origin: nat)
    requires Decodable(cfg) && WellFormed(v) && FieldsProper(fs) && FieldMatches(v, fs, id, exact) && origin <= at
    requires Fits(cfg, v, at - origin) && At(data, at, Enc(cfg, v, at - origin))
    ensures DecKnown(cfg, fs, id, data, at, origin) ==
            if Known(fs, id) then Decoded(SeenAs(v, fs, id), at + |Enc(cfg, v, at - origin)|) else Unknown
    decreases v, 1, fs
  {
    hide Enc, Dec, Fits, Matches, Seen;
    if fs.Field? {
      if fs.id == id {
        DecodeInvertsEncode(cfg, v, fs.ty, exact, data, at, origin);
      } else {
        KnownBack(cfg, v, fs.rest, id, exact, data, at, origin);
      }
    }
  }

  /** An EMHEADER reads back its member's id, flag and exact extent, whichever length code it got. */
  lemma MutableHeaderBack(cfg: Config, id: nat, must: bool, v: Value, data: Octets, at: nat, origin: nat)
    requires cfg.Valid() && cfg.ShortensSafely() && WellFormed(v) && origin <= at
    requires MemberFits(cfg, Mutable, id, must, v, at - origin)
    requires At(data, at, EncMutableMember(cfg, id, must, v, at - origin))
    ensures var h := EmheaderAt(cfg, data, at, origin);
            && h.Some? && h.value.value.id == id && h.value.value.must == must && at + 4 <= h.value.at
            && At(data, h.value.at, Enc(cfg, v, h.value.at - origin)) && Fits(cfg, v, h.value.at - origin)
            && h.value.value.extent == |Enc(cfg, v, h.value.at - origin)|
            && h.value.at + h.value.value.extent == at + |EncMutableMember(cfg, id, must, v, at - origin)|
  {
    hide ToOctets, PadLen, EmheaderAt, EmWord, Enc, Fits;
    var pos := at - origin;
    var direct := Enc(cfg, v, AfterWord(cfg, pos));
    if cfg.shortLengthCodes && ShortCode(|direct|) != 4 {
      ShortEmheaderBack(cfg, id, ShortCode(|direct|), must, direct, data, at, origin);
      FourEarlier(cfg, v, AfterWord(cfg, pos));
      FitsFourEarlier(cfg, v, AfterWord(cfg, pos));
    } else {
      LongEmheaderBack(cfg, id, must, Enc(cfg, v, AfterWord(cfg, pos) + 4), data, at, origin);
    }
  }

  lemma {:induction false} MutableBack(cfg: Config, ms: Members, fs: Fields, exact: bool, data: Octets,
                                       at: nat, origin: nat)
    requires Decodable(cfg) && MembersWellFormed(ms) && FieldsProper(fs) && ById(ms, fs, exact) && origin <= at
    requires MembersFit(cfg, Mutable, ms, at - origin) && At(data, at, EncMembers(cfg, Mutable, ms, at - origin))
    ensures var end := at + |EncMembers(cfg, Mutable, ms, at - origin)|;
            Gives(DecMutable(cfg, fs, data, at, origin, end), SeenById(ms, fs), end)
    decreases ms, 0
  {
    hide Enc, Dec, Fits, Matches, Seen, EncMutableMember, EmheaderAt, DecKnown, FieldMatches, SeenAs, Known;
    hide At, WellFormed;
    if ms.Member? {
      var first := EncMutableMember(cfg, ms.id, ms.must, ms.value, at - origin);
      AtConcat(data, at, first, EncMembers(cfg, Mutable, ms.rest, at - origin + |first|));
      AtInside(data, at, first);
      MutableHeaderBack(cfg, ms.id, ms.must, ms.value, data, at, origin);
      KnownBack(cfg, ms.value, fs, ms.id, exact, data, EmheaderAt(cfg, data, at, origin).value.at, origin);
      MutableBack(cfg, ms.rest, fs, exact, data, at + |first|, origin);
    }
  }

  lemma {:induction false} ParametersBack(cfg: Config, ms: Members, fs: Fields, exact: bool, data: Octets,
                                          at: nat, origin: nat)
    requires Decodable(cfg) && MembersWellFormed(ms) && FieldsProper(fs) && ById(ms, fs, exact) && origin <= at
    requires MembersFit(cfg, ParameterList, ms, at - origin)
    requires At(data, at, EncMembers(cfg, ParameterList, ms, at - origin))
    ensures Gives(DecParameters(cfg, fs, data, at, origin), SeenById(ms, fs),
                  at + |EncMembers(cfg, ParameterList, ms, at - origin)|)
    decreases ms, 0
  {
    hide Enc, Dec, Fits, Matches, Seen, EncParameter, EncSentinel, PidHeaderAt, DecKnown, FieldMatches;
    hide DecParameters, At, SeenAs, Known, PadLen;
    if ms.Member? {
      var body := Enc(cfg, ms.value, 0);
      var first := EncParameter(cfg, ParameterMember, ms.id, ms.must, body, at - origin);
      AtConcat(data, at, first, EncMembers(cfg, ParameterList, ms.rest, at - origin + |first|));
      ParameterBack(cfg, ms.id, ms.must, body, data, at, origin);
      NextIsAligned(cfg, ms.rest, data, at + |first|, origin);
      var start := PidHeaderAt(cfg, data, at, origin).value.at;
      KnownBack(cfg, ms.value, fs, ms.id, exact, data, start, start);
      ParametersBack(cfg, ms.rest, fs, exact, data, at + |first|, origin);
      NextParameter(cfg, fs, data, at, origin);
      AlignedAlready(cfg, fs, data, at + |first|, origin);
    } else {
      SentinelBack(cfg, data, at, origin);
      LastParameter(cfg, fs, data, at, origin);
    }
  }

  /** Every list of parameters begins with the padding to its first header. */
  lemma NextIsAligned(cfg: Config, ms: Members, data: Octets, at: nat, origin: nat)
    requires cfg.Valid() && MembersWellFormed(ms) && origin <= at
    requires At(data, at, EncMembers(cfg, ParameterList, ms, at - origin))
    ensures Aligned(cfg, at, origin, 4) <= |data|
  {
    hide ToOctets, PadLen, ShortPidHeader, ExtendedPidHeader, DeclaredLength;
    AtInside(data, at, EncMembers(cfg, ParameterList, ms, at - origin));
  }

  /** Aligning before a header that aligns itself changes nothing. */
  lemma AlignedAlready(cfg: Config, fs: Fields, data: Octets, at: nat, origin: nat)
    requires cfg.Valid() && FieldsProper(fs) && origin <= at
    ensures origin <= Aligned(cfg, at, origin, 4)
    ensures DecParameters(cfg, fs, data, Aligned(cfg, at, origin, 4), origin) ==
            DecParameters(cfg, fs, data, at, origin)
  {
    hide PadLen, UnsignedAt, DecKnown, ShortPid, ExtendedPid;
    AlignedNeedsNoPad(at - origin, cfg.maxAlign);
    assert PidHeaderAt(cfg, data, Aligned(cfg, at, origin, 4), origin) == PidHeaderAt(cfg, data, at, origin);
  }

  lemma LastParameter(cfg: Config, fs: Fields, data: Octets, at: nat, origin: nat)
    requires cfg.Valid() && FieldsProper(fs) && origin <= at
    requires PidHeaderAt(cfg, data, at, origin).Some? && PidHeaderAt(cfg, data, at, origin).value.value.end
    ensures Gives(DecParameters(cfg, fs, data, at, origin), NoMembers, PidHeaderAt(cfg, data, at, origin).value.at)
  {
    hide PidHeaderAt;
  }

  lemma NextParameter(cfg: Config, fs: Fields, data: Octets, at: nat, origin: nat)
    requires cfg.Valid() && FieldsProper(fs) && origin <= at && PidHeaderAt(cfg, data, at, origin).Some?
    requires var h := PidHeaderAt(cfg, data, at, origin).value; at < h.at && !h.value.end && h.value.IsUserMember()
    ensures var h := PidHeaderAt(cfg, data, at, origin).value;
            var outcome := DecKnown(cfg, fs, h.value.pid, data, h.at, h.at);
            var next := Framed(data, h.at, h.at + h.value.length, outcome);
            next.Some? ==>
              && origin <= Aligned(cfg, next.value, origin, 4)
              && DecParameters(cfg, fs, data, at, origin) ==
                 WithMember(h.value.pid, h.value.must, outcome,
                            DecParameters(cfg, fs, data, Aligned(cfg, next.value, origin, 4), origin))
  {
    hide PidHeaderAt, DecKnown, PadLen;
  }

  /** A sample read by its own type gives back the value, and ends at the last octet. */
  lemma RoundTrip(cfg: Config, v: Value, ty: Type)
    requires Decodable(cfg) && WellFormed(v) && Proper(ty) && Matches(v, ty, true) && Fits(cfg, v, 0)
    ensures Gives(Dec(cfg, ty, Enc(cfg, v, 0), 0, 0), v, |Enc(cfg, v, 0)|)
  {
    hide Enc, Dec, Fits, Matches, Seen;
    var data := Enc(cfg, v, 0);
    assert At(data, 0, data) by { assert data[0..|data|] == data; }
    DecodeInvertsEncode(cfg, v, ty, true, data, 0, 0);
    ExactSeesAll(v, ty);
  }

  /** Two values of one type that are written alike are alike. */
  lemma OctetsDetermineValue(cfg: Config, v: Value, v': Value, ty: Type)
    requires Decodable(cfg) && WellFormed(v) && WellFormed(v') && Proper(ty)
    requires Matches(v, ty, true) && Matches(v', ty, true) && Fits(cfg, v, 0) && Fits(cfg, v', 0)
    requires Enc(cfg, v, 0) == Enc(cfg, v', 0)
    ensures v == v'
  {
    hide Enc, Dec, Fits, Matches, Seen;
    RoundTrip(cfg, v, ty);
    RoundTrip(cfg, v', ty);
  }
}
