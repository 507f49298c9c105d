/** The framing headers octet by octet, and the parameters a reader passes over. */
module XcdrHeaders {
  import opened Common
  import opened Powers
  import opened XcdrOctets
  import opened XcdrValue
  import opened XcdrWriter
  import opened XcdrReader
  import opened XcdrDecode
  import opened XcdrRoundTrip

  /** A short length code is the binary logarithm of the length, and there is none for another length. */
  lemma ShortCodesArePowers(length: nat, code: nat)
    requires code < 4
    ensures ShortCode(length) == code <==> length == Pow2(code)
    ensures ShortCode(length) <= 4
    ensures CodeLength(code) == Pow2(code)
  {
    assert Pow2(0) == 1;
    assert Pow2(1) == 2 * Pow2(0);
    assert Pow2(2) == 2 * Pow2(1);
    assert Pow2(3) == 2 * Pow2(2);
  }

  /** Sixteen bits in the order of the stream. */
  function Pair(little: bool, low: Byte, high: Byte): Octets {
    if little then [low, high] else [high, low]
  }

  /** Thirty-two bits in the order of the stream. */
  function Four(little: bool, v: nat): (f: Octets)
    ensures |f| == 4
  {
    var a: Byte, b: Byte, c: Byte, d: Byte := v % 256, v / 0x100 % 256, v / 0x1_0000 % 256, v / 0x100_0000 % 256;
    if little then [a, b, c, d] else [d, c, b, a]
  }

  lemma PairOf(cfg: Config, v: nat)
    requires v < 0x1_0000
    ensures U16Octets(cfg, v) == Pair(cfg.little, v % 256, v / 256)
  {
    OctetOrder(v % 256, v / 256, 0, 0);
  }

  lemma FourOf(cfg: Config, v: nat)
    requires v < 0x1_0000_0000
    ensures U32(cfg, v) == Four(cfg.little, v)
  {
    hide ToOctets;
    Digits(v);
    OctetOrder(v % 256, v / 0x100 % 256, v / 0x1_0000 % 256, v / 0x100_0000 % 256);
  }

  lemma Digits(v: nat)
    requires v < 0x1_0000_0000
    ensures v == v % 256 + 256 * (v / 0x100 % 256 + 256 * (v / 0x1_0000 % 256 + 256 * (v / 0x100_0000 % 256)))
  {
  }

  /** A DHEADER is the length of its body in four octets, and an EMHEADER has the flag in its top bit, the code in the
      three below and the id in the rest. */
  lemma WordOctets(cfg: Config, id: nat, code: nat, must: bool, body: Octets, pos: nat)
    requires cfg.Valid() && id < 0x1000_0000 && code < 8 && |body| < 0x1_0000_0000 && pos % 4 == 0
    ensures Delimited(cfg, pos, body) == Four(cfg.little, |body|) + body
    ensures U32(cfg, EmWord(id, code, must)) ==
            Four(cfg.little, (if must then 0x8000_0000 else 0) + 0x1000_0000 * code + id)
  {
    hide ToOctets, PadLen, Four;
    NoPad(pos, 4, cfg.maxAlign);
    assert Zeros(0) == [];
    FourOf(cfg, |body|);
    FourOf(cfg, EmWord(id, code, must));
    assert Padding(cfg, pos, 4) + U32(cfg, |body|) + body == U32(cfg, |body|) + body;
  }

  /** A sequence of one short: the length of what follows, the count, and the short. */
  lemma SequenceOctets(cfg: Config, x: nat)
    requires cfg.Valid() && x < 0x1_0000
    ensures var v := Sequence(ValueThen(Prim(2, x), NoValues));
            && WellFormed(v)
            && Enc(cfg, v, 0) == Four(cfg.little, 6) + Four(cfg.little, 1) + Pair(cfg.little, x % 256, x / 256)
  {
    hide ToOctets, Four, PadLen, EncInt, Delimited;
    var vs := ValueThen(Prim(2, x), NoValues);
    assert Pow(256, 2) == 0x1_0000 by { Pow256Of4(); }
    assert WellFormed(Prim(2, x)) && ValuesWellFormed(vs);
    AlignedNeedsNoPad(0, cfg.maxAlign);
    NoPad(0, 4, cfg.maxAlign);
    assert AfterWord(cfg, 0) == 4 && Count(vs) == 1 && Zeros(0) == [];
    var body := EncElements(cfg, vs, 4);
    WordAfterWord(cfg, 1, 0);
    NoPad(8, 2, cfg.maxAlign);
    assert EncInt(cfg, x, 2, 8) == U16Octets(cfg, x) by { Unpadded(cfg, x, 2, 8); }
    assert EncValues(cfg, NoValues, 10) == [];
    assert EncValues(cfg, vs, 8) == U16Octets(cfg, x);
    FourOf(cfg, 1);
    PairOf(cfg, x);
    WordOctets(cfg, 0, 0, false, body, 0);
  }

  lemma Unpadded(cfg: Config, v: nat, width: nat, pos: nat)
    requires cfg.Valid() && width > 0 && PadLen(pos, width, cfg.maxAlign) == 0
    ensures EncInt(cfg, v, width, pos) == ToOctets(cfg.little, v, width)
  {
    hide ToOctets, PadLen;
    assert Zeros(0) == [];
  }

  /** A mutable aggregate of one long: with a NEXTINT, or with the short code of its four octets. */
  lemma MutableOctets(cfg: Config, id: nat, must: bool, x: nat)
    requires cfg.Valid() && id < 0x1000_0000 && x < 0x1_0000_0000
    ensures var v := Aggregate(Mutable, Member(id, must, Prim(4, x), NoMembers));
            var flag := if must then 0x8000_0000 else 0;
            && WellFormed(v)
            && Enc(cfg, v, 0) ==
               if cfg.shortLengthCodes
               then Four(cfg.little, 8) + Four(cfg.little, flag + 0x2000_0000 + id) + Four(cfg.little, x)
               else Four(cfg.little, 12) + Four(cfg.little, flag + 0x4000_0000 + id) + Four(cfg.little, 4) +
                    Four(cfg.little, x)
  {
    hide ToOctets, Four, PadLen, EncInt, Delimited, EncMutableMember;
    assert Pow(256, 4) == 0x1_0000_0000 by { Pow256Of4(); }
    var ms := Member(id, must, Prim(4, x), NoMembers);
    assert WellFormed(Prim(4, x)) && MembersWellFormed(ms);
    assert WellFormed(Aggregate(Mutable, ms));
    NoPad(0, 4, cfg.maxAlign);
    assert AfterWord(cfg, 0) == 4;
    var member := EncMutableMember(cfg, id, must, Prim(4, x), 4);
    assert EncMembers(cfg, Mutable, NoMembers, 4 + |member|) == [];
    assert EncMembers(cfg, Mutable, ms, 4) == member;
    MutableMemberOctets(cfg, id, must, x);
    WordOctets(cfg, 0, 0, false, member, 0);
  }

  lemma MutableMemberOctets(cfg: Config, id: nat, must: bool, x: nat)
    requires cfg.Valid() && id < 0x1000_0000 && x < 0x1_0000_0000 && WellFormed(Prim(4, x))
    ensures var flag := if must then 0x8000_0000 else 0;
            EncMutableMember(cfg, id, must, Prim(4, x), 4) ==
            if cfg.shortLengthCodes then Four(cfg.little, flag + 0x2000_0000 + id) + Four(cfg.little, x)
            else Four(cfg.little, flag + 0x4000_0000 + id) + Four(cfg.little, 4) + Four(cfg.little, x)
  {
    hide ToOctets, Four, PadLen, EncInt, EmWord;
    NoPad(4, 4, cfg.maxAlign);
    NoPad(8, 4, cfg.maxAlign);
    NoPad(12, 4, cfg.maxAlign);
    Unpadded(cfg, x, 4, 8);
    Unpadded(cfg, x, 4, 12);
    assert AfterWord(cfg, 4) == 8 && Zeros(0) == [];
    FourOf(cfg, x);
    FourOf(cfg, 4);
    WordOctets(cfg, id, 2, must, [], 0);
    WordOctets(cfg, id, 4, must, [], 0);
  }

  /** The list end, with the must-understand bit only where the framing marks its sentinel. */
  lemma SentinelOctets(cfg: Config, pos: nat)
    requires cfg.Valid() && pos % 4 == 0
    ensures EncSentinel(cfg, pos) ==
            Pair(cfg.little, 0x02, if cfg.framing.pidFlags.SentinelMustUnderstand? then 0x7F else 0x3F) + [0, 0]
  {
    hide ToOctets, PadLen;
    NoPad(pos, 4, cfg.maxAlign);
    assert Zeros(0) == [];
    PairOf(cfg, FlaggedPid(cfg, PID_LIST_END, AtSentinel));
    PairOf(cfg, 0);
  }

  /** A short header: the id in fourteen bits, the flags above it, and the length. */
  lemma ShortHeaderOctets(cfg: Config, id: nat, must: bool, declared: nat)
    requires cfg.Valid() && id <= cfg.framing.highestShortId && declared <= 0xFFFF
    ensures var flags := if cfg.framing.pidFlags.ImplExtensionMembers? then 0xC0
                         else if must && cfg.framing.memberMustUnderstand then 0x40 else 0;
            ShortPidHeader(cfg, id, must, declared) ==
            Pair(cfg.little, id % 256, id / 256 + flags) + Pair(cfg.little, declared % 256, declared / 256)
  {
    hide ToOctets;
    PairOf(cfg, ShortPidWord(cfg, id, must));
    PairOf(cfg, declared);
  }

  /** An extended header: the marker with its flags, eight, the id with the member's flag in bit 30, and the length. */
  lemma ExtendedHeaderOctets(cfg: Config, id: nat, must: bool, declared: nat)
    requires cfg.Valid() && id < 0x1000_0000 && declared < 0x1_0000_0000
    ensures var flags := match cfg.framing.pidFlags
                         case Bare => 0x3F
                         case SentinelMustUnderstand => 0x7F
                         case ImplExtensionMembers => 0xFF;
            ExtendedPidHeader(cfg, id, must, declared) ==
            Pair(cfg.little, 0x01, flags) + Pair(cfg.little, 8, 0)
            + Four(cfg.little, id + if must && cfg.framing.memberMustUnderstand then 0x4000_0000 else 0)
            + Four(cfg.little, declared)
  {
    hide ToOctets, Four;
    PairOf(cfg, FlaggedPid(cfg, PID_EXTENDED, AtExtendedMarker));
    PairOf(cfg, 8);
    FourOf(cfg, ExtendedMemberHeader(cfg, id, must));
    FourOf(cfg, declared);
  }

  /** A declared length covers the padding to the next multiple of four exactly if the framing says so for the role. */
  lemma DeclaredLengthMeans(cfg: Config, role: ParameterRole, length: nat, end: nat)
    ensures var pads := if role.ParameterOptional? then cfg.framing.padDeclaredOptionalLength
                        else cfg.framing.padDeclaredLength;
            var declared := DeclaredLength(cfg, role, length, end);
            if pads then length <= declared < length + 4 && (end + (declared - length)) % 4 == 0 else declared == length
  {
    if end % 4 != 0 { Modulo4(end / 4 + 1, 0); }
  }

  /** A parameter of the specification framing on a boundary, in either role: id and flag, the length of the value, the
      value, and zeros up to the next multiple of four. The extended header takes over above 0x3F00 and 65535. */
  lemma SpecificationParameter(cfg: Config, role: ParameterRole, id: nat, must: bool, body: Octets, pos: nat)
    requires cfg.Valid() && cfg.framing == SPECIFICATION_FRAMING && pos % 4 == 0
    requires id < 0x1000_0000 && |body| < 0x1_0000_0000
    ensures var short := id <= 0x3F00 && |body| <= 65535;
            var flag := if must then 0x40 else 0;
            var header := if short then Pair(cfg.little, id % 256, id / 256 + flag) +
                                        Pair(cfg.little, |body| % 256, |body| / 256)
                          else Pair(cfg.little, 0x01, 0x7F) + Pair(cfg.little, 8, 0) +
                               Four(cfg.little, id + 0x100_0000 * flag) + Four(cfg.little, |body|);
            var pad := if |body| % 4 == 0 then 0 else 4 - |body| % 4;
            EncParameter(cfg, role, id, must, body, pos) == header + body + [0, 0, 0][..pad]
  {
    hide ToOctets, Pair, Four, ShortPidHeader, ExtendedPidHeader, EncParameter;
    if id <= 0x3F00 && |body| <= 65535 {
      ShortHeaderOctets(cfg, id, must, |body|);
    } else {
      ExtendedHeaderOctets(cfg, id, must, |body|);
    }
    SpecificationHeader(cfg, role, id, must, body, pos);
  }

  lemma SpecificationHeader(cfg: Config, role: ParameterRole, id: nat, must: bool, body: Octets, pos: nat)
    requires cfg.Valid() && cfg.framing == SPECIFICATION_FRAMING && pos % 4 == 0
    ensures var header := if id <= 0x3F00 && |body| <= 65535 then ShortPidHeader(cfg, id, must, |body|)
                          else ExtendedPidHeader(cfg, id, must, |body|);
            var pad := if |body| % 4 == 0 then 0 else 4 - |body| % 4;
            EncParameter(cfg, role, id, must, body, pos) == header + body + [0, 0, 0][..pad]
  {
    hide ToOctets, PadLen, ShortPidHeader, ExtendedPidHeader, DeclaredLength;
    NoPad(pos, 4, cfg.maxAlign);
    DeclaredLengthMeans(cfg, role, |body|, pos + 4 + |body|);
    HeaderSizes(cfg, id, must, |body|);
    var header := if id <= 0x3F00 && |body| <= 65535 then ShortPidHeader(cfg, id, must, |body|)
                  else ExtendedPidHeader(cfg, id, must, |body|);
    PadBehind(pos + |header|, |body|, cfg.maxAlign);
    var pad := if |body| % 4 == 0 then 0 else 4 - |body| % 4;
    assert Zeros(0) == [] && Zeros(pad) == [0, 0, 0][..pad];
    assert [] + header + body == header + body;
  }

  lemma PadBehind(start: nat, length: nat, cap: nat)
    requires cap in {4, 8} && start % 4 == 0
    ensures PadLen(start + length, 4, cap) == if length % 4 == 0 then 0 else 4 - length % 4
  {
    Shifted4(start / 4, length);
  }

  // ---- parameters that are no members ----

  /** What is in the sixteen bits of a short header: the id, bit 14 and bit 15. */
  lemma ShortBits(cfg: Config, id: nat, must: bool, impl: bool, length: nat)
    requires id < 0x4000 && id != 0x3F01
    ensures var word := id + (if must then 0x4000 else 0) + (if impl then 0x8000 else 0);
            var h := ShortPid(cfg, word, length);
            && h.pid == id && h.length == length && h.must == must && (h.end <==> id == 0x3F02)
            && (h.IsUserMember() <==>
                  && (impl ==> cfg.framing.pidFlags.ImplExtensionMembers?)
                  && (id <= cfg.framing.highestShortId || id == 0x3F02)
                  && id != 0x3F03)
  {
  }

  /** What is in the thirty-two bits of an extended header: the id, two flags that say nothing here, must-understand and
      the writer's own. */
  lemma ExtendedBits(id: nat, low: nat, must: bool, impl: bool, length: nat)
    requires id < 0x1000_0000 && low < 4
    ensures var word := id + 0x1000_0000 * low + (if must then 0x4000_0000 else 0) + (if impl then 0x8000_0000 else 0);
            ExtendedPid(word, length) == PidRead(id, length, false, must, impl, false, false)
  {
    var word := id + 0x1000_0000 * low + (if must then 0x4000_0000 else 0) + (if impl then 0x8000_0000 else 0);
    var top := low + (if must then 4 else 0) + (if impl then 8 else 0);
    assert word == top * 0x1000_0000 + id;
    assert word / 0x1000_0000 == top;
  }

  /** A parameter with its header word as it stands. */
  function RawParameter(cfg: Config, word: nat, value: Octets, pos: nat): Octets
    requires cfg.Valid()
  {
    Padding(cfg, pos, 4) + U16Octets(cfg, word) + U16Octets(cfg, |value|) + value
  }

  /** A parameter of the writer's own, of a reserved id or of the id to be ignored is passed over whatever the reader's
      type has, its flag of must-understand notwithstanding; the next header is looked for at the boundary behind it. */
  lemma ForeignIsSkipped(cfg: Config, fs: Fields, id: nat, must: bool, impl: bool, value: Octets, data: Octets,
                         at: nat, origin: nat)
    requires cfg.Valid() && FieldsProper(fs) && origin <= at && id < 0x4000 && id != 0x3F01 && id != 0x3F02
    requires (impl && !cfg.framing.pidFlags.ImplExtensionMembers?) || id > cfg.framing.highestShortId || id == 0x3F03
    requires |value| < 0x1_0000
    requires At(data, at, RawParameter(cfg, id + (if must then 0x4000 else 0) + (if impl then 0x8000 else 0), value,
                                       at - origin))
    ensures var word := id + (if must then 0x4000 else 0) + (if impl then 0x8000 else 0);
            DecParameters(cfg, fs, data, at, origin) ==
            DecParameters(cfg, fs, data, at + |RawParameter(cfg, word, value, at - origin)|, origin)
  {
    hide ToOctets, PadLen, UnsignedAt, ShortPid, DecKnown, DecParameters;
    var word := id + (if must then 0x4000 else 0) + (if impl then 0x8000 else 0);
    var pad := Padding(cfg, at - origin, 4);
    var head := pad + U16Octets(cfg, word) + U16Octets(cfg, |value|);
    AtConcat(data, at, head, value);
    HalvesBack(cfg, word, |value|, data, at, origin);
    ShortBits(cfg, id, must, impl, |value|);
    var end := at + |head| + |value|;
    PassedOver(cfg, fs, data, at, origin);
    AlignedAlready(cfg, fs, data, end, origin);
  }

  lemma PassedOver(cfg: Config, fs: Fields, data: Octets, at: nat, origin: nat)
    requires cfg.Valid() && FieldsProper(fs) && origin <= at && PidHeaderAt(cfg, data, at, origin).Some?
    requires var h := PidHeaderAt(cfg, data, at, origin).value;
             at < h.at && !h.value.end && !h.value.IsUserMember() && h.at + h.value.length <= |data|
    ensures var h := PidHeaderAt(cfg, data, at, origin).value;
            DecParameters(cfg, fs, data, at, origin) ==
            DecParameters(cfg, fs, data, Aligned(cfg, h.at + h.value.length, origin, 4), origin)
  {
    hide PidHeaderAt, DecKnown, PadLen;
  }
}
