/**
 Values as XCDR writes them, and their encoding told directly: every length known
 before it is written, every header in its final form, nothing patched, inserted
 or removed afterwards.
 */
module XcdrValue {
  import opened Common
  import opened Powers
  import opened XcdrOctets

  // ---- what is configured ----

  datatype PidFlagPolicy = SentinelMustUnderstand | Bare | ImplExtensionMembers

  datatype PidPosition = AtMember | AtSentinel | AtExtendedMarker

  datatype ParameterRole = ParameterMember | ParameterOptional

  const PID_EXTENDED := 0x3F01
  const PID_LIST_END := 0x3F02
  const PID_IGNORE := 0x3F03
  const PID_SHORT_MAX_ID := 0x3F00
  const PID_SHORT_MAX_LEN := 0xFFFF
  const PID_IMPL_EXTENSION := 0x8000
  const PID_MUST_UNDERSTAND := 0x4000
  const PID_ID_LIMIT := 0x4000
  const E_FLAG_MUST_UNDERSTAND := 0x4000_0000
  const E_MEMBER_ID_MASK := 0x0FFF_FFFF

  /** Whether an id carries the must-understand and the impl-extension flag at a position. */
  predicate MustFlagAt(policy: PidFlagPolicy, position: PidPosition) {
    match policy
    case SentinelMustUnderstand => position != AtMember
    case Bare => false
    case ImplExtensionMembers => position != AtSentinel
  }

  predicate ImplFlagAt(policy: PidFlagPolicy, position: PidPosition) {
    policy.ImplExtensionMembers? && position != AtSentinel
  }

  /** The choices that decide the octets of a parameter list: flags, header form, lengths and padding. */
  datatype Framing = Framing(
    pidFlags: PidFlagPolicy,
    highestShortId: nat,
    padDeclaredLength: bool,
    padDeclaredOptionalLength: bool,
    memberMustUnderstand: bool,
    padAfterValue: bool)
  {
    predicate PadsDeclaredLength(role: ParameterRole) {
      if role.ParameterOptional? then padDeclaredOptionalLength else padDeclaredLength
    }
  }

  const SPECIFICATION_FRAMING := Framing(SentinelMustUnderstand, PID_SHORT_MAX_ID, false, false, true, true)

  /** Byte order, alignment cap (four for XCDR2, eight for XCDR1), framing, and whether an LC4 header
      is shortened after the fact. Short ids have the low fourteen bits. */
  datatype Config = Config(little: bool, maxAlign: nat, framing: Framing, shortLengthCodes: bool) {
    predicate Valid() {
      && maxAlign in {4, 8}
      && framing.highestShortId < PID_ID_LIMIT
    }

    /** Removing a NEXTINT moves the value by four octets, which a cap of four does not see. */
    predicate ShortensSafely() {
      shortLengthCodes ==> maxAlign == 4
    }
  }

  // ---- values ----

  /** Final, appendable and mutable aggregates of XCDR2, and the parameter list of PL_CDR1. */
  datatype Extensibility = Final | Appendable | Mutable | ParameterList

  datatype Value =
    | Prim(width: nat, bits: nat)
    | Str(octets: Octets)
    | Blob(octets: Octets)
    | Aggregate(ext: Extensibility, members: Members)
    | Sequence(elements: Values)

  datatype Members = NoMembers | Member(id: nat, must: bool, value: Value, rest: Members)

  datatype Values = NoValues | ValueThen(head: Value, tail: Values)

  function Count(vs: Values): nat {
    match vs
    case NoValues => 0
    case ValueThen(_, tail) => 1 + Count(tail)
  }

  predicate WellFormed(v: Value) {
    match v
    case Prim(width, bits) => width in {1, 2, 4, 8} && bits < Pow(256, width)
    case Str(_) => true
    case Blob(_) => true
    case Aggregate(_, members) => MembersWellFormed(members)
    case Sequence(elements) => ValuesWellFormed(elements)
  }

  predicate MembersWellFormed(ms: Members) {
    match ms
    case NoMembers => true
    case Member(_, _, v, rest) => WellFormed(v) && MembersWellFormed(rest)
  }

  predicate ValuesWellFormed(vs: Values) {
    match vs
    case NoValues => true
    case ValueThen(v, tail) => WellFormed(v) && ValuesWellFormed(tail)
  }

  // ---- the direct encoding ----

  function Padding(cfg: Config, pos: nat, align: nat): Octets
    requires cfg.Valid() && align > 0
  {
    Zeros(PadLen(pos, align, cfg.maxAlign))
  }

  function EncInt(cfg: Config, v: nat, width: nat, pos: nat): Octets
    requires cfg.Valid() && width > 0
  {
    Padding(cfg, pos, width) + ToOctets(cfg.little, v, width)
  }

  function U32(cfg: Config, v: nat): Octets { ToOctets(cfg.little, v, 4) }

  function U16Octets(cfg: Config, v: nat): Octets { ToOctets(cfg.little, v, 2) }

  /** The word of an EMHEADER: must-understand, length code, member id. */
  function EmWord(id: nat, lengthCode: nat, must: bool): nat {
    (if must then 0x8000_0000 else 0) + lengthCode * 0x1000_0000 + id
  }

  /** The length code of a length that has one, or 4. */
  function ShortCode(length: nat): nat {
    if length == 1 then 0 else if length == 2 then 1 else if length == 4 then 2 else if length == 8 then 3 else 4
  }

  function ShortPidWord(cfg: Config, id: nat, must: bool): nat {
    id
    + (if (must && cfg.framing.memberMustUnderstand) || MustFlagAt(cfg.framing.pidFlags, AtMember)
       then PID_MUST_UNDERSTAND else 0)
    + (if ImplFlagAt(cfg.framing.pidFlags, AtMember) then PID_IMPL_EXTENSION else 0)
  }

  function FlaggedPid(cfg: Config, pid: nat, position: PidPosition): nat {
    pid
    + (if MustFlagAt(cfg.framing.pidFlags, position) then PID_MUST_UNDERSTAND else 0)
    + (if ImplFlagAt(cfg.framing.pidFlags, position) then PID_IMPL_EXTENSION else 0)
  }

  function ExtendedMemberHeader(cfg: Config, id: nat, must: bool): nat {
    id + (if must && cfg.framing.memberMustUnderstand then E_FLAG_MUST_UNDERSTAND else 0)
  }

  function ShortPidHeader(cfg: Config, id: nat, must: bool, declared: nat): Octets {
    U16Octets(cfg, ShortPidWord(cfg, id, must)) + U16Octets(cfg, declared)
  }

  function ExtendedPidHeader(cfg: Config, id: nat, must: bool, declared: nat): Octets {
    U16Octets(cfg, FlaggedPid(cfg, PID_EXTENDED, AtExtendedMarker)) + U16Octets(cfg, 8)
    + U32(cfg, ExtendedMemberHeader(cfg, id, must)) + U32(cfg, declared)
  }

  /** The length a parameter declares when its value of `length` octets ends at `end`. */
  function DeclaredLength(cfg: Config, role: ParameterRole, length: nat, end: nat): nat {
    if cfg.framing.PadsDeclaredLength(role) && end % 4 != 0 then length + 4 - end % 4 else length
  }

  /** A parameter whose value is `body`, at `pos`: the header is short only if the id and the length
      fit it. The value counts alignment from its own first octet. */
  function EncParameter(cfg: Config, role: ParameterRole, id: nat, must: bool, body: Octets, pos: nat): Octets
    requires cfg.Valid()
  {
    var pad := Padding(cfg, pos, 4);
    var start := pos + |pad|;
    var declared := DeclaredLength(cfg, role, |body|, start + 4 + |body|);
    var short := id <= cfg.framing.highestShortId && declared <= PID_SHORT_MAX_LEN;
    var header := if short then ShortPidHeader(cfg, id, must, declared) else ExtendedPidHeader(cfg, id, must, declared);
    var end := start + |header| + |body|;
    pad + header + body + (if cfg.framing.padAfterValue then Padding(cfg, end, 4) else [])
  }

  function EncSentinel(cfg: Config, pos: nat): Octets
    requires cfg.Valid()
  {
    Padding(cfg, pos, 4) + U16Octets(cfg, FlaggedPid(cfg, PID_LIST_END, AtSentinel)) + U16Octets(cfg, 0)
  }

  /** Where a body starts whose four-octet word is written at `pos`. */
  function AfterWord(cfg: Config, pos: nat): nat
    requires cfg.Valid()
  {
    pos + PadLen(pos, 4, cfg.maxAlign) + 4
  }

  /** A body behind a DHEADER that states its length. */
  function Delimited(cfg: Config, pos: nat, body: Octets): Octets
    requires cfg.Valid()
  {
    Padding(cfg, pos, 4) + U32(cfg, |body|) + body
  }

  function Enc(cfg: Config, v: Value, pos: nat): Octets
    requires cfg.Valid() && WellFormed(v)
    decreases v, 0
  {
    match v
    case Prim(width, bits) => EncInt(cfg, bits, width, pos)
    case Str(octets) => EncInt(cfg, |octets| + 1, 4, pos) + octets + [0]
    case Blob(octets) => EncInt(cfg, |octets|, 4, pos) + octets
    case Aggregate(ext, members) =>
      if ext.Final? || ext.ParameterList? then EncMembers(cfg, ext, members, pos)
      else Delimited(cfg, pos, EncMembers(cfg, ext, members, AfterWord(cfg, pos)))
    case Sequence(elements) => Delimited(cfg, pos, EncElements(cfg, elements, AfterWord(cfg, pos)))
  }

  /** The count and the elements of a sequence. */
  function EncElements(cfg: Config, vs: Values, pos: nat): Octets
    requires cfg.Valid() && ValuesWellFormed(vs)
    decreases vs, 1
  {
    var count := EncInt(cfg, Count(vs), 4, pos);
    count + EncValues(cfg, vs, pos + |count|)
  }

  function EncValues(cfg: Config, vs: Values, pos: nat): Octets
    requires cfg.Valid() && ValuesWellFormed(vs)
    decreases vs, 0
  {
    match vs
    case NoValues => []
    case ValueThen(v, tail) =>
      var first := Enc(cfg, v, pos);
      first + EncValues(cfg, tail, pos + |first|)
  }

  function EncMembers(cfg: Config, ext: Extensibility, ms: Members, pos: nat): Octets
    requires cfg.Valid() && MembersWellFormed(ms)
    decreases ms, 0
  {
    match ms
    case NoMembers => if ext.ParameterList? then EncSentinel(cfg, pos) else []
    case Member(id, must, v, rest) =>
      var first := EncMember(cfg, ext, id, must, v, pos);
      first + EncMembers(cfg, ext, rest, pos + |first|)
  }

  function EncMember(cfg: Config, ext: Extensibility, id: nat, must: bool, v: Value, pos: nat): Octets
    requires cfg.Valid() && WellFormed(v)
    decreases v, 2
  {
    match ext
    case Mutable => EncMutableMember(cfg, id, must, v, pos)
    case ParameterList => EncParameter(cfg, ParameterMember, id, must, Enc(cfg, v, 0), pos)
    case _ => Enc(cfg, v, pos)
  }

  /** A mutable member: with a length code of its own where the configuration asks for it and there is
      one, and with LC4 and a NEXTINT otherwise. */
  function EncMutableMember(cfg: Config, id: nat, must: bool, v: Value, pos: nat): Octets
    requires cfg.Valid() && WellFormed(v)
    decreases v, 1
  {
    var pad := Padding(cfg, pos, 4);
    var direct := Enc(cfg, v, AfterWord(cfg, pos));
    if cfg.shortLengthCodes && ShortCode(|direct|) != 4
    then pad + U32(cfg, EmWord(id, ShortCode(|direct|), must)) + direct
    else
      var body := Enc(cfg, v, AfterWord(cfg, pos) + 4);
      pad + U32(cfg, EmWord(id, 4, must)) + U32(cfg, |body|) + body
  }

  // ---- the octets depend on the position modulo the alignment cap only ----

  lemma DeclaredPeriodic(cfg: Config, role: ParameterRole, length: nat, end: nat, end': nat)
    requires cfg.Valid() && Congruent(end, end', cfg.maxAlign)
    ensures DeclaredLength(cfg, role, length, end) == DeclaredLength(cfg, role, length, end')
  {
    CongruentMod4(end, end', cfg.maxAlign);
  }

  lemma HeaderSizes(cfg: Config, id: nat, must: bool, declared: nat)
    ensures |ShortPidHeader(cfg, id, must, declared)| == 4 && |ExtendedPidHeader(cfg, id, must, declared)| == 12
  {
  }

  lemma ParameterPeriodic(cfg: Config, role: ParameterRole, id: nat, must: bool, body: Octets, pos: nat, pos': nat)
    requires cfg.Valid() && Congruent(pos, pos', cfg.maxAlign)
    ensures EncParameter(cfg, role, id, must, body, pos) == EncParameter(cfg, role, id, must, body, pos')
  {
    hide Congruent, PadLen, ShortPidHeader, ExtendedPidHeader, DeclaredLength;
    var cap := cfg.maxAlign;
    PadPeriodic(pos, pos', 4, cap);
    var n := PadLen(pos, 4, cap);
    AdvanceCongruent(pos, pos', n + 4 + |body|, cap);
    DeclaredPeriodic(cfg, role, |body|, pos + n + 4 + |body|, pos' + n + 4 + |body|);
    HeaderSizes(cfg, id, must, DeclaredLength(cfg, role, |body|, pos + n + 4 + |body|));
    PadPeriodic(pos + n + 4 + |body|, pos' + n + 4 + |body|, 4, cap);
    AdvanceCongruent(pos, pos', n + 12 + |body|, cap);
    PadPeriodic(pos + n + 12 + |body|, pos' + n + 12 + |body|, 4, cap);
  }

  lemma WordPeriodic(cfg: Config, pos: nat, pos': nat)
    requires cfg.Valid() && Congruent(pos, pos', cfg.maxAlign)
    ensures Padding(cfg, pos, 4) == Padding(cfg, pos', 4)
    ensures Congruent(AfterWord(cfg, pos), AfterWord(cfg, pos'), cfg.maxAlign)
    ensures Congruent(AfterWord(cfg, pos) + 4, AfterWord(cfg, pos') + 4, cfg.maxAlign)
  {
    hide Congruent, PadLen;
    PadPeriodic(pos, pos', 4, cfg.maxAlign);
    AdvanceCongruent(pos, pos', PadLen(pos, 4, cfg.maxAlign) + 4, cfg.maxAlign);
    AdvanceCongruent(pos, pos', PadLen(pos, 4, cfg.maxAlign) + 8, cfg.maxAlign);
  }

  lemma IntPeriodic(cfg: Config, v: nat, width: nat, pos: nat, pos': nat)
    requires cfg.Valid() && width in {1, 2, 4, 8} && Congruent(pos, pos', cfg.maxAlign)
    ensures EncInt(cfg, v, width, pos) == EncInt(cfg, v, width, pos')
    ensures var n := |EncInt(cfg, v, width, pos)|; Congruent(pos + n, pos' + n, cfg.maxAlign)
  {
    hide Congruent, PadLen;
    PadPeriodic(pos, pos', width, cfg.maxAlign);
    AdvanceCongruent(pos, pos', |EncInt(cfg, v, width, pos)|, cfg.maxAlign);
  }

  lemma {:induction false} EncPeriodic(cfg: Config, v: Value, pos: nat, pos': nat)
    requires cfg.Valid() && WellFormed(v) && Congruent(pos, pos', cfg.maxAlign)
    ensures Enc(cfg, v, pos) == Enc(cfg, v, pos')
    decreases v, 0
  {
    hide Congruent, EncInt, Padding, AfterWord, EncMembers, EncValues;
    WordPeriodic(cfg, pos, pos');
    var start, start' := AfterWord(cfg, pos), AfterWord(cfg, pos');
    match v {
      case Prim(width, bits) => IntPeriodic(cfg, bits, width, pos, pos');
      case Str(octets) => IntPeriodic(cfg, |octets| + 1, 4, pos, pos');
      case Blob(octets) => IntPeriodic(cfg, |octets|, 4, pos, pos');
      case Aggregate(ext, members) =>
        MembersPeriodic(cfg, ext, members, pos, pos');
        MembersPeriodic(cfg, ext, members, start, start');
      case Sequence(elements) =>
        IntPeriodic(cfg, Count(elements), 4, start, start');
        var n := |EncInt(cfg, Count(elements), 4, start)|;
        ValuesPeriodic(cfg, elements, start + n, start' + n);
    }
  }

  lemma {:induction false} ValuesPeriodic(cfg: Config, vs: Values, pos: nat, pos': nat)
    requires cfg.Valid() && ValuesWellFormed(vs) && Congruent(pos, pos', cfg.maxAlign)
    ensures EncValues(cfg, vs, pos) == EncValues(cfg, vs, pos')
    decreases vs, 0
  {
    hide Congruent, PadLen, ToOctets, Enc;
    if vs.ValueThen? {
      EncPeriodic(cfg, vs.head, pos, pos');
      var n := |Enc(cfg, vs.head, pos)|;
      AdvanceCongruent(pos, pos', n, cfg.maxAlign);
      ValuesPeriodic(cfg, vs.tail, pos + n, pos' + n);
    }
  }

  lemma {:induction false} MembersPeriodic(cfg: Config, ext: Extensibility, ms: Members, pos: nat, pos': nat)
    requires cfg.Valid() && MembersWellFormed(ms) && Congruent(pos, pos', cfg.maxAlign)
    ensures EncMembers(cfg, ext, ms, pos) == EncMembers(cfg, ext, ms, pos')
    decreases ms, 0
  {
    hide Congruent, Enc, EncMember, EncSentinel;
    if ms.Member? {
      MemberPeriodic(cfg, ext, ms.id, ms.must, ms.value, pos, pos');
      var n := |EncMember(cfg, ext, ms.id, ms.must, ms.value, pos)|;
      AdvanceCongruent(pos, pos', n, cfg.maxAlign);
      MembersPeriodic(cfg, ext, ms.rest, pos + n, pos' + n);
    } else {
      SentinelPeriodic(cfg, pos, pos');
    }
  }

  lemma SentinelPeriodic(cfg: Config, pos: nat, pos': nat)
    requires cfg.Valid() && Congruent(pos, pos', cfg.maxAlign)
    ensures EncSentinel(cfg, pos) == EncSentinel(cfg, pos')
  {
    hide PadLen, ToOctets;
    PadPeriodic(pos, pos', 4, cfg.maxAlign);
  }

  lemma {:induction false} MemberPeriodic(cfg: Config, ext: Extensibility, id: nat, must: bool, v: Value,
                                          pos: nat, pos': nat)
    requires cfg.Valid() && WellFormed(v) && Congruent(pos, pos', cfg.maxAlign)
    ensures EncMember(cfg, ext, id, must, v, pos) == EncMember(cfg, ext, id, must, v, pos')
    decreases v, 2
  {
    hide Congruent, Padding, AfterWord, ToOctets, Enc, EncParameter;
    match ext {
      case Mutable =>
        WordPeriodic(cfg, pos, pos');
        EncPeriodic(cfg, v, AfterWord(cfg, pos), AfterWord(cfg, pos'));
        EncPeriodic(cfg, v, AfterWord(cfg, pos) + 4, AfterWord(cfg, pos') + 4);
      case ParameterList => ParameterPeriodic(cfg, ParameterMember, id, must, Enc(cfg, v, 0), pos, pos');
      case _ => EncPeriodic(cfg, v, pos, pos');
    }
  }
}
