/** Which values have an encoding at all: ids that fit, and fewer than 2^32 octets. */
module XcdrSizes {
  import opened XcdrOctets
  import opened XcdrValue
  import opened XcdrEncode

  /** Every member that is framed by its id has one of 28 bits, at every depth. */
  predicate IdsFit(v: Value)
    decreases v, 0
  {
    match v
    case Aggregate(ext, members) => MemberIdsFit(members, ext.Mutable? || ext.ParameterList?)
    case Sequence(elements) => ElementIdsFit(elements)
    case _ => true
  }

  predicate MemberIdsFit(ms: Members, framed: bool)
    decreases ms, 0
  {
    ms.Member? ==> (framed ==> ms.id < 0x1000_0000) && IdsFit(ms.value) && MemberIdsFit(ms.rest, framed)
  }

  predicate ElementIdsFit(vs: Values)
    decreases vs, 0
  {
    vs.ValueThen? ==> IdsFit(vs.head) && ElementIdsFit(vs.tail)
  }

  /** Room for the padding a declared length may cover. */
  const SHORT_OF_LIMIT := 0xFFFF_FFFC

  /** A value whose ids fit is written whenever it comes to fewer octets than a length field can state. */
  lemma {:induction false} ShortValuesFit(cfg: Config, v: Value, pos: nat)
    requires cfg.Valid() && cfg.ShortensSafely() && WellFormed(v)
    requires IdsFit(v) && |Enc(cfg, v, pos)| < SHORT_OF_LIMIT
    ensures Fits(cfg, v, pos)
    decreases v, 0
  {
    hide PadLen, ToOctets, EncInt, EncMembers, EncValues, MembersFit, ValuesFit;
    match v {
      case Aggregate(ext, members) =>
        if ext.Final? || ext.ParameterList? {
          ShortMembersFit(cfg, ext, members, pos);
        } else {
          ShortMembersFit(cfg, ext, members, AfterWord(cfg, pos));
        }
      case Sequence(elements) =>
        var start := AfterWord(cfg, pos);
        ShortElementsFit(cfg, elements, start + |EncInt(cfg, Count(elements), 4, start)|);
      case _ =>
    }
  }

  lemma {:induction false} ShortElementsFit(cfg: Config, vs: Values, pos: nat)
    requires cfg.Valid() && cfg.ShortensSafely() && ValuesWellFormed(vs)
    requires ElementIdsFit(vs) && |EncValues(cfg, vs, pos)| < SHORT_OF_LIMIT
    ensures ValuesFit(cfg, vs, pos)
    decreases vs, 0
  {
    hide Enc, Fits, IdsFit;
    if vs.ValueThen? {
      ShortValuesFit(cfg, vs.head, pos);
      ShortElementsFit(cfg, vs.tail, pos + |Enc(cfg, vs.head, pos)|);
    }
  }

  lemma {:induction false} ShortMembersFit(cfg: Config, ext: Extensibility, ms: Members, pos: nat)
    requires cfg.Valid() && cfg.ShortensSafely() && MembersWellFormed(ms)
    requires MemberIdsFit(ms, ext.Mutable? || ext.ParameterList?) && |EncMembers(cfg, ext, ms, pos)| < SHORT_OF_LIMIT
    ensures MembersFit(cfg, ext, ms, pos)
    decreases ms, 0
  {
    hide Enc, Fits, IdsFit, EncMember, MemberFits;
    if ms.Member? {
      ShortMemberFits(cfg, ext, ms.id, ms.must, ms.value, pos);
      ShortMembersFit(cfg, ext, ms.rest, pos + |EncMember(cfg, ext, ms.id, ms.must, ms.value, pos)|);
    }
  }

  lemma {:induction false} ShortMemberFits(cfg: Config, ext: Extensibility, id: nat, must: bool, v: Value, pos: nat)
    requires cfg.Valid() && cfg.ShortensSafely() && WellFormed(v) && IdsFit(v)
    requires (ext.Mutable? || ext.ParameterList? ==> id < 0x1000_0000)
    requires |EncMember(cfg, ext, id, must, v, pos)| < SHORT_OF_LIMIT
    ensures MemberFits(cfg, ext, id, must, v, pos)
    decreases v, 1
  {
    hide Enc, Fits, IdsFit, PadLen, ToOctets, ShortPidHeader, ExtendedPidHeader;
    match ext {
      case Mutable =>
        var start := AfterWord(cfg, pos);
        if cfg.shortLengthCodes { FourEarlier(cfg, v, start); }
        ShortValuesFit(cfg, v, start + 4);
      case ParameterList => ShortValuesFit(cfg, v, 0);
      case _ => ShortValuesFit(cfg, v, pos);
    }
  }

  /** And an id that does not fit is refused, whatever else the value holds. */
  lemma {:induction false} FittingHasIds(cfg: Config, v: Value, pos: nat)
    requires cfg.Valid() && WellFormed(v) && Fits(cfg, v, pos)
    ensures IdsFit(v)
    decreases v, 0
  {
    hide PadLen, ToOctets, EncMembers, EncElements, MembersFit, ValuesFit;
    match v {
      case Aggregate(ext, members) =>
        MembersHaveIds(cfg, ext, members, if ext.Final? || ext.ParameterList? then pos else AfterWord(cfg, pos));
      case Sequence(elements) =>
        var start := AfterWord(cfg, pos);
        ElementsHaveIds(cfg, elements, start + |EncInt(cfg, Count(elements), 4, start)|);
      case _ =>
    }
  }

  lemma {:induction false} ElementsHaveIds(cfg: Config, vs: Values, pos: nat)
    requires cfg.Valid() && ValuesWellFormed(vs) && ValuesFit(cfg, vs, pos)
    ensures ElementIdsFit(vs)
    decreases vs, 0
  {
    hide Enc, Fits, IdsFit;
    if vs.ValueThen? {
      FittingHasIds(cfg, vs.head, pos);
      ElementsHaveIds(cfg, vs.tail, pos + |Enc(cfg, vs.head, pos)|);
    }
  }

  lemma {:induction false} MembersHaveIds(cfg: Config, ext: Extensibility, ms: Members, pos: nat)
    requires cfg.Valid() && MembersWellFormed(ms) && MembersFit(cfg, ext, ms, pos)
    ensures MemberIdsFit(ms, ext.Mutable? || ext.ParameterList?)
    decreases ms, 0
  {
    hide Enc, Fits, IdsFit, PadLen, EncMember;
    if ms.Member? {
      match ext {
        case Mutable => FittingHasIds(cfg, ms.value, AfterWord(cfg, pos) + 4);
        case ParameterList => FittingHasIds(cfg, ms.value, 0);
        case _ => FittingHasIds(cfg, ms.value, pos);
      }
      MembersHaveIds(cfg, ext, ms.rest, pos + |EncMember(cfg, ext, ms.id, ms.must, ms.value, pos)|);
    }
  }
}
