/** Every value has a type of its own, and read by it comes back whole. */
module XcdrTyped {
  import opened XcdrOctets
  import opened XcdrValue
  import opened XcdrEncode
  import opened XcdrSizes
  import opened XcdrDecode
  import opened XcdrRoundTrip
  import Utf8

  /** The type a value is of; an empty sequence is taken for one of octets. */
  function TypeOf(v: Value): Type
    decreases v, 0
  {
    match v
    case Prim(width, _) => TPrim(width)
    case Str(_) => TStr
    case Blob(_) => TBlob
    case Aggregate(ext, members) => TAggregate(ext, FieldsOf(members))
    case Sequence(elements) => TSequence(if elements.ValueThen? then TypeOf(elements.head) else TPrim(1))
  }

  function FieldsOf(ms: Members): Fields
    decreases ms, 0
  {
    match ms
    case NoMembers => NoFields
    case Member(id, must, v, rest) => Field(id, must, TypeOf(v), FieldsOf(rest))
  }

  predicate HasId(ms: Members, id: nat) {
    ms.Member? && (ms.id == id || HasId(ms.rest, id))
  }

  /** A value of some type: text in UTF-8, counts of 32 bits, elements of one type, and no id twice where members are
      found by their ids. */
  predicate Regular(v: Value)
    decreases v, 0
  {
    match v
    case Prim(_, _) => true
    case Str(octets) => Utf8.Valid(octets) && |octets| + 1 < 0x1_0000_0000
    case Blob(octets) => |octets| < 0x1_0000_0000
    case Aggregate(ext, members) => MembersRegular(members, ext.Mutable? || ext.ParameterList?)
    case Sequence(elements) =>
      && Count(elements) < 0x1_0000_0000
      && (elements.ValueThen? ==> ElementsRegular(elements, TypeOf(elements.head)))
  }

  predicate MembersRegular(ms: Members, byId: bool)
    decreases ms, 0
  {
    ms.Member? ==> (byId ==> !HasId(ms.rest, ms.id)) && Regular(ms.value) && MembersRegular(ms.rest, byId)
  }

  predicate ElementsRegular(vs: Values, ty: Type)
    decreases vs, 0
  {
    vs.ValueThen? ==> Regular(vs.head) && TypeOf(vs.head) == ty && ElementsRegular(vs.tail, ty)
  }

  /** A regular value is of its own type, with every member. */
  lemma {:induction false} OwnTypeMatches(v: Value)
    requires WellFormed(v) && Regular(v)
    ensures Proper(TypeOf(v)) && Matches(v, TypeOf(v), true)
    decreases v, 0
  {
    hide Utf8.Valid, InOrder, ById, AllMatch, FieldsOf;
    match v {
      case Aggregate(ext, members) =>
        FieldsAreProper(members, ext.Mutable? || ext.ParameterList?);
        if ext.Final? || ext.Appendable? {
          MembersInOrder(members);
        } else {
          MembersFound(members);
          FoundMatch(members, FieldsOf(members));
        }
      case Sequence(elements) =>
        if elements.ValueThen? {
          OwnTypeMatches(elements.head);
          ElementsMatch(elements, TypeOf(elements.head));
        } else {
          NoneMatch(TPrim(1));
        }
      case _ =>
    }
  }

  lemma NoneMatch(ty: Type)
    ensures AllMatch(NoValues, ty, true)
  {
  }

  lemma {:induction false} ElementsMatch(vs: Values, ty: Type)
    requires ValuesWellFormed(vs) && ElementsRegular(vs, ty)
    ensures AllMatch(vs, ty, true)
    decreases vs, 0
  {
    hide Regular, WellFormed, Matches, TypeOf;
    if vs.ValueThen? {
      OwnTypeMatches(vs.head);
      ElementsMatch(vs.tail, ty);
    }
  }

  lemma {:induction false} FieldsAreProper(ms: Members, byId: bool)
    requires MembersWellFormed(ms) && MembersRegular(ms, byId)
    ensures FieldsProper(FieldsOf(ms))
    decreases ms, 0
  {
    hide Regular, WellFormed, TypeOf;
    if ms.Member? {
      OwnTypeMatches(ms.value);
      FieldsAreProper(ms.rest, byId);
    }
  }

  lemma {:induction false} MembersInOrder(ms: Members)
    requires MembersWellFormed(ms) && MembersRegular(ms, false)
    ensures InOrder(ms, FieldsOf(ms), true, true)
    decreases ms, 0
  {
    hide Regular, WellFormed, Matches, TypeOf;
    if ms.Member? {
      OwnTypeMatches(ms.value);
      MembersInOrder(ms.rest);
    }
  }

  // ---- members found by id ----

  /** The first field of an id has the type of its member, for every member. */
  predicate AllFound(ms: Members, fs: Fields) {
    ms.Member? ==> Found(fs, ms.id, ms.value) && AllFound(ms.rest, fs)
  }

  predicate Found(fs: Fields, id: nat, v: Value) {
    fs.Field? && if fs.id == id then Matches(v, fs.ty, true) else Found(fs.rest, id, v)
  }

  lemma {:induction false} MembersFound(ms: Members)
    requires MembersWellFormed(ms) && MembersRegular(ms, true)
    ensures AllFound(ms, FieldsOf(ms))
    decreases ms, 0
  {
    hide Regular, WellFormed, Matches, TypeOf;
    if ms.Member? {
      OwnTypeMatches(ms.value);
      MembersFound(ms.rest);
      FoundBehind(ms.rest, FieldsOf(ms.rest), ms.id, ms.must, TypeOf(ms.value));
    }
  }

  /** A field in front of another id changes nothing. */
  lemma {:induction false} FoundBehind(ms: Members, fs: Fields, id: nat, must: bool, ty: Type)
    requires AllFound(ms, fs) && !HasId(ms, id)
    ensures AllFound(ms, Field(id, must, ty, fs))
  {
    hide Matches;
    if ms.Member? { FoundBehind(ms.rest, fs, id, must, ty); }
  }

  lemma {:induction false} FoundMatch(ms: Members, fs: Fields)
    requires AllFound(ms, fs)
    ensures ById(ms, fs, true)
  {
    hide Found, Known, FieldMatches;
    if ms.Member? {
      FoundIs(fs, ms.id, ms.value);
      FoundMatch(ms.rest, fs);
    }
  }

  lemma {:induction false} FoundIs(fs: Fields, id: nat, v: Value)
    requires Found(fs, id, v)
    ensures Known(fs, id) && FieldMatches(v, fs, id, true)
  {
    hide Matches;
    if fs.id != id { FoundIs(fs.rest, id, v); }
  }

  /** Every regular value of fewer than 2^32 octets is written and read back whole, whatever it is made of. */
  lemma EveryValueReadsBack(cfg: Config, v: Value)
    requires Decodable(cfg) && WellFormed(v) && Regular(v)
    requires IdsFit(v) && |Enc(cfg, v, 0)| < SHORT_OF_LIMIT
    ensures Proper(TypeOf(v)) && Fits(cfg, v, 0)
    ensures Gives(Dec(cfg, TypeOf(v), Enc(cfg, v, 0), 0, 0), v, |Enc(cfg, v, 0)|)
  {
    hide Enc, Dec, Fits, Matches, Regular, TypeOf, IdsFit, WellFormed;
    OwnTypeMatches(v);
    ShortValuesFit(cfg, v, 0);
    RoundTrip(cfg, v, TypeOf(v));
  }

  // ---- readers of an older type ----

  /** A value that matches with all its members matches. */
  lemma {:induction false} ExactIsLoose(v: Value, ty: Type)
    requires Matches(v, ty, true)
    ensures Matches(v, ty, false)
    decreases v, 0
  {
    hide Utf8.Valid, InOrder, ById, AllMatch;
    match (v, ty) {
      case (Aggregate(ext, members), TAggregate(_, fields)) =>
        if ext.Final? || ext.Appendable? {
          OrderIsLoose(members, fields, ext.Final?);
        } else {
          IdsAreLoose(members, fields);
        }
      case (Sequence(elements), TSequence(element)) => ElementsAreLoose(elements, element);
      case _ =>
    }
  }

  lemma {:induction false} ElementsAreLoose(vs: Values, ty: Type)
    requires AllMatch(vs, ty, true)
    ensures AllMatch(vs, ty, false)
    decreases vs, 0
  {
    hide Matches;
    if vs.ValueThen? {
      ExactIsLoose(vs.head, ty);
      ElementsAreLoose(vs.tail, ty);
    }
  }

  lemma {:induction false} OrderIsLoose(ms: Members, fs: Fields, closed: bool)
    requires InOrder(ms, fs, true, true)
    ensures InOrder(ms, fs, closed, false)
    decreases ms, 0
  {
    hide Matches;
    if fs.Field? {
      ExactIsLoose(ms.value, fs.ty);
      OrderIsLoose(ms.rest, fs.rest, closed);
    }
  }

  lemma {:induction false} IdsAreLoose(ms: Members, fs: Fields)
    requires ById(ms, fs, true)
    ensures ById(ms, fs, false)
    decreases ms, 0
  {
    hide FieldMatches, Known;
    if ms.Member? {
      FieldIsLoose(ms.value, fs, ms.id);
      IdsAreLoose(ms.rest, fs);
    }
  }

  lemma {:induction false} FieldIsLoose(v: Value, fs: Fields, id: nat)
    requires FieldMatches(v, fs, id, true)
    ensures FieldMatches(v, fs, id, false)
    decreases v, 1, fs
  {
    hide Matches;
    if fs.Field? {
      if fs.id == id { ExactIsLoose(v, fs.ty); } else { FieldIsLoose(v, fs.rest, id); }
    }
  }

  /** The fields and the members of some ids. */
  function KeptFields(fs: Fields, keep: set<nat>): Fields {
    match fs
    case NoFields => NoFields
    case Field(id, must, ty, rest) =>
      if id in keep then Field(id, must, ty, KeptFields(rest, keep)) else KeptFields(rest, keep)
  }

  function KeptMembers(ms: Members, keep: set<nat>): Members {
    match ms
    case NoMembers => NoMembers
    case Member(id, must, v, rest) =>
      if id in keep then Member(id, must, v, KeptMembers(rest, keep)) else KeptMembers(rest, keep)
  }

  lemma {:induction false} KeptAreProper(fs: Fields, keep: set<nat>)
    requires FieldsProper(fs)
    ensures FieldsProper(KeptFields(fs, keep))
  {
    if fs.Field? { KeptAreProper(fs.rest, keep); }
  }

  /** A kept id is found where it was, and another is found no more. */
  lemma {:induction false} KeptIsFound(fs: Fields, id: nat, v: Value, keep: set<nat>)
    requires Found(fs, id, v)
    ensures id in keep ==> Found(KeptFields(fs, keep), id, v)
    ensures id !in keep ==> !Known(KeptFields(fs, keep), id) && FieldMatches(v, KeptFields(fs, keep), id, false)
  {
    hide Matches;
    if fs.id != id {
      KeptIsFound(fs.rest, id, v, keep);
    } else {
      GoneIsUnknown(fs, id, v, keep);
    }
  }

  lemma {:induction false} GoneIsUnknown(fs: Fields, id: nat, v: Value, keep: set<nat>)
    ensures id !in keep ==> !Known(KeptFields(fs, keep), id) && FieldMatches(v, KeptFields(fs, keep), id, false)
  {
    hide Matches;
    if fs.Field? { GoneIsUnknown(fs.rest, id, v, keep); }
  }

  lemma {:induction false} KeptMembersSeen(ms: Members, fs: Fields, keep: set<nat>)
    requires AllFound(ms, fs)
    ensures ById(ms, KeptFields(fs, keep), false) && SeenById(ms, KeptFields(fs, keep)) == KeptMembers(ms, keep)
    decreases ms
  {
    hide Found, Known, FieldMatches, SeenAs, KeptFields;
    if ms.Member? {
      KeptIsFound(fs, ms.id, ms.value, keep);
      if ms.id in keep {
        FoundIs(KeptFields(fs, keep), ms.id, ms.value);
        FieldSeesAll(ms.value, KeptFields(fs, keep), ms.id);
        FieldIsLoose(ms.value, KeptFields(fs, keep), ms.id);
      }
      KeptMembersSeen(ms.rest, fs, keep);
    }
  }

  /** A reader whose type has only some of the members of a mutable aggregate or a parameter list gets exactly those,
      whatever the others are, and ends where the sample ends. */
  lemma OlderTypeReadsItsMembers(cfg: Config, ext: Extensibility, ms: Members, keep: set<nat>)
    requires Decodable(cfg) && (ext.Mutable? || ext.ParameterList?)
    requires var v := Aggregate(ext, ms);
             WellFormed(v) && Regular(v) && IdsFit(v) && |Enc(cfg, v, 0)| < SHORT_OF_LIMIT
    ensures var v, older := Aggregate(ext, ms), TAggregate(ext, KeptFields(FieldsOf(ms), keep));
            && Proper(older)
            && Gives(Dec(cfg, older, Enc(cfg, v, 0), 0, 0), Aggregate(ext, KeptMembers(ms, keep)), |Enc(cfg, v, 0)|)
  {
    hide Enc, Dec, Fits, MembersRegular, FieldsOf, MemberIdsFit, MembersWellFormed, KeptFields, KeptMembers, ById;
    hide SeenById;
    var v, fs := Aggregate(ext, ms), FieldsOf(ms);
    FieldsAreProper(ms, true);
    KeptAreProper(fs, keep);
    MembersFound(ms);
    KeptMembersSeen(ms, fs, keep);
    ShortValuesFit(cfg, v, 0);
    var data := Enc(cfg, v, 0);
    assert At(data, 0, data) by { assert data[0..|data|] == data; }
    DecodeInvertsEncode(cfg, v, TAggregate(ext, KeptFields(fs, keep)), false, data, 0, 0);
  }

  /** The first k fields and members. */
  function FirstFields(fs: Fields, k: nat): Fields {
    if k == 0 || fs.NoFields? then NoFields else Field(fs.id, fs.must, fs.ty, FirstFields(fs.rest, k - 1))
  }

  function FirstMembers(ms: Members, k: nat): Members {
    if k == 0 || ms.NoMembers? then NoMembers else Member(ms.id, ms.must, ms.value, FirstMembers(ms.rest, k - 1))
  }

  lemma {:induction false} FirstMembersSeen(ms: Members, k: nat)
    requires MembersWellFormed(ms) && MembersRegular(ms, false)
    ensures FieldsProper(FirstFields(FieldsOf(ms), k))
    ensures InOrder(ms, FirstFields(FieldsOf(ms), k), false, false)
    ensures SeenInOrder(ms, FirstFields(FieldsOf(ms), k)) == FirstMembers(ms, k)
    decreases ms
  {
    hide Regular, WellFormed, Matches, TypeOf, Seen;
    if k > 0 && ms.Member? {
      OwnTypeMatches(ms.value);
      ExactIsLoose(ms.value, TypeOf(ms.value));
      ExactSeesAll(ms.value, TypeOf(ms.value));
      FirstMembersSeen(ms.rest, k - 1);
    }
  }

  /** A reader of an appendable aggregate whose type ends after the first members gets these, and ends where the sample
      ends. */
  lemma OlderTypeReadsItsPrefix(cfg: Config, ms: Members, k: nat)
    requires Decodable(cfg)
    requires var v := Aggregate(Appendable, ms);
             WellFormed(v) && Regular(v) && IdsFit(v) && |Enc(cfg, v, 0)| < SHORT_OF_LIMIT
    ensures var v, older := Aggregate(Appendable, ms), TAggregate(Appendable, FirstFields(FieldsOf(ms), k));
            && Proper(older)
            && Gives(Dec(cfg, older, Enc(cfg, v, 0), 0, 0), Aggregate(Appendable, FirstMembers(ms, k)),
                     |Enc(cfg, v, 0)|)
  {
    hide Enc, Dec, Fits, MembersRegular, FieldsOf, MemberIdsFit, MembersWellFormed, FirstFields, FirstMembers, InOrder;
    hide SeenInOrder;
    var v := Aggregate(Appendable, ms);
    FirstMembersSeen(ms, k);
    ShortValuesFit(cfg, v, 0);
    var data := Enc(cfg, v, 0);
    assert At(data, 0, data) by { assert data[0..|data|] == data; }
    DecodeInvertsEncode(cfg, v, TAggregate(Appendable, FirstFields(FieldsOf(ms), k)), false, data, 0, 0);
  }
}
