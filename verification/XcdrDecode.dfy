/** Reading a value by its type, from the reader's own reads. */
module XcdrDecode {
  import opened Common
  import opened XcdrValue
  import opened XcdrReader
  import Utf8

  datatype Type =
    | TPrim(width: nat)
    | TStr
    | TBlob
    | TAggregate(ext: Extensibility, fields: Fields)
    | TSequence(element: Type)

  datatype Fields = NoFields | Field(id: nat, must: bool, ty: Type, rest: Fields)

  predicate Proper(ty: Type) {
    match ty
    case TPrim(width) => width in {1, 2, 4, 8}
    case TAggregate(_, fields) => FieldsProper(fields)
    case TSequence(element) => Proper(element)
    case _ => true
  }

  predicate FieldsProper(fs: Fields) {
    fs.Field? ==> Proper(fs.ty) && FieldsProper(fs.rest)
  }

  /** A framed value that was skipped, could not be read, or was read. */
  datatype Outcome = Unknown | Failed | Decoded(value: Value, at: nat)

  /** The cursor moved forward to `target`, if there is such a position. */
  function ForwardTo(data: Octets, at: nat, target: nat): Option<nat> {
    if at <= target <= |data| then Some(target) else None
  }

  function TextAt(cfg: Config, data: Octets, at: nat, origin: nat): (r: Option<Read<Octets>>)
    requires cfg.Valid() && origin <= at
    ensures r.Some? ==> at <= r.value.at <= |data|
  {
    match UnsignedAt(cfg, data, at, origin, 4)
    case None => None
    case Some(length) =>
      if length.value == 0 || length.at + length.value > |data| then None
      else
        var text := data[length.at..length.at + length.value - 1];
        if Utf8.Valid(text) then Some(Read(text, length.at + length.value)) else None
  }

  function BlobAt(cfg: Config, data: Octets, at: nat, origin: nat): (r: Option<Read<Octets>>)
    requires cfg.Valid() && origin <= at
    ensures r.Some? ==> at <= r.value.at <= |data|
  {
    match UnsignedAt(cfg, data, at, origin, 4)
    case None => None
    case Some(length) =>
      if length.at + length.value > |data| then None
      else Some(Read(data[length.at..length.at + length.value], length.at + length.value))
  }

  function Dec(cfg: Config, ty: Type, data: Octets, at: nat, origin: nat): (r: Option<Read<Value>>)
    requires cfg.Valid() && Proper(ty) && origin <= at
    ensures r.Some? ==> at <= r.value.at
    decreases ty, 2, 0
  {
    match ty
    case TPrim(width) =>
      (match UnsignedAt(cfg, data, at, origin, width)
       case None => None
       case Some(read) => Some(Read(Prim(width, read.value), read.at)))
    case TStr =>
      (match TextAt(cfg, data, at, origin)
       case None => None
       case Some(read) => Some(Read(Str(read.value), read.at)))
    case TBlob =>
      (match BlobAt(cfg, data, at, origin)
       case None => None
       case Some(read) => Some(Read(Blob(read.value), read.at)))
    case TAggregate(ext, fields) =>
      if ext.Final? then AsAggregate(ext, DecFields(cfg, fields, data, at, origin))
      else if ext.ParameterList? then AsAggregate(ext, DecParameters(cfg, fields, data, at, origin))
      else
        (match DheaderAt(cfg, data, at, origin)
         case None => None
         case Some(header) =>
           var end := header.at + header.value;
           Ending(data, end, AsAggregate(ext,
                  if ext.Appendable? then DecFields(cfg, fields, data, header.at, origin)
                  else DecMutable(cfg, fields, data, header.at, origin, end))))
    case TSequence(element) =>
      (match DheaderAt(cfg, data, at, origin)
       case None => None
       case Some(header) =>
         match UnsignedAt(cfg, data, header.at, origin, 4)
         case None => None
         case Some(count) =>
           Ending(data, header.at + header.value,
                  match DecValues(cfg, element, count.value, data, count.at, origin)
                  case None => None
                  case Some(read) => Some(Read(Sequence(read.value), read.at))))
  }

  function AsAggregate(ext: Extensibility, members: Option<Read<Members>>): Option<Read<Value>> {
    match members
    case None => None
    case Some(read) => Some(Read(Aggregate(ext, read.value), read.at))
  }

  /** A delimited value, with the cursor moved to where its header says it ends. */
  function Ending(data: Octets, end: nat, value: Option<Read<Value>>): Option<Read<Value>> {
    match value
    case None => None
    case Some(read) =>
      match ForwardTo(data, read.at, end)
      case None => None
      case Some(at) => Some(Read(read.value, at))
  }

  function DecValues(cfg: Config, ty: Type, n: nat, data: Octets, at: nat, origin: nat): (r: Option<Read<Values>>)
    requires cfg.Valid() && Proper(ty) && origin <= at
    ensures r.Some? ==> at <= r.value.at
    decreases ty, 3, n
  {
    if n == 0 then Some(Read(NoValues, at))
    else
      match Dec(cfg, ty, data, at, origin)
      case None => None
      case Some(head) =>
        match DecValues(cfg, ty, n - 1, data, head.at, origin)
        case None => None
        case Some(tail) => Some(Read(ValueThen(head.value, tail.value), tail.at))
  }

  /** Members without headers, in the order of the type. */
  function DecFields(cfg: Config, fs: Fields, data: Octets, at: nat, origin: nat): (r: Option<Read<Members>>)
    requires cfg.Valid() && FieldsProper(fs) && origin <= at
    ensures r.Some? ==> at <= r.value.at
    decreases fs, 2, 0
  {
    match fs
    case NoFields => Some(Read(NoMembers, at))
    case Field(id, must, ty, rest) =>
      match Dec(cfg, ty, data, at, origin)
      case None => None
      case Some(head) =>
        match DecFields(cfg, rest, data, head.at, origin)
        case None => None
        case Some(tail) => Some(Read(Member(id, must, head.value, tail.value), tail.at))
  }

  /** The value of member `id`, if the type has one of that id. */
  function DecKnown(cfg: Config, fs: Fields, id: nat, data: Octets, at: nat, origin: nat): (r: Outcome)
    requires cfg.Valid() && FieldsProper(fs) && origin <= at
    ensures r.Decoded? ==> at <= r.at
    decreases fs, 0, 0
  {
    match fs
    case NoFields => Unknown
    case Field(id', _, ty, rest) =>
      if id' != id then DecKnown(cfg, rest, id, data, at, origin)
      else
        match Dec(cfg, ty, data, at, origin)
        case None => Failed
        case Some(read) => Decoded(read.value, read.at)
  }

  /** Members behind EMHEADERs, up to `end`; a member the type does not have is skipped by its extent. */
  function DecMutable(cfg: Config, fs: Fields, data: Octets, at: nat, origin: nat, end: nat): (r: Option<Read<Members>>)
    requires cfg.Valid() && FieldsProper(fs) && origin <= at
    ensures r.Some? ==> at <= r.value.at
    decreases fs, 1, |data| - at
  {
    if at >= end then Some(Read(NoMembers, at))
    else
      match EmheaderAt(cfg, data, at, origin)
      case None => None
      case Some(h) =>
        var outcome := DecKnown(cfg, fs, h.value.id, data, h.at, origin);
        match Framed(data, h.at, h.at + h.value.extent, outcome)
        case None => None
        case Some(next) =>
          WithMember(h.value.id, h.value.must, outcome, DecMutable(cfg, fs, data, next, origin, end))
  }

  /** Members behind parameter headers, up to the sentinel. */
  function DecParameters(cfg: Config, fs: Fields, data: Octets, at: nat, origin: nat): (r: Option<Read<Members>>)
    requires cfg.Valid() && FieldsProper(fs) && origin <= at
    ensures r.Some? ==> at <= r.value.at
    decreases fs, 1, |data| - at
  {
    match PidHeaderAt(cfg, data, at, origin)
    case None => None
    case Some(h) =>
      if h.value.end then Some(Read(NoMembers, h.at))
      else
        var outcome := if h.value.IsUserMember() then DecKnown(cfg, fs, h.value.pid, data, h.at, h.at) else Unknown;
        match Framed(data, h.at, h.at + h.value.length, outcome)
        case None => None
        case Some(next) =>
          WithMember(h.value.pid, h.value.must, outcome,
                     DecParameters(cfg, fs, data, Aligned(cfg, next, origin, 4), origin))
  }

  /** Where the value framed from `at` to `target` ends, if what was read of it lies inside. */
  function Framed(data: Octets, at: nat, target: nat, outcome: Outcome): Option<nat> {
    match outcome
    case Unknown => ForwardTo(data, at, target)
    case Failed => None
    case Decoded(_, past) => ForwardTo(data, past, target)
  }

  function WithMember(id: nat, must: bool, outcome: Outcome, rest: Option<Read<Members>>): Option<Read<Members>> {
    match rest
    case None => None
    case Some(read) =>
      if outcome.Decoded? then Some(Read(Member(id, must, outcome.value, read.value), read.at)) else Some(read)
  }

  // ---- what a reader of a type sees of a value ----

  /** What a count field of four octets cannot hold any more. */
  const COUNT_LIMIT := 0x1_0000_0000

  /** A value a reader of `ty` can read; if `exact`, one all of whose members the type has. */
  predicate Matches(v: Value, ty: Type, exact: bool)
    decreases v, 0
  {
    match (v, ty)
    case (Prim(width, _), TPrim(width')) => width == width'
    case (Str(octets), TStr) => Utf8.Valid(octets) && |octets| + 1 < COUNT_LIMIT
    case (Blob(octets), TBlob) => |octets| < COUNT_LIMIT
    case (Aggregate(ext, members), TAggregate(ext', fields)) =>
      && ext == ext'
      && if ext.Final? || ext.Appendable? then InOrder(members, fields, exact || ext.Final?, exact)
         else ById(members, fields, exact)
    case (Sequence(elements), TSequence(element)) => Count(elements) < COUNT_LIMIT && AllMatch(elements, element, exact)
    case _ => false
  }

  predicate AllMatch(vs: Values, ty: Type, exact: bool)
    decreases vs, 0
  {
    vs.ValueThen? ==> Matches(vs.head, ty, exact) && AllMatch(vs.tail, ty, exact)
  }

  /** Members in the order of the fields, with more behind them unless `closed`. */
  predicate InOrder(ms: Members, fs: Fields, closed: bool, exact: bool)
    decreases ms, 0
  {
    match fs
    case NoFields => closed ==> ms.NoMembers?
    case Field(id, must, ty, rest) =>
      && ms.Member? && ms.id == id && ms.must == must
      && Matches(ms.value, ty, exact) && InOrder(ms.rest, rest, closed, exact)
  }

  predicate ById(ms: Members, fs: Fields, exact: bool)
    decreases ms, 0
  {
    ms.Member? ==>
      && (exact ==> Known(fs, ms.id))
      && FieldMatches(ms.value, fs, ms.id, exact) && ById(ms.rest, fs, exact)
  }

  predicate Known(fs: Fields, id: nat) {
    fs.Field? && (fs.id == id || Known(fs.rest, id))
  }

  predicate FieldMatches(v: Value, fs: Fields, id: nat, exact: bool)
    decreases v, 1, fs
  {
    match fs
    case NoFields => true
    case Field(id', _, ty, rest) => if id' == id then Matches(v, ty, exact) else FieldMatches(v, rest, id, exact)
  }

  /** What is left of a value when the members its reader does not know are gone. */
  function Seen(v: Value, ty: Type): Value
    decreases v, 0
  {
    match (v, ty)
    case (Aggregate(ext, members), TAggregate(_, fields)) =>
      Aggregate(ext, if ext.Final? || ext.Appendable? then SeenInOrder(members, fields) else SeenById(members, fields))
    case (Sequence(elements), TSequence(element)) => Sequence(AllSeen(elements, element))
    case _ => v
  }

  function AllSeen(vs: Values, ty: Type): Values
    decreases vs, 0
  {
    match vs
    case NoValues => NoValues
    case ValueThen(v, tail) => ValueThen(Seen(v, ty), AllSeen(tail, ty))
  }

  function SeenInOrder(ms: Members, fs: Fields): Members
    decreases ms, 0
  {
    if ms.NoMembers? || fs.NoFields? then NoMembers
    else Member(ms.id, ms.must, Seen(ms.value, fs.ty), SeenInOrder(ms.rest, fs.rest))
  }

  function SeenById(ms: Members, fs: Fields): Members
    decreases ms, 0
  {
    match ms
    case NoMembers => NoMembers
    case Member(id, must, v, rest) =>
      if Known(fs, id) then Member(id, must, SeenAs(v, fs, id), SeenById(rest, fs)) else SeenById(rest, fs)
  }

  function SeenAs(v: Value, fs: Fields, id: nat): Value
    decreases v, 1, fs
  {
    match fs
    case NoFields => v
    case Field(id', _, ty, rest) => if id' == id then Seen(v, ty) else SeenAs(v, rest, id)
  }

  /** A reader whose type has every member sees all of the value. */
  lemma {:induction false} ExactSeesAll(v: Value, ty: Type)
    requires Matches(v, ty, true)
    ensures Seen(v, ty) == v
    decreases v, 0
  {
    match (v, ty) {
      case (Aggregate(ext, members), TAggregate(_, fields)) =>
        if ext.Final? || ext.Appendable? { OrderSeesAll(members, fields); } else { IdsSeeAll(members, fields); }
      case (Sequence(elements), TSequence(element)) => ElementsSeen(elements, element);
      case _ =>
    }
  }

  lemma {:induction false} ElementsSeen(vs: Values, ty: Type)
    requires AllMatch(vs, ty, true)
    ensures AllSeen(vs, ty) == vs
    decreases vs, 0
  {
    if vs.ValueThen? {
      ExactSeesAll(vs.head, ty);
      ElementsSeen(vs.tail, ty);
    }
  }

  lemma {:induction false} OrderSeesAll(ms: Members, fs: Fields)
    requires InOrder(ms, fs, true, true)
    ensures SeenInOrder(ms, fs) == ms
    decreases ms, 0
  {
    if fs.Field? {
      ExactSeesAll(ms.value, fs.ty);
      OrderSeesAll(ms.rest, fs.rest);
    }
  }

  lemma {:induction false} IdsSeeAll(ms: Members, fs: Fields)
    requires ById(ms, fs, true)
    ensures SeenById(ms, fs) == ms
    decreases ms, 0
  {
    if ms.Member? {
      FieldSeesAll(ms.value, fs, ms.id);
      IdsSeeAll(ms.rest, fs);
    }
  }

  lemma {:induction false} FieldSeesAll(v: Value, fs: Fields, id: nat)
    requires FieldMatches(v, fs, id, true)
    ensures SeenAs(v, fs, id) == v
    decreases v, 1, fs
  {
    if fs.Field? {
      if fs.id == id { ExactSeesAll(v, fs.ty); } else { FieldSeesAll(v, fs.rest, id); }
    }
  }
}
