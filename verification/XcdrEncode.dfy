/** Writing a value through the writer's operations gives the direct encoding. */
module XcdrEncode {
  import opened Common
  import opened Powers
  import opened XcdrOctets
  import opened XcdrValue
  import opened XcdrWriter

  /** Every id and every back-patched length fits its field. */
  predicate Fits(cfg: Config, v: Value, pos: nat)
    requires cfg.Valid() && WellFormed(v)
    decreases v, 0
  {
    match v
    case Aggregate(ext, members) =>
      if ext.Final? || ext.ParameterList? then MembersFit(cfg, ext, members, pos)
      else
        && MembersFit(cfg, ext, members, AfterWord(cfg, pos))
        && |EncMembers(cfg, ext, members, AfterWord(cfg, pos))| < 0x1_0000_0000
    case Sequence(elements) =>
      && ElementsFit(cfg, elements, AfterWord(cfg, pos))
      && |EncElements(cfg, elements, AfterWord(cfg, pos))| < 0x1_0000_0000
    case _ => true
  }

  predicate ElementsFit(cfg: Config, vs: Values, pos: nat)
    requires cfg.Valid() && ValuesWellFormed(vs)
    decreases vs, 1
  {
    ValuesFit(cfg, vs, pos + |EncInt(cfg, Count(vs), 4, pos)|)
  }

  predicate ValuesFit(cfg: Config, vs: Values, pos: nat)
    requires cfg.Valid() && ValuesWellFormed(vs)
    decreases vs, 0
  {
    match vs
    case NoValues => true
    case ValueThen(v, tail) => Fits(cfg, v, pos) && ValuesFit(cfg, tail, pos + |Enc(cfg, v, pos)|)
  }

  predicate MembersFit(cfg: Config, ext: Extensibility, ms: Members, pos: nat)
    requires cfg.Valid() && MembersWellFormed(ms)
    decreases ms, 0
  {
    match ms
    case NoMembers => true
    case Member(id, must, v, rest) =>
      && MemberFits(cfg, ext, id, must, v, pos)
      && MembersFit(cfg, ext, rest, pos + |EncMember(cfg, ext, id, must, v, pos)|)
  }

  predicate MemberFits(cfg: Config, ext: Extensibility, id: nat, must: bool, v: Value, pos: nat)
    requires cfg.Valid() && WellFormed(v)
    decreases v, 1
  {
    match ext
    case Mutable =>
      && id <= E_MEMBER_ID_MASK && Fits(cfg, v, AfterWord(cfg, pos) + 4)
      && |Enc(cfg, v, AfterWord(cfg, pos) + 4)| < 0x1_0000_0000
    case ParameterList =>
      && id <= E_MEMBER_ID_MASK && Fits(cfg, v, 0)
      && var n := |Enc(cfg, v, 0)|;
         DeclaredLength(cfg, ParameterMember, n, AfterWord(cfg, pos) + n) < 0x1_0000_0000
    case _ => Fits(cfg, v, pos)
  }

  // ---- the two rewrites of octets already written ----

  /** Promoting a short header gives what writing the extended header first would have given. */
  lemma PromotedIsExtended(cfg: Config, before: Octets, id: nat, must: bool, body: Octets, declared: nat, h: Pid)
    requires id < 0x1000_0000 && h.at == |before| + 2 && h.pid == id && h.mustUnderstand == must
    ensures var short := before + U16Octets(cfg, ShortPidWord(cfg, id, must)) + Zeros(2) + body;
            Promoted(cfg, short, h, declared) == before + ExtendedPidHeader(cfg, id, must, declared) + body
  {
    hide ToOctets, ExtendedPidHeader;
    var short := before + U16Octets(cfg, ShortPidWord(cfg, id, must)) + Zeros(2) + body;
    assert short[..|before|] == before;
    assert short[|before| + 4..] == body;
  }

  /** Shortening an LC4 header gives what writing the short length code first would have given. */
  lemma ShortenedIsDirect(cfg: Config, before: Octets, id: nat, must: bool, body: Octets, code: nat)
    requires id <= E_MEMBER_ID_MASK && code < 4
    ensures var long := before + U32(cfg, EmWord(id, 4, must)) + Zeros(4) + body;
            Shortened(cfg, long, |before|, code) == before + U32(cfg, EmWord(id, code, must)) + body
  {
    var word := U32(cfg, EmWord(id, 4, must));
    var long := before + word + Zeros(4) + body;
    assert long[..|before|] == before;
    assert long[|before|..|before| + 4] == word;
    assert long[|before| + 8..] == body;
    EmWordFits(id, 4, must);
    OctetsInverse(cfg.little, EmWord(id, 4, must), 4);
    RecodedWord(id, must, code);
  }

  lemma EmWordFits(id: nat, code: nat, must: bool)
    requires id <= E_MEMBER_ID_MASK && code < 8
    ensures EmWord(id, code, must) < Pow(256, 4)
  {
    Pow256Of4();
  }

  lemma RecodedWord(id: nat, must: bool, code: nat)
    requires id <= E_MEMBER_ID_MASK && code < 4
    ensures Recoded(EmWord(id, 4, must), code) == EmWord(id, code, must)
  {
    var word := EmWord(id, 4, must);
    var top := if must then 12 else 4;
    assert word == top * 0x1000_0000 + id;
    assert word / 0x1000_0000 == top;
  }

  /** The shortened member's octets are those written four octets earlier, as the cap is four. */
  lemma FourEarlier(cfg: Config, v: Value, pos: nat)
    requires cfg.Valid() && WellFormed(v) && cfg.maxAlign == 4
    ensures Enc(cfg, v, pos) == Enc(cfg, v, pos + 4)
  {
    EncPeriodic(cfg, v, pos, pos + 4) by { Shifted4(1, pos); }
  }

  lemma FitsFourEarlier(cfg: Config, v: Value, pos: nat)
    requires cfg.Valid() && WellFormed(v) && cfg.maxAlign == 4
    ensures Fits(cfg, v, pos) == Fits(cfg, v, pos + 4)
  {
    FitsPeriodic(cfg, v, pos, pos + 4) by { Shifted4(1, pos); }
  }

  // ---- so does whether everything fits ----

  lemma {:induction false} FitsPeriodic(cfg: Config, v: Value, pos: nat, pos': nat)
    requires cfg.Valid() && WellFormed(v) && Congruent(pos, pos', cfg.maxAlign)
    ensures Fits(cfg, v, pos) == Fits(cfg, v, pos')
    decreases v, 0
  {
    hide Congruent, EncInt, Padding, AfterWord, EncMembers, EncValues, MembersFit, ValuesFit;
    WordPeriodic(cfg, pos, pos');
    var start, start' := AfterWord(cfg, pos), AfterWord(cfg, pos');
    match v {
      case Aggregate(ext, members) =>
        MembersFitPeriodic(cfg, ext, members, pos, pos');
        MembersFitPeriodic(cfg, ext, members, start, start');
        MembersPeriodic(cfg, ext, members, start, start');
      case Sequence(elements) =>
        IntPeriodic(cfg, Count(elements), 4, start, start');
        var n := |EncInt(cfg, Count(elements), 4, start)|;
        ValuesPeriodic(cfg, elements, start + n, start' + n);
        ValuesFitPeriodic(cfg, elements, start + n, start' + n);
      case _ =>
    }
  }

  lemma {:induction false} ValuesFitPeriodic(cfg: Config, vs: Values, pos: nat, pos': nat)
    requires cfg.Valid() && ValuesWellFormed(vs) && Congruent(pos, pos', cfg.maxAlign)
    ensures ValuesFit(cfg, vs, pos) == ValuesFit(cfg, vs, pos')
    decreases vs, 0
  {
    hide Congruent, Enc, Fits;
    if vs.ValueThen? {
      EncPeriodic(cfg, vs.head, pos, pos');
      FitsPeriodic(cfg, vs.head, pos, pos');
      var n := |Enc(cfg, vs.head, pos)|;
      AdvanceCongruent(pos, pos', n, cfg.maxAlign);
      ValuesFitPeriodic(cfg, vs.tail, pos + n, pos' + n);
    }
  }

  lemma {:induction false} MembersFitPeriodic(cfg: Config, ext: Extensibility, ms: Members, pos: nat, pos': nat)
    requires cfg.Valid() && MembersWellFormed(ms) && Congruent(pos, pos', cfg.maxAlign)
    ensures MembersFit(cfg, ext, ms, pos) == MembersFit(cfg, ext, ms, pos')
    decreases ms, 0
  {
    hide Congruent, EncMember, MemberFits;
    if ms.Member? {
      MemberPeriodic(cfg, ext, ms.id, ms.must, ms.value, pos, pos');
      MemberFitsPeriodic(cfg, ext, ms.id, ms.must, ms.value, pos, pos');
      var n := |EncMember(cfg, ext, ms.id, ms.must, ms.value, pos)|;
      AdvanceCongruent(pos, pos', n, cfg.maxAlign);
      MembersFitPeriodic(cfg, ext, ms.rest, pos + n, pos' + n);
    }
  }

  lemma {:induction false} MemberFitsPeriodic(cfg: Config, ext: Extensibility, id: nat, must: bool, v: Value,
                                              pos: nat, pos': nat)
    requires cfg.Valid() && WellFormed(v) && Congruent(pos, pos', cfg.maxAlign)
    ensures MemberFits(cfg, ext, id, must, v, pos) == MemberFits(cfg, ext, id, must, v, pos')
    decreases v, 1
  {
    hide Congruent, AfterWord, Enc, Fits, DeclaredLength;
    WordPeriodic(cfg, pos, pos');
    match ext {
      case Mutable =>
        EncPeriodic(cfg, v, AfterWord(cfg, pos) + 4, AfterWord(cfg, pos') + 4);
        FitsPeriodic(cfg, v, AfterWord(cfg, pos) + 4, AfterWord(cfg, pos') + 4);
      case ParameterList =>
        var n := |Enc(cfg, v, 0)|;
        AdvanceCongruent(AfterWord(cfg, pos), AfterWord(cfg, pos'), n, cfg.maxAlign);
        DeclaredPeriodic(cfg, ParameterMember, n, AfterWord(cfg, pos) + n, AfterWord(cfg, pos') + n);
      case _ => FitsPeriodic(cfg, v, pos, pos');
    }
  }

  // ---- the writer refines the direct encoding ----

  /** A word patched behind its padding. */
  lemma PatchedWord(before: Octets, pad: Octets, body: Octets, word: Octets)
    requires |word| == 4
    ensures Spliced(before + pad + Zeros(4) + body, |before| + |pad|, word) == before + (pad + word + body)
  {
    SplicedBetween(before + pad, Zeros(4), word, body);
    assert before + pad + word + body == before + (pad + word + body);
  }

  method EncodeValue(w: Writer, v: Value) returns (ok: bool)
    requires w.Valid() && w.cfg.ShortensSafely() && WellFormed(v)
    modifies w
    ensures ok <==> Fits(w.cfg, v, old(w.Pos()))
    ensures ok ==> w.Valid() && w.origin == old(w.origin) && w.out == old(w.out) + Enc(w.cfg, v, old(w.Pos()))
    decreases v, 0
  {
    hide ToOctets, PadLen, Pow, Spliced, EncMembers, EncElements, MembersFit, ElementsFit;
    ghost var pos := w.Pos();
    match v {
      case Prim(width, bits) =>
        w.WriteInt(bits, width);
        ok := true;
      case Str(octets) =>
        w.WriteInt(|octets| + 1, 4);
        w.out := w.out + octets;
        w.out := w.out + [0];
        ok := true;
      case Blob(octets) =>
        w.WriteInt(|octets|, 4);
        w.out := w.out + octets;
        ok := true;
      case Aggregate(ext, members) =>
        if ext.Final? || ext.ParameterList? {
          ok := EncodeMembers(w, ext, members);
        } else {
          Pow256Of4();
          var at := w.WriteDheader();
          ok := EncodeMembers(w, ext, members);
          if ok {
            ghost var body := EncMembers(w.cfg, ext, members, AfterWord(w.cfg, pos));
            PatchedWord(old(w.out), Padding(w.cfg, pos, 4), body, U32(w.cfg, |body|));
            ok := w.FinishDheader(at);
          }
        }
      case Sequence(elements) =>
        Pow256Of4();
        var at := w.WriteDheader();
        ok := EncodeElements(w, elements);
        if ok {
          ghost var body := EncElements(w.cfg, elements, AfterWord(w.cfg, pos));
          PatchedWord(old(w.out), Padding(w.cfg, pos, 4), body, U32(w.cfg, |body|));
          ok := w.FinishDheader(at);
        }
    }
  }

  method EncodeElements(w: Writer, vs: Values) returns (ok: bool)
    requires w.Valid() && w.cfg.ShortensSafely() && ValuesWellFormed(vs)
    modifies w
    ensures ok <==> ElementsFit(w.cfg, vs, old(w.Pos()))
    ensures ok ==> w.Valid() && w.origin == old(w.origin) && w.out == old(w.out) + EncElements(w.cfg, vs, old(w.Pos()))
    decreases vs, 1
  {
    hide ToOctets, PadLen, EncValues, ValuesFit, EncInt;
    w.WriteInt(Count(vs), 4);
    ok := EncodeValues(w, vs);
  }

  method EncodeValues(w: Writer, vs: Values) returns (ok: bool)
    requires w.Valid() && w.cfg.ShortensSafely() && ValuesWellFormed(vs)
    modifies w
    ensures ok <==> ValuesFit(w.cfg, vs, old(w.Pos()))
    ensures ok ==> w.Valid() && w.origin == old(w.origin) && w.out == old(w.out) + EncValues(w.cfg, vs, old(w.Pos()))
    decreases vs, 0
  {
    hide Enc, Fits;
    match vs {
      case NoValues => ok := true;
      case ValueThen(v, tail) =>
        ok := EncodeValue(w, v);
        if ok {
          ok := EncodeValues(w, tail);
        }
    }
  }

  method EncodeMembers(w: Writer, ext: Extensibility, ms: Members) returns (ok: bool)
    requires w.Valid() && w.cfg.ShortensSafely() && MembersWellFormed(ms)
    modifies w
    ensures ok <==> MembersFit(w.cfg, ext, ms, old(w.Pos()))
    ensures ok ==> w.Valid() && w.origin == old(w.origin)
    ensures ok ==> w.out == old(w.out) + EncMembers(w.cfg, ext, ms, old(w.Pos()))
    decreases ms, 0
  {
    hide EncMember, MemberFits, EncSentinel;
    match ms {
      case NoMembers =>
        if ext.ParameterList? {
          w.WriteSentinel();
        }
        ok := true;
      case Member(id, must, v, rest) =>
        ok := EncodeMember(w, ext, id, must, v);
        if ok {
          ok := EncodeMembers(w, ext, rest);
        }
    }
  }

  method EncodeMember(w: Writer, ext: Extensibility, id: nat, must: bool, v: Value) returns (ok: bool)
    requires w.Valid() && w.cfg.ShortensSafely() && WellFormed(v)
    modifies w
    ensures ok <==> MemberFits(w.cfg, ext, id, must, v, old(w.Pos()))
    ensures ok ==> w.Valid() && w.origin == old(w.origin)
    ensures ok ==> w.out == old(w.out) + EncMember(w.cfg, ext, id, must, v, old(w.Pos()))
    decreases v, 2
  {
    hide Enc, Fits, EncMutableMember, EncParameter;
    if ext.Mutable? {
      ok := EncodeMutableMember(w, id, must, v);
    } else if ext.ParameterList? {
      ok := EncodeParameter(w, id, must, v);
    } else {
      ok := EncodeValue(w, v);
    }
  }

  /** A member as it stands before it is completed, its NEXTINT open. */
  function OpenMember(cfg: Config, id: nat, must: bool, v: Value, pos: nat, before: Octets): Octets
    requires cfg.Valid() && WellFormed(v)
  {
    before + Padding(cfg, pos, 4) + U32(cfg, EmWord(id, 4, must)) + Zeros(4) + Enc(cfg, v, AfterWord(cfg, pos) + 4)
  }

  /** What completing it makes of it: the NEXTINT removed where the length has a code, and patched otherwise. */
  function CompletedMember(cfg: Config, id: nat, must: bool, v: Value, pos: nat, before: Octets): Octets
    requires cfg.Valid() && WellFormed(v)
  {
    var length := |Enc(cfg, v, AfterWord(cfg, pos) + 4)|;
    var word := |before| + |Padding(cfg, pos, 4)|;
    if cfg.shortLengthCodes && ShortCode(length) != 4
    then Shortened(cfg, OpenMember(cfg, id, must, v, pos, before), word, ShortCode(length))
    else Spliced(OpenMember(cfg, id, must, v, pos, before), word + 4, U32(cfg, length))
  }

  /** Where shortening is safe, a completed member is the member written directly. */
  lemma MutableMemberIs(cfg: Config, id: nat, must: bool, v: Value, pos: nat, before: Octets)
    requires cfg.Valid() && cfg.ShortensSafely() && WellFormed(v) && id <= E_MEMBER_ID_MASK
    ensures CompletedMember(cfg, id, must, v, pos, before) == before + EncMutableMember(cfg, id, must, v, pos)
  {
    hide ToOctets, PadLen, EmWord, Enc, Shortened, Spliced;
    var pad, body := Padding(cfg, pos, 4), Enc(cfg, v, AfterWord(cfg, pos) + 4);
    if cfg.shortLengthCodes {
      FourEarlier(cfg, v, AfterWord(cfg, pos));
    }
    if cfg.shortLengthCodes && ShortCode(|body|) != 4 {
      ShortenedIsDirect(cfg, before + pad, id, must, body, ShortCode(|body|));
      var word := U32(cfg, EmWord(id, ShortCode(|body|), must));
      assert before + pad + word + body == before + (pad + word + body);
    } else {
      var word := U32(cfg, EmWord(id, 4, must));
      PatchedWord(before + pad, word, body, U32(cfg, |body|));
      assert before + pad + (word + U32(cfg, |body|) + body) == before + (pad + word + U32(cfg, |body|) + body);
    }
  }

  /** With a cap of eight, an eight-octet primitive behind a header that ends between two multiples of eight loses its
      NEXTINT on completion, and written directly it keeps it, as padding stands in the way of a short code. */
  lemma ShorteningNeedsCapFour(cfg: Config, id: nat, must: bool, bits: nat, pos: nat, before: Octets)
    requires cfg.Valid() && !cfg.ShortensSafely() && AfterWord(cfg, pos) % 8 == 4 && bits < Pow(256, 8)
    ensures CompletedMember(cfg, id, must, Prim(8, bits), pos, before) !=
            before + EncMutableMember(cfg, id, must, Prim(8, bits), pos)
  {
    hide ToOctets, FromOctets, EmWord, Recoded, Pow, AfterWord;
    var start := AfterWord(cfg, pos);
    BetweenEights(start);
    assert |Enc(cfg, Prim(8, bits), start)| == 12 && |Enc(cfg, Prim(8, bits), start + 4)| == 8;
    var pad := |Padding(cfg, pos, 4)|;
    assert |EncMutableMember(cfg, id, must, Prim(8, bits), pos)| == pad + 16;
    assert |CompletedMember(cfg, id, must, Prim(8, bits), pos, before)| == |before| + pad + 12;
  }

  lemma BetweenEights(start: nat)
    requires start % 8 == 4
    ensures PadLen(start, 8, 8) == 4 && PadLen(start + 4, 8, 8) == 0
  {
    Modulo8(start / 8 + 1, 0);
  }

  /** Completion gives the direct octets for every member exactly if shortening is safe. */
  lemma CompletionIsDirectExactly(cfg: Config)
    requires cfg.Valid()
    ensures cfg.ShortensSafely() <==>
            forall id: nat, must: bool, v: Value, pos: nat, before: Octets ::
              id <= E_MEMBER_ID_MASK && WellFormed(v) ==>
                CompletedMember(cfg, id, must, v, pos, before) == before + EncMutableMember(cfg, id, must, v, pos)
  {
    hide CompletedMember, EncMutableMember;
    if cfg.ShortensSafely() {
      forall id: nat, must: bool, v: Value, pos: nat, before: Octets | id <= E_MEMBER_ID_MASK && WellFormed(v)
        ensures CompletedMember(cfg, id, must, v, pos, before) == before + EncMutableMember(cfg, id, must, v, pos)
      {
        MutableMemberIs(cfg, id, must, v, pos, before);
      }
    } else {
      PowPositive(256, 8);
      ShorteningNeedsCapFour(cfg, 0, false, 0, 0, []);
      assert WellFormed(Prim(8, 0));
    }
  }

  method EncodeMutableMember(w: Writer, id: nat, must: bool, v: Value) returns (ok: bool)
    requires w.Valid() && w.cfg.ShortensSafely() && WellFormed(v)
    modifies w
    ensures ok <==> MemberFits(w.cfg, Mutable, id, must, v, old(w.Pos()))
    ensures ok ==> w.Valid() && w.origin == old(w.origin)
    ensures ok ==> w.out == old(w.out) + EncMutableMember(w.cfg, id, must, v, old(w.Pos()))
    decreases v, 1
  {
    hide ToOctets, PadLen, EmWord, Enc, Fits, Shortened, Spliced, EncMutableMember, Pow;
    Pow256Of4();
    ghost var pos := w.Pos();
    var h;
    h, ok := w.WriteEmheader(id, 4, must);
    if !ok {
      return;
    }
    assert w.Pos() == AfterWord(w.cfg, pos) + 4;
    ok := EncodeValue(w, v);
    if !ok {
      return;
    }
    assert w.out == OpenMember(w.cfg, id, must, v, pos, old(w.out));
    MutableMemberIs(w.cfg, id, must, v, pos, old(w.out));
    ok := w.FinishEmheader(h);
  }

  /** The header of `h` as it was written, its length still open. */
  function OpenHeader(cfg: Config, h: Pid): Octets {
    if h.extended then ExtendedHead(cfg, h.pid, h.mustUnderstand) + Zeros(4)
    else U16Octets(cfg, ShortPidWord(cfg, h.pid, h.mustUnderstand)) + Zeros(2)
  }

  /** The header of `h` with its length, or the extended header in its place. */
  function ClosedHeader(cfg: Config, h: Pid, declared: nat): Octets {
    if !h.extended && declared <= PID_SHORT_MAX_LEN then ShortPidHeader(cfg, h.pid, h.mustUnderstand, declared)
    else ExtendedPidHeader(cfg, h.pid, h.mustUnderstand, declared)
  }

  lemma OpenHeaderSize(cfg: Config, h: Pid)
    ensures |OpenHeader(cfg, h)| == if h.extended then 12 else 4
  {
  }

  lemma FramedInPlace(cfg: Config, start: Octets, h: Pid, body: Octets, declared: nat)
    requires h.pid <= E_MEMBER_ID_MASK
    requires h.at == |start| + (if h.extended then 8 else 2)
    requires var s := start + OpenHeader(cfg, h) + body; Waiting(s, h) && declared == PidLength(cfg, s, h)
    ensures FramedPid(cfg, start + OpenHeader(cfg, h) + body, h) == start + ClosedHeader(cfg, h, declared) + body
  {
    hide ToOctets, DeclaredLength;
    var s := start + OpenHeader(cfg, h) + body;
    if h.extended {
      var head := ExtendedHead(cfg, h.pid, h.mustUnderstand);
      assert s == start + head + Zeros(4) + body;
      SplicedBetween(start + head, Zeros(4), U32(cfg, declared), body);
      assert start + head + U32(cfg, declared) + body == start + (head + U32(cfg, declared)) + body;
    } else {
      var word := U16Octets(cfg, ShortPidWord(cfg, h.pid, h.mustUnderstand));
      assert s == start + word + Zeros(2) + body;
      if declared > PID_SHORT_MAX_LEN {
        PromotedIsExtended(cfg, start, h.pid, h.mustUnderstand, body, declared, h);
      } else {
        SplicedBetween(start + word, Zeros(2), U16Octets(cfg, declared), body);
        assert start + word + U16Octets(cfg, declared) + body == start + (word + U16Octets(cfg, declared)) + body;
      }
    }
  }

  /** A short header whose value outgrew it, promoted, leaves the octets that an extended header written
      first would have left, whatever the value, the role and the framing. */
  lemma PromotionIsExtension(cfg: Config, start: Octets, body: Octets, short: Pid, long: Pid)
    requires cfg.Valid() && short.pid <= E_MEMBER_ID_MASK && short.savedOrigin <= |start|
    requires !short.extended && short.at == |start| + 2 && long == short.(extended := true, at := |start| + 8)
    requires DeclaredLength(cfg, short.role, |body|, |start| - short.savedOrigin + 4 + |body|) > PID_SHORT_MAX_LEN
    ensures var written, written' := start + OpenHeader(cfg, short) + body, start + OpenHeader(cfg, long) + body;
            && Waiting(written, short) && Waiting(written', long)
            && PidLength(cfg, written, short) == PidLength(cfg, written', long)
            && FinishedPid(cfg, written, short) == FinishedPid(cfg, written', long)
  {
    hide ToOctets, PadLen, OpenHeader, DeclaredLength, ExtendedPidHeader, ShortPidHeader, FramedPid;
    OpenHeaderSize(cfg, short);
    OpenHeaderSize(cfg, long);
    var end := |start| - short.savedOrigin + 4 + |body|;
    EightLater(cfg, short.role, |body|, end);
    var declared := DeclaredLength(cfg, short.role, |body|, end);
    FramedInPlace(cfg, start, short, body, declared);
    FramedInPlace(cfg, start, long, body, declared);
  }

  /** What a parameter header, its value and its completion amount to, in either form. */
  lemma ParameterIs(cfg: Config, body: Octets, pos: nat, before: Octets, h: Pid)
    requires cfg.Valid() && h.pid <= E_MEMBER_ID_MASK && pos + h.savedOrigin == |before|
    requires h.extended <==> h.pid > cfg.framing.highestShortId
    requires h.at == |before| + |Padding(cfg, pos, 4)| + if h.extended then 8 else 2
    ensures var written := before + Padding(cfg, pos, 4) + OpenHeader(cfg, h) + body;
            && Waiting(written, h)
            && PidLength(cfg, written, h) == DeclaredLength(cfg, h.role, |body|, AfterWord(cfg, pos) + |body|)
            && FinishedPid(cfg, written, h) == before + EncParameter(cfg, h.role, h.pid, h.mustUnderstand, body, pos)
  {
    hide ToOctets, PadLen, OpenHeader, DeclaredLength, ShortPidHeader, ExtendedPidHeader, FramedPid;
    var pad := Padding(cfg, pos, 4);
    var start := pos + |pad|;
    OpenHeaderSize(cfg, h);
    EightLater(cfg, h.role, |body|, start + 4 + |body|);
    var declared := DeclaredLength(cfg, h.role, |body|, start + 4 + |body|);
    HeaderSizes(cfg, h.pid, h.mustUnderstand, declared);
    FramedInPlace(cfg, before + pad, h, body, declared);
    var header := ClosedHeader(cfg, h, declared);
    var tail := if cfg.framing.padAfterValue then Padding(cfg, start + |header| + |body|, 4) else [];
    assert before + pad + header + body + tail == before + (pad + header + body + tail);
  }

  /** Eight octets more change no padding to four. */
  lemma EightLater(cfg: Config, role: ParameterRole, length: nat, end: nat)
    ensures DeclaredLength(cfg, role, length, end) == DeclaredLength(cfg, role, length, end + 8)
  {
  }

  /** The short form where the id has one. */
  method OpenParameter(w: Writer, id: nat, must: bool) returns (h: Pid, ok: bool)
    requires w.Valid()
    modifies w
    ensures ok <==> id <= E_MEMBER_ID_MASK
    ensures w.Valid()
    ensures ok ==>
              && h.savedOrigin == old(w.origin) && h.role == ParameterMember && h.pid == id && h.mustUnderstand == must
              && (h.extended <==> id > w.cfg.framing.highestShortId)
              && h.at == |old(w.out)| + |Padding(w.cfg, old(w.Pos()), 4)| + (if h.extended then 8 else 2)
              && w.out == old(w.out) + Padding(w.cfg, old(w.Pos()), 4) + OpenHeader(w.cfg, h)
              && w.origin == |w.out|
  {
    hide ToOctets, PadLen, ExtendedHead, ShortPidWord;
    if id <= w.cfg.framing.highestShortId {
      h, ok := w.WritePid(id, ParameterMember, must);
    } else {
      h, ok := w.WritePidExtended(id, ParameterMember, must);
    }
    if ok {
      OpenHeaderSize(w.cfg, h);
    }
  }

  method EncodeParameter(w: Writer, id: nat, must: bool, v: Value) returns (ok: bool)
    requires w.Valid() && w.cfg.ShortensSafely() && WellFormed(v)
    modifies w
    ensures ok <==> MemberFits(w.cfg, ParameterList, id, must, v, old(w.Pos()))
    ensures ok ==> w.Valid() && w.origin == old(w.origin)
    ensures ok ==> w.out == old(w.out) + EncParameter(w.cfg, ParameterMember, id, must, Enc(w.cfg, v, 0), old(w.Pos()))
    decreases v, 1
  {
    hide ToOctets, PadLen, Enc, Fits, EncParameter, FinishedPid, PidLength, OpenHeader, Pow, DeclaredLength;
    Pow256Of4();
    ghost var pos := w.Pos();
    var h;
    h, ok := OpenParameter(w, id, must);
    if !ok {
      return;
    }
    ok := EncodeValue(w, v);
    if !ok {
      return;
    }
    ParameterIs(w.cfg, Enc(w.cfg, v, 0), pos, old(w.out), h);
    ok := w.FinishPid(h);
  }
}
