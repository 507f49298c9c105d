/** The XCDR reader: a cursor over one sample's octets, and its framing headers. */
module XcdrReader {
  import opened Common
  import opened Powers
  import opened XcdrOctets
  import opened XcdrValue
  import opened XcdrWriter

  /** What was read and where the cursor then stands. */
  datatype Read<+T> = Read(value: T, at: nat)

  /** An EMHEADER as read; `extent` octets belong to the member from where the cursor stands. */
  datatype EmRead = EmRead(id: nat, lengthCode: nat, must: bool, extent: nat)

  /** What either form of a parameter header says, with what the flags and the id make of it. */
  datatype PidRead = PidRead(
    pid: nat, length: nat, end: bool, must: bool, implExtension: bool, reserved: bool, ignore: bool)
  {
    predicate IsUserMember() {
      !implExtension && !reserved && !ignore
    }
  }

  // ---- what each read answers ----

  function Aligned(cfg: Config, at: nat, origin: nat, align: nat): nat
    requires cfg.Valid() && origin <= at && align > 0
  {
    at + PadLen(at - origin, align, cfg.maxAlign)
  }

  function UnsignedAt(cfg: Config, data: Octets, at: nat, origin: nat, width: nat): Option<Read<nat>>
    requires cfg.Valid() && origin <= at && width > 0
  {
    var start := Aligned(cfg, at, origin, width);
    if start + width > |data| then None
    else Some(Read(FromOctets(cfg.little, data[start..start + width]), start + width))
  }

  /** The length a DHEADER states, refused if the stream cannot hold it. */
  function DheaderAt(cfg: Config, data: Octets, at: nat, origin: nat): Option<Read<nat>>
    requires cfg.Valid() && origin <= at
  {
    match UnsignedAt(cfg, data, at, origin, 4)
    case None => None
    case Some(read) => if read.value > |data| - read.at then None else Some(read)
  }

  function EmheaderAt(cfg: Config, data: Octets, at: nat, origin: nat): Option<Read<EmRead>>
    requires cfg.Valid() && origin <= at
  {
    match UnsignedAt(cfg, data, at, origin, 4)
    case None => None
    case Some(word) =>
      var id, code, must := word.value % 0x1000_0000, (word.value / 0x1000_0000) % 8, word.value / 0x8000_0000 != 0;
      if code <= 3 then Some(Read(EmRead(id, code, must, CodeLength(code)), word.at))
      else
        match UnsignedAt(cfg, data, word.at, origin, 4)
        case None => None
        case Some(next) =>
          if code == 4 then Some(Read(EmRead(id, code, must, next.value), next.at))
          else
            var scale := if code == 6 then 4 else if code == 7 then 8 else 1;
            Some(Read(EmRead(id, code, must, 4 + next.value * scale), word.at))
  }

  /** The header in its short form, from its two fields. */
  function ShortPid(cfg: Config, pid: nat, length: nat): PidRead {
    var id := pid % PID_ID_LIMIT;
    var end := id == PID_LIST_END;
    PidRead(id, length, end, (pid / PID_MUST_UNDERSTAND) % 2 == 1,
            (pid / PID_IMPL_EXTENSION) % 2 == 1 && !ImplFlagAt(cfg.framing.pidFlags, AtMember),
            !end && id > cfg.framing.highestShortId, id == PID_IGNORE)
  }

  /** The header in its extended form, from the member header and the length behind the marker. */
  function ExtendedPid(memberHeader: nat, length: nat): PidRead {
    PidRead(memberHeader % 0x1000_0000, length, false, (memberHeader / E_FLAG_MUST_UNDERSTAND) % 2 == 1,
            memberHeader / 0x8000_0000 != 0, false, false)
  }

  function PidHeaderAt(cfg: Config, data: Octets, at: nat, origin: nat): Option<Read<PidRead>>
    requires cfg.Valid() && origin <= at
  {
    match UnsignedAt(cfg, data, Aligned(cfg, at, origin, 4), origin, 2)
    case None => None
    case Some(pid) =>
      match UnsignedAt(cfg, data, pid.at, origin, 2)
      case None => None
      case Some(length) =>
        if pid.value % PID_ID_LIMIT != PID_EXTENDED then Some(Read(ShortPid(cfg, pid.value, length.value), length.at))
        else
          match UnsignedAt(cfg, data, length.at, origin, 4)
          case None => None
          case Some(header) =>
            match UnsignedAt(cfg, data, header.at, origin, 4)
            case None => None
            case Some(wide) => Some(Read(ExtendedPid(header.value, wide.value), wide.at))
  }

  /** A refusal made by the stream's shape is kept apart from running off its end, which ends the read. */
  datatype Status = Ok | OutOfRange

  /** The integer of `raw`, shifted in octet by octet from its most significant end. */
  method Assemble(little: bool, raw: Octets) returns (value: nat)
    ensures value == FromOctets(little, raw)
  {
    value := 0;
    if little {
      for i := |raw| downto 0
        invariant value == FromLittleEndian(raw[i..])
      {
        assert raw[i..][1..] == raw[i + 1..];
        value := value * 256 + raw[i] as nat;
      }
      assert raw[0..] == raw;
    } else {
      for i := 0 to |raw|
        invariant value == FromLittleEndian(Mirrored(raw[..i]))
      {
        assert raw[..i + 1][..i] == raw[..i];
        value := value * 256 + raw[i] as nat;
      }
      assert raw[..|raw|] == raw;
    }
  }

  class Reader {
    const cfg: Config
    const data: Octets
    var at: nat
    var origin: nat
    var status: Status

    ghost predicate Valid()
      reads this
    {
      cfg.Valid() && origin <= at
    }

    constructor (cfg: Config, data: Octets)
      requires cfg.Valid()
      ensures Valid() && this.cfg == cfg && this.data == data && at == 0 && origin == 0 && status == Ok
    {
      this.cfg, this.data, at, origin, status := cfg, data, 0, 0, Ok;
    }

    method AlignTo(align: nat)
      requires Valid() && align > 0
      modifies this`at
      ensures Valid() && at == Aligned(cfg, old(at), origin, align)
      ensures align in {1, 2, 4, 8} ==> IsNextBoundary(old(at) - origin, at - origin, align, cfg.maxAlign)
    {
      if align in {1, 2, 4, 8} { PadReachesBoundary(at - origin, align, cfg.maxAlign); }
      var a := if align > cfg.maxAlign then cfg.maxAlign else align;
      if a <= 1 {
        return;
      }
      var offset := at - origin;
      at := at + (a - offset % a) % a;
    }

    method Take(count: nat) returns (chunk: Option<Octets>)
      requires Valid()
      modifies this`at
      ensures Valid()
      ensures chunk.Some? <==> old(at) + count <= |data|
      ensures chunk.Some? ==> chunk.value == data[old(at)..old(at) + count] && at == old(at) + count
    {
      var end := at + count;
      if end > |data| {
        return None;
      }
      chunk := Some(data[at..end]);
      at := end;
    }

    method ReadUnsigned(width: nat) returns (v: Option<nat>)
      requires Valid() && width > 0
      modifies this`at
      ensures Valid()
      ensures var read := UnsignedAt(cfg, data, old(at), origin, width);
              && (v.Some? <==> read.Some?)
              && (v.Some? ==> v.value == read.value.value && at == read.value.at)
    {
      hide PadLen, FromOctets;
      AlignTo(width);
      var raw := Take(width);
      if raw.None? {
        return None;
      }
      var value := Assemble(cfg.little, raw.value);
      v := Some(value);
    }

    /** Forward to `target`; behind the cursor is a refusal, past the end stops the read. */
    method SkipTo(target: nat) returns (ok: bool)
      requires Valid()
      modifies this`at, this`status
      ensures Valid()
      ensures !ok <==> old(status) == Ok && old(at) <= target && target > |data|
      ensures status == if old(status) == Ok && target < old(at) then OutOfRange else old(status)
      ensures at == if ok && old(status) == Ok && old(at) <= target then target else old(at)
    {
      ok := true;
      if status != Ok {
        return;
      }
      if target < at {
        status := OutOfRange;
        return;
      }
      if target > |data| {
        return false;
      }
      at := target;
    }

    method ReadDheader() returns (v: Option<nat>)
      requires Valid()
      modifies this`at
      ensures Valid()
      ensures var read := DheaderAt(cfg, data, old(at), origin);
              && (v.Some? <==> read.Some?)
              && (v.Some? ==> v.value == read.value.value && at == read.value.at)
      ensures v.Some? ==> at + v.value <= |data|
      ensures v.None? ==>
                var word := UnsignedAt(cfg, data, old(at), origin, 4);
                word.Some? ==> word.value.at + word.value.value > |data|
    {
      v := ReadUnsigned(4);
      if v.Some? && v.value > |data| - at {
        return None;
      }
    }

    /** Codes 5 to 7 leave the cursor before the word they report. */
    method ReadEmheader() returns (h: Option<EmRead>)
      requires Valid()
      modifies this`at
      ensures Valid()
      ensures var read := EmheaderAt(cfg, data, old(at), origin);
              && (h.Some? <==> read.Some?)
              && (h.Some? ==> h.value == read.value.value && at == read.value.at)
    {
      hide UnsignedAt;
      var word := ReadUnsigned(4);
      if word.None? {
        return None;
      }
      var id, code, must := word.value % 0x1000_0000, (word.value / 0x1000_0000) % 8, word.value / 0x8000_0000 != 0;
      if code <= 3 {
        return Some(EmRead(id, code, must, CodeLength(code)));
      }
      var before := at;
      var next := ReadUnsigned(4);
      if next.None? {
        return None;
      }
      if code == 4 {
        return Some(EmRead(id, code, must, next.value));
      }
      at := before;
      var scale := if code == 6 then 4 else if code == 7 then 8 else 1;
      h := Some(EmRead(id, code, must, 4 + next.value * scale));
    }

    /** Behind the header the origin stands at the value; the one before it is given back to the caller. */
    method ReadPidAs() returns (h: Option<PidRead>, savedOrigin: nat)
      requires Valid()
      modifies this`at, this`origin
      ensures Valid() && savedOrigin == old(origin)
      ensures var read := PidHeaderAt(cfg, data, old(at), old(origin));
              && (h.Some? <==> read.Some?)
              && (h.Some? ==> h.value == read.value.value && at == read.value.at && origin == at)
    {
      hide UnsignedAt, ShortPid, ExtendedPid, PadLen;
      savedOrigin := origin;
      AlignTo(4);
      var pid := ReadUnsigned(2);
      if pid.None? {
        return None, savedOrigin;
      }
      var length := ReadUnsigned(2);
      if length.None? {
        return None, savedOrigin;
      }
      if pid.value % PID_ID_LIMIT == PID_EXTENDED {
        var header := ReadUnsigned(4);
        if header.None? {
          return None, savedOrigin;
        }
        var wide := ReadUnsigned(4);
        if wide.None? {
          return None, savedOrigin;
        }
        h := Some(ExtendedPid(header.value, wide.value));
      } else {
        h := Some(ShortPid(cfg, pid.value, length.value));
      }
      origin := at;
    }

    /** Back to the enclosing origin, and to the next header unless the list has ended. */
    method FinishPidRead(h: PidRead, savedOrigin: nat)
      requires Valid() && savedOrigin <= origin
      modifies this`at, this`origin
      ensures Valid() && origin == savedOrigin
      ensures at == if status != Ok || h.end then old(at) else Aligned(cfg, old(at), savedOrigin, 4)
    {
      origin := savedOrigin;
      if status != Ok || h.end {
        return;
      }
      AlignTo(4);
    }
  }

  // ---- reading back what was written ----

  lemma UnsignedBack(cfg: Config, v: nat, width: nat, data: Octets, at: nat, origin: nat)
    requires cfg.Valid() && origin <= at && width > 0 && v < Pow(256, width)
    requires At(data, at, EncInt(cfg, v, width, at - origin))
    ensures UnsignedAt(cfg, data, at, origin, width) == Some(Read(v, at + |EncInt(cfg, v, width, at - origin)|))
  {
    hide ToOctets, FromOctets, PadLen, Pow;
    AtConcat(data, at, Padding(cfg, at - origin, width), ToOctets(cfg.little, v, width));
    OctetsInverse(cfg.little, v, width);
  }

  /** A number too large for its four octets is read back as a smaller one. */
  lemma UnsignedTruncated(cfg: Config, v: nat, data: Octets, at: nat, origin: nat)
    requires cfg.Valid() && origin <= at && v >= 0x1_0000_0000
    requires At(data, at, EncInt(cfg, v, 4, at - origin))
    ensures var r := UnsignedAt(cfg, data, at, origin, 4);
            r.Some? && r.value.value < v && r.value.at == at + |EncInt(cfg, v, 4, at - origin)|
  {
    hide LittleEndian, FromLittleEndian, Mirrored, PadLen, Pow;
    var octets := LittleEndian(v, 4);
    AtConcat(data, at, Padding(cfg, at - origin, 4), ToOctets(cfg.little, v, 4));
    MirroredTwice(octets);
    FromLittleEndianBound(octets);
    Pow256Of4();
  }

  /** A DHEADER states the length of the body behind it. */
  lemma DheaderBack(cfg: Config, body: Octets, data: Octets, at: nat, origin: nat)
    requires cfg.Valid() && origin <= at && |body| < 0x1_0000_0000
    requires At(data, at, Delimited(cfg, at - origin, body))
    ensures DheaderAt(cfg, data, at, origin) == Some(Read(|body|, origin + AfterWord(cfg, at - origin)))
    ensures At(data, origin + AfterWord(cfg, at - origin), body)
    ensures origin + AfterWord(cfg, at - origin) + |body| == at + |Delimited(cfg, at - origin, body)|
  {
    hide ToOctets, PadLen, Pow, UnsignedAt;
    Pow256Of4();
    AtConcat(data, at, EncInt(cfg, |body|, 4, at - origin), body);
    UnsignedBack(cfg, |body|, 4, data, at, origin);
  }
}
