/**
 The XCDR writer: octets appended, lengths patched back in, a short parameter
 header rewritten as an extended one by inserting eight octets, an EMHEADER
 shortened by removing four.
 */
module XcdrWriter {
  import opened Common
  import opened Powers
  import opened XcdrOctets
  import opened XcdrValue

  /** `part` put over the octets of `s` at `at`. */
  function Spliced(s: Octets, at: nat, part: Octets): Octets
    requires at + |part| <= |s|
  {
    s[..at] + part + s[at + |part|..]
  }

  lemma SplicedBetween(a: Octets, old': Octets, part: Octets, b: Octets)
    requires |old'| == |part|
    ensures Spliced(a + old' + b, |a|, part) == a + part + b
  {
    var s := a + old' + b;
    assert s[..|a|] == a && s[|a| + |part|..] == b;
  }

  /** Octet k of the field at `at` is among the first i written, from its least significant end. */
  predicate InField(little: bool, at: nat, width: nat, i: nat, k: int) {
    if little then at <= k < at + i else at + width - i <= k < at + width
  }

  lemma OctetAt(little: bool, v: nat, width: nat, i: nat)
    requires i < width
    ensures ToOctets(little, v, width)[if little then i else width - 1 - i] == ShiftRight8(v, i) % 256
  {
    hide LittleEndian, Mirrored, ShiftRight8;
    LittleEndianAt(v, width, i);
    if !little { MirroredAt(LittleEndian(v, width), width - 1 - i); }
  }

  /** Four fields patched one after the other are the fields in a row. */
  lemma FourPatches(before: Octets, junk: Octets, value: Octets, a: Octets, b: Octets, c: Octets, d: Octets)
    requires |junk| == 12 && |a| == 2 && |b| == 2 && |c| == 4 && |d| == 4
    ensures var n := |before|;
            Spliced(Spliced(Spliced(Spliced(before + junk + value, n, a), n + 2, b), n + 4, c), n + 8, d) ==
            before + (a + b + c + d) + value
  {
    PatchInside(before, [], junk[..2], junk[2..], value, a);
    assert junk == [] + junk[..2] + junk[2..];
    var j1 := junk[2..];
    PatchInside(before, a, j1[..2], j1[2..], value, b);
    assert [] + a + j1 == a + j1[..2] + j1[2..];
    var j2 := j1[2..];
    PatchInside(before, a + b, j2[..4], j2[4..], value, c);
    assert a + b + j2 == a + b + j2[..4] + j2[4..];
    var j3 := j2[4..];
    PatchInside(before, a + b + c, j3, [], value, d);
    assert a + b + c + j3 == a + b + c + j3 + [];
    assert a + b + c + d + [] == a + b + c + d;
  }

  lemma PatchInside(before: Octets, left: Octets, field: Octets, right: Octets, value: Octets, part: Octets)
    requires |field| == |part|
    ensures Spliced(before + (left + field + right) + value, |before| + |left|, part) ==
            before + (left + part + right) + value
  {
    var s := before + (left + field + right) + value;
    assert s == before + left + field + (right + value);
    SplicedBetween(before + left, field, part, right + value);
    assert before + left + part + (right + value) == before + (left + part + right) + value;
  }

  lemma Regrouped(s: Octets, a: Octets, b: Octets, c: Octets)
    ensures s + a + b + c == s + (a + b + c)
  {
  }

  /** Where a header word stands, under which code it was written, and where its open NEXTINT is (-1: none). */
  datatype EmHeader = EmHeader(nextInt: int, word: nat, lengthCode: nat)

  /** Where the open length of a parameter stands, and what is needed to close it in either form. */
  datatype Pid = Pid(at: nat, extended: bool, savedOrigin: nat, role: ParameterRole, pid: nat, mustUnderstand: bool)

  class Writer {
    const cfg: Config
    var out: Octets
    var origin: nat

    ghost predicate Valid()
      reads this
    {
      cfg.Valid() && origin <= |out|
    }

    /** The position alignment is counted by. */
    ghost function Pos(): nat
      requires Valid()
      reads this
    {
      |out| - origin
    }

    constructor (cfg: Config)
      requires cfg.Valid()
      ensures Valid() && this.cfg == cfg && out == [] && origin == 0
    {
      this.cfg, out, origin := cfg, [], 0;
    }

    method AlignTo(align: nat)
      requires Valid() && align > 0
      modifies this`out
      ensures Valid() && out == old(out) + Padding(cfg, old(Pos()), align)
      ensures align in {1, 2, 4, 8} ==> IsNextBoundary(old(Pos()), Pos(), align, cfg.maxAlign)
      ensures forall i :: |old(out)| <= i < |out| ==> out[i] == 0
    {
      hide IsNextBoundary;
      if align in {1, 2, 4, 8} { PadReachesBoundary(Pos(), align, cfg.maxAlign); }
      var a := if align > cfg.maxAlign then cfg.maxAlign else align;
      if a <= 1 {
        assert out == out + Padding(cfg, Pos(), align);
        return;
      }
      var offset := |out| - origin;
      var padding := (a - offset % a) % a;
      for i := 0 to padding
        invariant out == old(out) + Zeros(i)
      {
        out := out + [0];
        assert Zeros(i + 1) == Zeros(i) + [0];
      }
    }

    method WriteRaw(v: nat, width: nat)
      requires Valid()
      modifies this`out
      ensures Valid() && out == old(out) + ToOctets(cfg.little, v, width)
    {
      ghost var octets := LittleEndian(v, width);
      if cfg.little {
        for i := 0 to width
          invariant out == old(out) + octets[..i]
        {
          LittleEndianAt(v, width, i);
          out := out + [ShiftRight8(v, i) % 256];
        }
      } else {
        for i := width downto 0
          invariant out == old(out) + Mirrored(octets)[..width - i]
        {
          LittleEndianAt(v, width, i);
          MirroredAt(octets, width - 1 - i);
          out := out + [ShiftRight8(v, i) % 256];
        }
      }
    }

    method WriteInt(v: nat, width: nat)
      requires Valid() && width > 0
      modifies this`out
      ensures Valid() && out == old(out) + EncInt(cfg, v, width, old(Pos()))
      ensures PadLen(old(Pos()), width, cfg.maxAlign) == 0 ==> out == old(out) + ToOctets(cfg.little, v, width)
    {
      hide ToOctets, PadLen;
      AlignTo(width);
      WriteRaw(v, width);
      assert Zeros(0) == [];
    }

    /** Writes `v` over the octets at `at`; a value too large for its field is refused. */
    method Patch(at: nat, v: nat, width: nat) returns (ok: bool)
      requires Valid() && at + width <= |out|
      modifies this`out
      ensures Valid()
      ensures ok <==> v < Pow(256, width)
      ensures ok ==> out == Spliced(old(out), at, ToOctets(cfg.little, v, width))
      ensures !ok ==> out == old(out)
    {
      if v >= Pow(256, width) {
        return false;
      }
      ghost var octets := ToOctets(cfg.little, v, width);
      ghost var before := out;
      for i := 0 to width
        invariant |out| == |before|
        invariant forall k :: 0 <= k < |out| ==>
                    out[k] == if InField(cfg.little, at, width, i, k) then octets[k - at] else before[k]
      {
        OctetAt(cfg.little, v, width, i);
        var b: Byte := ShiftRight8(v, i) % 256;
        out := out[if cfg.little then at + i else at + width - 1 - i := b];
      }
      ok := true;
    }

    // ---- DHEADER ----

    method WriteDheader() returns (at: nat)
      requires Valid()
      modifies this`out
      ensures Valid() && at == |old(out)| + |Padding(cfg, old(Pos()), 4)|
      ensures out == old(out) + Padding(cfg, old(Pos()), 4) + Zeros(4)
    {
      AlignTo(4);
      at := |out|;
      out := out + [0, 0, 0, 0];
      assert Zeros(4) == [0, 0, 0, 0];
    }

    method FinishDheader(at: nat) returns (ok: bool)
      requires Valid() && at + 4 <= |out|
      modifies this`out
      ensures Valid()
      ensures ok <==> |old(out)| - at - 4 < Pow(256, 4)
      ensures ok ==> out == Spliced(old(out), at, U32(cfg, |old(out)| - at - 4))
    {
      ok := Patch(at, |out| - at - 4, 4);
    }

    // ---- EMHEADER ----

    method WriteEmheader(memberId: nat, lengthCode: nat, must: bool) returns (h: EmHeader, ok: bool)
      requires Valid() && lengthCode < 8
      modifies this`out
      ensures Valid()
      ensures ok <==> memberId <= E_MEMBER_ID_MASK
      ensures ok ==>
                && out == old(out) + Padding(cfg, old(Pos()), 4) + U32(cfg, EmWord(memberId, lengthCode, must)) +
                          (if lengthCode == 4 then Zeros(4) else [])
                && h.word == |old(out)| + |Padding(cfg, old(Pos()), 4)| && h.lengthCode == lengthCode
                && h.nextInt == if lengthCode == 4 then h.word + 4 else -1
    {
      if memberId > E_MEMBER_ID_MASK {
        return EmHeader(-1, 0, lengthCode), false;
      }
      AlignTo(4);
      AlignedNeedsNoPad(old(Pos()), cfg.maxAlign);
      WriteInt(EmWord(memberId, lengthCode, must), 4);
      var word := |out| - 4;
      ok := true;
      if lengthCode == 4 {
        h := EmHeader(|out|, word, lengthCode);
        out := out + [0, 0, 0, 0];
        assert Zeros(4) == [0, 0, 0, 0];
      } else {
        h := EmHeader(-1, word, lengthCode);
      }
    }

    /** Under codes 0 to 3 the member must have the length the code states; a NEXTINT is patched, or
        removed where the length has a code and the configuration asks for it. */
    method FinishEmheader(h: EmHeader) returns (ok: bool)
      requires Valid() && h.word + 4 <= |out|
      requires h.nextInt >= 0 ==> h.nextInt == h.word + 4 && h.nextInt + 4 <= |out| && origin <= h.nextInt
      modifies this`out
      ensures h.nextInt < 0 ==>
                out == old(out) && (ok <==> h.lengthCode > 3 || |out| - h.word - 4 == CodeLength(h.lengthCode))
      ensures h.nextInt >= 0 ==>
                var length := |old(out)| - h.nextInt - 4;
                && (ok <==> length < Pow(256, 4))
                && (ok && !(cfg.shortLengthCodes && ShortCode(length) != 4) ==>
                      out == Spliced(old(out), h.nextInt, U32(cfg, length)))
                && (ok && cfg.shortLengthCodes && ShortCode(length) != 4 ==>
                      out == Shortened(cfg, old(out), h.word, ShortCode(length)))
      ensures Valid()
    {
      if h.nextInt < 0 {
        ok := h.lengthCode > 3 || |out| - h.word - 4 == CodeLength(h.lengthCode);
        return;
      }
      var length := |out| - h.nextInt - 4;
      if cfg.shortLengthCodes && (length == 1 || length == 2 || length == 4 || length == 8) {
        ShortenEmheader(h, length);
        assert Pow(256, 1) <= Pow(256, 4);
        return true;
      }
      ok := Patch(h.nextInt, length, 4);
    }

    method ShortenEmheader(h: EmHeader, length: nat)
      requires Valid() && h.nextInt == h.word + 4 && h.nextInt + 4 <= |out| && origin <= h.nextInt
      requires length in {1, 2, 4, 8}
      modifies this`out
      ensures Valid() && out == Shortened(cfg, old(out), h.word, ShortCode(length))
    {
      var code := if length == 1 then 0 else if length == 2 then 1 else if length == 4 then 2 else 3;
      hide FromOctets, ToOctets, Recoded, Pow;
      out := out[..h.nextInt] + out[h.nextInt + 4..];
      var previous := FromOctets(cfg.little, out[h.word..h.word + 4]);
      assert out[h.word..h.word + 4] == old(out)[h.word..h.word + 4];
      RecodedFits(cfg.little, out[h.word..h.word + 4], code);
      assert out[..h.word] == old(out)[..h.word] && out[h.word + 4..] == old(out)[h.word + 8..];
      var ok := Patch(h.word, Recoded(previous, code), 4);
    }

    // ---- PL_CDR1 parameters ----

    /** A short header; the value that follows counts alignment from its own start. */
    method WritePid(id: nat, role: ParameterRole, must: bool) returns (h: Pid, ok: bool)
      requires Valid()
      modifies this
      ensures Valid()
      ensures ok <==> id <= cfg.framing.highestShortId
      ensures ok ==>
                && out == old(out) + Padding(cfg, old(Pos()), 4) +
                          U16Octets(cfg, ShortPidWord(cfg, id, must)) + Zeros(2)
                && origin == |out| && h == Pid(|out| - 2, false, old(origin), role, id, must)
    {
      if id > cfg.framing.highestShortId {
        return Pid(0, false, 0, role, id, must), false;
      }
      AlignTo(4);
      AlignedNeedsNoPad(old(Pos()), cfg.maxAlign);
      WriteInt(ShortPidWord(cfg, id, must), 2);
      assert Zeros(2) == [0, 0];
      var at := |out|;
      out := out + [0, 0];
      h := Pid(at, false, origin, role, id, must);
      origin := |out|;
      ok := true;
    }

    /** Two 16-bit fields where neither needs padding. */
    method WriteHalves(a: nat, b: nat)
      requires Valid() && PadLen(Pos(), 2, cfg.maxAlign) == 0 && PadLen(Pos() + 2, 2, cfg.maxAlign) == 0
      modifies this`out
      ensures Valid() && out == old(out) + U16Octets(cfg, a) + U16Octets(cfg, b)
    {
      hide ToOctets, PadLen, EncInt;
      WriteInt(a, 2);
      WriteInt(b, 2);
    }

    method WritePidExtended(id: nat, role: ParameterRole, must: bool) returns (h: Pid, ok: bool)
      requires Valid()
      modifies this
      ensures Valid()
      ensures ok <==> id <= E_MEMBER_ID_MASK
      ensures ok ==>
                && out == old(out) + Padding(cfg, old(Pos()), 4) + ExtendedHead(cfg, id, must) + Zeros(4)
                && origin == |out| && h == Pid(|out| - 4, true, old(origin), role, id, must)
    {
      if id > E_MEMBER_ID_MASK {
        return Pid(0, true, 0, role, id, must), false;
      }
      hide ToOctets, PadLen, EncInt, ExtendedMemberHeader, FlaggedPid;
      AlignTo(4);
      AlignedNeedsNoPad(old(Pos()), cfg.maxAlign);
      ghost var aligned := out;
      WriteHalves(FlaggedPid(cfg, PID_EXTENDED, AtExtendedMarker), 8);
      WriteInt(ExtendedMemberHeader(cfg, id, must), 4);
      Regrouped(aligned, U16Octets(cfg, FlaggedPid(cfg, PID_EXTENDED, AtExtendedMarker)), U16Octets(cfg, 8),
                U32(cfg, ExtendedMemberHeader(cfg, id, must)));
      assert out == aligned + ExtendedHead(cfg, id, must);
      hide ExtendedHead;
      var at := |out|;
      out := out + [0, 0, 0, 0];
      assert Zeros(4) == [0, 0, 0, 0];
      h := Pid(at, true, origin, role, id, must);
      origin := |out|;
      ok := true;
    }

    /** Patches the length in, or promotes the header if the length does not fit it, and goes back to
        the enclosing origin. */
    method FinishPid(h: Pid) returns (ok: bool)
      requires Valid() && Waiting(out, h)
      modifies this
      ensures ok <==> PidLength(cfg, old(out), h) < Pow(256, 4)
      ensures ok ==> Valid() && origin == h.savedOrigin && out == FinishedPid(cfg, old(out), h)
    {
      hide ToOctets, Pow, ExtendedPidHeader;
      Pow256Of4();
      var width := if h.extended then 4 else 2;
      var length := |out| - h.at - width;
      if cfg.framing.PadsDeclaredLength(h.role) {
        var past := (|out| - h.savedOrigin) % 4;
        if past != 0 {
          length := length + 4 - past;
        }
      }
      if !h.extended && length > PID_SHORT_MAX_LEN {
        ok := PromotePid(h, length);
      } else {
        ok := Patch(h.at, length, width);
      }
      if ok {
        origin := h.savedOrigin;
        if cfg.framing.padAfterValue {
          AlignTo(4);
        }
      }
    }

    method WriteSentinel()
      requires Valid()
      modifies this`out
      ensures Valid() && out == old(out) + EncSentinel(cfg, old(Pos()))
    {
      hide ToOctets;
      AlignTo(4);
      AlignedNeedsNoPad(old(Pos()), cfg.maxAlign);
      WriteHalves(FlaggedPid(cfg, PID_LIST_END, AtSentinel), 0);
    }

    /** Eight octets go in between the short header and the value; then the header is written over as
        an extended one. */
    method PromotePid(h: Pid, length: nat) returns (ok: bool)
      requires Valid() && h.at >= 2 && h.at + 2 <= |out|
      modifies this`out
      ensures ok <==> length < Pow(256, 4)
      ensures ok ==> out == Promoted(cfg, old(out), h, length)
      ensures Valid()
    {
      hide ToOctets, Pow;
      var start := h.at - 2;
      ghost var before := out[..start];
      ghost var value := out[h.at + 2..];
      out := out[..h.at + 2] + Zeros(8) + out[h.at + 2..];
      ghost var junk := out[start..start + 12];
      assert out == before + junk + value;
      ghost var marker := U16Octets(cfg, FlaggedPid(cfg, PID_EXTENDED, AtExtendedMarker));
      ghost var member := U32(cfg, ExtendedMemberHeader(cfg, h.pid % 0x1000_0000, h.mustUnderstand));
      FourPatches(before, junk, value, marker, U16Octets(cfg, 8), member, U32(cfg, length));
      hide Spliced;
      Pow256Of4();
      FlaggedFits(cfg, PID_EXTENDED, AtExtendedMarker);
      ok := Patch(start, FlaggedPid(cfg, PID_EXTENDED, AtExtendedMarker), 2);
      ok := Patch(start + 2, 8, 2);
      HeaderFits(cfg, h.pid, h.mustUnderstand);
      ok := Patch(start + 4, ExtendedMemberHeader(cfg, h.pid % 0x1000_0000, h.mustUnderstand), 4);
      ok := Patch(start + 8, length, 4);
    }
  }

  function CodeLength(lengthCode: nat): nat
  {
    if lengthCode == 0 then 1 else if lengthCode == 1 then 2 else if lengthCode == 2 then 4 else 8
  }

  /** A header word with bits 28 to 30 replaced. */
  function Recoded(word: nat, code: nat): nat {
    var previous := (word / 0x1000_0000) % 8;
    word - previous * 0x1000_0000 + code * 0x1000_0000
  }

  /** The NEXTINT after the header word at `word` removed and the word's length code replaced. */
  function Shortened(cfg: Config, s: Octets, word: nat, code: nat): Octets
    requires word + 8 <= |s|
  {
    s[..word] + U32(cfg, Recoded(FromOctets(cfg.little, s[word..word + 4]), code)) + s[word + 8..]
  }

  lemma {:induction false} FromLittleEndianBound(b: Octets)
    ensures FromLittleEndian(b) < Pow(256, |b|)
  {
    if b != [] { FromLittleEndianBound(b[1..]); }
  }

  lemma Pow256Of4()
    ensures Pow(256, 4) == 0x1_0000_0000 && Pow(256, 2) == 0x1_0000 && Pow(256, 1) == 256
  {
    assert Pow(256, 1) == 256 * Pow(256, 0);
    assert Pow(256, 2) == 256 * Pow(256, 1);
    assert Pow(256, 3) == 256 * Pow(256, 2);
    assert Pow(256, 4) == 256 * Pow(256, 3);
  }

  lemma RecodedFits(little: bool, b: Octets, code: nat)
    requires |b| == 4 && code < 4
    ensures Recoded(FromOctets(little, b), code) < Pow(256, 4)
  {
    FromLittleEndianBound(if little then b else Mirrored(b));
    Pow256Of4();
  }

  lemma OnBoundary(pos: nat, cap: nat)
    requires cap in {4, 8}
    ensures (pos + PadLen(pos, 4, cap)) % 4 == 0
  {
    var q, r := pos / 4, pos % 4;
    if r == 0 {
      assert PadLen(pos, 4, cap) == 0;
    } else {
      assert PadLen(pos, 4, cap) == 4 - r;
      Multiple(4, q + 1, pos + 4 - r);
    }
  }

  lemma Multiple(width: nat, q: nat, x: nat)
    requires width in {2, 4} && x == width * q
    ensures x % width == 0
  {
    if width == 2 {
      assert x == 2 * q;
    } else {
      assert x == 4 * q;
    }
  }

  lemma NoPad(pos: nat, width: nat, cap: nat)
    requires cap in {4, 8} && width in {2, 4} && pos % width == 0
    ensures PadLen(pos, width, cap) == 0
  {
  }

  lemma Fourths(x: nat)
    requires x % 4 == 0
    ensures x % 2 == 0 && (x + 2) % 2 == 0 && (x + 4) % 4 == 0
  {
    var k := x / 4;
    assert x == 2 * (2 * k) && x + 2 == 2 * (2 * k + 1) && x + 4 == 4 * (k + 1);
  }

  /** After aligning to four, no field of a header needs padding of its own. */
  lemma AlignedNeedsNoPad(pos: nat, cap: nat)
    requires cap in {4, 8}
    ensures var start := pos + PadLen(pos, 4, cap);
            && PadLen(start, 2, cap) == 0 && PadLen(start, 4, cap) == 0
            && PadLen(start + 2, 2, cap) == 0 && PadLen(start + 4, 4, cap) == 0
  {
    hide PadLen;
    var start := pos + PadLen(pos, 4, cap);
    OnBoundary(pos, cap);
    Fourths(start);
    NoPad(start, 2, cap);
    NoPad(start, 4, cap);
    NoPad(start + 2, 2, cap);
    NoPad(start + 4, 4, cap);
  }

  /** The header of `h` stands in `s`, with its value behind it. */
  predicate Waiting(s: Octets, h: Pid) {
    h.savedOrigin + 2 <= h.at && h.at + (if h.extended then 4 else 2) <= |s|
  }

  /** The length the parameter of `h` declares when `s` ends with its value. */
  function PidLength(cfg: Config, s: Octets, h: Pid): nat
    requires Waiting(s, h)
  {
    DeclaredLength(cfg, h.role, |s| - h.at - (if h.extended then 4 else 2), |s| - h.savedOrigin)
  }

  /** The octets once the length is in and the header has its final form. */
  function FramedPid(cfg: Config, s: Octets, h: Pid): Octets
    requires Waiting(s, h)
  {
    var declared := PidLength(cfg, s, h);
    if !h.extended && declared > PID_SHORT_MAX_LEN then Promoted(cfg, s, h, declared)
    else Spliced(s, h.at, ToOctets(cfg.little, declared, if h.extended then 4 else 2))
  }

  function FinishedPid(cfg: Config, s: Octets, h: Pid): Octets
    requires cfg.Valid() && Waiting(s, h)
  {
    var framed := FramedPid(cfg, s, h);
    framed + (if cfg.framing.padAfterValue then Padding(cfg, |framed| - h.savedOrigin, 4) else [])
  }

  /** An extended header up to its length. */
  function ExtendedHead(cfg: Config, id: nat, must: bool): Octets {
    U16Octets(cfg, FlaggedPid(cfg, PID_EXTENDED, AtExtendedMarker)) + U16Octets(cfg, 8)
    + U32(cfg, ExtendedMemberHeader(cfg, id, must))
  }

  /** The octets with the short header of `h` replaced by the extended one. */
  function Promoted(cfg: Config, s: Octets, h: Pid, declared: nat): Octets
    requires 2 <= h.at && h.at + 2 <= |s|
  {
    s[..h.at - 2] + ExtendedPidHeader(cfg, h.pid % 0x1000_0000, h.mustUnderstand, declared) + s[h.at + 2..]
  }

  lemma FlaggedFits(cfg: Config, pid: nat, position: PidPosition)
    requires pid < PID_ID_LIMIT
    ensures FlaggedPid(cfg, pid, position) < 0x1_0000
  {
  }

  lemma HeaderFits(cfg: Config, id: nat, must: bool)
    ensures ExtendedMemberHeader(cfg, id % 0x1000_0000, must) < 0x1_0000_0000
  {
  }
}
