/**
 The serial framing of DDS-XRCE 1.0 Annex C.1.1: a flag, then addresses, length,
 payload and frame check, with flags and escapes stuffed after the flag.
 */
module SerialFraming {
  import opened Fcs16

  const FLAG: Octet := 0x7E
  const ESC: Octet := 0x7D
  const STUFF: Octet := 0x20
  const SERIAL_HEADER_LEN := 4

  datatype Message = Message(source: Octet, remote: Octet, payload: seq<Octet>)

  datatype DeframeError = NoBeginFlag | FlagInside | DanglingEscape | InvalidEscape | ShortFrame | FrameCheck

  datatype Result<+T> = Ok(value: T) | Err(error: DeframeError)

  /** An octet, and the number it holds. */
  function OctetOf(n: nat): Octet
    requires n < 256
  {
    n as Octet
  }

  /** Counting up finds the octet that holds `n`. */
  lemma {:induction false} OctetHolding(n: nat) returns (b: Octet)
    requires n < 256
    ensures b as nat == n
  {
    if n == 0 {
      b := 0;
    } else {
      var p := OctetHolding(n - 1);
      NextOctet(p);
      b := p + 1;
    }
  }

  lemma NextOctet(b: Octet)
    requires b != 255
    ensures (b + 1) as nat == b as nat + 1
  {
  }

  lemma OctetOfInverse(n: nat)
    requires n < 256
    ensures OctetOf(n) as nat == n
  {
    var b := OctetHolding(n);
  }

  /** The length a header's third and fourth octet declare. */
  function Length(lo: Octet, hi: Octet): nat {
    lo as nat + 256 * (hi as nat)
  }

  function LengthOctets(n: nat): seq<Octet>
    requires n <= 0xFFFF
  {
    [OctetOf(n % 256), OctetOf(n / 256)]
  }

  lemma LengthInverse(n: nat)
    requires n <= 0xFFFF
    ensures Length(LengthOctets(n)[0], LengthOctets(n)[1]) == n
  {
    hide OctetOf;
    OctetOfInverse(n % 256);
    OctetOfInverse(n / 256);
  }

  lemma OctetRange(b: Octet)
    ensures b as nat < 256 && OctetOf(b as nat) == b
  {
  }

  lemma Digits256(l: nat, h: nat)
    requires l < 256
    ensures (l + 256 * h) % 256 == l && (l + 256 * h) / 256 == h
  {
  }

  lemma LengthBound(lo: Octet, hi: Octet)
    ensures Length(lo, hi) <= 0xFFFF && LengthOctets(Length(lo, hi)) == [lo, hi]
  {
    hide OctetOf, LengthOctets;
    OctetRange(lo);
    OctetRange(hi);
    LengthOctetsOf(lo as nat, hi as nat);
  }

  lemma LengthOctetsOf(l: nat, h: nat)
    requires l < 256 && h < 256
    ensures l + 256 * h <= 0xFFFF && LengthOctets(l + 256 * h) == [OctetOf(l), OctetOf(h)]
  {
    hide OctetOf;
    Digits256(l, h);
  }

  /** The two octets of a frame check, least significant first. */
  function FcsOctets(fcs: bv16): seq<Octet> {
    [(fcs & 0xFF) as Octet, ((fcs >> 8) & 0xFF) as Octet]
  }

  lemma FcsOctetsInjective(a: bv16, b: bv16)
    requires FcsOctets(a) == FcsOctets(b)
    ensures a == b
  {
    assert FcsOctets(a)[0] == FcsOctets(b)[0];
    assert FcsOctets(a)[1] == FcsOctets(b)[1];
  }

  // ---- framing ----

  function StuffOne(b: Octet): seq<Octet> {
    if b == FLAG || b == ESC then [ESC, b ^ STUFF] else [b]
  }

  function Stuffed(data: seq<Octet>): seq<Octet> {
    if data == [] then [] else StuffOne(data[0]) + Stuffed(data[1..])
  }

  /** Header and payload, the octets the frame check covers. */
  function Checked(m: Message): seq<Octet>
    requires |m.payload| <= 0xFFFF
  {
    [m.source, m.remote] + LengthOctets(|m.payload|) + m.payload
  }

  function Raw(m: Message): seq<Octet>
    requires |m.payload| <= 0xFFFF
  {
    Checked(m) + FcsOctets(Fcs(Checked(m)))
  }

  function Frame(m: Message): seq<Octet>
    requires |m.payload| <= 0xFFFF
  {
    [FLAG] + Stuffed(Raw(m))
  }

  method Stuff(data: seq<Octet>) returns (out: seq<Octet>)
    ensures out == Stuffed(data)
  {
    hide Stuffed;
    out := [];
    for i := 0 to |data|
      invariant out + Stuffed(data[i..]) == Stuffed(data)
    {
      var b := data[i];
      StuffStep(data, i);
      ghost var before := out;
      if b == FLAG || b == ESC {
        out := out + [ESC];
        out := out + [b ^ STUFF];
      } else {
        out := out + [b];
      }
      assert out == before + StuffOne(b);
    }
    StuffEnd(data);
  }

  lemma StuffStep(data: seq<Octet>, i: nat)
    requires i < |data|
    ensures Stuffed(data[i..]) == StuffOne(data[i]) + Stuffed(data[i + 1..])
  {
    assert data[i..][1..] == data[i + 1..];
  }

  lemma StuffEnd(data: seq<Octet>)
    ensures Stuffed(data[|data|..]) == []
  {
  }

  /** A payload over 65535 octets is refused. */
  method SerialFrame(m: Message) returns (frame: seq<Octet>, ok: bool)
    ensures ok <==> |m.payload| <= 0xFFFF
    ensures ok ==> frame == Frame(m)
  {
    if |m.payload| > 0xFFFF {
      return [], false;
    }
    var raw := [m.source, m.remote] + LengthOctets(|m.payload|) + m.payload;
    var crc := ComputeFcs(raw, 0, |raw|);
    assert raw[0..|raw|] == raw;
    raw := raw + FcsOctets(crc);
    var stuffed := Stuff(raw);
    frame := [FLAG] + stuffed;
    ok := true;
  }

  // ---- deframing ----

  /** How many octets a frame has, as far as the octets collected so far tell. */
  function Total(raw: seq<Octet>): nat {
    if |raw| < SERIAL_HEADER_LEN then SERIAL_HEADER_LEN + 2
    else SERIAL_HEADER_LEN + Length(raw[2], raw[3]) + 2
  }

  /** The octets of one frame, unstuffed: the loop of the deframer, from `raw` collected on. */
  function Collect(rest: seq<Octet>, raw: seq<Octet>): Result<seq<Octet>>
    decreases |rest|
  {
    if |raw| >= Total(raw) then Ok(raw)
    else if rest == [] then Err(ShortFrame)
    else if rest[0] == FLAG then Err(FlagInside)
    else if rest[0] == ESC then
      if |rest| < 2 then Err(DanglingEscape)
      else
        var b := rest[1] ^ STUFF;
        if b != FLAG && b != ESC then Err(InvalidEscape) else Collect(rest[2..], raw + [b])
    else Collect(rest[1..], raw + [rest[0]])
  }

  function Deframed(frame: seq<Octet>): Result<Message> {
    if |frame| < 1 || frame[0] != FLAG then Err(NoBeginFlag)
    else
      var r := Collect(frame[1..], []);
      if r.Err? then Err(r.error)
      else
        var raw := r.value;
        if |raw| < 6 || raw[|raw| - 2..] != FcsOctets(Fcs(raw[..|raw| - 2])) then Err(FrameCheck)
        else Ok(Message(raw[0], raw[1], raw[SERIAL_HEADER_LEN..|raw| - 2]))
  }

  method SerialDeframe(frame: seq<Octet>) returns (r: Result<Message>)
    ensures r == Deframed(frame)
  {
    if |frame| < 1 || frame[0] != FLAG {
      return Err(NoBeginFlag);
    }
    var raw: seq<Octet> := [];
    var total := SERIAL_HEADER_LEN + 2;
    var i := 1;
    while i < |frame| && |raw| < total
      invariant 1 <= i <= |frame|
      invariant total == Total(raw)
      invariant Collect(frame[i..], raw) == Collect(frame[1..], [])
      decreases |frame| - i
    {
      var b := frame[i];
      if b == FLAG {
        return Err(FlagInside);
      }
      if b == ESC {
        i := i + 1;
        if i >= |frame| {
          return Err(DanglingEscape);
        }
        b := frame[i] ^ STUFF;
        if b != FLAG && b != ESC {
          return Err(InvalidEscape);
        }
      }
      raw := raw + [b];
      if |raw| == SERIAL_HEADER_LEN {
        total := SERIAL_HEADER_LEN + Length(raw[2], raw[3]) + 2;
      }
      i := i + 1;
    }
    if |raw| < total {
      return Err(ShortFrame);
    }
    var crc := ComputeFcs(raw, 0, |raw| - 2);
    if raw[|raw| - 2..] != FcsOctets(crc) {
      return Err(FrameCheck);
    }
    r := Ok(Message(raw[0], raw[1], raw[SERIAL_HEADER_LEN..|raw| - 2]));
  }

  // ---- what framing promises ----

  /** No flag ever follows the first octet of a frame. */
  lemma {:induction false} NoFlagInside(data: seq<Octet>)
    ensures FLAG !in Stuffed(data)
  {
    if data != [] {
      NoFlagInside(data[1..]);
      assert FLAG ^ STUFF != FLAG && ESC ^ STUFF != FLAG;
    }
  }

  lemma CollectOne(b: Octet, left: seq<Octet>, raw: seq<Octet>)
    requires |raw| < Total(raw)
    ensures Collect(StuffOne(b) + left, raw) == Collect(left, raw + [b])
  {
    hide Total;
    var all := StuffOne(b) + left;
    if b == FLAG || b == ESC {
      assert all[0] == ESC && all[1] == b ^ STUFF && all[2..] == left;
      assert b ^ STUFF ^ STUFF == b;
    } else {
      assert all[0] == b && all[1..] == left;
    }
  }

  /** Collecting gives back stuffed octets one after the other, as long as the frame wants more. */
  lemma {:induction false} CollectStuffed(data: seq<Octet>, rest: seq<Octet>, raw: seq<Octet>)
    requires forall k :: 0 <= k < |data| ==> |raw| + k < Total(raw + data[..k])
    ensures Collect(Stuffed(data) + rest, raw) == Collect(rest, raw + data)
    decreases |data|
  {
    hide Total, StuffOne;
    if data == [] {
      assert raw + data == raw && Stuffed(data) + rest == rest;
    } else {
      var b := data[0];
      assert |raw| < Total(raw + data[..0]) && raw + data[..0] == raw;
      forall k | 0 <= k < |data[1..]|
        ensures |raw + [b]| + k < Total(raw + [b] + data[1..][..k])
      {
        assert raw + [b] + data[1..][..k] == raw + data[..k + 1];
      }
      CollectStuffed(data[1..], rest, raw + [b]);
      assert raw + [b] + data[1..] == raw + data;
      CollectOne(b, Stuffed(data[1..]) + rest, raw);
      assert Stuffed(data) + rest == StuffOne(b) + (Stuffed(data[1..]) + rest);
    }
  }

  /** The step the deframer takes when it wants more: one octet, unstuffed. */
  lemma CollectStep(rest: seq<Octet>, raw: seq<Octet>) returns (b: Octet, left: seq<Octet>)
    requires Collect(rest, raw).Ok? && |raw| < Total(raw)
    ensures rest == StuffOne(b) + left && |left| < |rest|
    ensures Collect(rest, raw) == Collect(left, raw + [b])
  {
    hide Total;
    if rest[0] == ESC {
      b, left := rest[1] ^ STUFF, rest[2..];
      assert b ^ STUFF == rest[1];
    } else {
      b, left := rest[0], rest[1..];
    }
  }

  /** What was collected is exactly what the consumed octets are the stuffing of. */
  lemma {:induction false} CollectMeans(rest: seq<Octet>, raw: seq<Octet>) returns (data: seq<Octet>, left: seq<Octet>)
    requires Collect(rest, raw).Ok? && |raw| <= Total(raw)
    ensures rest == Stuffed(data) + left && Collect(rest, raw).value == raw + data
    ensures |raw + data| == Total(raw + data)
    decreases |rest|
  {
    hide Total, StuffOne;
    if |raw| == Total(raw) {
      data, left := [], rest;
      assert raw + data == raw;
    } else {
      var b, rest' := CollectStep(rest, raw);
      TotalGrows(raw, b);
      var more;
      more, left := CollectMeans(rest', raw + [b]);
      data := [b] + more;
      assert data[1..] == more;
      assert raw + [b] + more == raw + data;
      assert StuffOne(b) + (Stuffed(more) + left) == StuffOne(b) + Stuffed(more) + left;
    }
  }

  lemma TotalGrows(raw: seq<Octet>, b: Octet)
    requires |raw| < Total(raw)
    ensures |raw + [b]| <= Total(raw + [b])
  {
    if |raw| >= SERIAL_HEADER_LEN {
      assert (raw + [b])[2] == raw[2] && (raw + [b])[3] == raw[3];
    }
  }

  /** The octets of a message are wanted to the last and no further. */
  lemma RawIsWanted(m: Message)
    requires |m.payload| <= 0xFFFF
    ensures var raw := Raw(m);
            && |raw| == Total(raw) == SERIAL_HEADER_LEN + |m.payload| + 2
            && (forall k :: 0 <= k < |raw| ==> k < Total(raw[..k]))
  {
    hide Length, LengthOctets, FcsOctets;
    assert |LengthOctets(|m.payload|)| == 2 && |FcsOctets(Fcs(Checked(m)))| == 2 by {
      TwoOctets(|m.payload|, Fcs(Checked(m)));
    }
    LengthInverse(|m.payload|);
    var raw := Raw(m);
    assert raw[2] == LengthOctets(|m.payload|)[0] && raw[3] == LengthOctets(|m.payload|)[1];
  }

  lemma TwoOctets(n: nat, fcs: bv16)
    requires n <= 0xFFFF
    ensures |LengthOctets(n)| == 2 && |FcsOctets(fcs)| == 2
  {
  }

  /** Deframing inverts framing for every message, whatever follows the frame. */
  lemma DeframeInvertsFrame(m: Message, rest: seq<Octet>)
    requires |m.payload| <= 0xFFFF
    ensures Deframed(Frame(m) + rest) == Ok(m)
  {
    hide Length, LengthOctets, FcsOctets, Fcs, Total, Stuffed;
    var raw := Raw(m);
    RawIsWanted(m);
    TwoOctets(|m.payload|, Fcs(Checked(m)));
    forall k | 0 <= k < |raw| ensures 0 + k < Total([] + raw[..k]) {
      assert [] + raw[..k] == raw[..k];
    }
    CollectStuffed(raw, rest, []);
    assert [] + raw == raw;
    assert (Frame(m) + rest)[1..] == Stuffed(raw) + rest;
    assert raw[..|raw| - 2] == Checked(m);
    assert raw[|raw| - 2..] == FcsOctets(Fcs(Checked(m)));
    assert raw[SERIAL_HEADER_LEN..|raw| - 2] == m.payload;
  }

  /** Deframing accepts nothing else: what it accepts begins with the frame of the message it returns. */
  lemma DeframeAcceptsOnlyFrames(frame: seq<Octet>) returns (rest: seq<Octet>)
    requires Deframed(frame).Ok?
    ensures var m := Deframed(frame).value; |m.payload| <= 0xFFFF && frame == Frame(m) + rest
  {
    hide FcsOctets, Fcs, Stuffed, Length, LengthOctets, Collect;
    var raw;
    raw, rest := CollectMeans(frame[1..], []);
    assert [] + raw == raw;
    CheckedRawIsFrame(raw);
    assert frame == [FLAG] + frame[1..];
    assert [FLAG] + (Stuffed(raw) + rest) == [FLAG] + Stuffed(raw) + rest;
  }

  /** Octets of the declared length with their own check are the octets of a message. */
  lemma CheckedRawIsFrame(raw: seq<Octet>)
    requires 6 <= |raw| == Total(raw) && raw[|raw| - 2..] == FcsOctets(Fcs(raw[..|raw| - 2]))
    ensures var m := Message(raw[0], raw[1], raw[SERIAL_HEADER_LEN..|raw| - 2]);
            |m.payload| <= 0xFFFF && raw == Raw(m)
  {
    hide FcsOctets, Fcs, Length, LengthOctets;
    LengthBound(raw[2], raw[3]);
    var m := Message(raw[0], raw[1], raw[SERIAL_HEADER_LEN..|raw| - 2]);
    assert raw[..|raw| - 2] == Checked(m);
    assert raw == raw[..|raw| - 2] + raw[|raw| - 2..];
  }

  // ---- a stream of frames ----

  function Frames(ms: seq<Message>): seq<Octet>
    requires forall m :: m in ms ==> |m.payload| <= 0xFFFF
  {
    if ms == [] then [] else Frame(ms[0]) + Frames(ms[1..])
  }

  /** Where the next flag is, or the end. */
  function NextFlag(s: seq<Octet>): (n: nat)
    ensures n <= |s|
  {
    if s == [] || s[0] == FLAG then 0 else 1 + NextFlag(s[1..])
  }

  /** The pieces of a stream that begin at each flag. */
  function Cut(s: seq<Octet>): seq<seq<Octet>>
    decreases |s|
  {
    if s == [] then []
    else var n := 1 + NextFlag(s[1..]); [s[..n]] + Cut(s[n..])
  }

  lemma {:induction false} NextFlagAfter(s: seq<Octet>, rest: seq<Octet>)
    requires FLAG !in s && (rest == [] || rest[0] == FLAG)
    ensures NextFlag(s + rest) == |s|
  {
    if s == [] {
      assert s + rest == rest;
    } else {
      assert (s + rest)[1..] == s[1..] + rest;
      NextFlagAfter(s[1..], rest);
    }
  }

  lemma CutPiece(piece: seq<Octet>, rest: seq<Octet>)
    requires FLAG !in piece && (rest == [] || rest[0] == FLAG)
    ensures Cut([FLAG] + piece + rest) == [[FLAG] + piece] + Cut(rest)
  {
    hide NextFlag;
    var s := [FLAG] + piece + rest;
    assert s[1..] == piece + rest;
    NextFlagAfter(piece, rest);
    assert s[..1 + |piece|] == [FLAG] + piece && s[1 + |piece|..] == rest;
  }

  lemma FramesBeginWithFlag(ms: seq<Message>)
    requires forall m :: m in ms ==> |m.payload| <= 0xFFFF
    ensures Frames(ms) == [] || Frames(ms)[0] == FLAG
  {
    hide Stuffed, Raw;
  }

  /** Cutting a concatenation of frames at each flag recovers exactly the frames. */
  lemma {:induction false} CutRecoversFrames(ms: seq<Message>)
    requires forall m :: m in ms ==> |m.payload| <= 0xFFFF
    ensures Cut(Frames(ms)) == seq(|ms|, i requires 0 <= i < |ms| => assert ms[i] in ms; Frame(ms[i]))
  {
    hide Frame;
    if ms != [] {
      CutOne(ms);
      CutRecoversFrames(ms[1..]);
    }
  }

  /** The first piece is the first frame. */
  lemma CutOne(ms: seq<Message>)
    requires ms != [] && forall m :: m in ms ==> |m.payload| <= 0xFFFF
    ensures Cut(Frames(ms)) == [Frame(ms[0])] + Cut(Frames(ms[1..]))
  {
    hide Stuffed, Raw, Cut;
    NoFlagInside(Raw(ms[0]));
    FramesBeginWithFlag(ms[1..]);
    CutPiece(Stuffed(Raw(ms[0])), Frames(ms[1..]));
  }

  // ---- damage ----

  /** A frame whose payload was altered inside a burst of sixteen bits, under its old frame check, is refused. */
  lemma AlteredPayloadIsRefused(m: Message, altered: seq<Octet>, i: nat, k: nat, rest: seq<Octet>)
    requires |m.payload| <= 0xFFFF && DifferInBurst(m.payload, altered, i, k)
    ensures var m' := m.(payload := altered);
            Deframed([FLAG] + Stuffed(Checked(m') + FcsOctets(Fcs(Checked(m)))) + rest) == Err(FrameCheck)
  {
    hide LowBits, Stuffed, Fcs, Deframed, FcsOctets, LengthOctets;
    TwoOctets(|m.payload|, 0);
    var m' := m.(payload := altered);
    var a, b := Checked(m), Checked(m');
    assert |a| == |b| == 4 + |m.payload|;
    assert a != b by { assert a[4..] == m.payload && b[4..] == altered; }
    forall j | 4 <= j < |a| ensures a[j] == m.payload[j - 4] && b[j] == altered[j - 4] {
    }
    forall j | 0 <= j < |a| && !(i + 4 <= j <= i + 6) ensures a[j] == b[j] {
    }
    BurstChangesFcs(a, b, i + 4, k);
    WrongCheckIsRefused(m', Fcs(a), rest);
  }

  /** A frame that carries any other check than its own is refused. */
  lemma WrongCheckIsRefused(m: Message, fcs: bv16, rest: seq<Octet>)
    requires |m.payload| <= 0xFFFF && fcs != Fcs(Checked(m))
    ensures Deframed([FLAG] + Stuffed(Checked(m) + FcsOctets(fcs)) + rest) == Err(FrameCheck)
  {
    hide Length, LengthOctets, FcsOctets, Fcs, Total, Stuffed;
    var raw, good := Checked(m) + FcsOctets(fcs), Raw(m);
    TwoOctets(|m.payload|, fcs);
    TwoOctets(|m.payload|, Fcs(Checked(m)));
    RawIsWanted(m);
    SameHeaderSameTotal(raw, good);
    forall k | 0 <= k < |raw| ensures 0 + k < Total([] + raw[..k]) {
      assert [] + raw[..k] == raw[..k];
      SameHeaderSameTotal(raw[..k], good[..k]);
    }
    CollectStuffed(raw, rest, []);
    assert [] + raw == raw;
    var frame := [FLAG] + Stuffed(raw) + rest;
    assert frame[1..] == Stuffed(raw) + rest;
    assert raw[..|raw| - 2] == Checked(m);
    assert raw[|raw| - 2..] == FcsOctets(fcs);
    if FcsOctets(fcs) == FcsOctets(Fcs(Checked(m))) {
      FcsOctetsInjective(fcs, Fcs(Checked(m)));
    }
  }

  /** The register after a message and its own check, whatever the message. */
  const RESIDUE: bv16 := 0xF0B8

  function Complement(a: bv16): bv16 { !a }

  lemma CheckLeavesResidue(register: bv16)
    ensures var check := FcsOctets(Complement(register)); Absorb(Absorb(register, check[0]), check[1]) == RESIDUE
  {
  }

  lemma RegisterOfTwo(register: bv16, data: seq<Octet>)
    requires |data| == 2
    ensures Register(register, data) == Absorb(Absorb(register, data[0]), data[1])
  {
    hide Absorb;
    var first, second := Absorb(register, data[0]), data[1..];
    assert second[1..] == [];
    assert Register(register, data) == Register(first, second);
    assert Register(first, second) == Register(Absorb(first, second[0]), []);
  }

  lemma FcsIsComplement(data: seq<Octet>)
    ensures Fcs(data) == Complement(Register(0xFFFF, data))
  {
    hide Register;
  }

  lemma CheckedLeavesResidue(data: seq<Octet>)
    ensures Register(0xFFFF, data + FcsOctets(Fcs(data))) == RESIDUE
  {
    hide Absorb, FcsOctets, Register, Fcs, Complement;
    var register, fcs := Register(0xFFFF, data), Fcs(data);
    FcsIsComplement(data);
    CheckLeavesResidue(register);
    TwoOctets(0, fcs);
    RegisterAppend(0xFFFF, data, FcsOctets(fcs));
    RegisterOfTwo(register, FcsOctets(fcs));
    assert Register(0xFFFF, data + FcsOctets(fcs)) == Register(register, FcsOctets(fcs));
  }

  function FcsOf(lo: Octet, hi: Octet): bv16 {
    ((hi as bv16) << 8) | (lo as bv16)
  }

  lemma OctetsOfFcs(lo: Octet, hi: Octet)
    ensures FcsOctets(FcsOf(lo, hi)) == [lo, hi]
  {
  }

  /** The octets of a frame, taken apart by the length in its header. */
  lemma TakenApart(m: Message, altered: seq<Octet>) returns (m': Message, fcs: bv16)
    requires |m.payload| <= 0xFFFF && |altered| == |Raw(m)| && altered[2..4] == Raw(m)[2..4]
    ensures |m'.payload| <= 0xFFFF && altered == Checked(m') + FcsOctets(fcs)
  {
    hide Fcs, FcsOctets, LengthOctets, FcsOf;
    var n := |altered|;
    TwoOctets(|m.payload|, Fcs(Checked(m)));
    m' := Message(altered[0], altered[1], altered[4..n - 2]);
    fcs := FcsOf(altered[n - 2], altered[n - 1]);
    OctetsOfFcs(altered[n - 2], altered[n - 1]);
    assert Raw(m)[2..4] == LengthOctets(|m.payload|);
    assert altered == altered[..2] + altered[2..4] + altered[4..n - 2] + altered[n - 2..];
    assert altered[..2] == [m'.source, m'.remote] && altered[n - 2..] == FcsOctets(fcs);
  }

  /** A frame damaged inside a burst of sixteen bits anywhere but in its two length octets, be it in the addresses,
      the payload, the check or across, is refused. */
  lemma AlteredFrameIsRefused(m: Message, altered: seq<Octet>, i: nat, k: nat, rest: seq<Octet>)
    requires |m.payload| <= 0xFFFF && DifferInBurst(Raw(m), altered, i, k) && altered[2..4] == Raw(m)[2..4]
    ensures Deframed([FLAG] + Stuffed(altered) + rest) == Err(FrameCheck)
  {
    hide Stuffed, Fcs, Deframed, FcsOctets, Register, Checked, DifferInBurst;
    assert |altered| == |Raw(m)| by { SameLength(Raw(m), altered, i, k); }
    var m', fcs := TakenApart(m, altered);
    if fcs == Fcs(Checked(m')) {
      CheckedLeavesResidue(Checked(m));
      CheckedLeavesResidue(Checked(m'));
      BurstChangesRegister(0xFFFF, Raw(m), altered, i, k);
      assert false;
    }
    WrongCheckIsRefused(m', fcs, rest);
  }

  lemma SameLength(a: seq<Octet>, b: seq<Octet>, i: nat, k: nat)
    requires DifferInBurst(a, b, i, k)
    ensures |a| == |b|
  {
    hide LowBits;
  }

  lemma SameHeaderSameTotal(a: seq<Octet>, b: seq<Octet>)
    requires |a| == |b| && (|a| >= SERIAL_HEADER_LEN ==> a[..4] == b[..4])
    ensures Total(a) == Total(b)
  {
    if |a| >= SERIAL_HEADER_LEN {
      assert a[2] == a[..4][2] && a[3] == a[..4][3] && b[2] == b[..4][2] && b[3] == b[..4][3];
    }
  }
}
