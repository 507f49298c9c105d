/** A serial frame octet by octet, and the check value its frame check is known by. */
module SerialLayout {
  import opened Fcs16
  import opened SerialFraming

  /** The check of the nine digits is the value published for this code. */
  lemma CheckOfNineDigits()
    ensures Fcs([0x31, 0x32, 0x33, 0x34, 0x35, 0x36, 0x37, 0x38, 0x39]) == 0x906E
  {
    hide Absorb;
    var digits: seq<Octet> := [0x31, 0x32, 0x33, 0x34, 0x35, 0x36, 0x37, 0x38, 0x39];
    FirstThree();
    MiddleThree();
    LastThree();
    Three(0xFFFF, digits);
    Three(0x634B, digits[3..]);
    Three(0x198D, digits[6..]);
    assert digits[3..][3..] == digits[6..] && digits[6..][3..] == [];
    assert Register(0x6F91, []) == 0x6F91;
    Complement();
  }

  lemma Three(crc: bv16, data: seq<Octet>)
    requires |data| >= 3
    ensures Register(crc, data) == Register(Absorb(Absorb(Absorb(crc, data[0]), data[1]), data[2]), data[3..])
  {
    hide Absorb, Register;
    One(crc, data);
    One(Absorb(crc, data[0]), data[1..]);
    One(Absorb(Absorb(crc, data[0]), data[1]), data[2..]);
    assert data[1..][1..] == data[2..] && data[2..][1..] == data[3..];
  }

  lemma One(crc: bv16, data: seq<Octet>)
    requires |data| >= 1
    ensures Register(crc, data) == Register(Absorb(crc, data[0]), data[1..])
  {
    hide Absorb;
  }

  lemma FirstThree()
    ensures Absorb(Absorb(Absorb(0xFFFF, 0x31), 0x32), 0x33) == 0x634B
  {
  }

  lemma MiddleThree()
    ensures Absorb(Absorb(Absorb(0x634B, 0x34), 0x35), 0x36) == 0x198D
  {
  }

  lemma LastThree()
    ensures Absorb(Absorb(Absorb(0x198D, 0x37), 0x38), 0x39) == 0x6F91
  {
  }

  lemma Complement()
    ensures !(0x6F91 as bv16) == 0x906E
  {
  }

  /** Behind the flag and before stuffing: both addresses, the length and the check least significant octet first. */
  lemma FrameOctets(m: Message)
    requires |m.payload| <= 65535
    ensures var raw, n := Raw(m), |m.payload|;
            && Frame(m) == [0x7E] + Stuffed(raw) && |raw| == n + 6
            && raw[0] == m.source && raw[1] == m.remote && raw[2] as nat + 256 * (raw[3] as nat) == n
            && raw[4..n + 4] == m.payload && (raw[n + 5] as bv16 << 8) | raw[n + 4] as bv16 == Fcs(raw[..n + 4])
  {
    hide Fcs, Stuffed, LengthOctets, FcsOctets;
    var length, check := LengthOctets(|m.payload|), FcsOctets(Fcs(Checked(m)));
    TwoOctets(|m.payload|, Fcs(Checked(m)));
    LengthInverse(|m.payload|);
    HalvesJoin(Fcs(Checked(m)));
    Apart([m.source, m.remote], length, m.payload, check);
  }

  lemma Apart(head: seq<Octet>, length: seq<Octet>, payload: seq<Octet>, check: seq<Octet>)
    requires |head| == 2 && |length| == 2 && |check| == 2
    ensures var raw, n := head + length + payload + check, |payload|;
            && raw[0] == head[0] && raw[1] == head[1] && raw[2] == length[0] && raw[3] == length[1]
            && raw[4..n + 4] == payload && raw[n + 4] == check[0] && raw[n + 5] == check[1]
            && raw[..n + 4] == head + length + payload
  {
  }

  lemma HalvesJoin(fcs: bv16)
    ensures (FcsOctets(fcs)[1] as bv16 << 8) | FcsOctets(fcs)[0] as bv16 == fcs
  {
  }

  /** Flag and escape become two octets, every other octet stays, and the flag is nowhere in what is stuffed. */
  lemma StuffedForms(b: Octet, left: seq<Octet>, right: seq<Octet>)
    ensures StuffOne(b) == if b == 0x7E then [0x7D, 0x5E] else if b == 0x7D then [0x7D, 0x5D] else [b]
    ensures Stuffed(left + [b] + right) == Stuffed(left) + StuffOne(b) + Stuffed(right)
    ensures 0x7E !in Stuffed(left)
  {
    hide Stuffed;
    StuffedConcat(left + [b], right);
    StuffedConcat(left, [b]);
    assert Stuffed([b]) == StuffOne(b) by { StuffedSingle(b); }
    NoFlagInside(left);
  }

  lemma StuffedSingle(b: Octet)
    ensures Stuffed([b]) == StuffOne(b)
  {
    assert [b][1..] == [];
  }

  lemma {:induction false} StuffedConcat(a: seq<Octet>, b: seq<Octet>)
    ensures Stuffed(a + b) == Stuffed(a) + Stuffed(b)
  {
    hide StuffOne;
    if a == [] {
      assert a + b == b;
    } else {
      assert (a + b)[1..] == a[1..] + b;
      StuffedConcat(a[1..], b);
    }
  }

  /** What a frame is refused for when it breaks off after any number of its octets: ending there, beginning anew, or an
      escape that nothing or the wrong octet follows. What does not begin with the flag is refused for that. */
  lemma EachRefusal(m: Message, k: nat, b: Octet, tail: seq<Octet>)
    requires |m.payload| <= 65535 && k < |Raw(m)|
    ensures var head := [0x7E] + Stuffed(Raw(m)[..k]);
            && Deframed(head) == Err(ShortFrame)
            && Deframed(head + [0x7E] + tail) == Err(FlagInside)
            && Deframed(head + [0x7D]) == Err(DanglingEscape)
            && (b != 0x5E && b != 0x5D ==> Deframed(head + [0x7D, b] + tail) == Err(InvalidEscape))
    ensures Deframed([]) == Err(NoBeginFlag)
    ensures b != 0x7E ==> Deframed([b] + tail) == Err(NoBeginFlag)
  {
    hide Stuffed, Raw, Collect, Fcs;
    var raw := Raw(m)[..k];
    BrokenOff(m, k, []);
    BrokenOff(m, k, [0x7E] + tail);
    BrokenOff(m, k, [0x7D]);
    BrokenOff(m, k, [0x7D, b] + tail);
    RawIsWanted(m);
    CollectRefuses(raw, b, tail);
    var head := [0x7E] + Stuffed(raw);
    assert head + [] == head;
    assert head + ([0x7E] + tail) == head + [0x7E] + tail;
    assert head + ([0x7D, b] + tail) == head + [0x7D, b] + tail;
  }

  /** Deframing goes on with what stands where the frame broke off. */
  lemma BrokenOff(m: Message, k: nat, rest: seq<Octet>)
    requires |m.payload| <= 65535 && k < |Raw(m)|
    ensures var frame := [0x7E] + Stuffed(Raw(m)[..k]) + rest;
            && frame[0] == 0x7E && Collect(frame[1..], []) == Collect(rest, Raw(m)[..k])
  {
    hide Stuffed, Raw, Collect, Total;
    var data := Raw(m)[..k];
    RawIsWanted(m);
    forall j | 0 <= j < |data| ensures 0 + j < Total([] + data[..j]) {
      assert [] + data[..j] == Raw(m)[..j];
    }
    CollectStuffed(data, rest, []);
    assert ([0x7E] + Stuffed(data) + rest)[1..] == Stuffed(data) + rest;
    assert [] + data == data;
  }

  lemma CollectRefuses(raw: seq<Octet>, b: Octet, tail: seq<Octet>)
    requires |raw| < Total(raw)
    ensures Collect([], raw) == Err(ShortFrame) && Collect([0x7E] + tail, raw) == Err(FlagInside)
    ensures Collect([0x7D], raw) == Err(DanglingEscape)
    ensures b != 0x5E && b != 0x5D ==> Collect([0x7D, b] + tail, raw) == Err(InvalidEscape)
  {
    hide Total;
    Unstuffed(b);
  }

  lemma Unstuffed(b: Octet)
    ensures (b ^ 0x20 == 0x7E <==> b == 0x5E) && (b ^ 0x20 == 0x7D <==> b == 0x5D)
  {
  }
}
