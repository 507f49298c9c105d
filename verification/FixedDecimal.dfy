/** The IDL fixed type as packed BCD: what the writer makes of a decimal text, and what the reader gives back. */
module FixedDecimal {
  import opened Common
  import opened Powers
  import opened DecimalText
  import opened FixedText

  /** How many digits go on the wire. */
  datatype DigitCount = Declared | ValuePrecision | ValueStringDigits

  // ---- what a decimal text says ----

  predicate Signed(text: string) {
    text != [] && (text[0] == '-' || text[0] == '+')
  }

  function Magnitude(text: string): string {
    if Signed(text) then text[1..] else text
  }

  function Whole(text: string): string {
    var m := Magnitude(text);
    m[..IndexAny(m, {'.'})]
  }

  function Fraction(text: string): string {
    var m := Magnitude(text);
    var i := IndexAny(m, {'.'});
    if i < |m| then m[i + 1..] else ""
  }

  predicate IsDecimal(text: string) {
    (Whole(text) != "" || Fraction(text) != "") && AllDigits(Whole(text)) && AllDigits(Fraction(text))
  }

  /** The text's digits as one run with `scale` of them behind the point. */
  function Run(text: string, scale: nat): (s: string)
    requires IsDecimal(text) && |Fraction(text)| <= scale
    ensures AllDigits(s)
  {
    Whole(text) + Fraction(text) + Zeros(scale - |Fraction(text)|)
  }

  /** The text's value in units of 10^-scale. */
  function ScaledValue(text: string, scale: nat): int
    requires IsDecimal(text) && |Fraction(text)| <= scale
  {
    var n: int := DigitsValue(Run(text, scale));
    if Signed(text) && text[0] == '-' then -n else n
  }

  /** ACE/TAO's count: leading zeros of the text included, and one more where that is needed to make it odd. */
  function StringDigits(text: string, scale: nat): nat {
    var asWritten := |Whole(text)| + scale;
    asWritten + 1 - asWritten % 2
  }

  /** Which texts fit a fixed<digits, scale>. */
  predicate Accepted(text: string, digits: nat, scale: nat, count: DigitCount) {
    && 0 < digits <= 31 && scale <= digits
    && IsDecimal(text) && |Fraction(text)| <= scale && DigitsValue(Whole(text)) < Pow(10, digits - scale)
    && (count == ValueStringDigits ==> StringDigits(text, scale) <= 31)
  }

  function Abs(v: int): nat { if v < 0 then -v else v }

  function WireDigits(text: string, digits: nat, scale: nat, count: DigitCount): nat
    requires IsDecimal(text) && |Fraction(text)| <= scale
  {
    match count
    case Declared => digits
    case ValuePrecision => |ToText(Abs(ScaledValue(text, scale)))|
    case ValueStringDigits => StringDigits(text, scale)
  }

  /** The nibbles of a value of `wire` digits: a zero in front if needed, and a sign behind. */
  function FieldNibbles(value: int, wire: nat): (r: seq<Nibble>)
    ensures |r| % 2 == 0 && |r| == wire + 1 + (if wire % 2 == 0 then 1 else 0)
  {
    (if wire % 2 == 0 then [0] else []) + NibblesOf(DigitsOf(Abs(value), wire)) + [if value < 0 then 0x0D else 0x0C]
  }

  /** No count drops a significant digit. */
  lemma WireHoldsValue(text: string, digits: nat, scale: nat, count: DigitCount)
    requires Accepted(text, digits, scale, count)
    ensures Abs(ScaledValue(text, scale)) < Pow(10, WireDigits(text, digits, scale, count))
    ensures 0 < WireDigits(text, digits, scale, count) <= 31
  {
    hide AllDigits, DigitsValue, IndexAny, Pow;
    var n := DigitsValue(Run(text, scale));
    FitsDeclared(text, digits, scale);
    PlainSpelling(n);
    match count {
      case Declared =>
      case ValuePrecision => TextLength(n, digits);
      case ValueStringDigits =>
        ValueBelow(Run(text, scale));
        PowMono(10, |Run(text, scale)|, StringDigits(text, scale));
    }
  }

  lemma FitsDeclared(text: string, digits: nat, scale: nat)
    requires IsDecimal(text) && |Fraction(text)| <= scale <= digits
    requires DigitsValue(Whole(text)) < Pow(10, digits - scale)
    ensures DigitsValue(Run(text, scale)) < Pow(10, digits)
  {
    hide DigitsValue, IndexAny, Pow;
    var low := Fraction(text) + Zeros(scale - |Fraction(text)|);
    assert Run(text, scale) == Whole(text) + low;
    DigitsValueConcat(Whole(text), low);
    ValueBelow(low);
    PowAdd(10, digits - scale, scale);
    Room(DigitsValue(Whole(text)), Pow(10, digits - scale), DigitsValue(low), Pow(10, scale));
  }

  lemma Room(a: nat, p: nat, b: nat, q: nat)
    requires a < p && b < q
    ensures a * q + b < p * q
  {
    MulMono(a + 1, p, q);
    MulAdd(a, 1, q);
  }

  // ---- the writer ----

  method OnlyDigits(s: string) returns (ok: bool)
    ensures ok <==> AllDigits(s)
  {
    for i := 0 to |s|
      invariant forall k :: 0 <= k < i ==> IsDigit(s[k])
    {
      if s[i] < '0' || s[i] > '9' {
        return false;
      }
    }
    ok := true;
  }

  method Split(text: string) returns (negative: bool, whole: string, fraction: string)
    ensures whole == Whole(text) && fraction == Fraction(text)
    ensures negative <==> Signed(text) && text[0] == '-'
  {
    negative := false;
    var magnitude := text;
    if |magnitude| > 0 && (magnitude[0] == '-' || magnitude[0] == '+') {
      negative := magnitude[0] == '-';
      magnitude := magnitude[1..];
    }
    whole, fraction := magnitude, "";
    for i := 0 to |magnitude|
      invariant forall k :: 0 <= k < i ==> magnitude[k] != '.'
      invariant whole == magnitude && fraction == ""
    {
      if magnitude[i] == '.' {
        IndexAnyIs(magnitude, {'.'}, i);
        whole, fraction := magnitude[..i], magnitude[i + 1..];
        return;
      }
    }
    IndexAnyIs(magnitude, {'.'}, |magnitude|);
    assert magnitude[..|magnitude|] == magnitude;
  }

  method WithoutLeadingZeros(s: string) returns (t: string)
    ensures t == StripZeros(s)
  {
    t := s;
    while |t| > 0 && t[0] == '0'
      invariant StripZeros(t) == StripZeros(s)
      decreases |t|
    {
      t := t[1..];
    }
  }

  /** Every digit of the field, `digits` of them, from the stripped integer part and the fraction. */
  method EveryDigit(whole: string, fraction: string, digits: nat, scale: nat) returns (every: seq<Nibble>)
    requires AllDigits(whole) && AllDigits(fraction) && |fraction| <= scale <= digits && |whole| <= digits - scale
    ensures every == NibblesOf(Zeros(digits - scale - |whole|) + whole + fraction + Zeros(scale - |fraction|))
  {
    every := [];
    every := AppendZeros(every, digits - scale - |whole|);
    every := AppendDigits(every, whole);
    every := AppendDigits(every, fraction);
    every := AppendZeros(every, scale - |fraction|);
    NibblesConcat(Zeros(digits - scale - |whole|), whole);
    NibblesConcat(Zeros(digits - scale - |whole|) + whole, fraction);
    NibblesConcat(Zeros(digits - scale - |whole|) + whole + fraction, Zeros(scale - |fraction|));
    assert [] + NibblesOf(Zeros(digits - scale - |whole|)) == NibblesOf(Zeros(digits - scale - |whole|));
  }

  lemma NibblesConcat(a: string, b: string)
    requires AllDigits(a) && AllDigits(b)
    ensures NibblesOf(a + b) == NibblesOf(a) + NibblesOf(b)
  {
  }

  method AppendZeros(r: seq<Nibble>, n: nat) returns (r': seq<Nibble>)
    ensures r' == r + NibblesOf(Zeros(n))
  {
    r' := r;
    assert NibblesOf(Zeros(0)) == [];
    for i := 0 to n
      invariant r' == r + NibblesOf(Zeros(i))
    {
      NibblesConcat(Zeros(i), "0");
      assert NibblesOf("0") == [0];
      r' := r' + [0];
    }
  }

  method AppendDigits(r: seq<Nibble>, s: string) returns (r': seq<Nibble>)
    requires AllDigits(s)
    ensures r' == r + NibblesOf(s)
  {
    r' := r;
    for i := 0 to |s|
      invariant r' == r + NibblesOf(s)[..i]
    {
      r' := r' + [s[i] as int - '0' as int];
    }
  }

  /** The digits of the field from the first that is not zero. */
  method SignificantDigits(every: seq<Nibble>) returns (significant: nat)
    requires AllDecimal(every)
    ensures var n := DigitsValue(TextOf(every)); significant == if n == 0 then 0 else |ToText(n)|
    ensures significant <= |every|
  {
    hide DigitsValue, ToText, StripZeros, Zeros;
    ghost var text := TextOf(every);
    for i := 0 to |every|
      invariant forall k :: 0 <= k < i ==> every[k] == 0
    {
      if every[i] != 0 {
        ZerosInFront(text, i);
        StripZerosOff(text[i..], i);
        StripKeeps(text);
        assert text[i] != '0';
        LeadingDigit(text[i..]);
        PowPositive(10, |text[i..]| - 1);
        StrippedIsPlain(text);
        return |every| - i;
      }
    }
    ZerosInFront(text, |every|);
    ValueOfZeros(|every|);
    assert Zeros(|every|) + text[|every|..] == Zeros(|every|);
    significant := 0;
  }

  lemma {:induction false} ZerosInFront(s: string, i: nat)
    requires i <= |s| && forall k :: 0 <= k < i ==> s[k] == '0'
    ensures s == Zeros(i) + s[i..]
  {
    if i > 0 {
      ZerosInFront(s, i - 1);
      assert s[i - 1..] == "0" + s[i..];
      assert Zeros(i - 1) + ("0" + s[i..]) == Zeros(i - 1) + "0" + s[i..];
    }
  }

  lemma {:induction false} StripZerosOff(t: string, k: nat)
    requires t != [] && t[0] != '0'
    ensures StripZeros(Zeros(k) + t) == t
  {
    hide AllDigits;
    if k == 0 {
      assert Zeros(0) + t == t;
    } else {
      ZeroInFront(k - 1);
      assert (Zeros(k) + t)[1..] == Zeros(k - 1) + t;
      StripZerosOff(t, k - 1);
    }
  }

  lemma EveryIs(text: string, digits: nat, scale: nat)
    requires IsDecimal(text) && |Fraction(text)| <= scale <= digits && |StripZeros(Whole(text))| <= digits - scale
    requires AllDigits(StripZeros(Whole(text)))
    ensures var stripped := StripZeros(Whole(text));
            Zeros(digits - scale - |stripped|) + stripped + Fraction(text) + Zeros(scale - |Fraction(text)|) ==
            DigitsOf(DigitsValue(Run(text, scale)), digits)
  {
    hide DigitsValue, IndexAny, StripZeros, Whole, Fraction, DigitsOf, Zeros;
    var whole, stripped := Whole(text), StripZeros(Whole(text));
    var low := Fraction(text) + Zeros(scale - |Fraction(text)|);
    StripKeeps(whole);
    assert Run(text, scale) == whole + low;
    DigitsValueConcat(whole, low);
    DigitsValueConcat(stripped, low);
    var every := Zeros(digits - scale - |stripped|) + (stripped + low);
    ZerosAround(stripped + low, digits - scale - |stripped|);
    DigitsOfValue(every);
    assert every == Zeros(digits - scale - |stripped|) + stripped + Fraction(text) + Zeros(scale - |Fraction(text)|);
  }

  lemma KeptIs(n: nat, digits: nat, wire: nat)
    requires n < Pow(10, digits) && n < Pow(10, wire)
    ensures var kept := if wire > digits then digits else wire;
            NibblesOf(Zeros(wire - kept)) + NibblesOf(DigitsOf(n, digits))[digits - kept..] ==
            NibblesOf(DigitsOf(n, wire))
  {
    hide DigitsOf, Zeros, DigitsValue, NibblesOf, AllDigits, Pow;
    var kept := if wire > digits then digits else wire;
    LastDigits(n, digits, kept);
    LeadingZeros(n, wire, kept);
    NibblesConcat(Zeros(wire - kept), DigitsOf(n, kept));
    NibblesSuffix(DigitsOf(n, digits), digits - kept);
  }

  lemma NibblesSuffix(s: string, k: nat)
    requires AllDigits(s) && k <= |s|
    ensures AllDigits(s[k..]) && NibblesOf(s)[k..] == NibblesOf(s[k..])
  {
  }

  /** The parts of a text that fits, its leading zeros gone. */
  method Parts(text: string, digits: nat, scale: nat)
    returns (ok: bool, negative: bool, whole: string, fraction: string, asWritten: nat)
    requires scale <= digits
    ensures ok <==> IsDecimal(text) && |Fraction(text)| <= scale && DigitsValue(Whole(text)) < Pow(10, digits - scale)
    ensures ok ==> whole == StripZeros(Whole(text)) && AllDigits(whole) && |whole| <= digits - scale
    ensures ok ==> fraction == Fraction(text) && asWritten == |Whole(text)| + scale
    ensures ok ==> (negative <==> Signed(text) && text[0] == '-')
  {
    hide AllDigits, DigitsValue, Pow, StripZeros, Whole, Fraction;
    asWritten := 0;
    negative, whole, fraction := Split(text);
    if whole == "" && fraction == "" {
      return false, negative, whole, fraction, 0;
    }
    var wholeOk := OnlyDigits(whole);
    var fractionOk := OnlyDigits(fraction);
    if !wholeOk || !fractionOk {
      return false, negative, whole, fraction, 0;
    }
    asWritten := |whole| + scale;
    StripKeeps(whole);
    whole := WithoutLeadingZeros(whole);
    FitsWidth(whole, digits - scale);
    ok := |whole| <= digits - scale && |fraction| <= scale;
  }

  method FixedNibbles(text: string, digits: nat, scale: nat, count: DigitCount) returns (r: Option<seq<Nibble>>)
    ensures r.Some? <==> Accepted(text, digits, scale, count)
    ensures r.Some? ==> r.value == FieldNibbles(ScaledValue(text, scale), WireDigits(text, digits, scale, count))
  {
    hide AllDigits, DigitsValue, Pow, StripZeros, Zeros, DigitsOf, Whole, Fraction, ToText;
    hide FieldNibbles, NibblesOf, TextOf, AllDecimal;
    if digits == 0 || digits > 31 || scale > digits {
      return None;
    }
    var ok, negative, whole, fraction, asWritten := Parts(text, digits, scale);
    if !ok {
      return None;
    }
    var every := EveryDigit(whole, fraction, digits, scale);
    ghost var n := DigitsValue(Run(text, scale));
    EveryIs(text, digits, scale);
    FitsDeclared(text, digits, scale);
    TextOfNibbles(DigitsOf(n, digits));
    ValueOfDigits(n, digits);
    var significant := SignificantDigits(every);
    var wire := |every|;
    if count == ValuePrecision {
      wire := if significant < 1 then 1 else significant;
      OneZero();
    } else if count == ValueStringDigits {
      wire := asWritten + 1 - asWritten % 2;
      if wire > 31 {
        return None;
      }
    }
    WireHoldsValue(text, digits, scale, count);
    var nibbles := Assembled(every, n, digits, wire, negative && significant != 0);
    r := Some(nibbles);
  }

  lemma OneZero()
    ensures |ToText(0)| == 1
  {
  }

  /** The digits that go on the wire, cut from the full run or filled up in front, and the sign. */
  method Assembled(every: seq<Nibble>, ghost n: nat, ghost digits: nat, wire: nat, negative: bool)
    returns (nibbles: seq<Nibble>)
    requires n < Pow(10, digits) && n < Pow(10, wire) && every == NibblesOf(DigitsOf(n, digits)) && (negative ==> n > 0)
    ensures nibbles == FieldNibbles(if negative then -(n as int) else n, wire)
  {
    hide DigitsOf, Zeros, Pow, AllDigits, NibblesOf, FieldNibbles;
    var lead: seq<Nibble> := [];
    if (wire + 1) % 2 == 1 {
      lead := lead + [0];
    }
    var kept := wire;
    if kept > |every| {
      kept := |every|;
    }
    var filled := AppendZeros(lead, wire - kept);
    KeptIs(n, digits, wire);
    nibbles := filled + every[|every| - kept..];
    Regrouped(lead, NibblesOf(Zeros(wire - kept)), every[|every| - kept..]);
    FieldIs(n, wire, negative, lead);
    nibbles := nibbles + [if negative then 0x0D else 0x0C];
  }

  lemma FieldIs(n: nat, wire: nat, negative: bool, lead: seq<Nibble>)
    requires negative ==> n > 0
    requires lead == if (wire + 1) % 2 == 1 then [0] else []
    ensures FieldNibbles(if negative then -(n as int) else n, wire) ==
            lead + NibblesOf(DigitsOf(n, wire)) + [if negative then 0x0D else 0x0C]
  {
    hide DigitsOf, AllDigits, NibblesOf;
  }

  lemma Regrouped(a: seq<Nibble>, b: seq<Nibble>, c: seq<Nibble>)
    ensures a + b + c == a + (b + c)
  {
  }

  lemma {:induction false} PackedAt(r: seq<Nibble>, i: nat)
    requires |r| % 2 == 0 && i < |r| / 2
    ensures Packed(r)[i] == 16 * (r[2 * i] as int) + r[2 * i + 1]
  {
    if i > 0 { PackedAt(r[2..], i - 1); }
  }

  /** The octets of a fixed, or a refusal: exactly the texts that fit are written, as the BCD of their value. */
  method WriteFixed(text: string, digits: nat, scale: nat, count: DigitCount) returns (r: Option<Octets>)
    ensures r.Some? <==> Accepted(text, digits, scale, count)
    ensures r.Some? ==>
              r.value == Packed(FieldNibbles(ScaledValue(text, scale), WireDigits(text, digits, scale, count)))
  {
    hide Accepted, ScaledValue, WireDigits, FieldNibbles, Packed;
    var nibbles := FixedNibbles(text, digits, scale, count);
    if nibbles.None? {
      return None;
    }
    var out := Pack(nibbles.value);
    r := Some(out);
  }

  method Pack(nibbles: seq<Nibble>) returns (out: Octets)
    requires |nibbles| % 2 == 0
    ensures out == Packed(nibbles)
  {
    hide Packed;
    out := [];
    var i := 0;
    while i < |nibbles|
      invariant 0 <= i <= |nibbles| && i % 2 == 0
      invariant out == Packed(nibbles)[..i / 2]
    {
      PackedAt(nibbles, i / 2);
      out := out + [16 * (nibbles[i] as int) + nibbles[i + 1]];
      i := i + 2;
    }
    assert out == Packed(nibbles);
  }

  // ---- the reader ----

  /** A field as it stands in the data: its digits, its sign, and where it ends. */
  datatype Field = Field(nibbles: seq<Nibble>, sign: Nibble, end: nat)

  /** The first octet from `at`, among `limit`, whose low nibble is no digit. */
  function SignOctet(data: Octets, at: nat, limit: nat): (r: Option<nat>)
    ensures r.Some? ==> at <= r.value < at + limit && r.value < |data|
    decreases limit
  {
    if limit == 0 || at >= |data| then None
    else if data[at] % 16 >= 0x0A then Some(at)
    else SignOctet(data, at + 1, limit - 1)
  }

  function FieldOf(raw: Octets, skipFirst: bool, end: nat): Field
    requires raw != []
  {
    var r := Unpacked(raw);
    Field(r[if skipFirst then 1 else 0..|r| - 1], r[|r| - 1], end)
  }

  function FieldAt(data: Octets, at: nat, digits: nat, count: DigitCount): Option<Field> {
    if count == Declared then
      var end := at + (digits + 2) / 2;
      if end > |data| then None else Some(FieldOf(data[at..end], (digits + 1) % 2 == 1, end))
    else
      match SignOctet(data, at, 16)
      case None => None
      case Some(last) => Some(FieldOf(data[at..last + 1], false, last + 1))
  }

  /** What a field says in units of 10^-scale. */
  function FieldValue(f: Field): int
    requires AllDecimal(f.nibbles)
  {
    var n: int := DigitsValue(TextOf(f.nibbles));
    if f.sign == 0x0D then -n else n
  }

  /** The canonical spelling of what the field says; a field with a nibble that is no digit is refused. */
  method ReadFixed(data: Octets, at: nat, digits: nat, scale: nat, count: DigitCount)
    returns (r: Option<string>, end: nat)
    ensures r.Some? <==>
              && 0 < digits <= 31 && scale <= digits
              && FieldAt(data, at, digits, count).Some? && AllDecimal(FieldAt(data, at, digits, count).value.nibbles)
    ensures r.Some? ==>
              var f := FieldAt(data, at, digits, count).value;
              r.value == Canonical(FieldValue(f), scale) && end == f.end
  {
    hide DigitsValue, Pow, Canonical, AllDecimal;
    end := at;
    if digits == 0 || digits > 31 || scale > digits {
      return None, end;
    }
    var found, nibbles, sign;
    found, nibbles, sign, end := TakeField(data, at, digits, count);
    if !found {
      return None, end;
    }
    var ok := OnlyDecimal(nibbles);
    if !ok {
      return None, end;
    }
    var text := Spelled(nibbles, sign == 0x0D, scale);
    r := Some(text);
  }

  method OnlyDecimal(nibbles: seq<Nibble>) returns (ok: bool)
    ensures ok <==> AllDecimal(nibbles)
  {
    for i := 0 to |nibbles|
      invariant forall k :: 0 <= k < i ==> nibbles[k] <= 9
    {
      if nibbles[i] > 9 {
        return false;
      }
    }
    ok := true;
  }

  method TakeField(data: Octets, at: nat, digits: nat, count: DigitCount)
    returns (found: bool, nibbles: seq<Nibble>, sign: Nibble, end: nat)
    ensures found <==> FieldAt(data, at, digits, count).Some?
    ensures found ==> FieldAt(data, at, digits, count).value == Field(nibbles, sign, end)
  {
    hide SignOctet, Unpacked;
    if count != Declared {
      found, nibbles, end := TakeToSign(data, at);
    } else {
      end := at + (digits + 2) / 2;
      found, nibbles := end <= |data|, [];
      if found {
        nibbles := NibblesOfOctets(data[at..end]);
      }
    }
    if !found {
      return false, [], 0, end;
    }
    sign := nibbles[|nibbles| - 1];
    nibbles := nibbles[..|nibbles| - 1];
    if count == Declared && (digits + 1) % 2 == 1 {
      nibbles := nibbles[1..];
    }
  }

  /** Stops behind the octet that `SignOctet` finds, or finds none among sixteen. */
  method TakeToSign(data: Octets, at: nat) returns (found: bool, nibbles: seq<Nibble>, end: nat)
    ensures found <==> SignOctet(data, at, 16).Some?
    ensures found ==> end == SignOctet(data, at, 16).value + 1 && nibbles == Unpacked(data[at..end])
  {
    hide Unpacked;
    nibbles, end := [], at;
    while true
      invariant at <= end && end - at <= 16 && (end > at ==> end <= |data|)
      invariant |nibbles| == 2 * (end - at)
      invariant end <= |data| ==> nibbles == Unpacked(data[at..end])
      invariant SignOctet(data, at, 16) == SignOctet(data, end, 16 - (end - at))
      decreases 16 - (end - at)
    {
      if |nibbles| >= 32 || end >= |data| {
        return false, [], end;
      }
      var b := data[end];
      UnpackedAppend(data[at..end], b);
      assert data[at..end] + [b] == data[at..end + 1];
      nibbles := nibbles + [b / 16, b % 16];
      end := end + 1;
      if b % 16 >= 0x0A {
        return true, nibbles, end;
      }
    }
  }

  method NibblesOfOctets(raw: Octets) returns (nibbles: seq<Nibble>)
    ensures nibbles == Unpacked(raw)
  {
    nibbles := [];
    for i := 0 to |raw|
      invariant nibbles == Unpacked(raw[..i])
    {
      UnpackedAppend(raw[..i], raw[i]);
      assert raw[..i] + [raw[i]] == raw[..i + 1];
      nibbles := nibbles + [raw[i] / 16, raw[i] % 16];
    }
    assert raw[..|raw|] == raw;
  }

  method Spelled(nibbles: seq<Nibble>, negative: bool, scale: nat) returns (out: string)
    requires AllDecimal(nibbles)
    ensures var n: int := DigitsValue(TextOf(nibbles)); out == Canonical(if negative then -n else n, scale)
  {
    hide AllDigits, DigitsValue, ToText, StripZeros, Canonical, Integral, Remaining;
    var text := PaddedText(nibbles, scale + 1);
    var split := |text| - scale;
    var whole, fraction := text[..split], text[split..];
    assert whole + fraction == text;
    PartsAreDigits(text, split);
    SplitValue(whole, fraction);
    whole := Trimmed(whole);
    out := whole;
    if scale > 0 {
      out := out + "." + fraction;
    }
    var zeros := OnlyZeros(fraction);
    ZeroIff(text[..split], fraction, whole);
    CanonicalIs(DigitsValue(text), negative, whole, fraction);
    if negative && !(whole == "0" && zeros) {
      out := "-" + out;
    }
  }

  lemma PartsAreDigits(text: string, split: nat)
    requires AllDigits(text) && split <= |text|
    ensures AllDigits(text[..split]) && AllDigits(text[split..])
  {
  }

  lemma CanonicalIs(n: nat, negative: bool, whole: string, fraction: string)
    requires AllDigits(fraction)
    requires whole == ToText(Integral(n, |fraction|)) && DigitsValue(fraction) == Remaining(n, |fraction|)
    ensures Canonical(if negative then -(n as int) else n, |fraction|) ==
            (if negative && n > 0 then "-" else "") + whole + (if |fraction| > 0 then "." + fraction else "")
  {
    hide DigitsValue, ToText, DigitsOf, Integral, Remaining, AllDigits;
    DigitsOfValue(fraction);
    var value := if negative then -(n as int) else n;
    assert value < 0 <==> negative && n > 0;
    assert (if value < 0 then -value else value) == n;
  }

  /** The nibbles as text, with zeros in front up to `width` digits. */
  method PaddedText(nibbles: seq<Nibble>, width: nat) returns (text: string)
    requires AllDecimal(nibbles)
    ensures |text| >= width && AllDigits(text) && DigitsValue(text) == DigitsValue(TextOf(nibbles))
  {
    text := "";
    for i := 0 to |nibbles|
      invariant text == TextOf(nibbles)[..i]
    {
      text := text + [('0' as int + nibbles[i] as int) as char];
    }
    assert text == TextOf(nibbles);
    while |text| < width
      invariant AllDigits(text) && DigitsValue(text) == DigitsValue(TextOf(nibbles))
    {
      ZerosAround(text, 1);
      assert Zeros(1) == Zeros(0) + "0" == "0";
      text := "0" + text;
    }
  }

  /** Leading zeros go, down to one digit. */
  method Trimmed(s: string) returns (t: string)
    requires s != "" && AllDigits(s)
    ensures t == ToText(DigitsValue(s))
  {
    hide DigitsValue, ToText;
    t := s;
    while |t| > 1 && t[0] == '0'
      invariant t != "" && AllDigits(t) && DigitsValue(t) == DigitsValue(s)
      decreases |t|
    {
      DropZero(t);
      t := t[1..];
    }
    IsPlain(t);
  }

  lemma DropZero(t: string)
    requires AllDigits(t) && t != "" && t[0] == '0'
    ensures AllDigits(t[1..]) && DigitsValue(t[1..]) == DigitsValue(t)
  {
    ZerosAround(t[1..], 1);
    assert Zeros(1) == Zeros(0) + "0" == "0";
    assert t == "0" + t[1..];
  }

  lemma IsPlain(t: string)
    requires AllDigits(t) && t != "" && (|t| == 1 || t[0] != '0')
    ensures t == ToText(DigitsValue(t))
  {
    if |t| == 1 {
      assert t[..0] == "";
      SameDigit(t[0], DigitChar(DigitsValue(t)));
    } else {
      LeadingDigit(t);
      PowPositive(10, |t| - 1);
      StrippedIsPlain(t);
    }
  }

  method OnlyZeros(s: string) returns (ok: bool)
    requires AllDigits(s)
    ensures ok <==> DigitsValue(s) == 0
  {
    ok := true;
    for i := 0 to |s|
      invariant ok <==> forall k :: 0 <= k < i ==> s[k] == '0'
    {
      if s[i] != '0' {
        ok := false;
      }
    }
    if ok {
      ZerosInFront(s, |s|);
      ValueOfZeros(|s|);
      assert Zeros(|s|) + s[|s|..] == Zeros(|s|);
    } else if DigitsValue(s) == 0 {
      DigitsOfValue(s);
      AllZeros(|s|);
      ZeroDigits(|s|);
      assert false;
    }
  }

  lemma {:induction false} ZeroDigits(k: nat)
    ensures forall i :: 0 <= i < k ==> Zeros(k)[i] == '0'
  {
    if k > 0 { ZeroDigits(k - 1); }
  }

  lemma ZeroIff(whole: string, fraction: string, trimmed: string)
    requires AllDigits(whole) && AllDigits(fraction) && trimmed == ToText(DigitsValue(whole))
    ensures DigitsValue(whole + fraction) == 0 <==> trimmed == "0" && DigitsValue(fraction) == 0
  {
    hide DigitsValue;
    DigitsValueConcat(whole, fraction);
    PowPositive(10, |fraction|);
    var w := DigitsValue(whole);
    if w > 0 {
      TextLeads(w);
      MulMono(1, w, Pow(10, |fraction|));
    } else {
      assert 0 * Pow(10, |fraction|) == 0;
      assert ToText(0) == [DigitChar(0)];
    }
  }
}
