/** Reading a fixed inverts writing it, up to the spelling of the number. */
module FixedRoundTrip {
  import opened Common
  import opened Powers
  import opened DecimalText
  import opened FixedText
  import opened FixedDecimal
  import XcdrOctets

  function OctetsOf(text: string, digits: nat, scale: nat, count: DigitCount): Octets
    requires Accepted(text, digits, scale, count)
  {
    Packed(FieldNibbles(ScaledValue(text, scale), WireDigits(text, digits, scale, count)))
  }

  /** The field is the value's, whether the zero nibble in front of it was dropped or kept. */
  predicate Holds(f: Field, value: int, end: nat) {
    AllDecimal(f.nibbles) && FieldValue(f) == value && f.end == end
  }

  lemma DigitsAfterLead(value: int, wire: nat, skipFirst: bool)
    requires Abs(value) < Pow(10, wire) && wire > 0 && (skipFirst ==> wire % 2 == 0)
    ensures var r := FieldNibbles(value, wire);
            Holds(FieldOf(Packed(r), skipFirst, 0), value, 0)
  {
    hide DigitsOf, DigitsValue, Pow, NibblesOf, TextOf, Packed, Unpacked, AllDigits, AllDecimal;
    var r, s := FieldNibbles(value, wire), DigitsOf(Abs(value), wire);
    UnpackPacked(r);
    TextOfNibbles(s);
    ValueOfDigits(Abs(value), wire);
    var f := FieldOf(Packed(r), skipFirst, 0);
    if wire % 2 == 0 && !skipFirst {
      assert f.nibbles == [0] + NibblesOf(s);
      LeadZero(s);
    } else {
      assert f.nibbles == NibblesOf(s);
    }
  }

  lemma LeadZero(s: string)
    requires AllDigits(s)
    ensures var r := [0] + NibblesOf(s); AllDecimal(r) && DigitsValue(TextOf(r)) == DigitsValue(s)
  {
    hide DigitsValue;
    var r := [0] + NibblesOf(s);
    TextOfNibbles(s);
    TextOfNibbles("0" + s);
    assert NibblesOf("0" + s) == r;
    assert ("0" + s)[1..] == s;
    DropZero("0" + s);
  }

  lemma {:induction false} SignOctetIs(data: Octets, at: nat, limit: nat, k: nat)
    requires at + k < |data| && k < limit && data[at + k] % 16 >= 0x0A
    requires forall i :: at <= i < at + k ==> data[i] % 16 < 0x0A
    ensures SignOctet(data, at, limit) == Some(at + k)
    decreases k
  {
    if k > 0 { SignOctetIs(data, at + 1, limit - 1, k - 1); }
  }

  /** In a field only the last octet has a low nibble that is no digit. */
  lemma OnlyLastIsSign(value: int, wire: nat, i: nat)
    requires i < |Packed(FieldNibbles(value, wire))|
    ensures var octets := Packed(FieldNibbles(value, wire)); octets[i] % 16 >= 0x0A <==> i == |octets| - 1
  {
    hide DigitsOf, Packed;
    var r := FieldNibbles(value, wire);
    PackedAt(r, i);
    assert r[|r| - 1] >= 0x0C;
    assert 2 * i + 1 < |r| - 1 ==> r[2 * i + 1] <= 9;
  }

  /** A packed value is found as its field, in whatever data it stands. */
  lemma PackedFieldBack(value: int, wire: nat, digits: nat, count: DigitCount, data: Octets, at: nat)
    requires Abs(value) < Pow(10, wire) && 0 < wire <= 31 && (count == Declared ==> wire == digits)
    requires XcdrOctets.At(data, at, Packed(FieldNibbles(value, wire)))
    ensures var f := FieldAt(data, at, digits, count);
            f.Some? && Holds(f.value, value, at + |Packed(FieldNibbles(value, wire))|)
  {
    hide FieldNibbles, Packed, Unpacked, Pow, SignOctet, DigitsValue, TextOf, AllDecimal;
    var octets := Packed(FieldNibbles(value, wire));
    assert data[at..at + |octets|] == octets;
    if count == Declared {
      DigitsAfterLead(value, wire, wire % 2 == 0);
    } else {
      SignIsLast(value, wire, data, at);
      DigitsAfterLead(value, wire, false);
    }
  }

  lemma SignIsLast(value: int, wire: nat, data: Octets, at: nat)
    requires 0 < wire <= 31 && XcdrOctets.At(data, at, Packed(FieldNibbles(value, wire)))
    ensures SignOctet(data, at, 16) == Some(at + |Packed(FieldNibbles(value, wire))| - 1)
  {
    hide FieldNibbles, Packed, SignOctet;
    var octets := Packed(FieldNibbles(value, wire));
    forall i | at <= i < at + |octets| - 1 ensures data[i] % 16 < 0x0A {
      OnlyLastIsSign(value, wire, i - at);
      assert data[at..at + |octets|][i - at] == data[i];
    }
    OnlyLastIsSign(value, wire, |octets| - 1);
    assert data[at..at + |octets|][|octets| - 1] == data[at + |octets| - 1];
    SignOctetIs(data, at, 16, |octets| - 1);
  }

  /** What was written for a text is found as its field. */
  lemma FieldBack(text: string, digits: nat, scale: nat, count: DigitCount, data: Octets, at: nat)
    requires Accepted(text, digits, scale, count) && XcdrOctets.At(data, at, OctetsOf(text, digits, scale, count))
    ensures var f := FieldAt(data, at, digits, count);
            f.Some? && Holds(f.value, ScaledValue(text, scale), at + |OctetsOf(text, digits, scale, count)|)
  {
    hide ScaledValue, FieldNibbles, Packed, FieldAt, Holds, Pow, XcdrOctets.At;
    WireHoldsValue(text, digits, scale, count);
    PackedFieldBack(ScaledValue(text, scale), WireDigits(text, digits, scale, count), digits, count, data, at);
  }

  /** Writing and reading back gives the canonical spelling of the same value, under every count. */
  method WriteThenRead(text: string, digits: nat, scale: nat, count: DigitCount, rest: Octets)
    returns (r: Option<string>)
    ensures r.Some? <==> Accepted(text, digits, scale, count)
    ensures r.Some? ==> r.value == Canonical(ScaledValue(text, scale), scale)
  {
    hide ScaledValue, FieldNibbles, Packed, Canonical, FieldAt, FieldValue;
    var octets := WriteFixed(text, digits, scale, count);
    if octets.None? {
      return None;
    }
    var data := octets.value + rest;
    assert XcdrOctets.At(data, 0, octets.value) by { assert data[0..|octets.value|] == octets.value; }
    FieldBack(text, digits, scale, count, data, 0);
    var end;
    r, end := ReadFixed(data, 0, digits, scale, count);
    assert end == |octets.value|;
  }

  /** Under the declared count two texts have the same octets exactly if they are equal in value. */
  lemma DeclaredOctetsAreTheValue(text: string, text': string, digits: nat, scale: nat)
    requires Accepted(text, digits, scale, Declared) && Accepted(text', digits, scale, Declared)
    ensures OctetsOf(text, digits, scale, Declared) == OctetsOf(text', digits, scale, Declared) <==>
            ScaledValue(text, scale) == ScaledValue(text', scale)
  {
    hide ScaledValue, FieldNibbles, Packed, FieldAt, FieldValue;
    var a, b := OctetsOf(text, digits, scale, Declared), OctetsOf(text', digits, scale, Declared);
    if a == b {
      assert XcdrOctets.At(a, 0, a) by { assert a[0..|a|] == a; }
      FieldBack(text, digits, scale, Declared, a, 0);
      FieldBack(text', digits, scale, Declared, a, 0);
    }
  }

  // ---- the canonical spelling is a text of its own value ----

  lemma CanonicalParts(whole: string, fraction: string, negative: bool, text: string)
    requires AllDigits(whole) && whole != "" && AllDigits(fraction)
    requires text == (if negative then "-" else "") + (whole + (if |fraction| > 0 then "." + fraction else ""))
    ensures Whole(text) == whole && Fraction(text) == fraction
    ensures Signed(text) && text[0] == '-' <==> negative
  {
    hide IndexAny;
    var m := whole + (if |fraction| > 0 then "." + fraction else "");
    assert m[0] == whole[0];
    assert negative ==> text[1..] == m;
    assert Magnitude(text) == m;
    if |fraction| > 0 { assert m[|whole|] == '.'; }
    IndexAnyIs(m, {'.'}, |whole|);
    assert m[..|whole|] == whole;
  }

  /** The canonical spelling of a value that fits is accepted, and has that value. */
  lemma CanonicalMeansItsValue(value: int, digits: nat, scale: nat)
    requires 0 < digits <= 31 && scale <= digits && Abs(value) < Pow(10, digits)
    ensures var text := Canonical(value, scale);
            Accepted(text, digits, scale, Declared) && ScaledValue(text, scale) == value
  {
    hide DigitsValue, Pow, ToText, DigitsOf, Whole, Fraction, AllDigits, Run, Integral, Remaining;
    var n := Abs(value);
    var whole, fraction := ToText(Integral(n, scale)), DigitsOf(Remaining(n, scale), scale);
    var text := Canonical(value, scale);
    var behind := if scale > 0 then "." + fraction else "";
    assert (if value < 0 then "-" else "") + whole + behind == (if value < 0 then "-" else "") + (whole + behind);
    CanonicalParts(whole, fraction, value < 0, text);
    NoTrailing(text, scale);
    PartsValue(n, scale);
    IntegralBelow(n, digits - scale, scale);
  }

  lemma PartsValue(n: nat, scale: nat)
    ensures var whole, fraction := ToText(Integral(n, scale)), DigitsOf(Remaining(n, scale), scale);
            DigitsValue(whole) == Integral(n, scale) && DigitsValue(whole + fraction) == n
  {
    hide DigitsValue, ToText, DigitsOf, Pow, Integral, Remaining;
    var whole, fraction := ToText(Integral(n, scale)), DigitsOf(Remaining(n, scale), scale);
    IntegralAndRemaining(n, scale);
    ValueOfText(Integral(n, scale));
    ValueOfDigits(Remaining(n, scale), scale);
    DigitsValueConcat(whole, fraction);
  }

  lemma NoTrailing(text: string, scale: nat)
    requires IsDecimal(text) && |Fraction(text)| == scale
    ensures Run(text, scale) == Whole(text) + Fraction(text)
  {
    assert Zeros(0) == "";
  }
}
