/** A fixed nibble by nibble: how many digits go on the wire, and where each of them stands. */
module FixedLayout {
  import opened Powers
  import opened DecimalText
  import opened FixedText
  import opened FixedDecimal
  import opened FixedRoundTrip

  function TextWith(sign: string, whole: string, point: bool, fraction: string): string {
    sign + (whole + (if point then "." + fraction else ""))
  }

  /** The texts a fixed<digits, scale> takes: a sign, digits, a point and digits, each of them possibly missing but not
      all digits; and the value they have in units of 10^-scale. */
  lemma TextMeans(sign: string, whole: string, point: bool, fraction: string, digits: nat, scale: nat,
                  count: DigitCount)
    requires sign in {"", "+", "-"} && AllDigits(whole) && AllDigits(fraction) && (!point ==> fraction == "")
    ensures var text := TextWith(sign, whole, point, fraction);
            Accepted(text, digits, scale, count) <==>
              && whole + fraction != "" && 0 < digits <= 31 && scale <= digits
              && |fraction| <= scale && DigitsValue(whole) < Pow(10, digits - scale)
              && (count == ValueStringDigits ==> |whole| + scale <= 31)
    ensures var text := TextWith(sign, whole, point, fraction);
            Accepted(text, digits, scale, count) ==>
              var n := DigitsValue(whole) * Pow(10, scale) + DigitsValue(fraction) * Pow(10, scale - |fraction|);
              ScaledValue(text, scale) == if sign == "-" then -n else n
  {
    hide DigitsValue, IndexAny, Pow, Whole, Fraction;
    var text := TextWith(sign, whole, point, fraction);
    TextParts(sign, whole, point, fraction);
    if Accepted(text, digits, scale, count) {
      var k := scale - |fraction|;
      DigitsValueConcat(whole + fraction, Zeros(k));
      DigitsValueConcat(whole, fraction);
      ValueOfZeros(k);
      MulAdd(DigitsValue(whole) * Pow(10, |fraction|), DigitsValue(fraction), Pow(10, k));
      MulAssoc(DigitsValue(whole), Pow(10, |fraction|), Pow(10, k));
      PowAdd(10, |fraction|, k);
    }
  }

  lemma TextParts(sign: string, whole: string, point: bool, fraction: string)
    requires sign in {"", "+", "-"} && AllDigits(whole) && AllDigits(fraction) && (!point ==> fraction == "")
    ensures var text := TextWith(sign, whole, point, fraction);
            && Whole(text) == whole && Fraction(text) == fraction && (Signed(text) && text[0] == '-' <==> sign == "-")
  {
    hide IndexAny, AllDigits, Magnitude, Signed;
    var m := whole + (if point then "." + fraction else "");
    NoSignInside(whole, m);
    SignTakenOff(sign, m);
    PointFound(whole, point, fraction);
  }

  lemma NoSignInside(whole: string, m: string)
    requires AllDigits(whole) && |whole| <= |m| && m[..|whole|] == whole && (whole == "" && m != "" ==> m[0] == '.')
    ensures m != "" ==> m[0] != '+' && m[0] != '-'
  {
    if whole != "" { assert m[0] == m[..|whole|][0] == whole[0]; }
  }

  lemma SignTakenOff(sign: string, m: string)
    requires sign in {"", "+", "-"} && (m != "" ==> m[0] != '+' && m[0] != '-')
    ensures Magnitude(sign + m) == m && (Signed(sign + m) && (sign + m)[0] == '-' <==> sign == "-")
  {
    if sign == "" {
      assert sign + m == m;
    } else {
      assert (sign + m)[0] == sign[0] && (sign + m)[1..] == m;
    }
  }

  lemma PointFound(whole: string, point: bool, fraction: string)
    requires AllDigits(whole) && (!point ==> fraction == "")
    ensures var m := whole + (if point then "." + fraction else "");
            var i := IndexAny(m, {'.'});
            i == |whole| && m[..i] == whole && (i < |m| <==> point) && (point ==> m[i + 1..] == fraction)
  {
    hide IndexAny;
    var m := whole + (if point then "." + fraction else "");
    assert forall k :: 0 <= k < |whole| ==> m[k] == whole[k];
    if point { assert m[|whole|] == '.'; }
    IndexAnyIs(m, {'.'}, |whole|);
  }

  /** And there are no others. */
  lemma TextIsOfForm(text: string) returns (sign: string, point: bool)
    requires IsDecimal(text)
    ensures sign in {"", "+", "-"} && (!point ==> Fraction(text) == "")
    ensures text == TextWith(sign, Whole(text), point, Fraction(text))
  {
    hide AllDigits, IndexAny, Magnitude, Signed;
    sign := SignOf(text);
    point := PointOf(Magnitude(text));
  }

  lemma SignOf(text: string) returns (sign: string)
    ensures sign in {"", "+", "-"} && text == sign + Magnitude(text)
  {
    if Signed(text) {
      sign := [text[0]];
      assert sign == "+" || sign == "-";
    } else {
      sign := "";
    }
  }

  lemma PointOf(m: string) returns (point: bool)
    ensures var i := IndexAny(m, {'.'});
            && point == (i < |m|)
            && m == m[..i] + (if i < |m| then "." + m[i + 1..] else "")
  {
    hide IndexAny;
    var i := IndexAny(m, {'.'});
    point := i < |m|;
    if point {
      assert "." == [m[i]];
      assert m == m[..i] + ([m[i]] + m[i + 1..]);
    }
  }

  /** The digits on the wire: as many as declared; the fewest that hold the value, at least one; or the digits before
      the point as written and those of the scale, made odd by at most one more. */
  lemma WireWidth(text: string, digits: nat, scale: nat, count: DigitCount)
    requires Accepted(text, digits, scale, count)
    ensures var wire, value := WireDigits(text, digits, scale, count), Abs(ScaledValue(text, scale));
            match count
            case Declared => wire == digits
            case ValuePrecision => 1 <= wire && value < Pow(10, wire) && (wire > 1 ==> value >= Pow(10, wire - 1))
            case ValueStringDigits => wire % 2 == 1 && |Whole(text)| + scale <= wire <= |Whole(text)| + scale + 1
  {
    hide DigitsValue, IndexAny, Pow, ToText;
    var n := Abs(ScaledValue(text, scale));
    PlainSpelling(n);
    if n > 0 {
      TextLeads(n);
      ValueOfText(n);
      LeadingDigit(ToText(n));
    } else {
      OneZero();
    }
  }

  /** The digit of 10^k is the k-th before the sign, which is 0xD below zero and 0xC otherwise; what is left in front is
      one zero, and only if the count is even. */
  lemma NibbleAt(value: int, wire: nat, k: nat)
    requires k < wire
    ensures var r := FieldNibbles(value, wire);
            && |r| == (if wire % 2 == 0 then wire + 2 else wire + 1)
            && r[|r| - 1] == (if value < 0 then 0xD else 0xC)
            && r[|r| - 2 - k] == Abs(value) / Power(k) % 10
            && (wire % 2 == 0 ==> r[0] == 0)
  {
    hide DigitsOf, Pow;
    var s := DigitsOf(Abs(value), wire);
    DigitAt(Abs(value), wire, k);
    var lead: seq<Nibble> := if wire % 2 == 0 then [0] else [];
    var r := FieldNibbles(value, wire);
    assert r == lead + NibblesOf(s) + [if value < 0 then 0x0D else 0x0C];
    assert r[|lead| + (wire - 1 - k)] == NibblesOf(s)[wire - 1 - k];
  }

  /** 10^k. */
  function Power(k: nat): (p: nat)
    ensures p > 0
  {
    PowPositive(10, k);
    Pow(10, k)
  }

  lemma {:induction false} DigitAt(n: nat, width: nat, k: nat)
    requires k < width
    ensures DigitValue(DigitsOf(n, width)[width - 1 - k]) == n / Power(k) % 10
    decreases k
  {
    if k == 0 {
      assert Power(0) == 1;
    } else {
      DigitAt(n / 10, width - 1, k - 1);
      DivTwice(n, 10, Power(k - 1));
    }
  }

  /** In the octets, the first nibble of a pair is the high one. */
  lemma OctetAt(text: string, digits: nat, scale: nat, count: DigitCount, i: nat)
    requires Accepted(text, digits, scale, count) && i < |OctetsOf(text, digits, scale, count)|
    ensures var r := FieldNibbles(ScaledValue(text, scale), WireDigits(text, digits, scale, count));
            && |r| == 2 * |OctetsOf(text, digits, scale, count)|
            && OctetsOf(text, digits, scale, count)[i] == 0x10 * (r[2 * i] as int) + r[2 * i + 1]
  {
    PackedAt(FieldNibbles(ScaledValue(text, scale), WireDigits(text, digits, scale, count)), i);
  }
}
