/** Binary128 read from decimal text and printed as its exact decimal expansion. */
module Binary128Text {
  import opened Common
  import opened Powers
  import opened DecimalText
  import opened Binary128
  import opened Binary128Nearest

  // ---- reading ----

  /** What a text spells: a pattern by name, or a sign and significand * 10^exponent. */
  datatype Spelling =
    | Named(bits: nat)
    | Number(negative: bool, significand: nat, exponent: int)

  function QuietBit(): nat { Pow2(FRACTION_BITS - 1) }

  function NamedPattern(lowered: string): Option<nat> {
    if lowered in {"inf", "+inf", "infinity", "+infinity"} then Some(Infinity())
    else if lowered in {"-inf", "-infinity"} then Some(Infinity() + SignMask())
    else if lowered in {"nan", "+nan"} then Some(Infinity() + QuietBit())
    else if lowered == "-nan" then Some(Infinity() + QuietBit() + SignMask())
    else None
  }

  /** None is the refusal of a malformed decimal. */
  function ReadDecimal(text: string): Option<Spelling> {
    var stripped := TrimSpace(text);
    var named := NamedPattern(ToLower(stripped));
    if named.Some? then Some(Named(named.value))
    else
      var signed := stripped != [] && (stripped[0] == '+' || stripped[0] == '-');
      var negative := signed && stripped[0] == '-';
      ReadUnsigned(negative, if signed then stripped[1..] else stripped)
  }

  /** Splits off the exponent. */
  function ReadUnsigned(negative: bool, body: string): Option<Spelling> {
    var split := IndexAny(body, {'e', 'E'});
    var parsed := if split < |body| then Atoi(body[split + 1..]) else Some(0);
    if parsed.None? then None else ReadMantissa(negative, body[..split], parsed.value)
  }

  /** Splits at the point. */
  function ReadMantissa(negative: bool, mantissa: string, exponent: int): Option<Spelling> {
    var point := IndexAny(mantissa, {'.'});
    var fraction := if point < |mantissa| then mantissa[point + 1..] else "";
    var digits := mantissa[..point] + fraction;
    if digits == [] || !AllDigits(digits) then None
    else Some(Number(negative, DigitsValue(digits), exponent - |fraction|))
  }

  function Numerator(significand: nat, exponent: int): nat {
    if exponent >= 0 then significand * Pow(10, exponent) else significand
  }

  function Denominator(exponent: int): (d: nat)
    ensures d > 0
  {
    if exponent >= 0 then 1 else PowPositive(10, -exponent); Pow(10, -exponent)
  }

  function PatternOfSpelling(s: Spelling): nat {
    match s
    case Named(bits) => bits
    case Number(negative, significand, exponent) =>
      if significand == 0 then Sign(negative)
      else FromFraction(negative, Numerator(significand, exponent), Denominator(exponent))
  }

  function FromDecimal(text: string): Option<nat> {
    var s := ReadDecimal(text);
    if s.None? then None else Some(PatternOfSpelling(s.value))
  }

  // ---- printing ----

  function Render(negative: bool, digits: string, point: int): string
    requires |digits| > 0
  {
    var sign := if negative then "-" else "";
    if 0 < point <= 34 then
      if |digits| <= point then sign + digits + Zeros(point - |digits|) + ".0"
      else sign + digits[..point] + "." + digits[point..]
    else if -6 < point <= 0 then sign + "0." + Zeros(-point) + digits
    else
      var mantissa := digits[..1] + "." + (if |digits| > 1 then digits[1..] else "0");
      var exponent := point - 1;
      if exponent >= 0 then sign + mantissa + "e+" + ToText(exponent)
      else sign + mantissa + "e-" + ToText(-exponent)
  }

  /** significand * 2^exponent is expansion * 10^-scale. */
  function Expansion(significand: nat, exponent: int): nat {
    if exponent >= 0 then significand * Pow2(exponent) else significand * Pow(5, -exponent)
  }

  function Scale(exponent: int): nat {
    if exponent >= 0 then 0 else -exponent
  }

  function ToExactDecimal(bits: nat): string {
    var negative := bits >= SignMask();
    var magnitude := if negative then bits - SignMask() else bits;
    var biased := ExponentField(magnitude);
    var fraction := Fraction(magnitude);
    if biased == EXPONENT_MAX then
      if fraction != 0 then "nan" else if negative then "-inf" else "inf"
    else
      var significand := if biased == 0 then fraction else fraction + Pow2(FRACTION_BITS);
      var exponent := (if biased == 0 then 1 else biased) - EXPONENT_BIAS - FRACTION_BITS;
      if significand == 0 then (if negative then "-0.0" else "0.0")
      else
        var all := ToText(Expansion(significand, exponent));
        var trimmed := TrimRightZeros(all);
        var digits := if trimmed == [] then "0" else trimmed;
        Render(negative, digits, |all| - Scale(exponent))
  }

  function Fraction(b: nat): nat {
    b % Pow2(112)
  }

  // ---- reading what is spelled with a point ----

  lemma NamesHaveNoPoint(lowered: string, i: nat)
    requires i < |lowered| && lowered[i] == '.'
    ensures NamedPattern(lowered) == None
  {
    assert '.' in lowered;
    assert '.' !in "inf" && '.' !in "+inf" && '.' !in "infinity" && '.' !in "+infinity";
    assert '.' !in "-inf" && '.' !in "-infinity" && '.' !in "nan" && '.' !in "+nan" && '.' !in "-nan";
  }

  lemma TrimNothing(s: string)
    requires |s| > 0 && !IsSpace(s[0]) && !IsSpace(s[|s| - 1])
    ensures TrimSpace(s) == s
  {
  }

  /** The exponent part of a spelling. */
  predicate Tail(tail: string, e: int) {
    || (tail == "" && e == 0)
    || (|tail| > 1 && tail[0] == 'e' && !IsSpace(tail[|tail| - 1]) && Atoi(tail[1..]) == Some(e))
  }

  function SignText(negative: bool): string {
    if negative then "-" else ""
  }

  lemma ReadSpelled(negative: bool, whole: string, fraction: string, tail: string, e: int)
    requires |whole| > 0 && |fraction| > 0 && AllDigits(whole) && AllDigits(fraction) && Tail(tail, e)
    ensures ReadDecimal(SignText(negative) + (whole + "." + fraction + tail)) ==
            Some(Number(negative, DigitsValue(whole + fraction), e - |fraction|))
  {
    hide ReadUnsigned, NamedPattern, TrimSpace, ToLower;
    var body := whole + "." + fraction + tail;
    var text := SignText(negative) + body;
    SpelledIsPlain(negative, whole, fraction, tail, e);
    assert negative ==> text[1..] == body;
    assert !negative ==> text == body;
    ReadTail(negative, whole + "." + fraction, tail, e);
    ReadPoint(negative, whole, fraction, e);
  }

  lemma ReadTail(negative: bool, mantissa: string, tail: string, e: int)
    requires forall k :: 0 <= k < |mantissa| ==> IsDigit(mantissa[k]) || mantissa[k] == '.'
    requires Tail(tail, e)
    ensures ReadUnsigned(negative, mantissa + tail) == ReadMantissa(negative, mantissa, e)
  {
    hide ReadMantissa, Atoi;
    var body := mantissa + tail;
    SplitAtExponent(mantissa, tail);
    assert body[..|mantissa|] == mantissa;
    if tail != "" {
      assert body[|mantissa| + 1..] == tail[1..];
    }
  }

  lemma ReadPoint(negative: bool, whole: string, fraction: string, e: int)
    requires |whole| > 0 && |fraction| > 0 && AllDigits(whole) && AllDigits(fraction)
    ensures ReadMantissa(negative, whole + "." + fraction, e) ==
            Some(Number(negative, DigitsValue(whole + fraction), e - |fraction|))
  {
    hide DigitsValue;
    var mantissa := whole + "." + fraction;
    IndexAnyIs(mantissa, {'.'}, |whole|);
    assert mantissa[..|whole|] == whole && mantissa[|whole| + 1..] == fraction;
  }

  /** It is trimmed of nothing, is no name, and starts with its sign or a digit. */
  lemma SpelledIsPlain(negative: bool, whole: string, fraction: string, tail: string, e: int)
    requires |whole| > 0 && |fraction| > 0 && AllDigits(whole) && AllDigits(fraction) && Tail(tail, e)
    ensures var text := SignText(negative) + (whole + "." + fraction + tail);
            && TrimSpace(text) == text && NamedPattern(ToLower(text)) == None
            && (negative ==> text[0] == '-') && (!negative ==> IsDigit(text[0]))
  {
    var body := whole + "." + fraction + tail;
    var text := SignText(negative) + body;
    assert body[0] == whole[0];
    assert text[|text| - 1] == body[|body| - 1];
    assert body[|body| - 1] == if tail == "" then fraction[|fraction| - 1] else tail[|tail| - 1];
    TrimNothing(text);
    var i := |SignText(negative)| + |whole|;
    assert text[i] == body[|whole|] == '.';
    NamesHaveNoPoint(ToLower(text), i);
  }

  lemma SplitAtExponent(mantissa: string, tail: string)
    requires forall k :: 0 <= k < |mantissa| ==> IsDigit(mantissa[k]) || mantissa[k] == '.'
    requires tail != "" ==> tail[0] == 'e'
    ensures IndexAny(mantissa + tail, {'e', 'E'}) == |mantissa|
  {
    var s := mantissa + tail;
    assert forall k :: 0 <= k < |mantissa| ==> s[k] == mantissa[k];
    IndexAnyIs(s, {'e', 'E'}, |mantissa|);
  }

  lemma ExponentTail(e: int)
    requires -INT_LIMIT <= e < INT_LIMIT
    ensures e >= 0 ==> Tail("e+" + ToText(e), e)
    ensures e < 0 ==> Tail("e-" + ToText(-e), e)
  {
    var n := if e >= 0 then e else -e;
    ValueOfText(n);
    var sign := if e >= 0 then "+" else "-";
    var tail := "e" + sign + ToText(n);
    assert tail[1..] == sign + ToText(n);
    assert tail[1..][1..] == ToText(n);
    assert tail[|tail| - 1] == ToText(n)[|ToText(n)| - 1];
    assert "e" + "+" == "e+" && "e" + "-" == "e-";
  }
}
