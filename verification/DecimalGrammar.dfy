/**
 The decimal texts binary128 reads, told as a grammar: space, a sign, digits with at
 most one point among them, an exponent, space. The reader accepts these and the
 names of infinity and NaN, and nothing else.
 */
module DecimalGrammar {
  import opened Common
  import opened DecimalText
  import opened Binary128Text

  /** A signed run of digits behind `e` or `E`. */
  datatype Exponent = Exponent(mark: char, sign: string, digits: string)

  datatype Decimal = Decimal(
    before: string,
    sign: string,
    whole: string,
    point: bool,
    fraction: string,
    exponent: Option<Exponent>,
    after: string)

  predicate IsSign(s: string) {
    s == "" || s == "+" || s == "-"
  }

  predicate AllSpace(s: string) {
    forall i :: 0 <= i < |s| ==> IsSpace(s[i])
  }

  predicate ExponentWellFormed(e: Exponent) {
    && (e.mark == 'e' || e.mark == 'E') && IsSign(e.sign) && e.digits != "" && AllDigits(e.digits)
    && -INT_LIMIT <= ExponentValue(e) < INT_LIMIT
  }

  function ExponentValue(e: Exponent): int
    requires AllDigits(e.digits)
  {
    var n: int := DigitsValue(e.digits);
    if e.sign == "-" then -n else n
  }

  predicate WellFormed(d: Decimal) {
    && AllSpace(d.before) && AllSpace(d.after) && IsSign(d.sign)
    && AllDigits(d.whole) && AllDigits(d.fraction) && d.whole + d.fraction != ""
    && (!d.point ==> d.fraction == "")
    && (d.exponent.Some? ==> ExponentWellFormed(d.exponent.value))
  }

  function Mantissa(d: Decimal): string {
    d.whole + (if d.point then "." + d.fraction else "")
  }

  function ExponentText(e: Option<Exponent>): string {
    match e
    case None => ""
    case Some(x) => [x.mark] + (x.sign + x.digits)
  }

  function Body(d: Decimal): string {
    Mantissa(d) + ExponentText(d.exponent)
  }

  function Core(d: Decimal): string {
    d.sign + Body(d)
  }

  function Text(d: Decimal): string {
    d.before + Core(d) + d.after
  }

  /** Sign, digits and power of ten of the number. */
  function Meaning(d: Decimal): Spelling
    requires WellFormed(d)
  {
    AllDigitsConcat(d.whole, d.fraction);
    Number(d.sign == "-", DigitsValue(d.whole + d.fraction),
           (if d.exponent.Some? then ExponentValue(d.exponent.value) else 0) - |d.fraction|)
  }

  lemma AllDigitsConcat(a: string, b: string)
    ensures AllDigits(a + b) <==> AllDigits(a) && AllDigits(b)
  {
    if AllDigits(a + b) {
      assert forall i :: 0 <= i < |a| ==> a[i] == (a + b)[i];
      assert forall i :: 0 <= i < |b| ==> b[i] == (a + b)[|a| + i];
    }
  }

  // ---- trimming ----

  lemma {:induction false} TrimLeftSpace(space: string, s: string)
    requires AllSpace(space) && (s == "" || !IsSpace(s[0]))
    ensures TrimLeft(space + s) == s
  {
    if space == "" {
      assert space + s == s;
    } else {
      assert (space + s)[1..] == space[1..] + s;
      TrimLeftSpace(space[1..], s);
    }
  }

  lemma {:induction false} TrimRightSpace(s: string, space: string)
    requires AllSpace(space) && (s == "" || !IsSpace(s[|s| - 1]))
    ensures TrimRight(s + space) == s
    decreases |space|
  {
    if space == "" {
      assert s + space == s;
    } else {
      var space' := space[..|space| - 1];
      assert (s + space)[..|s + space| - 1] == s + space';
      TrimRightSpace(s, space');
    }
  }

  lemma {:induction false} TrimLeftParts(s: string) returns (space: string)
    ensures AllSpace(space) && s == space + TrimLeft(s) && (TrimLeft(s) == "" || !IsSpace(TrimLeft(s)[0]))
  {
    if s != "" && IsSpace(s[0]) {
      var rest := TrimLeftParts(s[1..]);
      space := [s[0]] + rest;
      assert s == [s[0]] + s[1..];
      assert [s[0]] + (rest + TrimLeft(s[1..])) == space + TrimLeft(s[1..]);
    } else {
      space := "";
    }
  }

  lemma {:induction false} TrimRightParts(s: string) returns (space: string)
    ensures AllSpace(space) && s == TrimRight(s) + space
  {
    if s != "" && IsSpace(s[|s| - 1]) {
      var s' := s[..|s| - 1];
      var rest := TrimRightParts(s');
      space := rest + [s[|s| - 1]];
      assert s == s' + [s[|s| - 1]];
      assert TrimRight(s') + rest + [s[|s| - 1]] == TrimRight(s') + (rest + [s[|s| - 1]]);
    } else {
      space := "";
    }
  }

  // ---- names ----

  /** No name has a digit in it. */
  lemma DigitIsNoName(s: string, i: nat)
    requires i < |s| && IsDigit(s[i])
    ensures NamedPattern(ToLower(s)) == None
  {
    var lowered := ToLower(s);
    assert IsDigit(lowered[i]);
    NamesHaveNoDigit(lowered, i);
  }

  predicate NoDigit(s: string) {
    forall i :: 0 <= i < |s| ==> !IsDigit(s[i])
  }

  lemma NamesHaveNoDigit(lowered: string, i: nat)
    requires i < |lowered| && IsDigit(lowered[i])
    ensures NamedPattern(lowered) == None
  {
    assert NoDigit("inf") && NoDigit("+inf") && NoDigit("infinity") && NoDigit("+infinity");
    assert NoDigit("-inf") && NoDigit("-infinity") && NoDigit("nan") && NoDigit("+nan") && NoDigit("-nan");
    assert !NoDigit(lowered);
  }

  // ---- every text of the grammar is read as its meaning ----

  lemma AtoiOfExponent(e: Exponent)
    requires ExponentWellFormed(e)
    ensures Atoi(e.sign + e.digits) == Some(ExponentValue(e))
  {
    var s := e.sign + e.digits;
    if e.sign == "" {
      assert s == e.digits;
    } else {
      assert s[1..] == e.digits;
    }
  }

  lemma MantissaHasNoMark(d: Decimal)
    requires WellFormed(d)
    ensures forall i :: 0 <= i < |Mantissa(d)| ==> IsDigit(Mantissa(d)[i]) || Mantissa(d)[i] == '.'
  {
  }

  lemma ReadBody(d: Decimal, negative: bool)
    requires WellFormed(d)
    ensures ReadUnsigned(negative, Body(d)) ==
            ReadMantissa(negative, Mantissa(d), if d.exponent.Some? then ExponentValue(d.exponent.value) else 0)
  {
    hide ReadMantissa, Atoi, AllDigits, DigitsValue;
    var m, tail := Mantissa(d), ExponentText(d.exponent);
    MantissaHasNoMark(d);
    assert forall k :: 0 <= k < |m| ==> Body(d)[k] == m[k];
    if d.exponent.Some? {
      var e := d.exponent.value;
      assert Body(d)[|m|] == e.mark;
      assert Body(d)[|m| + 1..] == e.sign + e.digits;
      AtoiOfExponent(e);
    }
    IndexAnyIs(Body(d), {'e', 'E'}, |m|);
    assert Body(d)[..|m|] == m;
  }

  lemma ReadParts(d: Decimal, negative: bool, exponent: int)
    requires WellFormed(d) && AllDigits(d.whole + d.fraction)
    ensures ReadMantissa(negative, Mantissa(d), exponent) ==
            Some(Number(negative, DigitsValue(d.whole + d.fraction), exponent - |d.fraction|))
  {
    hide DigitsValue;
    var m := Mantissa(d);
    if d.point {
      assert m[|d.whole|] == '.' && m[|d.whole| + 1..] == d.fraction;
    } else {
      assert m == d.whole && d.whole + "" == d.whole;
    }
    IndexAnyIs(m, {'.'}, |d.whole|);
    assert m[..|d.whole|] == d.whole;
  }

  lemma CoreIsPlain(d: Decimal)
    requires WellFormed(d)
    ensures var core := Core(d);
            && core != "" && !IsSpace(core[0]) && !IsSpace(core[|core| - 1])
            && NamedPattern(ToLower(core)) == None
            && Body(d) != "" && Body(d)[0] != '+' && Body(d)[0] != '-'
  {
    hide NamedPattern, ToLower, DigitsValue;
    var core, m := Core(d), Mantissa(d);
    MantissaHasNoMark(d);
    assert m != "" && Body(d)[0] == m[0];
    var i := if d.whole != "" then 0 else 1;
    assert IsDigit(m[i]);
    assert core[|d.sign| + i] == m[i];
    DigitIsNoName(core, |d.sign| + i);
    LastOfCore(d);
  }

  lemma LastOfCore(d: Decimal)
    requires WellFormed(d)
    ensures var core := Core(d); core != "" && (IsDigit(core[|core| - 1]) || core[|core| - 1] == '.')
  {
    hide DigitsValue;
    var core, m, tail := Core(d), Mantissa(d), ExponentText(d.exponent);
    assert m != "";
    if d.exponent.Some? {
      var e := d.exponent.value;
      assert tail[|tail| - 1] == e.digits[|e.digits| - 1];
      assert core[|core| - 1] == tail[|tail| - 1];
    } else {
      assert core == d.sign + m;
      assert core[|core| - 1] == m[|m| - 1];
      MantissaHasNoMark(d);
    }
  }

  lemma GrammarIsRead(d: Decimal)
    requires WellFormed(d)
    ensures ReadDecimal(Text(d)) == Some(Meaning(d))
  {
    hide ReadUnsigned, ReadMantissa, NamedPattern, ToLower, TrimLeft, TrimRight, DigitsValue, AllDigits, Body;
    var core := Core(d);
    CoreIsPlain(d);
    assert Text(d) == d.before + (core + d.after);
    assert (core + d.after)[0] == core[0];
    TrimLeftSpace(d.before, core + d.after);
    TrimRightSpace(core, d.after);
    SignIsRead(d);
    AllDigitsConcat(d.whole, d.fraction);
    ReadBody(d, d.sign == "-");
    ReadParts(d, d.sign == "-", if d.exponent.Some? then ExponentValue(d.exponent.value) else 0);
  }

  lemma SignIsRead(d: Decimal)
    requires IsSign(d.sign) && Body(d) != "" && Body(d)[0] != '+' && Body(d)[0] != '-'
    ensures var core := Core(d);
            var signed := core != [] && (core[0] == '+' || core[0] == '-');
            && (signed && core[0] == '-' <==> d.sign == "-")
            && (if signed then core[1..] else core) == Body(d)
  {
    hide Body;
    var core := Core(d);
    if d.sign == "" {
      assert core == Body(d);
    } else {
      assert core[1..] == Body(d);
    }
  }

  // ---- every text that is read as a number is of the grammar ----

  lemma ExponentOfText(s: string, mark: char) returns (e: Exponent)
    requires Atoi(s).Some? && (mark == 'e' || mark == 'E')
    ensures ExponentWellFormed(e) && e.mark == mark && s == e.sign + e.digits && Atoi(s).value == ExponentValue(e)
  {
    if s != [] && (s[0] == '+' || s[0] == '-') {
      e := Exponent(mark, s[..1], s[1..]);
      assert s == s[..1] + s[1..];
    } else {
      e := Exponent(mark, "", s);
      assert s == "" + s;
    }
  }

  lemma ReadIsGrammar(text: string) returns (d: Decimal)
    requires ReadDecimal(text).Some? && ReadDecimal(text).value.Number?
    ensures WellFormed(d) && Text(d) == text
  {
    hide NamedPattern, ToLower, DigitsValue, ReadUnsigned, AllDigits, TrimLeft, TrimRight, Mantissa, ExponentText;
    hide ExponentWellFormed;
    var before := TrimLeftParts(text);
    var left := TrimLeft(text);
    var after := TrimRightParts(left);
    var core := TrimRight(left);
    var signed := core != [] && (core[0] == '+' || core[0] == '-');
    var sign := if signed then core[..1] else "";
    var body := if signed then core[1..] else core;
    var whole, point, fraction, exponent := PartsOfBody(signed && core[0] == '-', body);
    d := Decimal(before, sign, whole, point, fraction, exponent, after);
    MantissaIs(d);
    assert Core(d) == core;
    assert text == before + (core + after);
  }

  lemma MantissaIs(d: Decimal)
    ensures Body(d) == d.whole + (if d.point then "." + d.fraction else "") + ExponentText(d.exponent)
  {
  }

  lemma PartsOfBody(negative: bool, body: string)
    returns (whole: string, point: bool, fraction: string, exponent: Option<Exponent>)
    requires ReadUnsigned(negative, body).Some?
    ensures AllDigits(whole) && AllDigits(fraction) && whole + fraction != "" && (!point ==> fraction == "")
    ensures exponent.Some? ==> ExponentWellFormed(exponent.value)
    ensures body == whole + (if point then "." + fraction else "") + ExponentText(exponent)
  {
    hide ReadMantissa, Atoi, AllDigits, ExponentWellFormed, DigitsValue;
    var split := IndexAny(body, {'e', 'E'});
    var m := body[..split];
    exponent := None;
    if split < |body| {
      var e := ExponentOfText(body[split + 1..], body[split]);
      exponent := Some(e);
      assert body == m + ([body[split]] + body[split + 1..]);
    } else {
      assert body == m + "";
    }
    whole, point, fraction := PartsOfMantissa(m);
  }

  lemma PartsOfMantissa(m: string) returns (whole: string, point: bool, fraction: string)
    requires exists negative, exponent :: ReadMantissa(negative, m, exponent).Some?
    ensures AllDigits(whole) && AllDigits(fraction) && whole + fraction != "" && (!point ==> fraction == "")
    ensures m == whole + (if point then "." + fraction else "")
  {
    var i := IndexAny(m, {'.'});
    whole, point := m[..i], i < |m|;
    fraction := if point then m[i + 1..] else "";
    AllDigitsConcat(whole, fraction);
    if point {
      assert m == m[..i] + ("." + m[i + 1..]);
    } else {
      assert m == m[..i] + "";
    }
  }

  /** The reader takes exactly the texts of the grammar as numbers, each as its meaning. */
  lemma ReadsExactlyTheGrammar(text: string, spelling: Spelling)
    requires spelling.Number?
    ensures ReadDecimal(text) == Some(spelling) <==>
            exists d :: WellFormed(d) && Text(d) == text && Meaning(d) == spelling
  {
    hide ReadDecimal, WellFormed, Text, Meaning;
    if ReadDecimal(text) == Some(spelling) {
      var d := ReadIsGrammar(text);
      GrammarIsRead(d);
    }
    if d :| WellFormed(d) && Text(d) == text && Meaning(d) == spelling {
      GrammarIsRead(d);
    }
  }
}
