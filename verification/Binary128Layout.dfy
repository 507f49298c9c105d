/** The binary128 format of IEEE 754-2008 section 3.6 in numbers: which pattern stands for which value. */
module Binary128Layout {
  import opened Common
  import opened Powers
  import opened DecimalText
  import opened Binary128
  import opened Binary128Meaning
  import opened Binary128Nearest
  import opened Binary128Order
  import opened Binary128Text
  import opened Binary128RoundTrip

  /** The sign is bit 127, and infinity is the exponent field of all ones over a fraction of zero. */
  lemma TopOfTheRange()
    ensures SignMask() == 0x8000 * Pow2(112) && Sign(true) == 0x8000 * Pow2(112) && Sign(false) == 0
    ensures Infinity() == 0x7FFF * Pow2(112)
  {
    hide Pow2;
    SignMaskIs();
  }

  /** A unit of `Value` and of `Units` is 2^-16494, the least subnormal number. */
  lemma UnitsAre(n: nat)
    ensures Units(n) == n * Pow2(16494)
    ensures Units(1) == Pow2(16494) * Value(1)
  {
    hide Pow2;
    SmallestIsOne();
    assert Units(n) == n * Pow2(LEAST_EXPONENT);
  }

  lemma SmallestIsOne()
    ensures Value(1) == 1
  {
    hide Pow2;
    Pow2Above1(112);
    SubnormalValue(1);
  }

  lemma {:induction false} Pow2Above1(n: nat)
    requires n > 0
    ensures Pow2(n) > 1
  {
    Pow2Mono(1, n);
    assert Pow2(1) == 2 * Pow2(0);
  }

  /** What an exponent field e over a fraction f stands for, in those units. */
  function OfFields(e: nat, f: nat): (v: nat) {
    if e == 0 then f else (Pow2(112) + f) * Pow2(e - 1)
  }

  /** `Value` is that of the fields of the pattern. */
  lemma FieldsMean(e: nat, f: nat)
    requires f < Pow2(112)
    ensures Value(Pattern(e, f)) == OfFields(e, f)
  {
    hide Pow2, Value;
    var p := Pow2(112);
    Pow2Next(112);
    if e == 0 {
      SubnormalValue(f);
    } else {
      ValueOfPattern(e - 1, p + f);
      MulAdd(e - 1, 1, p);
    }
  }

  /** That value is composed to that pattern: (2^112 + f) * 2^(e - 1 - 16494) for every normal number, and f * 2^-16494
      for every subnormal one. */
  lemma FieldsCompose(negative: bool, e: nat, f: nat)
    requires e < 0x7FFF && f < Pow2(112) && (e > 0 || f > 0)
    ensures FromFraction(negative, OfFields(e, f), Pow2(16494)) ==
            (if negative then Pow2(127) else 0) + Pattern(e, f)
  {
    hide Pow2, Value, FromFraction, OfFields;
    var p := Pow2(112);
    var b := Pattern(e, f);
    MulMono(e, 0x7FFE, p);
    MulMono(0, e, p);
    if e > 0 { MulMono(1, e, p); }
    FieldsMean(e, f);
    ExactIsIdentity(b);
    NearestExactly(Value(b), Pow2(16494));
  }

  /** A power of two has its exponent, biased by 16383, above a fraction of zero. */
  lemma PowersOfTwo(k: int)
    requires -16382 <= k <= 16383
    ensures FromFraction(false, if k >= 0 then Pow2(k) else 1, if k >= 0 then 1 else Pow2(-k)) ==
            (16383 + k) * Pow2(112)
  {
    hide Pow2, FromFraction;
    var e := 16383 + k;
    var n, d := if k >= 0 then Pow2(k) else 1, if k >= 0 then 1 else Pow2(-k);
    FieldsCompose(false, e, 0);
    Pow2Add(112, e - 1);
    assert (Pow2(112) + 0) * Pow2(e - 1) == Pow2(16494 + k);
    if k >= 0 {
      Pow2Add(k, 16494);
    } else {
      Pow2Add(16494 + k, -k);
    }
    SameFraction(false, n, d, Pow2(16494 + k), Pow2(16494));
  }

  /** Three decimals and their patterns. */
  lemma KnownDecimals()
    ensures FromDecimal("1.0") == Some(0x3FFF * Pow2(112))
    ensures FromDecimal("1.5") == Some(0x3FFF * Pow2(112) + Pow2(111))
    ensures FromDecimal("-2.0") == Some(0xC000 * Pow2(112))
  {
    hide Pow2, ReadDecimal, FromFraction;
    OneReads();
    OneIs();
    ThreeHalves();
    TwoIs();
    TopOfTheRange();
    NearestExactly(20, 10);
  }

  lemma OneIs()
    ensures FromFraction(false, 10, 10) == 0x3FFF * Pow2(112)
  {
    hide Pow2, FromFraction;
    PowersOfTwo(0);
    Pow2Zero();
    SameFraction(false, 10, 10, 1, 1);
  }

  lemma TwoIs()
    ensures FromFraction(false, 20, 10) == 0x4000 * Pow2(112)
  {
    hide Pow2, FromFraction;
    PowersOfTwo(1);
    Pow2Zero();
    Pow2Next(0);
    SameFraction(false, 20, 10, 2, 1);
  }

  lemma ThreeHalves()
    ensures FromFraction(false, 15, 10) == 0x3FFF * Pow2(112) + Pow2(111)
  {
    hide Pow2, FromFraction;
    Pow2Next(111);
    FieldsCompose(false, 0x3FFF, Pow2(111));
    Pow2Add(111, 0x3FFE);
    Pow2Next(16493);
    Half(Pow2(111), Pow2(0x3FFE));
    SameFraction(false, 15, 10, OfFields(0x3FFF, Pow2(111)), Pow2(16494));
  }

  lemma Half(h: nat, q: nat)
    ensures (2 * h + h) * q == 3 * (h * q)
  {
  }

  lemma OneReads()
    ensures ReadDecimal("1.0") == Some(Number(false, 10, -1))
    ensures ReadDecimal("1.5") == Some(Number(false, 15, -1))
    ensures ReadDecimal("-2.0") == Some(Number(true, 20, -1))
    ensures Denominator(-1) == 10
  {
    hide ReadDecimal;
    ReadSpelled(false, "1", "0", "", 0);
    ReadSpelled(false, "1", "5", "", 0);
    ReadSpelled(true, "2", "0", "", 0);
    assert "" + ("1" + "." + "0" + "") == "1.0" && "" + ("1" + "." + "5" + "") == "1.5";
    assert "-" + ("2" + "." + "0" + "") == "-2.0";
    TwoDigits('1', '0');
    TwoDigits('1', '5');
    TwoDigits('2', '0');
    assert Pow(10, 1) == 10 * Pow(10, 0);
  }

  lemma TwoDigits(a: char, b: char)
    requires IsDigit(a) && IsDigit(b)
    ensures DigitsValue([a] + [b]) == 10 * DigitValue(a) + DigitValue(b)
  {
    var s := [a] + [b];
    assert s[..|s| - 1] == [a];
    assert [a][..|[a]| - 1] == [];
    assert DigitsValue([a]) == DigitValue(a);
  }

  /** The names, in any case and with any space around them. */
  lemma NamesMean(text: string)
    ensures var name := ToLower(TrimSpace(text));
            && (name in {"inf", "+inf", "infinity", "+infinity"} ==> FromDecimal(text) == Some(0x7FFF * Pow2(112)))
            && (name in {"-inf", "-infinity"} ==> FromDecimal(text) == Some(0xFFFF * Pow2(112)))
            && (name in {"nan", "+nan"} ==> FromDecimal(text) == Some(0x7FFF * Pow2(112) + Pow2(111)))
            && (name == "-nan" ==> FromDecimal(text) == Some(0xFFFF * Pow2(112) + Pow2(111)))
  {
    hide Pow2, ReadUnsigned, TrimSpace, ToLower;
    TopOfTheRange();
    NamesDiffer(ToLower(TrimSpace(text)));
  }

  lemma NamesDiffer(name: string)
    ensures name in {"-inf", "-infinity"} ==> name !in {"inf", "+inf", "infinity", "+infinity"}
    ensures name in {"nan", "+nan", "-nan"} ==> name !in {"inf", "+inf", "infinity", "+infinity", "-inf", "-infinity"}
    ensures name == "-nan" ==> name !in {"nan", "+nan"}
  {
    assert "inf"[0] == "infinity"[0] == 'i' && "nan"[0] == 'n';
    assert "+inf"[0] == "+infinity"[0] == "+nan"[0] == '+' && "-inf"[0] == "-infinity"[0] == "-nan"[0] == '-';
    assert "+inf"[1] == "+infinity"[1] == "-inf"[1] == "-infinity"[1] == 'i' && "+nan"[1] == "-nan"[1] == 'n';
  }

  /** Names are read in any case, with any of the eight kinds of space before and behind them. */
  lemma NamesInAnyCase(before: char, after: char)
    requires before in {' ', '\t', '\n', '\U{0B}', '\U{0C}', '\r', '\U{85}', '\U{A0}'}
    requires after in {' ', '\t', '\n', '\U{0B}', '\U{0C}', '\r', '\U{85}', '\U{A0}'}
    ensures FromDecimal([before] + "InfInITY" + [after]) == Some(0x7FFF * Pow2(112))
    ensures FromDecimal([before] + "NAn" + [after]) == Some(0x7FFF * Pow2(112) + Pow2(111))
  {
    hide FromDecimal, Pow2, TrimSpace;
    Unspaced(before, "InfInITY", after);
    Unspaced(before, "NAn", after);
    assert ToLower("InfInITY") == "infinity";
    assert ToLower("NAn") == "nan";
    NamesMean([before] + "InfInITY" + [after]);
    NamesMean([before] + "NAn" + [after]);
  }

  lemma Unspaced(before: char, s: string, after: char)
    requires IsSpace(before) && IsSpace(after) && s != "" && !IsSpace(s[0]) && !IsSpace(s[|s| - 1])
    ensures TrimSpace([before] + s + [after]) == s
  {
    hide IsSpace;
    var text := [before] + s + [after];
    assert text[1..] == s + [after];
    assert (s + [after])[0] == s[0];
    assert TrimLeft(text) == s + [after] by { assert TrimLeft(s + [after]) == s + [after]; }
    assert (s + [after])[..|s|] == s;
    assert TrimRight(s + [after]) == TrimRight(s) == s;
  }

  /** An exponent is read exactly if it fits 64 bits with its sign. */
  lemma ExponentLimits(digits: string)
    requires digits != "" && AllDigits(digits)
    ensures FromDecimal("1e" + digits).Some? <==> DigitsValue(digits) < 9223372036854775808
    ensures FromDecimal("1e-" + digits).Some? <==> DigitsValue(digits) <= 9223372036854775808
  {
    hide ReadMantissa, DigitsValue, TrimSpace, ToLower, PatternOfSpelling;
    ExponentSplit(digits, digits);
    ExponentSplit("-" + digits, digits);
    assert "1e-" + digits == "1e" + ("-" + digits);
    assert ("-" + digits)[1..] == digits;
    OneIsRead();
  }

  lemma OneIsRead()
    ensures forall e: int :: ReadMantissa(false, "1", e).Some?
  {
    assert IndexAny("1", {'.'}) == 1;
  }

  lemma ExponentSplit(tail: string, digits: string)
    requires digits != "" && AllDigits(digits) && (tail == digits || tail == "-" + digits)
    ensures var text := "1e" + tail;
            && TrimSpace(text) == text && NamedPattern(ToLower(text)) == None && text != [] && text[0] == '1'
            && IndexAny(text, {'e', 'E'}) == 1 && text[..1] == "1" && text[2..] == tail
  {
    var text := "1e" + tail;
    assert text[|text| - 1] == digits[|digits| - 1];
    TrimNothing(text);
    IndexAnyIs(text, {'e', 'E'}, 1);
    assert ToLower(text)[0] == '1';
    OneIsNoName(ToLower(text));
  }

  lemma OneIsNoName(name: string)
    requires name != "" && name[0] == '1'
    ensures NamedPattern(name) == None
  {
    assert "inf"[0] == "infinity"[0] == 'i' && "nan"[0] == 'n';
    assert "+inf"[0] == "+infinity"[0] == "+nan"[0] == '+' && "-inf"[0] == "-infinity"[0] == "-nan"[0] == '-';
  }
}
