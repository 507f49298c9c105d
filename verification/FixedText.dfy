/** Decimals of a fixed number of digits: their digits, their nibbles and their canonical spelling. */
module FixedText {
  import opened Common
  import opened Powers
  import opened DecimalText

  type Nibble = x: int | 0 <= x < 16

  /** The last `width` decimal digits of n. */
  function DigitsOf(n: nat, width: nat): (s: string)
    ensures |s| == width && AllDigits(s)
  {
    if width == 0 then "" else DigitsOf(n / 10, width - 1) + [DigitChar(n % 10)]
  }

  lemma {:induction false} DigitsOfValue(s: string)
    requires AllDigits(s)
    ensures DigitsOf(DigitsValue(s), |s|) == s
  {
    if s != [] {
      var s' := s[..|s| - 1];
      DigitsOfValue(s');
      LastDigit(DigitsValue(s'), DigitValue(s[|s| - 1]));
      assert s == s' + [s[|s| - 1]];
    }
  }

  lemma LastDigit(n: nat, d: nat)
    requires d < 10
    ensures (10 * n + d) / 10 == n && (10 * n + d) % 10 == d
  {
  }

  lemma {:induction false} ValueOfDigits(n: nat, width: nat)
    requires n < Pow(10, width)
    ensures DigitsValue(DigitsOf(n, width)) == n
  {
    if width > 0 {
      ValueOfDigits(n / 10, width - 1);
      assert DigitsOf(n, width)[..width - 1] == DigitsOf(n / 10, width - 1);
    }
  }

  /** A run of digits is below the power of ten of its length. */
  lemma {:induction false} ValueBelow(s: string)
    requires AllDigits(s)
    ensures DigitsValue(s) < Pow(10, |s|)
  {
    if s != [] { ValueBelow(s[..|s| - 1]); }
  }

  /** Fewer digits are the last ones; more digits are zeros in front. */
  lemma {:induction false} LastDigits(n: nat, width: nat, k: nat)
    requires k <= width
    ensures DigitsOf(n, width)[width - k..] == DigitsOf(n, k)
  {
    if k > 0 {
      LastDigits(n / 10, width - 1, k - 1);
      assert DigitsOf(n, width)[width - k..] == DigitsOf(n / 10, width - 1)[width - k..] + [DigitChar(n % 10)];
    }
  }

  lemma {:induction false} LeadingZeros(n: nat, width: nat, k: nat)
    requires k <= width && n < Pow(10, k)
    ensures DigitsOf(n, width) == Zeros(width - k) + DigitsOf(n, k)
    decreases k
  {
    if k == 0 {
      assert n == 0;
      AllZeros(width);
    } else {
      LeadingZeros(n / 10, width - 1, k - 1);
    }
  }

  lemma {:induction false} AllZeros(width: nat)
    ensures DigitsOf(0, width) == Zeros(width)
  {
    if width > 0 { AllZeros(width - 1); }
  }

  /** As many digits as the number has is its plain spelling. */
  lemma {:induction false} PlainSpelling(n: nat)
    ensures n < Pow(10, |ToText(n)|) && DigitsOf(n, |ToText(n)|) == ToText(n)
  {
    if n >= 10 {
      PlainSpelling(n / 10);
    } else {
      assert Pow(10, 1) == 10 * Pow(10, 0);
      assert DigitsOf(n, 1) == DigitsOf(n / 10, 0) + [DigitChar(n % 10)];
    }
  }

  // ---- leading zeros taken off ----

  function StripZeros(s: string): string {
    if s != [] && s[0] == '0' then StripZeros(s[1..]) else s
  }

  lemma {:induction false} StripKeeps(s: string)
    requires AllDigits(s)
    ensures var t := StripZeros(s);
            && |t| <= |s| && s == Zeros(|s| - |t|) + t && AllDigits(t) && DigitsValue(t) == DigitsValue(s)
            && (t != [] ==> t[0] != '0')
  {
    var t := StripZeros(s);
    if s != [] && s[0] == '0' {
      StripKeeps(s[1..]);
      ZeroInFront(|s| - 1 - |t|);
      assert s == "0" + s[1..];
      assert "0" + (Zeros(|s| - 1 - |t|) + t) == "0" + Zeros(|s| - 1 - |t|) + t;
      ZerosAround(t, |s| - |t|);
    } else {
      assert s == Zeros(0) + s;
    }
  }

  /** Without leading zeros, the length tells the size. */
  lemma {:induction false} LeadingDigit(s: string)
    requires AllDigits(s) && s != [] && s[0] != '0'
    ensures Pow(10, |s| - 1) <= DigitsValue(s)
  {
    if |s| > 1 { LeadingDigit(s[..|s| - 1]); } else { assert s[..0] == []; }
  }

  /** A run without leading zeros has at most k digits exactly when its number is below 10^k. */
  lemma FitsWidth(s: string, k: nat)
    requires AllDigits(s) && (s != [] ==> s[0] != '0')
    ensures |s| <= k <==> DigitsValue(s) < Pow(10, k)
  {
    PowPositive(10, k);
    if |s| <= k {
      ValueBelow(s);
      PowMono(10, |s|, k);
    } else {
      LeadingDigit(s);
      PowMono(10, k, |s| - 1);
    }
  }

  /** The stripped run of a nonzero number is its plain spelling. */
  lemma StrippedIsPlain(s: string)
    requires AllDigits(s) && DigitsValue(s) > 0
    ensures StripZeros(s) == ToText(DigitsValue(s))
  {
    var n := DigitsValue(s);
    var t, p := StripZeros(s), ToText(n);
    StripKeeps(s);
    PlainSpelling(n);
    TextLeads(n);
    ValueOfText(n);
    FitsWidth(t, |p|);
    FitsWidth(p, |t|);
    ValueBelow(t);
    assert |t| == |p|;
    DigitsOfValue(t);
  }

  // ---- canonical spelling ----

  /** n / 10^scale: an integer part without leading zeros, `scale` digits behind the point, one zero. */
  function Canonical(value: int, scale: nat): string {
    var n: nat := if value < 0 then -value else value;
    (if value < 0 then "-" else "") + ToText(Integral(n, scale)) +
    (if scale > 0 then "." + DigitsOf(Remaining(n, scale), scale) else "")
  }

  function Integral(n: nat, scale: nat): nat {
    PowPositive(10, scale);
    n / Pow(10, scale)
  }

  function Remaining(n: nat, scale: nat): nat {
    PowPositive(10, scale);
    n % Pow(10, scale)
  }

  lemma IntegralAndRemaining(n: nat, scale: nat)
    ensures n == Integral(n, scale) * Pow(10, scale) + Remaining(n, scale) && Remaining(n, scale) < Pow(10, scale)
  {
    PowPositive(10, scale);
    MulCommute(n / Pow(10, scale), Pow(10, scale));
  }

  lemma IntegralBelow(n: nat, k: nat, scale: nat)
    requires n < Pow(10, k + scale)
    ensures Integral(n, scale) < Pow(10, k)
  {
    IntegralAndRemaining(n, scale);
    PowAdd(10, k, scale);
    if Integral(n, scale) >= Pow(10, k) { MulMono(Pow(10, k), Integral(n, scale), Pow(10, scale)); }
  }

  lemma SplitValue(whole: string, fraction: string)
    requires AllDigits(whole) && AllDigits(fraction)
    ensures var n := DigitsValue(whole + fraction);
            Integral(n, |fraction|) == DigitsValue(whole) && Remaining(n, |fraction|) == DigitsValue(fraction)
  {
    PowPositive(10, |fraction|);
    DigitsValueConcat(whole, fraction);
    ValueBelow(fraction);
    DivModUnique(Pow(10, |fraction|), DigitsValue(whole), DigitsValue(fraction));
  }

  // ---- nibbles ----

  function NibblesOf(s: string): (r: seq<Nibble>)
    requires AllDigits(s)
    ensures |r| == |s|
  {
    seq(|s|, i requires 0 <= i < |s| => DigitValue(s[i]))
  }

  predicate AllDecimal(r: seq<Nibble>) {
    forall i :: 0 <= i < |r| ==> r[i] <= 9
  }

  function TextOf(r: seq<Nibble>): (s: string)
    requires AllDecimal(r)
    ensures |s| == |r| && AllDigits(s)
  {
    seq(|r|, i requires 0 <= i < |r| => DigitChar(r[i]))
  }

  lemma TextOfNibbles(s: string)
    requires AllDigits(s)
    ensures AllDecimal(NibblesOf(s)) && TextOf(NibblesOf(s)) == s
  {
    var t := TextOf(NibblesOf(s));
    forall i | 0 <= i < |s| ensures t[i] == s[i] {
      SameDigit(s[i], t[i]);
    }
  }

  lemma SameDigit(a: char, b: char)
    requires IsDigit(a) && IsDigit(b) && DigitValue(a) == DigitValue(b)
    ensures a == b
  {
  }

  /** Two nibbles to an octet, the first one high. */
  function Packed(r: seq<Nibble>): (b: Octets)
    requires |r| % 2 == 0
    ensures |b| == |r| / 2
  {
    if r == [] then [] else [16 * (r[0] as int) + r[1]] + Packed(r[2..])
  }

  function Unpacked(b: Octets): (r: seq<Nibble>)
    ensures |r| == 2 * |b|
  {
    if b == [] then [] else [b[0] / 16, b[0] % 16] + Unpacked(b[1..])
  }

  lemma {:induction false} UnpackPacked(r: seq<Nibble>)
    requires |r| % 2 == 0
    ensures Unpacked(Packed(r)) == r
  {
    if r != [] {
      UnpackPacked(r[2..]);
      assert Packed(r)[1..] == Packed(r[2..]);
      assert r == [r[0], r[1]] + r[2..];
    }
  }

  lemma {:induction false} UnpackedAppend(b: Octets, x: Byte)
    ensures Unpacked(b + [x]) == Unpacked(b) + [x / 16, x % 16]
  {
    if b != [] {
      UnpackedAppend(b[1..], x);
      assert (b + [x])[1..] == b[1..] + [x];
    } else {
      assert b + [x] == [x];
    }
  }
}
