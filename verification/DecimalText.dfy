/** Decimal digits as text: values, spellings, and the searches a parser makes. */
module DecimalText {
  import opened Powers
  import opened Common

  predicate IsDigit(c: char) {
    '0' <= c <= '9'
  }

  predicate AllDigits(s: string) {
    forall i :: 0 <= i < |s| ==> IsDigit(s[i])
  }

  function DigitValue(c: char): (v: nat)
    requires IsDigit(c)
    ensures v < 10
  {
    c as int - '0' as int
  }

  function DigitChar(v: nat): (c: char)
    requires v < 10
    ensures IsDigit(c) && DigitValue(c) == v
  {
    ('0' as int + v) as char
  }

  /** The number a run of digits spells. */
  function DigitsValue(s: string): nat
    requires AllDigits(s)
  {
    if s == [] then 0 else 10 * DigitsValue(s[..|s| - 1]) + DigitValue(s[|s| - 1])
  }

  /** The digits of a number, without leading zeros. */
  function ToText(n: nat): (s: string)
    ensures |s| > 0 && AllDigits(s)
  {
    if n < 10 then [DigitChar(n)] else ToText(n / 10) + [DigitChar(n % 10)]
  }

  lemma {:induction false} ValueOfText(n: nat)
    ensures DigitsValue(ToText(n)) == n
  {
    if n >= 10 {
      ValueOfText(n / 10);
      var s := ToText(n);
      assert s[..|s| - 1] == ToText(n / 10);
    } else {
      assert ToText(n)[..0] == [];
    }
  }

  lemma {:induction false} TextLength(n: nat, k: nat)
    requires k > 0 && n < Pow(10, k)
    ensures |ToText(n)| <= k
  {
    assert Pow(10, 1) == 10 * Pow(10, 0);
    if n >= 10 {
      TextLength(n / 10, k - 1);
    }
  }

  lemma {:induction false} TextLeads(n: nat)
    requires n > 0
    ensures ToText(n)[0] != '0'
  {
    if n >= 10 { TextLeads(n / 10); }
  }

  lemma {:induction false} DigitsValueConcat(a: string, b: string)
    requires AllDigits(a) && AllDigits(b)
    ensures DigitsValue(a + b) == DigitsValue(a) * Pow(10, |b|) + DigitsValue(b)
    decreases |b|
  {
    if b == [] {
      assert a + b == a;
    } else {
      var b', c := b[..|b| - 1], b[|b| - 1];
      assert (a + b)[..|a + b| - 1] == a + b';
      DigitsValueConcat(a, b');
      ShiftDigits(DigitsValue(a), Pow(10, |b'|), DigitsValue(b'));
    }
  }

  lemma ShiftDigits(x: nat, p: nat, y: nat)
    ensures 10 * (x * p + y) == x * (10 * p) + 10 * y
  {
    assert x * (10 * p) == 10 * (x * p);
  }

  function Zeros(k: nat): (s: string)
    ensures |s| == k && AllDigits(s)
  {
    if k == 0 then "" else Zeros(k - 1) + "0"
  }

  lemma {:induction false} ZeroInFront(k: nat)
    ensures "0" + Zeros(k) == Zeros(k + 1)
  {
    if k > 0 {
      ZeroInFront(k - 1);
      assert "0" + (Zeros(k - 1) + "0") == "0" + Zeros(k - 1) + "0";
    } else {
      assert "0" + "" == "" + "0";
    }
  }

  lemma {:induction false} ValueOfZeros(k: nat)
    ensures DigitsValue(Zeros(k)) == 0
  {
    if k > 0 {
      assert Zeros(k)[..k - 1] == Zeros(k - 1);
      ValueOfZeros(k - 1);
    }
  }

  /** Trailing zeros multiply, leading zeros do nothing. */
  lemma ZerosAround(s: string, k: nat)
    requires AllDigits(s)
    ensures DigitsValue(s + Zeros(k)) == DigitsValue(s) * Pow(10, k)
    ensures DigitsValue(Zeros(k) + s) == DigitsValue(s)
  {
    ValueOfZeros(k);
    DigitsValueConcat(s, Zeros(k));
    DigitsValueConcat(Zeros(k), s);
    assert 0 * Pow(10, |s|) == 0;
  }

  function TrimRightZeros(s: string): (t: string)
    ensures |t| <= |s| && t == s[..|t|]
  {
    if s != [] && s[|s| - 1] == '0' then TrimRightZeros(s[..|s| - 1]) else s
  }

  lemma {:induction false} TrimmedPlusZeros(s: string)
    ensures var t := TrimRightZeros(s); s == t + Zeros(|s| - |t|)
  {
    if s != [] && s[|s| - 1] == '0' {
      var s' := s[..|s| - 1];
      TrimmedPlusZeros(s');
      var t := TrimRightZeros(s');
      assert s == s' + "0";
      assert t + (Zeros(|s'| - |t|) + "0") == t + Zeros(|s'| - |t|) + "0";
    } else {
      assert s + "" == s;
    }
  }

  // ---- searches ----

  /** The first index that holds one of `chars`, or the length. */
  function IndexAny(s: string, chars: set<char>): (i: nat)
    ensures i <= |s| && (i < |s| ==> s[i] in chars)
    ensures forall k :: 0 <= k < i ==> s[k] !in chars
  {
    if s == [] || s[0] in chars then 0 else 1 + IndexAny(s[1..], chars)
  }

  lemma IndexAnyIs(s: string, chars: set<char>, i: nat)
    requires i <= |s| && (i < |s| ==> s[i] in chars) && forall k :: 0 <= k < i ==> s[k] !in chars
    ensures IndexAny(s, chars) == i
  {
    var j := IndexAny(s, chars);
    if j < i { assert false; }
    if i < j { assert false; }
  }

  // ---- trimming and integers ----

  /** White space as trimming knows it. */
  predicate IsSpace(c: char) {
    c == ' ' || '\t' <= c <= '\r' || c == '\U{85}' || c == '\U{A0}'
  }

  function TrimLeft(s: string): string {
    if s != [] && IsSpace(s[0]) then TrimLeft(s[1..]) else s
  }

  function TrimRight(s: string): string {
    if s != [] && IsSpace(s[|s| - 1]) then TrimRight(s[..|s| - 1]) else s
  }

  function TrimSpace(s: string): string {
    TrimRight(TrimLeft(s))
  }

  function Lower(c: char): char {
    if 'A' <= c <= 'Z' then (c as int + 32) as char else c
  }

  function ToLower(s: string): string {
    seq(|s|, i requires 0 <= i < |s| => Lower(s[i]))
  }

  const INT_LIMIT := 0x8000_0000_0000_0000

  /** A signed decimal integer of 64 bits; anything else is refused. */
  function Atoi(s: string): Option<int> {
    var signed := s != [] && (s[0] == '+' || s[0] == '-');
    var digits := if signed then s[1..] else s;
    if digits == [] || !AllDigits(digits) then None
    else
      var v: int := DigitsValue(digits);
      if signed && s[0] == '-' then (if v > INT_LIMIT then None else Some(-v))
      else if v >= INT_LIMIT then None else Some(v)
  }
}
