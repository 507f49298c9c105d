/** UTF-8 as RFC 3629 defines it: scalar values as one to four octets, no surrogates, no overlong forms. */
module Utf8 {
  import opened Common

  /** A Unicode scalar value: a code point that is no surrogate. */
  type Scalar = x: int | 0 <= x < 0xD800 || 0xE000 <= x < 0x11_0000

  function EncodeScalar(c: Scalar): (b: Octets)
    ensures 1 <= |b| <= 4
  {
    if c < 0x80 then [c]
    else if c < 0x800 then [0xC0 + c / 0x40, 0x80 + c % 0x40]
    else if c < 0x1_0000 then [0xE0 + c / 0x1000, 0x80 + c / 0x40 % 0x40, 0x80 + c % 0x40]
    else [0xF0 + c / 0x4_0000, 0x80 + c / 0x1000 % 0x40, 0x80 + c / 0x40 % 0x40, 0x80 + c % 0x40]
  }

  function Encode(text: seq<Scalar>): Octets {
    if text == [] then [] else EncodeScalar(text[0]) + Encode(text[1..])
  }

  /** One character of each length. */
  lemma KnownEncodings()
    ensures Encode([0x5A, 0xE4, 0x1234, 0x1D11E]) == [0x5A, 0xC3, 0xA4, 0xE1, 0x88, 0xB4, 0xF0, 0x9D, 0x84, 0x9E]
  {
    hide Encode;
    EncodeFirst([0x5A, 0xE4, 0x1234, 0x1D11E]);
    EncodeFirst([0xE4, 0x1234, 0x1D11E]);
    EncodeFirst([0x1234, 0x1D11E]);
    EncodeFirst([0x1D11E]);
  }

  lemma EncodeFirst(text: seq<Scalar>)
    requires text != []
    ensures Encode(text) == EncodeScalar(text[0]) + Encode(text[1..])
    ensures |text| == 1 ==> Encode(text) == EncodeScalar(text[0])
  {
  }

  predicate Continues(b: Octets, i: nat) {
    i < |b| && 0x80 <= b[i] < 0xC0
  }

  /** What the continuation octet at i adds. */
  function Low6(b: Octets, i: nat): nat
    requires Continues(b, i)
  {
    b[i] as int - 0x80
  }

  datatype Rune = Rune(scalar: Scalar, size: nat)

  /** The scalar value at the front. The second octet's range keeps out overlong forms and surrogates. */
  function DecodeRune(b: Octets): (r: Option<Rune>)
    requires b != []
    ensures r.Some? ==> 1 <= r.value.size <= |b|
  {
    var first := b[0] as int;
    if first < 0x80 then Some(Rune(first, 1))
    else if 0xC2 <= first < 0xE0 && Continues(b, 1) then Some(Rune((first - 0xC0) * 0x40 + Low6(b, 1), 2))
    else if 0xE0 <= first < 0xF0 && Continues(b, 1) && Continues(b, 2)
            && (first == 0xE0 ==> b[1] >= 0xA0) && (first == 0xED ==> b[1] < 0xA0)
    then Some(Rune((first - 0xE0) * 0x1000 + Low6(b, 1) * 0x40 + Low6(b, 2), 3))
    else if 0xF0 <= first < 0xF5 && Continues(b, 1) && Continues(b, 2) && Continues(b, 3)
            && (first == 0xF0 ==> b[1] >= 0x90) && (first == 0xF4 ==> b[1] < 0x90)
    then Some(Rune((first - 0xF0) * 0x4_0000 + Low6(b, 1) * 0x1000 + Low6(b, 2) * 0x40 + Low6(b, 3), 4))
    else None
  }

  function Decode(b: Octets): Option<seq<Scalar>>
    decreases |b|
  {
    if b == [] then Some([])
    else
      match DecodeRune(b)
      case None => None
      case Some(rune) =>
        match Decode(b[rune.size..])
        case None => None
        case Some(rest) => Some([rune.scalar] + rest)
  }

  predicate Valid(b: Octets) {
    Decode(b).Some?
  }

  lemma RuneBack(c: Scalar, rest: Octets)
    ensures DecodeRune(EncodeScalar(c) + rest) == Some(Rune(c, |EncodeScalar(c)|))
  {
    var n: int := c;
    var b := EncodeScalar(c) + rest;
    if n < 0x80 {
    } else if n < 0x800 {
      Digits(n);
    } else if n < 0x1_0000 {
      Digits(n);
      Digits(n / 0x40);
      assert n / 0x40 / 0x40 == n / 0x1000;
    } else {
      Digits(n);
      Digits(n / 0x40);
      Digits(n / 0x1000);
      assert n / 0x40 / 0x40 == n / 0x1000 && n / 0x1000 / 0x40 == n / 0x4_0000;
    }
  }

  lemma Digits(n: nat)
    ensures n == n / 0x40 * 0x40 + n % 0x40 && n % 0x40 < 0x40
  {
  }

  /** A scalar value has one spelling. */
  lemma RuneIsEncoded(b: Octets)
    requires b != [] && DecodeRune(b).Some?
    ensures var rune := DecodeRune(b).value; b[..rune.size] == EncodeScalar(rune.scalar)
  {
    var rune := DecodeRune(b).value;
    var n: int := rune.scalar;
    if rune.size == 2 {
      Split(b[0] as int - 0xC0, Low6(b, 1), n);
    } else if rune.size == 3 {
      var high := (b[0] as int - 0xE0) * 0x40 + Low6(b, 1);
      Split(high, Low6(b, 2), n);
      Split(b[0] as int - 0xE0, Low6(b, 1), high);
      assert n / 0x1000 == high / 0x40;
    } else if rune.size == 4 {
      var higher := (b[0] as int - 0xF0) * 0x40 + Low6(b, 1);
      var high := higher * 0x40 + Low6(b, 2);
      Split(high, Low6(b, 3), n);
      Split(higher, Low6(b, 2), high);
      Split(b[0] as int - 0xF0, Low6(b, 1), higher);
      assert n / 0x1000 == higher && n / 0x4_0000 == higher / 0x40;
    }
  }

  lemma Split(q: nat, r: nat, n: nat)
    requires r < 0x40 && n == q * 0x40 + r
    ensures n / 0x40 == q && n % 0x40 == r
  {
  }

  /** Decoding inverts encoding. */
  lemma {:induction false} DecodeInvertsEncode(text: seq<Scalar>)
    ensures Decode(Encode(text)) == Some(text)
  {
    hide DecodeRune, EncodeScalar;
    if text != [] {
      var first, rest := EncodeScalar(text[0]), Encode(text[1..]);
      RuneBack(text[0], rest);
      assert (first + rest)[|first|..] == rest;
      DecodeInvertsEncode(text[1..]);
      assert text == [text[0]] + text[1..];
    }
  }

  /** Only what encoding gives is valid. */
  lemma {:induction false} ValidIsEncoded(b: Octets)
    requires Valid(b)
    ensures Encode(Decode(b).value) == b
    decreases |b|
  {
    hide DecodeRune, EncodeScalar;
    if b != [] {
      var rune := DecodeRune(b).value;
      RuneIsEncoded(b);
      ValidIsEncoded(b[rune.size..]);
      var rest := Decode(b[rune.size..]).value;
      assert ([rune.scalar] + rest)[1..] == rest;
      assert b == b[..rune.size] + b[rune.size..];
    }
  }
}
