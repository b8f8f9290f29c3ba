/**
  Decoding of a share's y-value: a digit string in some base (2 to 36)
  read by Horner accumulation. Decimal digits stand for themselves and
  letters, in either case, stand for 10 and up.

  Neither implementation checks that a character is a digit of the base;
  on such input they compute a value that depends on the character set and
  the locale. The model therefore asks for valid digits as a precondition.
*/
module Decoder {

  predicate IsDecimalDigit(c: char) {
    '0' <= c <= '9'
  }

  predicate IsLetter(c: char) {
    'a' <= c <= 'z' || 'A' <= c <= 'Z'
  }

  /** ASCII upper-casing; every character other than 'a'..'z' is left alone. */
  function ToUpper(c: char): (u: char) {
    if 'a' <= c <= 'z' then (c as int - 'a' as int + 'A' as int) as char else c
  }

  /** The value a character stands for: its face value for a decimal digit,
      otherwise its upper-cased code point counted from 'A' = 10. */
  function DigitValue(c: char): (d: int) {
    if IsDecimalDigit(c) then c as int - '0' as int
    else ToUpper(c) as int - 'A' as int + 10
  }

  /** A character that is a digit of `base`. */
  predicate ValidDigit(c: char, base: int) {
    (IsDecimalDigit(c) || IsLetter(c)) && DigitValue(c) < base
  }

  predicate ValidDigits(s: string, base: int) {
    forall i :: 0 <= i < |s| ==> ValidDigit(s[i], base)
  }

  function Power(b: int, e: nat): (p: int) {
    if e == 0 then 1 else b * Power(b, e - 1)
  }

  /** Horner reading of `s`: the empty string is 0, and appending a digit
      multiplies by the base and adds the digit. */
  function Decode(s: string, base: int): (r: int)
    requires ValidDigits(s, base)
    ensures 0 <= r < Power(base, |s|)
    decreases |s|
  {
    if |s| == 0 then 0
    else
      var prefix := s[..|s| - 1];
      var d := DigitValue(s[|s| - 1]);
      var v := Decode(prefix, base);
      BoundStep(v, d, base, Power(base, |s| - 1));
      v * base + d
  }

  /** If v < P and 0 <= d < base then v * base + d < P * base. */
  lemma BoundStep(v: int, d: int, base: int, p: int)
    requires 0 <= v < p && 0 <= d < base
    ensures 0 <= v * base + d < p * base
  {
    assert v * base <= (p - 1) * base;
  }

  /** Positional notation read from the most significant digit:
      the sum of DigitValue(s[i]) * base^(|s|-1-i). */
  function PositionalValue(s: string, base: int): (v: int) {
    if |s| == 0 then 0
    else DigitValue(s[0]) * Power(base, |s| - 1) + PositionalValue(s[1..], base)
  }

  lemma {:induction false} PositionalAppend(p: string, c: char, base: int)
    ensures PositionalValue(p + [c], base) == PositionalValue(p, base) * base + DigitValue(c)
    decreases |p|
  {
    if |p| == 0 {
      assert (p + [c])[1..] == [];
    } else {
      var q := p + [c];
      assert q[0] == p[0];
      assert q[1..] == p[1..] + [c];
      PositionalAppend(p[1..], c, base);
      var head, power := DigitValue(p[0]), Power(base, |p| - 1);
      var rest := PositionalValue(p[1..], base);
      assert PositionalValue(q, base) == head * Power(base, |p|) + PositionalValue(p[1..] + [c], base);
      assert Power(base, |p|) == base * power;
      assert PositionalValue(p, base) == head * power + rest;
      ShiftAlgebra(head, power, rest, base, DigitValue(c));
    }
  }

  /** The ring identity behind one step of PositionalAppend. */
  lemma ShiftAlgebra(head: int, power: int, rest: int, base: int, d: int)
    ensures head * (base * power) + (rest * base + d) == (head * power + rest) * base + d
  {
  }

  /** The Horner accumulation computes positional notation. */
  lemma {:induction false} DecodeIsPositional(s: string, base: int)
    requires ValidDigits(s, base)
    ensures Decode(s, base) == PositionalValue(s, base)
    decreases |s|
  {
    if |s| > 0 {
      var prefix := s[..|s| - 1];
      DecodeIsPositional(prefix, base);
      assert prefix + [s[|s| - 1]] == s;
      PositionalAppend(prefix, s[|s| - 1], base);
    }
  }

  /** The decoding loop of decode_value / decodeValue. */
  method DecodeValue(value: string, base: int) returns (result: int)
    requires ValidDigits(value, base)
    ensures result == PositionalValue(value, base)
    ensures 0 <= result < Power(base, |value|)
  {
    result := 0;
    var i := 0;
    while i < |value|
      invariant 0 <= i <= |value|
      invariant result == Decode(value[..i], base)
    {
      assert value[..i + 1][..i] == value[..i];
      result := result * base + DigitValue(value[i]);
      i := i + 1;
    }
    assert value[..|value|] == value;
    DecodeIsPositional(value, base);
  }

  /** Letters are read without regard to case, and every digit of a base
      up to 36 has a value in [0, 36): decimal digits their face value,
      letters 10 + their place in the alphabet. */
  lemma DigitValueFacts(c: char)
    ensures IsDecimalDigit(c) ==> DigitValue(c) == c as int - '0' as int
    ensures 'A' <= c <= 'Z' ==> DigitValue(c) == 10 + (c as int - 'A' as int)
    ensures 'a' <= c <= 'z' ==> DigitValue(c) == 10 + (c as int - 'a' as int)
    ensures IsDecimalDigit(c) || IsLetter(c) ==> 0 <= DigitValue(c) < 36
  {
  }

  /** Two strings that agree once upper-cased decode to the same value. */
  lemma {:induction false} DecodeIgnoresCase(s: string, t: string, base: int)
    requires ValidDigits(s, base) && ValidDigits(t, base)
    requires |s| == |t|
    requires forall i :: 0 <= i < |s| ==> ToUpper(s[i]) == ToUpper(t[i])
    ensures Decode(s, base) == Decode(t, base)
    decreases |s|
  {
    if |s| > 0 {
      var n := |s| - 1;
      DecodeIgnoresCase(s[..n], t[..n], base);
      assert DigitValue(s[n]) == DigitValue(t[n]);
    }
  }

  lemma DecodeExamples()
    ensures Decode("1A", 16) == 26
    ensures Decode("1a", 16) == 26
    ensures Decode("111", 2) == 7
  {
  }
}
