/** Digit strings and their values: the arithmetic beneath `parseInt`,
    number-to-text conversion and the zero-padded fields of ISO dates. */
module Numerals {

  predicate IsDecimalDigit(c: char) {
    '0' <= c <= '9'
  }

  predicate IsHexLetter(c: char) {
    ('a' <= c <= 'f') || ('A' <= c <= 'F')
  }

  /** A digit of the given radix; only radix 10 and radix 16 occur in the model. */
  predicate IsDigitOf(c: char, radix: nat) {
    if radix == 16 then IsDecimalDigit(c) || IsHexLetter(c) else IsDecimalDigit(c)
  }

  predicate AllDigitsOf(s: string, radix: nat) {
    forall i :: 0 <= i < |s| ==> IsDigitOf(s[i], radix)
  }

  predicate AllDecimal(s: string) {
    forall i :: 0 <= i < |s| ==> IsDecimalDigit(s[i])
  }

  function DigitValue(c: char): (d: nat)
    requires IsDecimalDigit(c) || IsHexLetter(c)
    ensures IsDecimalDigit(c) ==> d < 10
    ensures d < 16
  {
    if IsDecimalDigit(c) then (c as int - '0' as int)
    else if 'a' <= c <= 'f' then (c as int - 'a' as int) + 10
    else (c as int - 'A' as int) + 10
  }

  /** The value of a digit string read most significant digit first. */
  function ValueOf(s: string, radix: nat): nat
    requires AllDigitsOf(s, radix)
  {
    if |s| == 0 then 0
    else ValueOf(s[..|s| - 1], radix) * radix + DigitValue(s[|s| - 1])
  }

  function DigitChar(d: nat): (c: char)
    requires d < 10
    ensures IsDecimalDigit(c) && DigitValue(c) == d
  {
    ('0' as int + d) as char
  }

  /** A character that is not a digit does not occur in a run of digits. */
  lemma NoCharInDigits(ds: string, c: char)
    requires AllDecimal(ds) && !IsDecimalDigit(c)
    ensures c !in ds
  {
  }

  /** Length of the longest prefix of `s` made of digits of `radix`. */
  function DigitRun(s: string, radix: nat): (k: nat)
    ensures k <= |s|
  {
    if |s| == 0 || !IsDigitOf(s[0], radix) then 0
    else 1 + DigitRun(s[1..], radix)
  }

  /** The run is all digits, and the character after it is not one. */
  lemma {:induction false} DigitRunMaximal(s: string, radix: nat)
    ensures AllDigitsOf(s[..DigitRun(s, radix)], radix)
    ensures DigitRun(s, radix) < |s| ==> !IsDigitOf(s[DigitRun(s, radix)], radix)
  {
    if |s| > 0 && IsDigitOf(s[0], radix) {
      DigitRunMaximal(s[1..], radix);
      var k := DigitRun(s, radix);
      assert forall i :: 1 <= i < k ==> s[..k][i] == s[1..][..k - 1][i - 1];
    }
  }

  lemma {:induction false} DigitRunOfPrefix(ds: string, rest: string, radix: nat)
    requires AllDigitsOf(ds, radix)
    requires rest == [] || !IsDigitOf(rest[0], radix)
    ensures DigitRun(ds + rest, radix) == |ds|
    ensures (ds + rest)[..|ds|] == ds
  {
    if |ds| > 0 {
      assert (ds + rest)[1..] == ds[1..] + rest;
      DigitRunOfPrefix(ds[1..], rest, radix);
    } else {
      assert ds + rest == rest;
    }
  }

  function Pow10(w: nat): (p: nat)
    ensures p >= 1
  {
    if w == 0 then 1 else 10 * Pow10(w - 1)
  }

  /** The shortest decimal text of `n`, as JavaScript's Number-to-String gives it
      for an integer. */
  function Decimal(n: nat): (s: string)
    ensures |s| >= 1
    ensures AllDecimal(s) && AllDigitsOf(s, 10)
    ensures ValueOf(s, 10) == n
    ensures |s| > 1 ==> s[0] != '0'
    ensures n == 0 <==> s == "0"
  {
    if n < 10 then [DigitChar(n)]
    else
      var front := Decimal(n / 10);
      var s := front + [DigitChar(n % 10)];
      assert s[..|s| - 1] == front;
      s
  }

  /** Two digit strings without superfluous leading zeros that denote the
      same number are the same string: `Decimal` has a unique inverse. */
  lemma {:induction false} DecimalOfValue(s: string)
    requires |s| >= 1 && AllDigitsOf(s, 10)
    requires |s| > 1 ==> s[0] != '0'
    ensures Decimal(ValueOf(s, 10)) == s
  {
    var n := ValueOf(s, 10);
    var front := s[..|s| - 1];
    var last := s[|s| - 1];
    if |s| == 1 {
      assert front == [];
      assert ValueOf(front, 10) == 0;
      assert n == ValueOf(front, 10) * 10 + DigitValue(last);
      assert Decimal(n) == [DigitChar(n)];
      assert DigitChar(DigitValue(last)) == last;
    } else {
      assert front[0] == s[0];
      DecimalOfValue(front);
      NonZeroLeading(front);
      assert n == ValueOf(front, 10) * 10 + DigitValue(last);
      assert n / 10 == ValueOf(front, 10) && n % 10 == DigitValue(last);
      assert DigitChar(DigitValue(last)) == last;
      assert s == front + [last];
    }
  }

  lemma {:induction false} NonZeroLeading(s: string)
    requires |s| >= 1 && AllDigitsOf(s, 10) && s[0] != '0'
    ensures ValueOf(s, 10) >= 1
  {
    if |s| > 1 {
      assert s[..|s| - 1][0] == s[0];
      NonZeroLeading(s[..|s| - 1]);
    }
  }
}
