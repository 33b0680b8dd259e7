/** Unsigned decimal numbers as text. */
module Decimal {
  import opened Wrappers
  import opened Text

  const U16_MAX := 0xFFFF
  const U32_MAX := 0xFFFF_FFFF
  const U64_MAX := 0xFFFF_FFFF_FFFF_FFFF

  predicate IsDigit(c: char) {
    '0' <= c <= '9'
  }

  function DigitChar(d: nat): char
    requires d < 10
  {
    '0' + d as char
  }

  function DigitValue(c: char): nat
    requires IsDigit(c)
  {
    (c - '0') as nat
  }

  function Digits(n: nat): (s: string)
    ensures s != [] && forall c | c in s :: IsDigit(c)
  {
    if n < 10 then [DigitChar(n)] else Digits(n / 10) + [DigitChar(n % 10)]
  }

  /** `{:0width}`: at least `width` digits. */
  function PaddedDigits(n: nat, width: nat): (s: string)
    ensures s != [] && forall c | c in s :: IsDigit(c)
  {
    var d := Digits(n);
    seq(if width > |d| then width - |d| else 0, i => '0') + d
  }

  function Value(s: string): nat
    requires forall c | c in s :: IsDigit(c)
  {
    if s == [] then 0 else 10 * Value(s[..|s| - 1]) + DigitValue(s[|s| - 1])
  }

  /** Parsing as the standard library does for unsigned types: an optional plus sign, at
    * least one digit, nothing else, and no overflow past `limit`. */
  function ParseUnsigned(s: string, limit: nat): Option<nat> {
    var digits := if |s| > 1 && s[0] == '+' then s[1..] else s;
    if digits == [] || exists c | c in digits :: !IsDigit(c) then None
    else if Value(digits) > limit then None
    else Some(Value(digits))
  }

  lemma {:induction false} DigitsValue(n: nat)
    ensures Value(Digits(n)) == n
  {
    if n >= 10 {
      DigitsValue(n / 10);
      var s := Digits(n);
      assert s[..|s| - 1] == Digits(n / 10);
    }
  }

  lemma {:induction false} LeadingZeros(k: nat, s: string)
    requires forall c | c in s :: IsDigit(c)
    ensures Value(seq(k, i => '0') + s) == Value(s)
  {
    var z := seq(k, i => '0');
    if s == [] {
      assert z + s == z;
      if k > 0 {
        assert z[..k - 1] == seq(k - 1, i => '0') + s;
        LeadingZeros(k - 1, s);
      }
    } else {
      assert (z + s)[..|z + s| - 1] == z + s[..|s| - 1];
      LeadingZeros(k, s[..|s| - 1]);
    }
  }

  lemma ParseOfDigits(n: nat, limit: nat)
    ensures ParseUnsigned(Digits(n), limit) == if n <= limit then Some(n) else None
  {
    DigitsValue(n);
    assert Digits(n)[0] in Digits(n);
  }

  lemma ParseOfPaddedDigits(n: nat, width: nat, limit: nat)
    ensures ParseUnsigned(PaddedDigits(n, width), limit) == if n <= limit then Some(n) else None
  {
    var d, s := Digits(n), PaddedDigits(n, width);
    LeadingZeros(if width > |d| then width - |d| else 0, d);
    DigitsValue(n);
    assert s[0] in s;
  }

  lemma DigitsAreVisible(n: nat)
    ensures NoSpace(Digits(n)) && '.' !in Digits(n)
  {
    var d := Digits(n);
    forall i | 0 <= i < |d|
      ensures !IsSpace(d[i])
    {
      assert d[i] in d;
    }
  }
}
