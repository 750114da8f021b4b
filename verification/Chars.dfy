/** Digits, blanks and decimal numbers in texts. */
module Chars {

  predicate IsDigit(c: char) { '0' <= c <= '9' }

  predicate IsBlank(c: char) { c == ' ' || c == '\t' }

  function Decimal(n: nat): (s: string)
    ensures |s| > 0 && forall c <- s :: IsDigit(c)
  {
    (if n < 10 then "" else Decimal(n / 10)) + ['0' + (n % 10) as char]
  }

  lemma DecimalStep(n: nat)
    ensures Decimal(n) == (if n < 10 then "" else Decimal(n / 10)) + ['0' + (n % 10) as char]
  {
  }

  function DigitValue(c: char): nat {
    if IsDigit(c) then (c - '0') as int else 0
  }

  /** The number that the digits at the start of s append to value, and what follows them. */
  function Digits(s: string, value: nat): (nat, string) {
    if s == "" || !IsDigit(s[0]) then (value, s) else Digits(s[1..], 10 * value + DigitValue(s[0]))
  }

  lemma DigitRead(d: nat, rest: string, value: nat)
    requires d < 10
    ensures Digits(['0' + d as char] + rest, value) == Digits(rest, 10 * value + d)
  {
    var c := '0' + d as char;
    assert ([c] + rest)[1..] == rest && (c - '0') as int == d;
  }

  /** Reading a decimal number gives the number. */
  lemma {:induction false} DecimalRead(n: nat, rest: string)
    ensures Digits(Decimal(n) + rest, 0) == Digits(rest, n)
  {
    hide Digits, Decimal;
    DecimalStep(n);
    var last := ['0' + (n % 10) as char];
    if n < 10 {
      assert Decimal(n) + rest == last + rest;
      DigitRead(n % 10, rest, 0);
    } else {
      assert Decimal(n) + rest == Decimal(n / 10) + (last + rest);
      DecimalRead(n / 10, last + rest);
      DigitRead(n % 10, rest, n / 10);
    }
  }
}
