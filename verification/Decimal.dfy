/** Decimal text of naturals, as Rust's `{n}` formatting writes it, and its inverse. */
module Decimal {
  const DIGITS: string := "0123456789"

  predicate IsDigit(c: char) {
    '0' <= c <= '9'
  }

  function DigitValue(c: char): (v: nat)
    requires IsDigit(c)
    ensures v < 10 && DIGITS[v] == c
  {
    (c as int) - ('0' as int)
  }

  /** The digits of `n`, most significant first and without leading zeros. */
  function ToText(n: nat): (s: string)
    ensures s != []
    ensures forall i :: 0 <= i < |s| ==> IsDigit(s[i])
  {
    if n < 10 then [DIGITS[n]] else ToText(n / 10) + [DIGITS[n % 10]]
  }

  /** The value of a string of digits, read from the left. */
  function Value(s: string): nat
    requires forall i :: 0 <= i < |s| ==> IsDigit(s[i])
  {
    if s == [] then 0 else 10 * Value(s[..|s| - 1]) + DigitValue(s[|s| - 1])
  }

  function Zeros(k: nat): (s: string)
    ensures |s| == k && forall i :: 0 <= i < |s| ==> s[i] == '0'
  {
    seq(k, _ => '0')
  }

  /** Reading back the digits of `n`, with any number of zeros in front, gives `n`. */
  lemma {:induction false} ValueOfText(k: nat, n: nat)
    ensures Value(Zeros(k) + ToText(n)) == n
  {
    if n < 10 {
      ValueOfZeros(k);
      ValueAppend(Zeros(k), n);
      assert Zeros(k) + ToText(n) == Zeros(k) + [DIGITS[n]];
    } else {
      ValueOfText(k, n / 10);
      ValueAppend(Zeros(k) + ToText(n / 10), n % 10);
      assert Zeros(k) + ToText(n) == Zeros(k) + ToText(n / 10) + [DIGITS[n % 10]];
    }
  }

  lemma ValueAppend(s: string, d: nat)
    requires d < 10 && forall i :: 0 <= i < |s| ==> IsDigit(s[i])
    ensures IsDigit(DIGITS[d]) && Value(s + [DIGITS[d]]) == 10 * Value(s) + d
  {
    assert (s + [DIGITS[d]])[..|s|] == s;
  }

  lemma {:induction false} ValueOfZeros(k: nat)
    ensures Value(Zeros(k)) == 0
  {
    if k > 0 {
      assert Zeros(k)[..k - 1] == Zeros(k - 1);
      ValueOfZeros(k - 1);
    }
  }

  lemma {:induction false} NoLeadingZero(n: nat)
    requires n > 0
    ensures ToText(n)[0] != '0'
  {
    if n >= 10 {
      NoLeadingZero(n / 10);
    }
  }

  /** Different numbers have different texts. */
  lemma TextInjective(m: nat, n: nat)
    ensures ToText(m) == ToText(n) <==> m == n
  {
    ValueOfText(0, m);
    ValueOfText(0, n);
    assert Zeros(0) + ToText(m) == ToText(m) && Zeros(0) + ToText(n) == ToText(n);
  }
}
