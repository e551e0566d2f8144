/**
 * Python's `'%08d' % n` for non-negative integers: the decimal digits of n,
 * left-padded with zeros to at least eight characters (never truncated).
 */
module Decimal {

  /** True if every character of s is an ASCII decimal digit. */
  predicate IsDigits(s: string) {
    forall i :: 0 <= i < |s| ==> '0' <= s[i] <= '9'
  }

  function DigitChar(d: nat): (c: char)
    requires d < 10
    ensures '0' <= c <= '9'
  {
    ('0' as int + d) as char
  }

  function DigitValue(c: char): (d: nat)
    requires '0' <= c <= '9'
    ensures d < 10
  {
    c as int - '0' as int
  }

  /** `str(n)`: the shortest decimal rendering of n. */
  function Digits(n: nat): (s: string)
    ensures |s| >= 1
    decreases n
  {
    if n < 10 then [DigitChar(n)] else Digits(n / 10) + [DigitChar(n % 10)]
  }

  function Zeros(k: nat): (s: string)
    ensures |s| == k
  {
    seq(k, _ => '0')
  }

  /** `'%08d' % n`. */
  function Pad8(n: nat): (s: string)
    ensures |s| >= 8
  {
    var d := Digits(n);
    if |d| >= 8 then d else Zeros(8 - |d|) + d
  }

  /** The number a string of decimal digits denotes (leading zeros allowed). */
  function Value(s: string): nat
    requires IsDigits(s)
    decreases |s|
  {
    if s == [] then 0 else Value(s[..|s| - 1]) * 10 + DigitValue(s[|s| - 1])
  }

  function Pow10(k: nat): nat
  {
    if k == 0 then 1 else 10 * Pow10(k - 1)
  }

  lemma {:induction false} DigitsValue(n: nat)
    ensures IsDigits(Digits(n)) && Value(Digits(n)) == n
    decreases n
  {
    var s := Digits(n);
    if n >= 10 {
      DigitsValue(n / 10);
      assert s[..|s| - 1] == Digits(n / 10);
    }
  }

  lemma {:induction false} ZerosValue(k: nat)
    ensures IsDigits(Zeros(k)) && Value(Zeros(k)) == 0
  {
    if k > 0 {
      assert Zeros(k)[..k - 1] == Zeros(k - 1);
      ZerosValue(k - 1);
    }
  }

  /** Leading zeros do not change the value. */
  lemma {:induction false} LeadingZerosValue(k: nat, s: string)
    requires IsDigits(s)
    ensures IsDigits(Zeros(k) + s) && Value(Zeros(k) + s) == Value(s)
    decreases |s|
  {
    var t := Zeros(k) + s;
    if s == [] {
      assert t == Zeros(k);
      ZerosValue(k);
    } else {
      assert t[..|t| - 1] == Zeros(k) + s[..|s| - 1];
      LeadingZerosValue(k, s[..|s| - 1]);
    }
  }

  /** `'%08d' % n` is all digits, and reading it back as a number gives n. */
  lemma Pad8Value(n: nat)
    ensures IsDigits(Pad8(n)) && Value(Pad8(n)) == n
  {
    DigitsValue(n);
    var d := Digits(n);
    if |d| < 8 {
      LeadingZerosValue(8 - |d|, d);
    }
  }

  /** Distinct numbers are rendered as distinct strings. */
  lemma Pad8Injective(a: nat, b: nat)
    ensures Pad8(a) == Pad8(b) ==> a == b
  {
    Pad8Value(a);
    Pad8Value(b);
  }

  lemma {:induction false} DigitsLength(n: nat, k: nat)
    requires k >= 1 && n < Pow10(k)
    ensures |Digits(n)| <= k
    decreases n
  {
    if n >= 10 {
      assert k >= 2;
      assert n / 10 < Pow10(k - 1);
      DigitsLength(n / 10, k - 1);
    }
  }

  /** Below 10^8 the rendering is exactly eight characters wide. */
  lemma Pad8Width(n: nat)
    requires n < 100000000
    ensures |Pad8(n)| == 8
  {
    assert Pow10(8) == 100000000;
    DigitsLength(n, 8);
  }
}
