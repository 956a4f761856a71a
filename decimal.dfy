/** Decimal rendering of integers as Rust's `format!` does it for `{}` and `{:0w}`. */
module Decimal {

  predicate IsDigit(c: char) {
    '0' <= c <= '9'
  }

  predicate AllDigits(s: string) {
    forall i :: 0 <= i < |s| ==> IsDigit(s[i])
  }

  function DigitChar(d: nat): (c: char)
    requires d < 10
    ensures IsDigit(c) && DigitValue(c) == d
  {
    ('0' as int + d) as char
  }

  function DigitValue(c: char): nat
    requires IsDigit(c)
  {
    c as int - '0' as int
  }

  /** The shortest decimal rendering of `n` (what `{}` prints for an unsigned integer). */
  function Digits(n: nat): (s: string)
    ensures 1 <= |s|
    decreases n
  {
    if n < 10 then [DigitChar(n)] else Digits(n / 10) + [DigitChar(n % 10)]
  }

  lemma {:induction false} DigitsAreDigits(n: nat)
    ensures AllDigits(Digits(n))
    decreases n
  {
    if n >= 10 {
      DigitsAreDigits(n / 10);
    }
  }

  /** What `{}` prints for a signed integer. */
  function IntString(i: int): (s: string)
    ensures 1 <= |s|
    ensures i < 0 ==> s[0] == '-' && s[1..] == Digits(-i)
    ensures i >= 0 ==> s == Digits(i)
  {
    if i < 0 then "-" + Digits(-i) else Digits(i)
  }

  function Zeros(k: nat): string {
    seq(k, _ => '0')
  }

  /** `{:0w}`: the decimal rendering of `n`, left-padded with '0' up to `width` characters. */
  function ZeroPadded(n: nat, width: nat): (s: string)
    ensures |s| == if |Digits(n)| < width then width else |Digits(n)|
  {
    var d := Digits(n);
    if |d| < width then Zeros(width - |d|) + d else d
  }

  /** The number a string of decimal digits denotes. */
  function Value(s: string): nat
    requires AllDigits(s)
  {
    if s == [] then 0 else Value(s[..|s| - 1]) * 10 + DigitValue(s[|s| - 1])
  }

  lemma {:induction false} ValueOfDigits(n: nat)
    ensures AllDigits(Digits(n)) && Value(Digits(n)) == n
    decreases n
  {
    var d := Digits(n);
    DigitsAreDigits(n);
    if n >= 10 {
      ValueOfDigits(n / 10);
      assert d[..|d| - 1] == Digits(n / 10);
    }
  }

  lemma {:induction false} ValueOfZeros(k: nat)
    ensures Value(Zeros(k)) == 0
  {
    if k > 0 {
      assert Zeros(k)[..k - 1] == Zeros(k - 1);
      ValueOfZeros(k - 1);
    }
  }

  /** Leading zeros do not change the value of a digit string. */
  lemma {:induction false} ValueIgnoresLeadingZeros(k: nat, s: string)
    requires AllDigits(s)
    ensures AllDigits(Zeros(k) + s) && Value(Zeros(k) + s) == Value(s)
    decreases |s|
  {
    var t := Zeros(k) + s;
    if s == [] {
      assert t == Zeros(k);
      ValueOfZeros(k);
    } else {
      assert t[..|t| - 1] == Zeros(k) + s[..|s| - 1];
      ValueIgnoresLeadingZeros(k, s[..|s| - 1]);
    }
  }

  /** Parsing a zero-padded rendering gives back the number: `{:0w}` loses nothing. */
  lemma ValueOfZeroPadded(n: nat, width: nat)
    ensures AllDigits(ZeroPadded(n, width)) && Value(ZeroPadded(n, width)) == n
  {
    var d := Digits(n);
    ValueOfDigits(n);
    if |d| < width {
      ValueIgnoresLeadingZeros(width - |d|, d);
    }
  }

  /** Distinct numbers have distinct zero-padded renderings. */
  lemma ZeroPaddedInjective(a: nat, b: nat, width: nat)
    requires ZeroPadded(a, width) == ZeroPadded(b, width)
    ensures a == b
  {
    ValueOfZeroPadded(a, width);
    ValueOfZeroPadded(b, width);
  }

  /** Numbers below 10^4 render in exactly four characters under `{:04}`. */
  lemma {:induction false} FourDigitsBelowTenThousand(n: nat)
    requires n < 10000
    ensures |ZeroPadded(n, 4)| == 4
  {
    assert |Digits(n)| <= 4 by {
      if n >= 10 {
        assert |Digits(n / 10)| <= 3 by {
          if n / 10 >= 10 {
            assert |Digits(n / 100)| <= 2 by {
              assert n / 10 / 10 == n / 100;
              if n / 100 >= 10 {
                assert n / 100 / 10 < 10;
              }
            }
          }
        }
      }
    }
  }

  /** The first two chunk numbers under `{:04}`. */
  lemma FirstTwoPadded()
    ensures ZeroPadded(1, 4) == "0001" && ZeroPadded(2, 4) == "0002"
  {
    assert Digits(1) == "1" && Digits(2) == "2";
    assert Zeros(3) == "000";
  }
}
