/** Decimal numbers as text, for every part that reads or prints them. */
module Digits {
  predicate Digit(c: char) {
    '0' <= c <= '9'
  }

  function DigitValue(c: char): nat
    requires Digit(c)
  {
    c as nat - '0' as nat
  }

  /** The number a run of decimal digits stands for. */
  function Numeric(digits: string): nat
    requires AllDigits(digits)
  {
    if digits == [] then 0 else Numeric(digits[..|digits| - 1]) * 10 + DigitValue(digits[|digits| - 1])
  }

  predicate AllDigits(s: string) {
    forall k :: 0 <= k < |s| ==> Digit(s[k])
  }

  function Pow10(n: nat): (r: nat)
    ensures r > 0
  {
    if n == 0 then 1 else 10 * Pow10(n - 1)
  }

  /** The first digit of a number weighs as much as its position says. */
  lemma {:induction false} ValueCons(c: char, s: string)
    requires Digit(c) && AllDigits(s)
    ensures Numeric([c] + s) == DigitValue(c) * Pow10(|s|) + Numeric(s)
  {
    var t := [c] + s;
    if s == [] {
      assert t[..0] == [];
    } else {
      var n := |s| - 1;
      assert t[..|t| - 1] == [c] + s[..n];
      ValueCons(c, s[..n]);
      assert t[|t| - 1] == s[n];
    }
  }

  lemma NoDigits()
    ensures Numeric("") == 0
  {
  }

  /** A number as `printf` writes it. */
  function Decimal(n: nat): (s: string)
    ensures s != [] && AllDigits(s)
  {
    if n < 10 then [DigitChar(n)] else Decimal(n / 10) + [DigitChar(n % 10)]
  }

  function DigitChar(d: nat): (c: char)
    requires d < 10
    ensures Digit(c) && DigitValue(c) == d
  {
    '0' + d as char
  }

  /** Reading a printed number gives the number back. */
  lemma {:induction false} DecimalValue(n: nat)
    ensures Numeric(Decimal(n)) == n
  {
    var s := Decimal(n);
    if n < 10 {
      assert s[..|s| - 1] == [];
    } else {
      DecimalValue(n / 10);
      assert s[..|s| - 1] == Decimal(n / 10);
    }
  }

  lemma ValueSnoc(s: string, c: char)
    requires AllDigits(s) && Digit(c)
    ensures AllDigits(s + [c]) && Numeric(s + [c]) == Numeric(s) * 10 + DigitValue(c)
  {
    assert (s + [c])[..|s|] == s;
  }
}
