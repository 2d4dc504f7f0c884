/** Decimal digits as Go's time and fmt packages write and read them: a fixed-width,
    zero-padded rendering, the natural rendering with a sign, and the value of a digit
    string. */
module Decimal {

  predicate IsDigit(c: char) {
    '0' <= c <= '9'
  }

  predicate AllDigits(s: string) {
    forall i :: 0 <= i < |s| ==> IsDigit(s[i])
  }

  function DigitChar(d: nat): (c: char)
    requires d < 10
    ensures IsDigit(c)
  {
    ('0' as int + d) as char
  }

  function DigitValue(c: char): (d: nat)
    requires IsDigit(c)
    ensures d < 10 && DigitChar(d) == c
  {
    c as int - '0' as int
  }

  function Pow10(n: nat): (p: nat)
    ensures p >= 1
  {
    if n == 0 then 1 else 10 * Pow10(n - 1)
  }

  function Max(a: nat, b: nat): nat {
    if a < b then b else a
  }

  /** The `width` last decimal digits of `n`, padded with zeros on the left. */
  function Fixed(n: nat, width: nat): (s: string)
    ensures |s| == width && AllDigits(s)
  {
    if width == 0 then "" else Fixed(n / 10, width - 1) + [DigitChar(n % 10)]
  }

  /** The number a string of digits denotes, read most significant digit first. */
  function ValueOf(s: string): nat
    requires AllDigits(s)
  {
    if s == "" then 0 else 10 * ValueOf(s[..|s| - 1]) + DigitValue(s[|s| - 1])
  }

  /** How many digits `n` needs (one for zero). */
  function NumDigits(n: nat): (k: nat)
    ensures k >= 1
  {
    if n < 10 then 1 else 1 + NumDigits(n / 10)
  }

  /** A sign for negative values, then the digits of the magnitude padded with zeros
      to at least `width` digits: what Go's time formatter writes for a numeric field
      (appendInt in time/format.go). */
  function PadInt(x: int, width: nat): string {
    var u := if x < 0 then -x else x;
    (if x < 0 then "-" else "") + Fixed(u, Max(width, NumDigits(u)))
  }

  /** An integer in decimal, as fmt's %v and %d print it. */
  function Show(x: int): string {
    PadInt(x, 0)
  }

  lemma {:induction false} ValueOfFixed(n: nat, width: nat)
    requires n < Pow10(width)
    ensures ValueOf(Fixed(n, width)) == n
  {
    if width > 0 {
      var s := Fixed(n, width);
      assert s[..|s| - 1] == Fixed(n / 10, width - 1);
      ValueOfFixed(n / 10, width - 1);
    }
  }

  lemma {:induction false} FixedOfValue(s: string)
    requires AllDigits(s)
    ensures Fixed(ValueOf(s), |s|) == s
  {
    if s != "" {
      var init := s[..|s| - 1];
      var d := DigitValue(s[|s| - 1]);
      assert ValueOf(s) / 10 == ValueOf(init) && ValueOf(s) % 10 == d;
      FixedOfValue(init);
      assert s == init + [s[|s| - 1]];
    }
  }

  lemma {:induction false} ValueOfBound(s: string)
    requires AllDigits(s)
    ensures ValueOf(s) < Pow10(|s|)
  {
    if s != "" {
      ValueOfBound(s[..|s| - 1]);
    }
  }

  lemma {:induction false} NumDigitsBound(n: nat, width: nat)
    requires 1 <= width && n < Pow10(width)
    ensures NumDigits(n) <= width
  {
    if n >= 10 {
      NumDigitsBound(n / 10, width - 1);
    }
  }

  /** For a value that fits, the padded rendering is exactly `width` digits wide and
      reads back as the value. */
  lemma PadIntFits(n: nat, width: nat)
    requires 1 <= width && n < Pow10(width)
    ensures PadInt(n, width) == Fixed(n, width)
    ensures ValueOf(PadInt(n, width)) == n
  {
    NumDigitsBound(n, width);
    ValueOfFixed(n, width);
  }
}
