/** Decimal digit strings: fixed-width rendering of a number (the zero
    padding a date pattern applies) and the value of a digit string
    (`Integer.parseInt` on the digits the date slices hold). */
module Decimal {

  predicate IsDigit(c: char) {
    '0' <= c <= '9'
  }

  predicate AllDigits(s: string) {
    forall i :: 0 <= i < |s| ==> IsDigit(s[i])
  }

  function Pow10(n: nat): (r: nat)
    ensures r >= 1
  {
    if n == 0 then 1 else 10 * Pow10(n - 1)
  }

  function DigitChar(d: nat): (c: char)
    requires d < 10
    ensures IsDigit(c)
  {
    ('0' as int + d) as char
  }

  function DigitValue(c: char): (d: nat)
    requires IsDigit(c)
    ensures d < 10
  {
    c as int - '0' as int
  }

  /** The last `width` decimal digits of `n`, zero-padded on the left. */
  function Digits(n: nat, width: nat): (r: string)
    ensures |r| == width
    ensures AllDigits(r)
  {
    if width == 0 then "" else Digits(n / 10, width - 1) + [DigitChar(n % 10)]
  }

  /** The number a digit string denotes; leading zeros are allowed. */
  function Value(s: string): (r: nat)
    requires AllDigits(s)
    ensures r < Pow10(|s|)
  {
    if |s| == 0 then 0 else Value(s[..|s| - 1]) * 10 + DigitValue(s[|s| - 1])
  }

  /** How many digits `n` has without padding. */
  function NumDigits(n: nat): (r: nat)
    ensures r >= 1
    ensures n < Pow10(r)
    ensures r > 1 ==> Pow10(r - 1) <= n
  {
    if n < 10 then 1 else 1 + NumDigits(n / 10)
  }

  /** A number padded to at least `minWidth` digits, as a numeric field
      with that many pattern letters renders it. */
  function Padded(n: nat, minWidth: nat): (r: string)
    ensures AllDigits(r)
    ensures |r| == if NumDigits(n) < minWidth then minWidth else NumDigits(n)
  {
    Digits(n, if NumDigits(n) < minWidth then minWidth else NumDigits(n))
  }

  /** Rendering with enough digits and reading back gives the number. */
  lemma {:induction false} ValueOfDigits(n: nat, width: nat)
    requires n < Pow10(width)
    ensures Value(Digits(n, width)) == n
  {
    if width > 0 {
      var s := Digits(n, width);
      ValueOfDigits(n / 10, width - 1);
      assert s[..|s| - 1] == Digits(n / 10, width - 1);
      assert DigitValue(s[|s| - 1]) == n % 10;
    }
  }

  /** Reading a digit string and rendering it at its own width gives the
      string back. */
  lemma {:induction false} DigitsOfValue(s: string)
    requires AllDigits(s)
    ensures Digits(Value(s), |s|) == s
  {
    if |s| > 0 {
      var init := s[..|s| - 1];
      var v := Value(s);
      assert v / 10 == Value(init);
      assert v % 10 == DigitValue(s[|s| - 1]);
      DigitsOfValue(init);
      assert DigitChar(DigitValue(s[|s| - 1])) == s[|s| - 1];
      assert s == init + [s[|s| - 1]];
    }
  }

  /** Padding is invisible to the value. */
  lemma ValueOfPadded(n: nat, minWidth: nat)
    ensures Value(Padded(n, minWidth)) == n
  {
    var w := if NumDigits(n) < minWidth then minWidth else NumDigits(n);
    Pow10Monotone(NumDigits(n), w);
    ValueOfDigits(n, w);
  }

  lemma {:induction false} Pow10Monotone(a: nat, b: nat)
    requires a <= b
    ensures Pow10(a) <= Pow10(b)
  {
    if a < b {
      Pow10Monotone(a, b - 1);
    }
  }

  /** A number that fits the minimum width is rendered at exactly that
      width. */
  lemma PaddedFits(n: nat, minWidth: nat)
    requires 1 <= minWidth && n < Pow10(minWidth)
    ensures Padded(n, minWidth) == Digits(n, minWidth)
  {
    if NumDigits(n) > minWidth {
      Pow10Monotone(minWidth, NumDigits(n) - 1);
    }
  }

  lemma AllDigitsAppend(s: string, t: string)
    requires AllDigits(s) && AllDigits(t)
    ensures AllDigits(s + t)
  {
    forall i | 0 <= i < |s + t| ensures IsDigit((s + t)[i]) {
      if i < |s| { assert (s + t)[i] == s[i]; } else { assert (s + t)[i] == t[i - |s|]; }
    }
  }

  /** Reading two digit strings written one after the other. */
  lemma {:induction false} ValueAppend(s: string, t: string)
    requires AllDigits(s) && AllDigits(t)
    ensures AllDigits(s + t)
    ensures Value(s + t) == Value(s) * Pow10(|t|) + Value(t)
    decreases |t|
  {
    AllDigitsAppend(s, t);
    if t == [] {
      assert s + t == s;
    } else {
      var init := t[..|t| - 1];
      var last := t[|t| - 1];
      assert (s + t)[..|s + t| - 1] == s + init;
      assert (s + t)[|s + t| - 1] == last;
      ValueAppend(s, init);
      var a, p, v, e := Value(s), Pow10(|init|), Value(init), DigitValue(last);
      assert Value(s + t) == Value(s + init) * 10 + e;
      assert Value(t) == v * 10 + e;
      assert Pow10(|t|) == p * 10;
      ShiftByTen(a, p);
    }
  }

  lemma ShiftByTen(a: int, p: int)
    ensures (a * p) * 10 == a * (p * 10)
  {
  }
}
