/** Decimal text of natural numbers: Python's `str(n)`, the `{n:02d}` format
    the countdown uses for every clock field, and `int(s)` on a string of
    ASCII digits. */
module Decimal {

  /** An ASCII digit, as the character class `[0-9]` matches it. */
  predicate IsDigit(c: char)
  {
    '0' <= c <= '9'
  }

  predicate AllDigits(s: string)
  {
    forall k | 0 <= k < |s| :: IsDigit(s[k])
  }

  function DigitChar(d: nat): (c: char)
    requires d < 10
    ensures IsDigit(c)
  {
    ('0' as int + d) as char
  }

  function DigitValue(c: char): (d: nat)
    requires IsDigit(c)
    ensures d < 10 && DigitChar(d) == c
  {
    c as int - '0' as int
  }

  /** `str(n)`: the shortest decimal text of `n`. */
  function Digits(n: nat): (r: string)
    ensures |r| >= 1 && AllDigits(r)
    ensures (|r| == 1) == (n < 10)
  {
    if n < 10 then [DigitChar(n)] else Digits(n / 10) + [DigitChar(n % 10)]
  }

  /** `int(s)` for a string of ASCII digits (leading zeros allowed). */
  function Value(s: string): nat
    requires AllDigits(s)
  {
    if |s| == 0 then 0 else Value(s[..|s| - 1]) * 10 + DigitValue(s[|s| - 1])
  }

  /** `f"{n:02d}"`: the decimal text of `n`, zero-padded to at least two digits. */
  function Pad2(n: nat): (r: string)
    ensures AllDigits(r)
    ensures |r| >= 2 && (n < 100 ==> |r| == 2)
  {
    if n < 10 then "0" + Digits(n) else Digits(n)
  }

  /** `int(str(n)) == n`. */
  lemma {:induction false} ValueOfDigits(n: nat)
    ensures Value(Digits(n)) == n
  {
    if n >= 10 {
      ValueOfDigits(n / 10);
      var d := Digits(n);
      assert d[..|d| - 1] == Digits(n / 10);
    }
  }

  /** `int(f"{n:02d}") == n`. */
  lemma ValueOfPad2(n: nat)
    ensures Value(Pad2(n)) == n
  {
    ValueOfDigits(n);
    if n < 10 {
      var p := Pad2(n);
      assert p[..1] == "0";
    }
  }

  /** Two ASCII digits are the `{:02d}` text of their value. */
  lemma Pad2OfValue(s: string)
    requires |s| == 2 && AllDigits(s)
    ensures Value(s) < 100 && Pad2(Value(s)) == s
  {
    assert s[..1] == [s[0]] && s[..1][..0] == [];
    assert Value(s[..1]) == DigitValue(s[0]);
    var v := Value(s);
    assert v == DigitValue(s[0]) * 10 + DigitValue(s[1]);
    if v >= 10 {
      assert Digits(v / 10) == [s[0]];
    }
  }
}
