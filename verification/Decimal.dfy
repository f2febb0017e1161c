/**
 Strings of decimal digits and the numbers they stand for.
 */
module Decimal {
  import opened Powers

  /** What a character adds as a digit; a character past '9' is a digit with a pending carry. */
  function Digit(c: char): int
  {
    c as int - '0' as int
  }

  function DigitChar(d: nat): (c: char)
    requires d <= 10
    ensures Digit(c) == d
  {
    ('0' as int + d) as char
  }

  predicate AllDigits(s: seq<char>)
  {
    forall k :: 0 <= k < |s| ==> '0' <= s[k] <= '9'
  }

  /** The number a digit string stands for, most significant digit first. */
  ghost function Dec(s: seq<char>): int
  {
    if s == [] then 0 else 10 * Dec(s[..|s| - 1]) + Digit(s[|s| - 1])
  }

  lemma DecSnoc(s: seq<char>, c: char)
    ensures Dec(s + [c]) == 10 * Dec(s) + Digit(c)
  {
    assert (s + [c])[..|s|] == s;
  }

  lemma {:induction false} DecAppend(a: seq<char>, b: seq<char>)
    ensures Dec(a + b) == Dec(a) * Pow(10, |b|) + Dec(b)
  {
    if b == [] {
      assert a + b == a;
    } else {
      var n := |b| - 1;
      assert a + b == (a + b[..n]) + [b[n]];
      DecAppend(a, b[..n]);
      DecSnoc(a + b[..n], b[n]);
      MulAssoc(Dec(a), Pow(10, n), 10);
      MulAssoc(Dec(a) * Pow(10, n), 10, 1);
      MulAssoc(Pow(10, n), 10, 1);
    }
  }

  lemma {:induction false} DecBound(s: seq<char>)
    requires AllDigits(s)
    ensures 0 <= Dec(s) < Pow(10, |s|)
  {
    if s != [] { DecBound(s[..|s| - 1]); }
  }

  /** A number with as many digits as it needs has no leading zero. */
  lemma FirstDigit(digits: seq<char>)
    requires |digits| > 0 && AllDigits(digits) && Pow(10, |digits| - 1) <= Dec(digits)
    ensures digits[0] != '0'
  {
    assert digits == digits[..1] + digits[1..];
    DecAppend(digits[..1], digits[1..]);
    DecBound(digits[1..]);
    assert Dec(digits[..1]) == 10 * Dec(digits[..0]) + Digit(digits[0]);
    assert digits[..0] == [];
  }
}
