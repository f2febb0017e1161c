/**
 Adding one to a string of digits in place, with the carry running through trailing nines.
 */
module DigitRounding {
  import opened Powers
  import opened Decimal

  /** Digits, except that the one at position i may be one past '9'. */
  predicate CarryAt(s: seq<char>, i: nat)
  {
    i < |s| && '0' <= s[i] <= ':' && forall k :: 0 <= k < |s| && k != i ==> '0' <= s[k] <= '9'
  }

  /** Moving a carry one place to the left keeps the number. */
  lemma CarryKeepsValue(s: seq<char>, t: seq<char>, i: nat)
    requires 0 < i < |s| && s[i] == ':' && '0' <= s[i - 1] <= '9'
    requires t == s[i := '0'][i - 1 := (s[i - 1] as int + 1) as char]
    ensures Dec(t) == Dec(s)
  {
    hide Dec, Pow;
    var head, a := s[..i - 1], s[i - 1];
    assert Dec(s[..i + 1]) == 10 * (10 * Dec(head) + Digit(a)) + 10 by {
      assert s[..i + 1] == (head + [a]) + [':'];
      DecSnoc(head, a);
      DecSnoc(head + [a], ':');
    }
    assert Dec(t[..i + 1]) == 10 * (10 * Dec(head) + Digit(a) + 1) by {
      assert t[..i + 1] == (head + [t[i - 1]]) + ['0'];
      DecSnoc(head, t[i - 1]);
      DecSnoc(head + [t[i - 1]], '0');
    }
    assert s == s[..i + 1] + s[i + 1..] && t == t[..i + 1] + s[i + 1..];
    DecAppend(s[..i + 1], s[i + 1..]);
    DecAppend(t[..i + 1], s[i + 1..]);
  }

  lemma {:induction false} DecZeros(s: seq<char>)
    requires forall k :: 0 <= k < |s| ==> s[k] == '0'
    ensures Dec(s) == 0
  {
    if s != [] { DecZeros(s[..|s| - 1]); }
  }

  /** A carry that left the first place: one followed by zeros, with the point one place further. */
  lemma CarryOutOfFirst(s: seq<char>)
    requires |s| > 0 && s[0] == ':' && forall k :: 0 < k < |s| ==> s[k] == '0'
    ensures Dec(s) == Pow(10, |s|) && Dec(s[0 := '1']) * 10 == Dec(s)
  {
    var t := s[0 := '1'];
    assert s == [':'] + s[1..] && t == ['1'] + s[1..];
    DecAppend([':'], s[1..]);
    DecAppend(['1'], s[1..]);
    DecZeros(s[1..]);
    DecSnoc([], ':');
    DecSnoc([], '1');
    assert [] + [':'] == [':'] && [] + ['1'] == ['1'];
  }

  lemma BumpValue(s: seq<char>, t: seq<char>)
    requires |s| > 0 && '0' <= s[|s| - 1] <= '9' && t == s[|s| - 1 := (s[|s| - 1] as int + 1) as char]
    ensures Dec(t) == Dec(s) + 1
  {
    assert s[..|s| - 1] == t[..|t| - 1];
  }

  /**
   Settles a carry in the last place; says whether the number grew by a place, which then shows as a missing factor of
   ten.
   */
  method PropagateCarry(buffer: array<char>, length: nat) returns (overflow: bool)
    requires 0 < length <= buffer.Length && CarryAt(buffer[..length], length - 1)
    modifies buffer
    ensures AllDigits(buffer[..length]) && buffer[length..] == old(buffer[length..])
    ensures Dec(buffer[..length]) * (if overflow then 10 else 1) == Dec(old(buffer[..length]))
    ensures overflow <==> Dec(old(buffer[..length])) == Pow(10, length)
  {
    hide Dec, Pow;
    ghost var before := buffer[..length];
    var i := length - 1;
    while i > 0 && buffer[i] == ':'
      invariant 0 <= i < length && CarryAt(buffer[..length], i)
      invariant Dec(buffer[..length]) == Dec(before)
      invariant forall k :: i < k < length ==> buffer[k] == '0'
      invariant buffer[length..] == old(buffer[length..])
    {
      ghost var s := buffer[..length];
      buffer[i] := '0';
      buffer[i - 1] := (buffer[i - 1] as int + 1) as char;
      CarryKeepsValue(s, buffer[..length], i);
      i := i - 1;
    }
    overflow := buffer[0] == ':';
    if overflow {
      ghost var s := buffer[..length];
      CarryOutOfFirst(s);
      buffer[0] := '1';
      assert buffer[..length] == s[0 := '1'];
    } else {
      DecBound(buffer[..length]);
    }
  }

  /** Adds one. */
  method AddOne(buffer: array<char>, length: nat) returns (overflow: bool)
    requires 0 < length <= buffer.Length && AllDigits(buffer[..length])
    modifies buffer
    ensures AllDigits(buffer[..length]) && buffer[length..] == old(buffer[length..])
    ensures Dec(buffer[..length]) * (if overflow then 10 else 1) == Dec(old(buffer[..length])) + 1
    ensures overflow <==> Dec(old(buffer[..length])) + 1 == Pow(10, length)
  {
    hide Dec, Pow;
    ghost var before := buffer[..length];
    buffer[length - 1] := (buffer[length - 1] as int + 1) as char;
    BumpValue(before, buffer[..length]);
    overflow := PropagateCarry(buffer, length);
  }

  // ----- rounding quotients -----

  /** n/d rounded to the nearest integer, halves upwards. */
  function RoundHalfUp(n: nat, d: nat): nat
    requires d > 0
  {
    (2 * n + d) / (2 * d)
  }

  /** Quotient and remainder, and whether the remainder is at least half the divisor. */
  lemma RoundQuotient(q: nat, r: nat, d: nat, up: bool)
    requires r < d && (up <==> 2 * r >= d)
    ensures 0 <= q * d + r && RoundHalfUp(q * d + r, d) == q + if up then 1 else 0
  {
    MulNonneg(q, d);
    var over := if up then 2 * r - d else 2 * r + d;
    var x := if up then q + 1 else q;
    assert 2 * (q * d + r) + d == x * (2 * d) + over by {
      MulDistrib(2 * d, q, 1);
      MulAssoc(q, 2, d);
      MulAssoc(2, q, d);
    }
    DivModUnique(2 * (q * d + r) + d, 2 * d, x, over);
  }
}
