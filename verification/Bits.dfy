/**
 Bitwise operations on natural numbers, and what they mean arithmetically.
 */
module Bits {
  import opened Powers

  function And(x: nat, y: nat): nat
  {
    if x == 0 || y == 0 then 0 else 2 * And(x / 2, y / 2) + (if x % 2 == 1 && y % 2 == 1 then 1 else 0)
  }

  function Or(x: nat, y: nat): nat
    decreases x + y
  {
    if x == 0 then y else if y == 0 then x
    else 2 * Or(x / 2, y / 2) + (if x % 2 == 1 || y % 2 == 1 then 1 else 0)
  }

  /** Is bit i of x set? */
  predicate Bit(x: nat, i: nat)
  {
    if i == 0 then x % 2 == 1 else Bit(x / 2, i - 1)
  }

  lemma {:induction false} BitZero(i: nat)
    ensures !Bit(0, i)
  {
    if i > 0 { BitZero(i - 1); }
  }

  lemma {:induction false} BitOr(x: nat, y: nat, i: nat)
    ensures Bit(Or(x, y), i) <==> Bit(x, i) || Bit(y, i)
    decreases i
  {
    BitZero(i);
    if x > 0 && y > 0 {
      var o := Or(x, y);
      assert o / 2 == Or(x / 2, y / 2);
      if i > 0 { BitOr(x / 2, y / 2, i - 1); }
    }
  }

  lemma {:induction false} BitShift(x: nat, s: nat, i: nat)
    ensures Pow(2, s) > 0 && Bit(x / Pow(2, s), i) == Bit(x, i + s)
    decreases s
  {
    PowPositive(2, s);
    if s > 0 {
      PowPositive(2, s - 1);
      DivDiv(x, 2, Pow(2, s - 1));
      BitShift(x / 2, s - 1, i);
    }
  }

  /** A number with exactly the bits below n set. */
  lemma {:induction false} AllOnes(x: nat, n: nat)
    requires forall i: nat :: Bit(x, i) <==> i < n
    ensures x == Pow(2, n) - 1
  {
    if n == 0 {
      if x > 0 {
        var i := HighestBit(x);
      }
    } else {
      assert Bit(x, 0);
      forall i: nat ensures Bit(x / 2, i) <==> i < n - 1 {
        assert Bit(x / 2, i) == Bit(x, i + 1);
      }
      AllOnes(x / 2, n - 1);
    }
  }

  lemma {:induction false} HighestBit(x: nat) returns (k: nat)
    requires x > 0
    ensures Bit(x, k) && Pow(2, k) <= x < Pow(2, k + 1)
    ensures forall i: nat :: i > k ==> !Bit(x, i)
  {
    if x == 1 {
      k := 0;
      assert Pow(2, 0) == 1 && Pow(2, 1) == 2;
      forall i: nat | i > 0 ensures !Bit(x, i) { BitZero(i - 1); }
    } else {
      var j := HighestBit(x / 2);
      k := j + 1;
      forall i: nat | i > k ensures !Bit(x, i) { assert Bit(x, i) == Bit(x / 2, i - 1); }
    }
  }

  /** Masking with 2^k - 1 is the remainder by 2^k. */
  lemma {:induction false} AndMask(x: nat, k: nat)
    ensures Pow(2, k) > 0 && And(x, Pow(2, k) - 1) == x % Pow(2, k)
  {
    PowPositive(2, k);
    if k > 0 && x > 0 {
      var m := Pow(2, k - 1);
      PowPositive(2, k - 1);
      assert Pow(2, k) == 2 * m;
      AndMask(x / 2, k - 1);
      assert (2 * m - 1) / 2 == m - 1 && (2 * m - 1) % 2 == 1;
      HalfMod(x, m);
    } else if x == 0 {
      DivModUnique(0, Pow(2, k), 0, 0);
    }
  }

  lemma HalfMod(x: nat, m: nat)
    requires m > 0
    ensures x % (2 * m) == 2 * ((x / 2) % m) + x % 2
  {
    DivModFacts(x / 2, m);
    var q, r := x / 2 / m, (x / 2) % m;
    MulAssoc(q, 2, m);
    MulAssoc(2, q, m);
    DivModUnique(x, 2 * m, q, 2 * r + x % 2);
  }

  lemma OrHalves(x: nat, y: nat)
    ensures Or(x, y) == 2 * Or(x / 2, y / 2) + (if x % 2 == 1 || y % 2 == 1 then 1 else 0)
  {
  }

  lemma OrZero(x: nat)
    ensures Or(x, 0) == x && Or(0, x) == x
  {
  }

  lemma PowParity(j: nat)
    ensures Pow(2, j) == if j == 0 then 1 else 2 * Pow(2, j - 1)
  {
  }

  ghost predicate IsPowerOfTwo(b: nat)
  {
    exists k: nat :: b == Pow(2, k)
  }

  lemma HalfOfPower(c: nat)
    ensures IsPowerOfTwo(2 * c) <==> IsPowerOfTwo(c)
  {
    if IsPowerOfTwo(c) {
      var k: nat :| c == Pow(2, k);
      PowParity(k + 1);
      assert 2 * c == Pow(2, k + 1);
    }
    if IsPowerOfTwo(2 * c) {
      var j: nat :| 2 * c == Pow(2, j);
      PowParity(j);
      assert j > 0;
      assert c == Pow(2, j - 1);
    }
  }

  /** A test for powers of two that needs no loop. */
  lemma {:induction false} PowerOfTwoTest(b: nat)
    requires b > 0
    ensures And(b - 1, b) == 0 <==> IsPowerOfTwo(b)
  {
    hide Pow, IsPowerOfTwo;
    if b == 1 {
      OneIsPower();
    } else if b % 2 == 0 {
      var c := b / 2;
      PowerOfTwoTest(c);
      assert And(b - 1, b) == 2 * And(c - 1, c) by { assert (b - 1) / 2 == c - 1; AndZero(c); }
      HalfOfPower(c);
    } else {
      AndSelf(b / 2);
      assert And(b - 1, b) == 2 * And(b / 2, b / 2);
      assert !IsPowerOfTwo(b) by { OddNoPower(b); }
    }
  }

  lemma OneIsPower()
    ensures IsPowerOfTwo(1)
  {
    PowParity(0);
  }

  lemma OddNoPower(b: nat)
    requires b % 2 == 1 && b > 1
    ensures !IsPowerOfTwo(b)
  {
    hide Pow;
    forall j: nat ensures b != Pow(2, j) { PowParity(j); }
  }

  lemma AndZero(x: nat)
    ensures And(0, x) == 0 && And(x, 0) == 0
  {
  }

  lemma {:induction false} AndSelf(x: nat)
    ensures And(x, x) == x
  {
    if x > 0 { AndSelf(x / 2); }
  }
}
