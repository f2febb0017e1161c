/**
 Powers of a natural base, and the few facts about products that the other modules need.
 */
module Powers {

  /** base^exponent. */
  function Pow(base: nat, exponent: nat): (r: nat)
  {
    if exponent == 0 then 1 else base * Pow(base, exponent - 1)
  }

  lemma PowUnit(base: nat)
    ensures Pow(base, 0) == 1 && Pow(base, 1) == base
  {
    assert Pow(base, 1) == base * Pow(base, 0);
  }

  lemma PowNext(base: nat, k: nat)
    ensures Pow(base, k + 1) == base * Pow(base, k)
  {
  }

  lemma {:induction false} PowPositive(base: nat, exponent: nat)
    requires base > 0
    ensures Pow(base, exponent) > 0
  {
    if exponent > 0 {
      PowPositive(base, exponent - 1);
      MulPositive(base, Pow(base, exponent - 1));
    }
  }

  lemma {:induction false} PowAdd(base: nat, a: nat, b: nat)
    ensures Pow(base, a + b) == Pow(base, a) * Pow(base, b)
  {
    if a > 0 {
      PowAdd(base, a - 1, b);
      MulAssoc(base, Pow(base, a - 1), Pow(base, b));
    }
  }

  lemma {:induction false} PowMulBase(x: nat, y: nat, n: nat)
    ensures Pow(x * y, n) == Pow(x, n) * Pow(y, n)
  {
    if n > 0 {
      PowMulBase(x, y, n - 1);
      var p, q := Pow(x, n - 1), Pow(y, n - 1);
      calc {
        (x * y) * (p * q);
        { MulAssoc(x, y, p * q); MulAssoc(y, p, q); MulAssoc(p, y, q); }
        x * (p * (y * q));
        { MulAssoc(x, p, y * q); }
        (x * p) * (y * q);
      }
    }
  }

  lemma {:induction false} PowPow(base: nat, a: nat, b: nat)
    ensures Pow(Pow(base, a), b) == Pow(base, a * b)
  {
    if b == 0 {
      assert a * b == 0;
    } else {
      PowPow(base, a, b - 1);
      PowAdd(base, a, a * (b - 1));
      assert a + a * (b - 1) == a * b by { MulDistrib(a, 1, b - 1); }
    }
  }

  lemma {:induction false} PowMonotone(base: nat, a: nat, b: nat)
    requires base > 0 && a <= b
    ensures Pow(base, a) <= Pow(base, b)
  {
    PowAdd(base, b - a, a);
    PowPositive(base, b - a);
    PowPositive(base, a);
    MulMonotone(1, Pow(base, b - a), Pow(base, a));
  }

  lemma {:induction false} PowStrict(base: nat, a: nat, b: nat)
    requires base > 1 && a < b
    ensures Pow(base, a) < Pow(base, b)
  {
    PowMonotone(base, a, b - 1);
    PowPositive(base, b - 1);
    MulStrict(1, base, Pow(base, b - 1));
  }

  lemma {:induction false} PowBaseMonotone(x: nat, y: nat, n: nat)
    requires x <= y
    ensures Pow(x, n) <= Pow(y, n)
  {
    if n > 0 {
      PowBaseMonotone(x, y, n - 1);
      MulMonotone2(x, y, Pow(x, n - 1), Pow(y, n - 1));
    }
  }

  /** The powers of two that name machine words and bigits. */
  lemma PowersOfTwo()
    ensures Pow(2, 0) == 1 && Pow(2, 1) == 2 && Pow(2, 4) == 16 && Pow(2, 8) == 0x100
    ensures Pow(2, 16) == 0x1_0000 && Pow(2, 24) == 0x100_0000
    ensures Pow(2, 27) == 0x800_0000 && Pow(2, 28) == 0x1000_0000
    ensures Pow(2, 32) == 0x1_0000_0000 && Pow(2, 64) == 0x1_0000_0000_0000_0000
  {
    assert Pow(2, 1) == 2 && Pow(2, 2) == 4 && Pow(2, 3) == 8 && Pow(2, 4) == 16;
    PowAdd(2, 4, 4);
    PowAdd(2, 8, 8);
    PowAdd(2, 16, 8);
    PowAdd(2, 24, 3);
    PowAdd(2, 24, 4);
    PowAdd(2, 16, 16);
    PowAdd(2, 32, 32);
  }

  lemma Eight()
    ensures Pow(2, 3) == 8
  {
    assert Pow(2, 1) == 2 && Pow(2, 2) == 4;
  }

  /** The powers of five that the multiplication by powers of ten is built from. */
  lemma PowersOfFive()
    ensures Pow(5, 1) == 5 && Pow(5, 2) == 25 && Pow(5, 3) == 125 && Pow(5, 4) == 625
    ensures Pow(5, 5) == 3125 && Pow(5, 6) == 15625 && Pow(5, 7) == 78125 && Pow(5, 8) == 390625
    ensures Pow(5, 9) == 1953125 && Pow(5, 10) == 9765625 && Pow(5, 11) == 48828125 && Pow(5, 12) == 244140625
    ensures Pow(5, 13) == 1220703125 && Pow(5, 27) == 0x6765_c793_fa10_079d
  {
    assert Pow(5, 1) == 5 && Pow(5, 2) == 25 && Pow(5, 3) == 125 && Pow(5, 4) == 625;
    PowAdd(5, 1, 4);
    PowAdd(5, 2, 4);
    PowAdd(5, 3, 4);
    PowAdd(5, 4, 4);
    PowAdd(5, 1, 8);
    PowAdd(5, 2, 8);
    PowAdd(5, 3, 8);
    PowAdd(5, 4, 8);
    PowAdd(5, 1, 12);
    PowAdd(5, 13, 13);
    PowAdd(5, 1, 26);
  }

  lemma {:induction false} PowersOfFiveAreOdd(k: nat)
    ensures Pow(5, k) % 2 == 1
  {
    if k > 0 { PowersOfFiveAreOdd(k - 1); }
  }

  // ----- products -----

  function Max(a: int, b: int): int
  {
    if a < b then b else a
  }

  function Min(a: int, b: int): int
  {
    if a < b then a else b
  }

  /** The number if it is positive, else zero. */
  function Up(x: int): nat
  {
    if x > 0 then x else 0
  }

  lemma SwapFactors(x: int, y: int, z: int)
    ensures (x * y) * z == (x * z) * y
  {
    MulAssoc(x, y, z);
    MulAssoc(x, z, y);
    MulAssoc(y, z, 1);
  }

  lemma MulPositive(a: int, b: int)
    requires a > 0 && b > 0
    ensures a * b > 0
  {}

  lemma MulNonneg(a: int, b: int)
    requires a >= 0 && b >= 0
    ensures a * b >= 0
  {}

  lemma MulAssoc(a: int, b: int, c: int)
    ensures (a * b) * c == a * (b * c)
    ensures a * b == b * a
  {}

  lemma MulDistrib(a: int, b: int, c: int)
    ensures a * (b + c) == a * b + a * c
    ensures (b + c) * a == b * a + c * a
  {}

  lemma MulMonotone(a: int, b: int, c: int)
    requires a <= b && 0 <= c
    ensures a * c <= b * c
    ensures c * a <= c * b
  {}

  lemma MulStrict(a: int, b: int, c: int)
    requires a < b && 0 < c
    ensures a * c < b * c
    ensures c * a < c * b
  {}

  lemma MulMonotone2(a: int, b: int, c: int, d: int)
    requires 0 <= a <= b && 0 <= c <= d
    ensures a * c <= b * d
  {
    MulMonotone(a, b, c);
    MulMonotone(c, d, b);
  }

  lemma MulCancelLessEqual(a: int, b: int, c: int)
    requires 0 < c && a * c <= b * c
    ensures a <= b
  {
    if b < a { MulStrict(b, a, c); }
  }

  lemma MulCancelLess(a: int, b: int, c: int)
    requires 0 < c && a * c < b * c
    ensures a < b
  {
    if b <= a { MulMonotone(b, a, c); }
  }

  /** Quotient and remainder are the only pair with a remainder in range. */
  lemma DivModUnique(x: int, d: int, q: int, r: int)
    requires 0 < d && 0 <= r < d && x == q * d + r
    ensures x / d == q && x % d == r
  {
    var q', r' := x / d, x % d;
    assert x == q' * d + r' by { MulAssoc(q', d, 1); }
    assert (q - q') * d == r' - r by { MulDistrib(d, q - q', q'); }
    if q > q' { MulMonotone(1, q - q', d); }
    if q < q' { MulMonotone(q - q', -1, d); }
  }

  lemma DivModFacts(x: int, d: int)
    requires 0 < d
    ensures x == (x / d) * d + x % d && 0 <= x % d < d
    ensures 0 <= x ==> 0 <= x / d
  {
    MulAssoc(x / d, d, 1);
    if 0 <= x && x / d < 0 { MulMonotone(x / d, -1, d); }
  }

  /** Dividing twice is dividing by the product. */
  lemma DivDiv(x: nat, a: nat, b: nat)
    requires a > 0 && b > 0
    ensures a * b > 0 && x / a / b == x / (a * b)
  {
    MulPositive(a, b);
    DivModFacts(x, a);
    DivModFacts(x / a, b);
    var q, r, s := x / a / b, x / a % b, x % a;
    calc {
      x;
      (q * b + r) * a + s;
      { MulDistrib(a, q * b, r); }
      (q * b) * a + (r * a + s);
      { MulAssoc(q, b, a); MulAssoc(b, a, 1); }
      q * (a * b) + (r * a + s);
    }
    assert 0 <= r * a + s < a * b by {
      MulNonneg(r, a);
      MulMonotone(r + 1, b, a);
      MulDistrib(a, r, 1);
      MulAssoc(a, b, 1);
    }
    DivModUnique(x, a * b, q, r * a + s);
  }
}
