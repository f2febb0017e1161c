/**
 Powers with negative exponents, as reals.
 */
module RealPowers {
  import opened Powers

  /** base^e for any integer e. */
  ghost function RPow(base: nat, e: int): (r: real)
    requires base > 0
  {
    PowPositive(base, if e >= 0 then e else -e);
    if e >= 0 then Pow(base, e) as real else 1.0 / (Pow(base, -e) as real)
  }

  lemma RMulPositive(a: real, b: real)
    requires a > 0.0 && b > 0.0
    ensures a * b > 0.0
  {
  }

  lemma RMulAssoc(a: real, b: real, c: real)
    ensures (a * b) * c == a * (b * c)
    ensures a * b == b * a
  {
  }

  lemma RMulDistrib(a: real, b: real, c: real)
    ensures (b + c) * a == b * a + c * a
    ensures (b - c) * a == b * a - c * a
  {
  }

  lemma RMulStrict(a: real, b: real, c: real)
    requires c > 0.0
    ensures a < b <==> a * c < b * c
    ensures a <= b <==> a * c <= b * c
  {
    if a < b { RMulPositive(b - a, c); RMulDistrib(c, b, a); }
    if a > b { RMulPositive(a - b, c); RMulDistrib(c, a, b); }
  }

  lemma RMulCancel(a: real, b: real, c: real)
    requires c != 0.0 && a * c == b * c
    ensures a == b
  {
    RMulDistrib(c, a, b);
    assert (a - b) * c == 0.0;
  }

  lemma CastMul(a: int, b: int)
    ensures (a * b) as real == (a as real) * (b as real)
  {
  }

  lemma RPowPositive(base: nat, e: int)
    requires base > 0
    ensures RPow(base, e) > 0.0
  {
    PowPositive(base, if e >= 0 then e else -e);
  }

  /** Shifting the exponent up until both are natural. */
  lemma RPowShift(base: nat, e: int, k: nat)
    requires base > 0 && e + k >= 0
    ensures RPow(base, e) * (Pow(base, k) as real) == Pow(base, e + k) as real
  {
    if e >= 0 {
      PowAdd(base, e, k);
      CastMul(Pow(base, e), Pow(base, k));
    } else {
      PowAdd(base, -e, e + k);
      CastMul(Pow(base, -e), Pow(base, e + k));
      PowPositive(base, -e);
      Cancels(Pow(base, -e) as real, Pow(base, e + k) as real);
    }
  }

  lemma Cancels(x: real, y: real)
    requires x != 0.0
    ensures (1.0 / x) * (x * y) == y
  {
    assert (1.0 / x) * x == 1.0;
    RMulAssoc(1.0 / x, x, y);
  }

  lemma RMulSwap(x: real, p: real, y: real, q: real)
    ensures (x * p) * (y * q) == (x * y) * (p * q)
  {
    RMulAssoc(x, p, y * q);
    RMulAssoc(p, y, q);
    RMulAssoc(y, p, q);
    RMulAssoc(x, y, p * q);
  }

  lemma RPowAdd(base: nat, a: int, b: int)
    requires base > 0
    ensures RPow(base, a + b) == RPow(base, a) * RPow(base, b)
  {
    hide RPow, Pow;
    var i: nat := if a >= 0 then 0 else -a;
    var j: nat := if b >= 0 then 0 else -b;
    var p, q := Pow(base, i) as real, Pow(base, j) as real;
    var s, x, y := RPow(base, a + b), RPow(base, a), RPow(base, b);
    assert p > 0.0 && q > 0.0 by { PowPositive(base, i); PowPositive(base, j); }
    assert s * (p * q) == (x * p) * (y * q) by { RPowAddScaled(base, a, b, i, j); }
    CancelProduct(s, x, y, p, q);
  }

  lemma RPowAddScaled(base: nat, a: int, b: int, i: nat, j: nat)
    requires base > 0 && a + i >= 0 && b + j >= 0
    ensures RPow(base, a + b) * (Pow(base, i) as real * Pow(base, j) as real)
         == (RPow(base, a) * Pow(base, i) as real) * (RPow(base, b) * Pow(base, j) as real)
  {
    hide RPow, Pow;
    calc {
      RPow(base, a + b) * (Pow(base, i) as real * Pow(base, j) as real);
      { PowAdd(base, i, j); CastMul(Pow(base, i), Pow(base, j)); }
      RPow(base, a + b) * (Pow(base, i + j) as real);
      { RPowShift(base, a + b, i + j); }
      Pow(base, a + b + (i + j)) as real;
      { PowAdd(base, a + i, b + j); CastMul(Pow(base, a + i), Pow(base, b + j)); }
      Pow(base, a + i) as real * Pow(base, b + j) as real;
      { RPowShift(base, a, i); RPowShift(base, b, j); }
      (RPow(base, a) * Pow(base, i) as real) * (RPow(base, b) * Pow(base, j) as real);
    }
  }

  lemma CancelProduct(s: real, x: real, y: real, p: real, q: real)
    requires p > 0.0 && q > 0.0 && s * (p * q) == (x * p) * (y * q)
    ensures s == x * y
  {
    RMulPositive(p, q);
    RMulSwap(x, p, y, q);
    RMulCancel(s, x * y, p * q);
  }

  lemma RPowNat(base: nat, e: nat)
    requires base > 0
    ensures RPow(base, e) == Pow(base, e) as real
  {
  }

  lemma RPowMonotone(base: nat, a: int, b: int)
    requires base > 0 && a <= b
    ensures RPow(base, a) <= RPow(base, b)
  {
    hide RPow, Pow;
    RPowAdd(base, a, b - a);
    RPowNat(base, b - a);
    PowPositive(base, b - a);
    RPowPositive(base, a);
    RMulStrict(1.0, RPow(base, b - a), RPow(base, a));
    RMulAssoc(RPow(base, a), RPow(base, b - a), 1.0);
  }
}
