/**
 The exact comparison that decides a reader's last doubt: a decimal string against a binary
 floating-point number.
 */
module Strtod {
  import opened Powers
  import opened RealPowers
  import opened Bigits
  import opened Decimal
  import opened BignumModule

  const MAX_DECIMAL_POWER: int := 309
  const MIN_DECIMAL_POWER: int := -324
  const MAX_SIGNIFICANT_DECIMAL_DIGITS: nat := 780

  lemma PFromBits(bits: nat, n: nat)
    requires bits <= 28 * n
    ensures Pow(2, bits) <= P(n)
  {
    hide Pow;
    PowMonotone(2, bits, 28 * n);
    PowPow(2, 28, n);
    PowersOfTwo();
  }

  /** Decimal digits take at most four bits each. */
  lemma TensInBits(k: nat)
    ensures Pow(10, k) <= Pow(2, 4 * k)
    ensures Pow(5, k) <= Pow(2, 3 * k) && Pow(5, k) <= Pow(10, k)
  {
    hide Pow;
    PowersOfTwo();
    PowBaseMonotone(10, 16, k);
    PowPow(2, 4, k);
    PowBaseMonotone(5, 8, k);
    assert Pow(2, 3) == 8 by { PowAdd(2, 1, 3); PowMonotone(2, 0, 3); Eight(); }
    PowPow(2, 3, k);
    PowBaseMonotone(5, 10, k);
  }

  /** The string's number, scaled by 10^exponent if that is not a division. */
  method ScaleBuffer(b: Bignum, buffer: seq<char>, exponent: int)
    requires b.Valid() && AllDigits(buffer) && |buffer| <= MAX_SIGNIFICANT_DECIMAL_DIGITS
    requires |buffer| + exponent <= MAX_DECIMAL_POWER + 1
    modifies b, b.bigits
    ensures b.Valid() && b.used + 1 <= CAPACITY
    ensures b.Value() == Dec(buffer) * Pow(10, Up(exponent))
  {
    hide P, Val, Pow, Dec;
    assert Pow(10, |buffer|) <= P(112) <= P(CAPACITY - 1) by {
      TensInBits(|buffer|);
      PFromBits(4 * |buffer|, 112);
      PowMonotone(0x1000_0000, 112, CAPACITY - 1);
      PUnfold(112);
      PUnfold(CAPACITY - 1);
    }
    b.AssignDecimalString(buffer);
    DecBound(buffer);
    if exponent >= 0 {
      b.SignificandOfPlain();
      ghost var x := Dec(buffer);
      assert x * Pow(5, exponent) <= x * Pow(10, exponent) < P(112) by { ScaledFits(x, |buffer|, exponent); }
      b.MultiplyByPowerOfTen(exponent);
    } else {
      assert Pow(10, 0) == 1 by { PowUnit(10); }
    }
    b.LengthFromValue(112);
  }

  lemma PUnfold(n: nat)
    ensures P(n) == Pow(0x1000_0000, n)
  {
  }

  lemma ScaledFits(x: nat, length: nat, exponent: nat)
    requires x < Pow(10, length) && length + exponent <= MAX_DECIMAL_POWER + 1
    ensures x * Pow(5, exponent) <= x * Pow(10, exponent) < P(112)
  {
    hide Pow, P;
    TensInBits(exponent);
    MulMonotone(Pow(5, exponent), Pow(10, exponent), x);
    PowPositive(10, exponent);
    MulStrict(x, Pow(10, length), Pow(10, exponent));
    PowAdd(10, length, exponent);
    TensInBits(length + exponent);
    PFromBits(4 * (length + exponent), 112);
  }

  /** The significand, scaled by 10^-exponent if the decimal is a fraction. */
  method ScaleSignificand(b: Bignum, f: nat, exponent: int)
    requires b.Valid() && f < 0x1_0000_0000_0000_0000 && exponent > MIN_DECIMAL_POWER - MAX_SIGNIFICANT_DECIMAL_DIGITS
    modifies b, b.bigits
    ensures b.Valid() && b.used + 1 <= CAPACITY
    ensures b.Value() == f * Pow(10, Up(-exponent))
  {
    hide P, Val, Pow;
    b.AssignUInt64(f);
    if exponent < 0 {
      var k := -exponent;
      b.SignificandOfPlain();
      SignificandFits(f, k);
      b.MultiplyByPowerOfTen(k);
      b.LengthFromValue((64 + 4 * k) / 28 + 1);
    } else {
      assert Pow(10, 0) == 1 by { PowUnit(10); }
    }
  }

  lemma SignificandFits(f: nat, k: nat)
    requires f < 0x1_0000_0000_0000_0000 && k <= 1104
    ensures f * Pow(5, k) < P(CAPACITY - 1)
    ensures f * Pow(10, k) < P((64 + 4 * k) / 28 + 1)
  {
    hide Pow, P;
    PowersOfTwo();
    TensInBits(k);
    PowPositive(2, 3 * k);
    PowPositive(2, 4 * k);
    assert f * Pow(5, k) < Pow(2, 64 + 3 * k) by {
      MulMonotone(Pow(5, k), Pow(2, 3 * k), f);
      MulStrict(f, Pow(2, 64), Pow(2, 3 * k));
      PowAdd(2, 64, 3 * k);
    }
    assert f * Pow(10, k) < Pow(2, 64 + 4 * k) by {
      MulMonotone(Pow(10, k), Pow(2, 4 * k), f);
      MulStrict(f, Pow(2, 64), Pow(2, 4 * k));
      PowAdd(2, 64, 4 * k);
    }
    PFromBits(64 + 3 * k, CAPACITY - 1);
    PFromBits(64 + 4 * k, (64 + 4 * k) / 28 + 1);
  }

  /** The order of x * 10^d and f * 2^e, over the reals. */
  ghost function RealSign(x: int, d: int, f: int, e: int): int
  {
    var a, b := x as real * RPow(10, d), f as real * RPow(2, e);
    if a < b then -1 else if a == b then 0 else 1
  }

  /** Clearing the denominators keeps the order. */
  lemma CrossMultiplied(x: int, d: int, f: int, e: int)
    ensures Sign(x * Pow(10, Up(d)) * Pow(2, Up(-e)), f * Pow(10, Up(-d)) * Pow(2, Up(e))) == RealSign(x, d, f, e)
  {
    hide RPow, Pow;
    var t, u := Pow(10, Up(-d)), Pow(2, Up(-e));
    assert t > 0 && u > 0 by { PowPositive(10, Up(-d)); PowPositive(2, Up(-e)); }
    var w := t as real * u as real;
    RMulPositive(t as real, u as real);
    var left, right := x * Pow(10, Up(d)) * u, f * t * Pow(2, Up(e));
    assert left as real == (x as real * RPow(10, d)) * w by {
      RPowShift(10, d, Up(-d));
      CastMul(x * Pow(10, Up(d)), u);
      CastMul(x, Pow(10, Up(d)));
      RMulAssoc(x as real, RPow(10, d), t as real);
      RMulAssoc(x as real * RPow(10, d), t as real, u as real);
    }
    assert right as real == (f as real * RPow(2, e)) * w by {
      RPowShift(2, e, Up(-e));
      CastMul(f * t, Pow(2, Up(e)));
      CastMul(f, t);
      SwapFactors(f as real, t as real, RPow(2, e), u as real);
    }
    RMulStrict(x as real * RPow(10, d), f as real * RPow(2, e), w);
    RMulStrict(f as real * RPow(2, e), x as real * RPow(10, d), w);
  }

  lemma SwapFactors(f: real, t: real, r: real, u: real)
    ensures (f * t) * (r * u) == (f * r) * (t * u)
  {
    RMulSwap(f, t, r, u);
  }

  /** The sign of buffer * 10^exponent - f * 2^e. */
  method CompareBufferWithDiyFp(buffer: seq<char>, exponent: int, f: nat, e: int) returns (r: int)
    requires AllDigits(buffer) && f < 0x1_0000_0000_0000_0000
    requires |buffer| + exponent <= MAX_DECIMAL_POWER + 1
    requires |buffer| + exponent > MIN_DECIMAL_POWER
    requires |buffer| <= MAX_SIGNIFICANT_DECIMAL_DIGITS
    ensures r == RealSign(Dec(buffer), exponent, f, e)
  {
    hide P, Val, Pow, RPow, Dec, Bignum.Valid, Bignum.Value, RealSign;
    var bufferBignum := new Bignum();
    var diyFpBignum := new Bignum();
    ScaleBuffer(bufferBignum, buffer, exponent);
    ScaleSignificand(diyFpBignum, f, exponent);
    ghost var x, y := bufferBignum.Value(), diyFpBignum.Value();
    assert Pow(2, 0) == 1 by { PowUnit(2); }
    if e > 0 {
      diyFpBignum.ShiftLeft(e);
    } else {
      bufferBignum.ShiftLeft(-e);
    }
    CrossMultiplied(Dec(buffer), exponent, f, e);
    r := Bignum.Compare(bufferBignum, diyFpBignum);
  }
}
