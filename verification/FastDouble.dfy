/**
 From a double to the digit generators and back: normalized 64-bit forms of the double and its boundaries, their
 products with a cached power of ten, and what an accepted result says about the double itself.
 */
module FastDouble {
  import opened Powers
  import opened RealPowers
  import opened Decimal
  import opened Grisu
  import opened FastDtoa
  import opened Acceptance
  import D = ShortestDouble

  const TWO32: nat := 0x1_0000_0000
  const TWO63: nat := 0x8000_0000_0000_0000

  // ----- products -----

  /** The upper half of a product, rounded. */
  function Product(x: nat, y: nat): nat
  {
    MulNonneg(x, y); (x * y + TWO63) / MAX64
  }

  /** The product of two 64-bit numbers, its upper half rounded, from 32-bit halves. */
  method Times(x: DiyFp, y: DiyFp) returns (r: DiyFp)
    requires x.f < MAX64 && y.f < MAX64
    ensures r.e == x.e + y.e + 64
    ensures r.f == Product(x.f, y.f) < MAX64
  {
    var a, b, c, d := x.f / TWO32, x.f % TWO32, y.f / TWO32, y.f % TWO32;
    HalvesFit(a, c);
    HalvesFit(b, c);
    HalvesFit(a, d);
    HalvesFit(b, d);
    var ac, bc, ad, bd := a * c, b * c, a * d, b * d;
    var tmp := bd / TWO32 + ad % TWO32 + bc % TWO32;
    tmp := tmp + 0x8000_0000;
    assert tmp < MAX64;
    var f := ac + ad / TWO32 + bc / TWO32 + tmp / TWO32;
    ProductOfHalves(x.f, y.f, a, b, c, d);
    RoundedProduct(ac, bc, ad, bd, x.f * y.f);
    ProductFits(x.f, y.f);
    r := DiyFp(f, x.e + y.e + 64);
  }

  lemma HalvesFit(x: nat, y: nat)
    requires x < TWO32 && y < TWO32
    ensures 0 <= x * y <= (TWO32 - 1) * (TWO32 - 1)
  {
    MulNonneg(x, y);
    MulMonotone2(x, TWO32 - 1, y, TWO32 - 1);
  }

  lemma ProductOfHalves(x: nat, y: nat, a: nat, b: nat, c: nat, d: nat)
    requires x == a * TWO32 + b && y == c * TWO32 + d
    ensures x * y == a * c * MAX64 + (b * c + a * d) * TWO32 + b * d
  {
    MulDistrib(x, c * TWO32, d);
    MulDistrib(c * TWO32, a * TWO32, b);
    MulDistrib(d, a * TWO32, b);
    SwapFactors(a, TWO32, d);
    MulAssoc(b, c, TWO32);
    MulAssoc(a * TWO32, c, TWO32);
    SwapFactors(a, TWO32, c);
    MulAssoc(a * c, TWO32, TWO32);
  }

  lemma RoundedProduct(ac: nat, bc: nat, ad: nat, bd: nat, p: nat)
    requires p == ac * MAX64 + (bc + ad) * TWO32 + bd
    ensures (p + TWO63) / MAX64
         == ac + ad / TWO32 + bc / TWO32 + (bd / TWO32 + ad % TWO32 + bc % TWO32 + 0x8000_0000) / TWO32
  {
    var tmp := bd / TWO32 + ad % TWO32 + bc % TWO32 + 0x8000_0000;
    var q := ac + ad / TWO32 + bc / TWO32 + tmp / TWO32;
    DivModUnique(p + TWO63, MAX64, q, tmp % TWO32 * TWO32 + bd % TWO32);
  }

  lemma ProductFits(x: nat, y: nat)
    requires x < MAX64 && y < MAX64
    ensures 0 <= x * y && (x * y + TWO63) / MAX64 < MAX64
  {
    MulNonneg(x, y);
    MulMonotone2(x, MAX64 - 1, y, MAX64 - 1);
  }

  // ----- normalized forms -----

  /** How far a 64-bit number has to be shifted to fill the word. */
  function Shift(f: nat): (k: nat)
    requires 0 < f < MAX64
    decreases MAX64 - f
  {
    if f >= TWO63 then 0 else 1 + Shift(2 * f)
  }

  /** The number shifted until it fills the word. */
  function Filled(f: nat): nat
    requires 0 < f < MAX64
  {
    MulNonneg(f, Pow(2, Shift(f))); f * Pow(2, Shift(f))
  }

  lemma {:induction false} ShiftFills(f: nat)
    requires 0 < f < MAX64
    ensures TWO63 <= f * Pow(2, Shift(f)) < MAX64
    decreases MAX64 - f
  {
    if f < TWO63 {
      ShiftFills(2 * f);
      MulAssoc(f, 2, Pow(2, Shift(2 * f)));
      MulAssoc(2, f, 1);
    }
  }

  lemma {:induction false} ShiftUnique(f: nat, k: nat)
    requires 0 < f < MAX64 && TWO63 <= f * Pow(2, k) < MAX64
    ensures k == Shift(f)
    decreases MAX64 - f
  {
    if f >= TWO63 {
      if k > 0 {
        PowMonotone(2, 1, k);
        assert Pow(2, 1) == 2;
        MulMonotone(2, Pow(2, k), f);
      }
    } else {
      assert k > 0;
      MulAssoc(f, 2, Pow(2, k - 1));
      MulAssoc(2, f, 1);
      ShiftUnique(2 * f, k - 1);
    }
  }

  /** Shifting by ten bits and then by one at a time; both tests look at the top bits of the word. */
  method Normalize(x: DiyFp) returns (r: DiyFp)
    requires 0 < x.f < MAX64
    ensures r == DiyFp(Filled(x.f), x.e - Shift(x.f)) && TWO63 <= r.f < MAX64
  {
    hide Pow, Shift;
    var f: nat, e, k := x.f, x.e, 0;
    Units();
    while f < 0x40_0000_0000_0000
      invariant 0 < f < MAX64 && 0 <= k && e == x.e - k && f == x.f * Pow(2, k)
      decreases MAX64 - f
    {
      PowAdd(2, k, 10);
      MulAssoc(x.f, Pow(2, k), 1024);
      f := f * 1024;
      e := e - 10;
      k := k + 10;
    }
    while f < TWO63
      invariant 0 < f < MAX64 && 0 <= k && e == x.e - k && f == x.f * Pow(2, k)
      decreases MAX64 - f
    {
      PowAdd(2, k, 1);
      MulAssoc(x.f, Pow(2, k), 2);
      f := f * 2;
      e := e - 1;
      k := k + 1;
    }
    ShiftUnique(x.f, k);
    r := DiyFp(f, e);
  }

  lemma Units()
    ensures Pow(2, 0) == 1 && Pow(2, 1) == 2 && Pow(2, 10) == 1024 && Pow(2, 11) == 2048
  {
    assert Pow(2, 1) == 2 && Pow(2, 2) == 4;
    PowAdd(2, 2, 2);
    PowAdd(2, 4, 4);
    PowAdd(2, 8, 2);
    PowAdd(2, 10, 1);
  }

  /** The exponent of the double's normalized form. */
  function NormalizedExponent(v: D.Double): int
    requires 0 < v.significand < MAX64
  {
    v.exponent - Shift(v.significand)
  }

  method AsNormalizedDiyFp(v: D.Double) returns (w: DiyFp)
    requires D.IsDouble(v)
    ensures w == DiyFp(Filled(v.significand), NormalizedExponent(v))
    ensures TWO63 <= w.f < MAX64 && Shift(v.significand) >= 11
  {
    hide Pow, Shift;
    var f: nat, e, k := v.significand, v.exponent, 0;
    Units();
    while f < 0x10_0000_0000_0000
      invariant 0 < f < 0x20_0000_0000_0000 && 0 <= k && e == v.exponent - k && f == v.significand * Pow(2, k)
      decreases 0x20_0000_0000_0000 - f
    {
      PowAdd(2, k, 1);
      MulAssoc(v.significand, Pow(2, k), 2);
      f := f * 2;
      e := e - 1;
      k := k + 1;
    }
    PowAdd(2, k, 11);
    MulAssoc(v.significand, Pow(2, k), 2048);
    ShiftUnique(v.significand, k + 11);
    w := DiyFp(f * 2048, e - 11);
  }

  /** Half the distance to the upper neighbour, in units of the normalized form. */
  function Gap(v: D.Double): nat
    requires 0 < v.significand < MAX64 && Shift(v.significand) > 0
  {
    Pow(2, Shift(v.significand) - 1)
  }

  /** Both boundaries with the exponent of the normalized double: one gap above it, a gap or half a gap below. */
  method NormalizedBoundaries(v: D.Double) returns (minus: DiyFp, plus: DiyFp)
    requires (D.IsDouble(v) || D.IsSingle(v)) && Shift(v.significand) >= 11
    ensures plus.e == minus.e == NormalizedExponent(v)
    ensures plus.f == Filled(v.significand) + Gap(v) < MAX64
    ensures v.lowerBoundaryIsCloser ==> 2 * minus.f == 2 * Filled(v.significand) - Gap(v)
    ensures !v.lowerBoundaryIsCloser ==> minus.f == Filled(v.significand) - Gap(v)
  {
    hide Pow, Shift;
    ghost var f, k := v.significand, Shift(v.significand);
    BoundaryShift(f, k);
    plus := Normalize(DiyFp(v.significand * 2 + 1, v.exponent - 1));
    if v.lowerBoundaryIsCloser {
      minus := DiyFp(v.significand * 4 - 1, v.exponent - 2);
    } else {
      minus := DiyFp(v.significand * 2 - 1, v.exponent - 1);
    }
    BoundariesAt(f, k, minus.e - plus.e, minus.f, v.lowerBoundaryIsCloser);
    minus := DiyFp(minus.f * Pow(2, minus.e - plus.e), plus.e);
  }

  /** The upper boundary in units of the normalized form. */
  function UpperForm(v: D.Double): nat
    requires 0 < v.significand < MAX64 && Shift(v.significand) > 0
  {
    Filled(v.significand) + Gap(v)
  }

  /** The lower boundary in units of the normalized form. */
  function LowerForm(v: D.Double): nat
    requires 0 < v.significand < MAX64 && Shift(v.significand) > 0
  {
    FormAboveGap(v);
    if v.lowerBoundaryIsCloser then (2 * Filled(v.significand) - Gap(v)) / 2 else Filled(v.significand) - Gap(v)
  }

  lemma FormAboveGap(v: D.Double)
    requires 0 < v.significand < MAX64 && Shift(v.significand) > 0
    ensures 0 <= Gap(v) <= Filled(v.significand)
  {
    var k := Shift(v.significand);
    assert Pow(2, k) == 2 * Pow(2, k - 1);
    hide Pow, Shift;
    PowPositive(2, k - 1);
    MulMonotone(1, v.significand, Pow(2, k));
  }

  /** Twice the significand plus one fills the word after one shift less. */
  lemma BoundaryShift(f: nat, k: nat)
    requires 0 < f < 0x20_0000_0000_0000 && k == Shift(f) >= 11
    ensures Shift(2 * f + 1) == k - 1 && 0 < Pow(2, k - 1)
    ensures (2 * f + 1) * Pow(2, k - 1) == f * Pow(2, k) + Pow(2, k - 1) < MAX64
    ensures f * Pow(2, k) <= MAX64 - Pow(2, k)
  {
    ShiftFills(f);
    assert Pow(2, k) == 2 * Pow(2, k - 1);
    hide Pow, Shift;
    PowPositive(2, k - 1);
    var g := Pow(2, k - 1);
    MulDistrib(g, 2 * f, 1);
    MulAssoc(f, 2, g);
    MulAssoc(2, f, 1);
    WholeMultiple(f, k);
    ShiftUnique(2 * f + 1, k - 1);
  }

  /** A multiple of 2^k below 2^64 is at most 2^64 - 2^k. */
  lemma WholeMultiple(f: nat, k: nat)
    requires f * Pow(2, k) < MAX64 && f > 0
    ensures f * Pow(2, k) <= MAX64 - Pow(2, k)
  {
    hide Pow;
    PowersOfTwo();
    PowPositive(2, k);
    if k > 64 {
      PowMonotone(2, 64, k);
      MulMonotone(1, f, Pow(2, k));
    } else {
      PowAdd(2, 64 - k, k);
      var n := Pow(2, 64 - k);
      MulCancelLess(f, n, Pow(2, k));
      MulMonotone(f + 1, n, Pow(2, k));
      MulDistrib(Pow(2, k), f, 1);
    }
  }

  lemma BoundariesAt(f: nat, k: nat, shift: int, m: nat, closer: bool)
    requires 0 < f && k >= 11
    requires closer ==> m == 4 * f - 1 && shift == k - 2
    requires !closer ==> m == 2 * f - 1 && shift == k - 1
    ensures shift >= 0 && 0 <= m * Pow(2, shift)
    ensures closer ==> 2 * (m * Pow(2, shift)) == 2 * (f * Pow(2, k)) - Pow(2, k - 1)
    ensures !closer ==> m * Pow(2, shift) == f * Pow(2, k) - Pow(2, k - 1)
  {
    var h := Pow(2, k - 2);
    assert Pow(2, k - 1) == 2 * h && Pow(2, k) == 4 * h;
    hide Pow;
    MulNonneg(m, Pow(2, shift));
    MulAssoc(f, 4, h);
    MulAssoc(f, 2, 2 * h);
    MulAssoc(2, f, 4 * h);
    MulAssoc(4, f, h);
    MulAssoc(2, f, 2 * h);
    MulAssoc(f, 4 * h, 1);
    if closer {
      MulDistrib(h, 4 * f, -1);
    } else {
      MulDistrib(2 * h, 2 * f, -1);
    }
  }

  // ----- errors -----

  /** A cached power is within half a unit of its last place of the power of ten. */
  ghost predicate CachedPower(c: DiyFp, mk: int)
  {
    TWO63 <= c.f < MAX64 && 2.0 * RAbs(RPow(10, mk) * RPow(2, -c.e) - c.f as real) <= 1.0
  }

  lemma HalfBound(x: real, d: real)
    requires x >= 0.0 && -0.5 <= d <= 0.5
    ensures -0.5 * x <= x * d <= 0.5 * x
  {
    RMulAssoc(x, d, 1.0);
    if x > 0.0 {
      RMulStrict(d, 0.5, x);
      RMulStrict(-0.5, d, x);
    }
  }

  /** Half a unit from the power and half a unit from rounding stay below one. */
  lemma ProductNear(x: nat, c: nat, power: real, r: nat, z: real)
    requires x < MAX64 && r == Product(x, c)
    requires 2.0 * RAbs(power - c as real) <= 1.0 && z * MAX64 as real == x as real * power
    ensures Near(z, r)
  {
    assert -0.5 <= power - c as real <= 0.5;
    hide RAbs, Near, Product;
    var left := ProductLeft(x, c);
    var t := ErrorOf(x, c, power);
    NearFromTotal(x * c, r, left, t, x, z);
  }

  lemma ProductLeft(x: nat, c: nat) returns (left: nat)
    ensures 0 <= x * c && x * c + TWO63 == Product(x, c) * MAX64 + left && left < MAX64
  {
    MulNonneg(x, c);
    DivModFacts(x * c + TWO63, MAX64);
    left := (x * c + TWO63) % MAX64;
  }

  lemma ErrorOf(x: nat, c: nat, power: real) returns (t: real)
    requires -0.5 <= power - c as real <= 0.5
    ensures x as real * power == (x * c) as real + t && -0.5 * (x as real) <= t <= 0.5 * (x as real)
  {
    CastMul(x, c);
    t := ErrorTerm(x as real, c as real, power, power - c as real);
  }

  lemma ErrorTerm(x: real, c: real, power: real, d: real) returns (t: real)
    requires x >= 0.0 && d == power - c && -0.5 <= d <= 0.5
    ensures x * power == x * c + t && -0.5 * x <= t <= 0.5 * x
  {
    t := x * d;
    HalfBound(x, d);
    RMulAssoc(x, c, 1.0);
    RMulAssoc(x, power, 1.0);
    RMulAssoc(x, d, 1.0);
    RMulDistrib(x, power, c);
  }

  lemma NearFromTotal(product: nat, r: nat, left: nat, t: real, x: nat, z: real)
    requires product + TWO63 == r * MAX64 + left && left < MAX64 && x < MAX64
    requires -0.5 * (x as real) <= t <= 0.5 * (x as real) && z * MAX64 as real == product as real + t
    ensures Near(z, r)
  {
  }

  lemma CachedFits(c: DiyFp, mk: int)
    requires CachedPower(c, mk)
    ensures TWO63 <= c.f < MAX64
  {
  }

  /** The factor that turns real values into units of the scaled numbers. */
  ghost function Factor(mk: int, e: int): real
  {
    RPow(10, mk) * RPow(2, -e)
  }

  /** The real value f * 2^e. */
  ghost function Worth(f: nat, e: int): real
  {
    f as real * RPow(2, e)
  }

  /** A real value in units of the scaled numbers. */
  ghost function Scaled(x: real, mk: int, e: int): real
  {
    x * Factor(mk, e)
  }

  lemma ScaledOrder(x: real, y: real, mk: int, e: int)
    ensures x < y <==> Scaled(x, mk, e) < Scaled(y, mk, e)
    ensures x <= y <==> Scaled(x, mk, e) <= Scaled(y, mk, e)
  {
    RPowPositive(10, mk);
    RPowPositive(2, -e);
    RMulPositive(RPow(10, mk), RPow(2, -e));
    RMulStrict(x, y, Factor(mk, e));
  }

  /** Distances scale with the factor. */
  lemma ScaledDistance(x: real, y: real, mk: int, e: int)
    ensures RAbs(Scaled(x, mk, e) - Scaled(y, mk, e)) == Scaled(D.RDistance(x, y), mk, e)
  {
    ScaledOrder(x, y, mk, e);
    hide Factor;
    RMulDistrib(Factor(mk, e), x, y);
    RMulDistrib(Factor(mk, e), y, x);
  }

  lemma OverWord()
    ensures RPow(2, -64) * MAX64 as real == 1.0
  {
    PowersOfTwo();
    hide Pow;
  }

  /** The exact scaled value of a normalized number. */
  lemma ScaledExactly(x: nat, e: int, ce: int, mk: int)
    ensures Scaled(Worth(x, e), mk, e + ce + 64) * MAX64 as real == x as real * (RPow(10, mk) * RPow(2, -ce))
  {
    hide RPow, Pow;
    var t, a, b, p, m := RPow(10, mk), RPow(2, e), RPow(2, -(e + ce + 64)), RPow(2, -ce), MAX64 as real;
    RPowAdd(2, e, -(e + ce + 64));
    RPowAdd(2, -ce, -64);
    OverWord();
    MoveFactors(x as real, a, t, b, m, p, RPow(2, -64));
  }

  lemma MoveFactors(x: real, a: real, t: real, b: real, m: real, p: real, w: real)
    requires a * b == p * w && w * m == 1.0
    ensures ((x * a) * (t * b)) * m == x * (t * p)
  {
    RMulSwap(x, a, t, b);
    RMulAssoc(x * t, a * b, m);
    RMulAssoc(p, w, m);
    RMulAssoc(x, t, p);
  }

  /** A normalized number times the cached power is within one unit of its exact scaled value. */
  lemma TimesNear(x: DiyFp, c: DiyFp, mk: int, r: DiyFp)
    requires x.f < MAX64 && CachedPower(c, mk) && r.f == Product(x.f, c.f)
    ensures Near(Scaled(Worth(x.f, x.e), mk, x.e + c.e + 64), r.f)
  {
    ScaledExactly(x.f, x.e, c.e, mk);
    hide RPow, Scaled, Near, Worth;
    var power := RPow(10, mk) * RPow(2, -c.e);
    assert 2.0 * RAbs(power - c.f as real) <= 1.0;
    hide RAbs;
    ProductNear(x.f, c.f, power, r.f, Scaled(Worth(x.f, x.e), mk, x.e + c.e + 64));
  }

  /** What the normalized forms are worth. */
  lemma NormalizedValues(v: D.Double, lowF: nat, highF: nat)
    requires 0 < v.significand < MAX64 && Shift(v.significand) >= 11 && highF == Filled(v.significand) + Gap(v)
    requires if v.lowerBoundaryIsCloser then 2 * lowF == 2 * Filled(v.significand) - Gap(v)
      else lowF == Filled(v.significand) - Gap(v)
    ensures var e := NormalizedExponent(v);
      && Worth(Filled(v.significand), e) == v.Value()
      && Worth(highF, e) == v.Value() + v.UpperGap()
      && Worth(lowF, e) == v.Value() - v.LowerGap()
  {
    var k, e, wf := Shift(v.significand), NormalizedExponent(v), Filled(v.significand);
    assert Pow(2, k - 1) == 2 * Pow(2, k - 2);
    ValueInUnits(v, k);
    GapsOf(v);
    hide Pow, RPow, Filled, Shift, Worth, D.Double.Value, D.Double.LowerGap, D.Double.UpperGap;
    PowerInUnits(k - 1, v.exponent - 1);
    PowerInUnits(k - 2, v.exponent - 2);
    WorthAdd(wf, Pow(2, k - 1), highF, e);
    if v.lowerBoundaryIsCloser {
      WorthAdd(lowF, Pow(2, k - 2), wf, e);
    } else {
      WorthAdd(lowF, Pow(2, k - 1), wf, e);
    }
  }

  lemma GapsOf(v: D.Double)
    ensures v.UpperGap() == RPow(2, v.exponent - 1)
    ensures v.LowerGap() == RPow(2, v.exponent - if v.lowerBoundaryIsCloser then 2 else 1)
  {
  }

  lemma ValueInUnits(v: D.Double, k: nat)
    requires 0 < v.significand < MAX64 && k == Shift(v.significand)
    ensures Worth(Filled(v.significand), NormalizedExponent(v)) == v.Value()
  {
    hide Pow, RPow, Shift;
    PowerInUnits(k, v.exponent);
    CastMul(v.significand, Pow(2, k));
    RMulAssoc(v.significand as real, Pow(2, k) as real, RPow(2, v.exponent - k));
  }

  lemma WorthAdd(low: nat, gap: nat, high: nat, e: int)
    requires high == low + gap
    ensures Worth(high, e) == Worth(low, e) + Worth(gap, e)
  {
    hide RPow;
    RMulDistrib(RPow(2, e), low as real, gap as real);
  }

  lemma PowerInUnits(k: nat, e: int)
    ensures Worth(Pow(2, k), e - k) == RPow(2, e)
  {
    hide Pow, RPow;
    RPowAdd(2, k, e - k);
    RPowNat(2, k);
  }

  // ----- from units back to the double -----

  lemma UnitsOfDecimal(y: int, u: int, mk: int, e: int)
    ensures InUnits(y, u + mk, e) == Scaled(D.DecimalValue(y, u), mk, e)
  {
    hide RPow;
    RPowAdd(10, u, mk);
    RMulAssoc(RPow(10, u), RPow(10, mk), RPow(2, -e));
    RMulAssoc(y as real, RPow(10, u), Factor(mk, e));
  }

  /** Strictly between the boundaries. */
  ghost predicate ReadsBackStrictly(x: int, t: int, v: D.Double)
  {
    v.Value() - v.LowerGap() < D.DecimalValue(x, t) < v.Value() + v.UpperGap()
  }

  /** Closer to v than any other decimal of its last place that reads back. */
  ghost predicate StrictlyClosest(x: int, t: int, v: D.Double)
  {
    forall y: int :: Farther(y, x, t, v)
  }

  ghost predicate Farther(y: int, x: int, t: int, v: D.Double)
  {
    D.ReadsBack(y, t, v) && y != x ==>
      D.RDistance(D.DecimalValue(x, t), v.Value()) < D.RDistance(D.DecimalValue(y, t), v.Value())
  }

  /** No other decimal with this last place is as close, whether it reads back or not. */
  ghost predicate StrictlyClosestOfAll(x: int, t: int, v: D.Double)
  {
    forall y: int :: y != x ==>
      D.RDistance(D.DecimalValue(x, t), v.Value()) < D.RDistance(D.DecimalValue(y, t), v.Value())
  }

  /** With boundaries equally far, what does not read back is farther than what does. */
  lemma StrictlyClosestExactly(x: int, t: int, v: D.Double)
    requires ReadsBackStrictly(x, t, v) && StrictlyClosest(x, t, v) && !v.lowerBoundaryIsCloser
    ensures StrictlyClosestOfAll(x, t, v)
  {
    D.GapOrder(v);
    hide RPow, D.DecimalValue, D.Double.Value, D.Double.LowerGap, D.Double.UpperGap;
    forall y: int | y != x
      ensures D.RDistance(D.DecimalValue(x, t), v.Value()) < D.RDistance(D.DecimalValue(y, t), v.Value())
    {
      assert Farther(y, x, t, v);
    }
  }

  /** A decimal on or inside the boundaries is strictly inside slightly wider ones that are still within a unit. */
  lemma InsideWider(y: int, u: int, v: D.Double, mk: int, e: int, low: nat, high: nat) returns (l: real, h: real)
    requires Near(Scaled(v.Value() - v.LowerGap(), mk, e), low) && Near(Scaled(v.Value() + v.UpperGap(), mk, e), high)
    requires D.ReadsBack(y, u, v)
    ensures Near(l, low) && Near(h, high) && l < InUnits(y, u + mk, e) < h
  {
    hide Scaled, D.DecimalValue, InUnits, Near, D.Double.Value, D.Double.LowerGap, D.Double.UpperGap;
    UnitsOfDecimal(y, u, mk, e);
    ScaledOrder(v.Value() - v.LowerGap(), D.DecimalValue(y, u), mk, e);
    ScaledOrder(D.DecimalValue(y, u), v.Value() + v.UpperGap(), mk, e);
    l, h := Wider(Scaled(v.Value() - v.LowerGap(), mk, e), Scaled(v.Value() + v.UpperGap(), mk, e), low, high);
  }

  lemma Wider(a: real, b: real, low: nat, high: nat) returns (l: real, h: real)
    requires Near(a, low) && Near(b, high)
    ensures Near(l, low) && Near(h, high) && l < a && b < h
  {
    l, h := (a + (low as real - 1.0)) / 2.0, (b + (high as real + 1.0)) / 2.0;
  }

  /** What an accepted result of the digit generator says about the double. */
  lemma AcceptedForDouble(x: int, kappa: int, v: D.Double, mk: int, e: int, low: nat, w: nat, high: nat)
    requires SurelyShortest(x, kappa, e, low, w, high)
    requires Near(Scaled(v.Value() - v.LowerGap(), mk, e), low) && Near(Scaled(v.Value(), mk, e), w)
    requires Near(Scaled(v.Value() + v.UpperGap(), mk, e), high)
    ensures ReadsBackStrictly(x, kappa - mk, v)
    ensures D.NothingFrom(kappa - mk + 1, v)
    ensures StrictlyClosest(x, kappa - mk, v)
  {
    hide SurelyShortest, Near, Scaled, InUnits, D.ReadsBack, D.DecimalValue, D.RDistance, D.Double.Value,
      D.Double.LowerGap, D.Double.UpperGap;
    AcceptedInside(x, kappa, v, mk, e, low, w, high);
    forall y: int, u: int | u >= kappa - mk + 1 ensures !D.ReadsBack(y, u, v) {
      AcceptedNoneHigher(x, kappa, v, mk, e, low, w, high, y, u);
    }
    var t := kappa - mk;
    forall y: int ensures Farther(y, x, t, v) {
      if D.ReadsBack(y, t, v) && y != x { AcceptedCloser(x, kappa, v, mk, e, low, w, high, y); }
    }
  }

  lemma AcceptedInside(x: int, kappa: int, v: D.Double, mk: int, e: int, low: nat, w: nat, high: nat)
    requires SurelyShortest(x, kappa, e, low, w, high)
    requires Near(Scaled(v.Value() - v.LowerGap(), mk, e), low) && Near(Scaled(v.Value(), mk, e), w)
    requires Near(Scaled(v.Value() + v.UpperGap(), mk, e), high)
    ensures ReadsBackStrictly(x, kappa - mk, v)
  {
    hide Near, Scaled, D.DecimalValue, InUnits, RAbs, D.Double.Value, D.Double.LowerGap, D.Double.UpperGap;
    var t, a, b := kappa - mk, v.Value() - v.LowerGap(), v.Value() + v.UpperGap();
    assert Scaled(a, mk, e) < InUnits(x, kappa, e) < Scaled(b, mk, e);
    UnitsOfDecimal(x, t, mk, e);
    ScaledOrder(a, D.DecimalValue(x, t), mk, e);
    ScaledOrder(D.DecimalValue(x, t), b, mk, e);
  }

  lemma AcceptedNoneHigher(x: int, kappa: int, v: D.Double, mk: int, e: int, low: nat, w: nat, high: nat, y: int,
                           u: int)
    requires SurelyShortest(x, kappa, e, low, w, high) && u >= kappa - mk + 1
    requires Near(Scaled(v.Value() - v.LowerGap(), mk, e), low) && Near(Scaled(v.Value(), mk, e), w)
    requires Near(Scaled(v.Value() + v.UpperGap(), mk, e), high)
    ensures !D.ReadsBack(y, u, v)
  {
    hide SurelyShortest, Near, Scaled, InUnits, D.ReadsBack, D.DecimalValue, D.RDistance, D.Double.Value,
      D.Double.LowerGap, D.Double.UpperGap;
    if D.ReadsBack(y, u, v) {
      var l, h := InsideWider(y, u, v, mk, e, low, high);
      NoneHigher(x, kappa, e, low, w, high, l, Scaled(v.Value(), mk, e), h, y, u + mk);
    }
  }

  lemma AcceptedCloser(x: int, kappa: int, v: D.Double, mk: int, e: int, low: nat, w: nat, high: nat, y: int)
    requires SurelyShortest(x, kappa, e, low, w, high) && D.ReadsBack(y, kappa - mk, v) && y != x
    requires Near(Scaled(v.Value() - v.LowerGap(), mk, e), low) && Near(Scaled(v.Value(), mk, e), w)
    requires Near(Scaled(v.Value() + v.UpperGap(), mk, e), high)
    ensures D.RDistance(D.DecimalValue(x, kappa - mk), v.Value())
      < D.RDistance(D.DecimalValue(y, kappa - mk), v.Value())
  {
    hide SurelyShortest, Near, Scaled, InUnits, D.ReadsBack, D.DecimalValue, D.RDistance, D.Double.Value,
      D.Double.LowerGap, D.Double.UpperGap, RAbs;
    var t, m := kappa - mk, v.Value();
    var l, h := InsideWider(y, t, v, mk, e, low, high);
    CloserThanOther(x, kappa, e, low, w, high, l, Scaled(m, mk, e), h, y);
    UnitsOfDecimal(x, t, mk, e);
    UnitsOfDecimal(y, t, mk, e);
    ScaledDistance(D.DecimalValue(x, t), m, mk, e);
    ScaledDistance(D.DecimalValue(y, t), m, mk, e);
    ScaledOrder(D.RDistance(D.DecimalValue(x, t), m), D.RDistance(D.DecimalValue(y, t), m), mk, e);
  }

  lemma CloserThanOther(x: int, kappa: int, e: int, low: nat, w: nat, high: nat, l: real, m: real, h: real, y: int)
    requires SurelyShortest(x, kappa, e, low, w, high) && Near(l, low) && Near(m, w) && Near(h, high)
    requires y != x && l < InUnits(y, kappa, e) < h
    ensures RAbs(InUnits(x, kappa, e) - m) < RAbs(InUnits(y, kappa, e) - m)
  {
  }

  lemma NoneHigher(x: int, kappa: int, e: int, low: nat, w: nat, high: nat, l: real, m: real, h: real, y: int, j: int)
    requires SurelyShortest(x, kappa, e, low, w, high) && Near(l, low) && Near(m, w) && Near(h, high) && j > kappa
    ensures !(l < InUnits(y, j, e) < h)
  {
  }

  // ----- the digit generator's demands -----

  /** Rounded products of numbers 2d apart with a factor of at least 2^63 are d apart. */
  lemma RoundedApart(x: nat, y: nat, c: nat, d: nat)
    requires x >= y + 2 * d && c >= TWO63
    ensures Product(x, c) >= Product(y, c) + d
  {
    MulNonneg(x, c);
    MulNonneg(y, c);
    MulMonotone(2 * d, x - y, c);
    MulMonotone(TWO63, c, 2 * d);
    MulDistrib(c, y, x - y);
    DivModFacts(x * c + TWO63, MAX64);
    DivModFacts(y * c + TWO63, MAX64);
  }

  lemma TopProduct(x: nat, c: nat)
    requires x < MAX64 && c < MAX64
    ensures Product(x, c) + 1 < MAX64
  {
    MulNonneg(x, c);
    MulMonotone2(x, MAX64 - 1, c, MAX64 - 1);
  }

  /** The interval is wide enough for its upper end to be cut when t units are longer than it. */
  lemma WideEnough(x: nat, y: nat, c: nat, t: nat)
    requires y <= x <= t * (x - y) && TWO63 <= c < MAX64 && 0 < t
    ensures Product(x, c) + 1 <= t * (Product(x, c) - Product(y, c) + 2)
  {
    hide Product;
    ProductBounds(x, c);
    ProductBounds(y, c);
    FactorOut(x, y, c, t);
    WideProducts(x * c, y * c, Product(y, c), Product(x, c), t);
  }

  lemma FactorOut(x: nat, y: nat, c: nat, t: nat)
    requires y <= x <= t * (x - y)
    ensures x * c <= t * (x * c - y * c)
  {
    MulMonotone(x, t * (x - y), c);
    MulAssoc(t, x - y, c);
    MulDistrib(c, x - y, y);
  }

  lemma WideProducts(p: nat, q: nat, low: nat, high: nat, t: nat)
    requires p <= t * (p - q) && t > 0
    requires 2 * p - MAX64 < 2 * high * MAX64 <= 2 * p + MAX64 && 2 * low * MAX64 <= 2 * q + MAX64
    ensures high + 1 <= t * (high - low + 2)
  {
    var d := high - low + 1;
    MulMonotone(p - q, d * MAX64, t);
    MulAssoc(t, d, MAX64);
    MulDistrib(t, d, 1);
    RoomForError(high, p, t, t * d);
  }

  lemma RoomForError(high: nat, p: nat, t: nat, whole: int)
    requires 2 * high * MAX64 <= 2 * p + MAX64 && p <= whole * MAX64 && t > 0
    ensures high + 1 <= whole + t
  {
  }

  lemma ProductBounds(x: nat, c: nat)
    ensures 0 <= x * c
    ensures 2 * (x * c) - MAX64 < 2 * Product(x, c) * MAX64 <= 2 * (x * c) + MAX64
  {
    MulNonneg(x, c);
    DivModFacts(x * c + TWO63, MAX64);
  }

  /**
   The products of boundaries half the distances g above and g or g/2 below apart meet what the digit generator asks
   for, with room for so many digits.
   */
  lemma ReadyToGenerate(wf: nat, lowF: nat, highF: nat, c: nat, e: int, g: nat, digits: nat)
    requires TWO63 <= wf && lowF >= 2 && highF == wf + g && 2 * lowF + g <= 2 * wf && g >= 1024 && g % 4 == 0
    requires highF < MAX64 && TWO63 <= c < MAX64 && -60 <= e <= -32
    requires digits > 0 && highF <= Pow(10, digits - 1) * (highF - lowF) && MAX64 <= g / 2 * Pow(10, digits)
    ensures var low, w, high := Product(lowF, c), Product(wf, c), Product(highF, c);
      && 0 < low && low + 1 <= high - 1 && low < w < high && high + 1 < MAX64
      && 10 * (high + 1) <= (high - low + 2) * Pow(10, digits) && Pow(2, -e) <= (high - low + 2) * Pow(10, digits)
  {
    PowNext(10, digits - 1);
    PowPositive(10, digits - 1);
    PowersOfTwo();
    PowMonotone(2, -e, 64);
    hide Pow, Product;
    RoundedApart(lowF, 0, c, 1);
    RoundedApart(wf, lowF, c, g / 4);
    RoundedApart(highF, wf, c, g / 2);
    TopProduct(highF, c);
    var t, low, high := Pow(10, digits - 1), Product(lowF, c), Product(highF, c);
    WideEnough(highF, lowF, c, t);
    MulAssoc(10, t, high - low + 2);
    MulAssoc(10 * t, high - low + 2, 1);
    MulMonotone(g / 2, high - low + 2, 10 * t);
  }

  /** The boundaries of a number are not too close to each other for their size. */
  lemma BoundariesApart(v: D.Double, lowF: nat, highF: nat)
    requires (D.IsDouble(v) || D.IsSingle(v)) && Shift(v.significand) >= 11 && highF == Filled(v.significand) + Gap(v)
    requires if v.lowerBoundaryIsCloser then 2 * lowF == 2 * Filled(v.significand) - Gap(v)
             else lowF == Filled(v.significand) - Gap(v)
    ensures lowF <= highF <= Pow(10, D.MaxDigits(v) - 1) * (highF - lowF)
  {
    var f, k, g, t := v.significand, Shift(v.significand), Gap(v), Pow(10, D.MaxDigits(v) - 1);
    D.EightAndSixteen();
    PowNext(2, k - 1);
    PowPositive(2, k - 1);
    hide Pow, Shift;
    MulAssoc(f, 2, g);
    MulAssoc(2, f, g);
    MulAssoc(f, 2, 1);
    if v.lowerBoundaryIsCloser {
      assert 4 * f + 2 <= 3 * t;
      MulMonotone(4 * f + 2, 3 * t, g);
      MulDistrib(g, 4 * f, 2);
      MulAssoc(4, f, g);
      MulAssoc(3, t, g);
      MulAssoc(2, t, highF - lowF);
      TimesThree(t, g, highF - lowF);
    } else {
      assert 2 * f + 1 <= 2 * t;
      MulMonotone(2 * f + 1, 2 * t, g);
      MulDistrib(g, 2 * f, 1);
      MulAssoc(2, t, g);
      TimesTwo(t, g, highF - lowF);
    }
  }

  lemma TimesThree(t: int, g: int, d: int)
    requires 2 * d == 3 * g
    ensures 2 * (t * d) == 3 * (t * g)
  {
    MulAssoc(t, d, 2);
    MulAssoc(d, 2, 1);
    MulAssoc(t, g, 3);
    MulAssoc(g, 3, 1);
  }

  lemma TimesTwo(t: int, g: int, d: int)
    requires d == 2 * g
    ensures t * d == 2 * (t * g)
  {
    MulAssoc(t, g, 2);
    MulAssoc(g, 2, 1);
  }

  /** Seventeen digits of a double and nine of a single take the upper end below the interval's length. */
  lemma DigitsReachGap(v: D.Double)
    requires (D.IsDouble(v) || D.IsSingle(v)) && Shift(v.significand) >= 11
    ensures Gap(v) >= 1024 && Gap(v) % 4 == 0 && MAX64 <= Gap(v) / 2 * Pow(10, D.MaxDigits(v))
  {
    if D.IsSingle(v) { SingleGap(v.significand); } else { DoubleGap(Shift(v.significand)); }
    D.EightAndSixteen();
    PowNext(10, D.MaxDigits(v) - 1);
    hide Pow, Shift;
    MulMonotone(if D.IsSingle(v) then 0x40_0000_0000 else 512, Gap(v) / 2, Pow(10, D.MaxDigits(v)));
  }

  lemma DoubleGap(k: nat)
    requires k >= 11
    ensures Pow(2, k - 1) >= 1024 && Pow(2, k - 1) % 4 == 0
  {
    SmallPower();
    hide Pow;
    Units();
    PowMonotone(2, 10, k - 1);
    PowAdd(2, 2, k - 3);
  }

  lemma SingleGap(f: nat)
    requires 0 < f < 0x100_0000
    ensures Shift(f) >= 40 && Pow(2, Shift(f) - 1) >= 0x80_0000_0000 && Pow(2, Shift(f) - 1) % 4 == 0
  {
    ShiftFills(f);
    SmallPower();
    hide Pow, Shift;
    var k := Shift(f);
    PowersOfTwo();
    PowAdd(2, 32, 7);
    if k < 40 {
      PowMonotone(2, k, 39);
      MulMonotone2(f, 0xFF_FFFF, Pow(2, k), 0x80_0000_0000);
    }
    DoubleGap(k);
    PowMonotone(2, 39, k - 1);
  }

  lemma SmallPower()
    ensures Pow(2, 2) == 4 && Pow(2, 7) == 128
  {
    assert Pow(2, 1) == 2 && Pow(2, 2) == 4 && Pow(2, 3) == 8;
    PowAdd(2, 3, 3);
    PowNext(2, 6);
  }

  /** Numbers of the same value have the same normalized form. */
  lemma SameForm(v: D.Double, u: D.Double)
    requires 0 < v.significand < MAX64 && 0 < u.significand < MAX64 && v.Value() == u.Value()
    ensures Filled(v.significand) == Filled(u.significand) && NormalizedExponent(v) == NormalizedExponent(u)
  {
    ShiftFills(v.significand);
    ShiftFills(u.significand);
    ValueInUnits(v, Shift(v.significand));
    ValueInUnits(u, Shift(u.significand));
    var a, i, b, j := Filled(v.significand), NormalizedExponent(v), Filled(u.significand), NormalizedExponent(u);
    hide Pow, RPow, Shift, Filled, Worth, NormalizedExponent, D.Double.Value;
    if i < j { HigherIsMore(a, i, b, j); }
    if j < i { HigherIsMore(b, j, a, i); }
    SameFactor(a, b, i);
  }

  lemma HigherIsMore(a: nat, i: int, b: nat, j: int)
    requires a < MAX64 && TWO63 <= b && i < j
    ensures Worth(a, i) < Worth(b, j)
  {
    hide RPow;
    RPowPositive(2, i);
    RPowMonotone(2, i + 1, j);
    RPowAdd(2, i, 1);
    assert RPow(2, 1) == 2.0 by { RPowNat(2, 1); PowUnit(2); }
    RMulStrict(a as real, MAX64 as real, RPow(2, i));
    RMulStrict(TWO63 as real, b as real, RPow(2, j));
    RMulStrict(RPow(2, i + 1), RPow(2, j), TWO63 as real);
    RMulAssoc(TWO63 as real, RPow(2, j), 1.0);
    RMulAssoc(TWO63 as real, RPow(2, i + 1), 1.0);
    RMulAssoc(RPow(2, i), 2.0, TWO63 as real);
    RMulAssoc(MAX64 as real, RPow(2, i), 1.0);
    RPowPositive(2, j);
  }

  lemma SameFactor(a: nat, b: nat, i: int)
    requires Worth(a, i) == Worth(b, i)
    ensures a == b
  {
    hide RPow;
    RPowPositive(2, i);
    RMulCancel(a as real, b as real, RPow(2, i));
  }

  // ----- the whole -----

  /** The cached power brings the product into the range of the digit generators. */
  predicate InRange(v: D.Double, tenMk: DiyFp)
    requires 0 < v.significand < MAX64
  {
    -60 <= NormalizedExponent(v) + tenMk.e + 64 <= -32
  }

  /** The same number with the boundaries that it has as a double, or as a single. */
  ghost predicate SameNumber(v: D.Double, u: D.Double)
  {
    u == v || (D.IsSingle(u) && u.Value() == v.Value())
  }

  /** The scaled boundaries and the scaled number leave no doubt about the shortest decimal. */
  ghost predicate GrisuDecided(v: D.Double, u: D.Double, tenMk: DiyFp)
  {
    && 0 < v.significand < MAX64 && 0 < u.significand < MAX64 && Shift(u.significand) > 0
    && Decided(NormalizedExponent(v) + tenMk.e + 64, Product(LowerForm(u), tenMk.f),
               Product(Filled(v.significand), tenMk.f), Product(UpperForm(u), tenMk.f))
  }

  /** The scaled number leaves no doubt about its first digits. */
  ghost predicate GrisuCountedDecided(v: D.Double, requestedDigits: nat, tenMk: DiyFp)
  {
    && 0 < v.significand < MAX64 && InRange(v, tenMk)
    && var f, e := Product(Filled(v.significand), tenMk.f), NormalizedExponent(v) + tenMk.e + 64;
       CountedDecided(DigitsBeforePoint(f, e) - requestedDigits, e, f)
  }

  /** The product of two numbers that fill the word has a digit before the point. */
  lemma ReachesPoint(x: nat, c: nat, e: int)
    requires TWO63 <= x && TWO63 <= c && -60 <= e <= -32
    ensures Pow(2, -e) <= Product(x, c)
  {
    hide Pow, Product;
    RoundedApart(x, 0, c, TWO63 / 2);
    PowersOfTwo();
    PowMonotone(2, -e, 60);
    PowAdd(2, 28, 32);
  }

  lemma LowerFormIs(v: D.Double, f: nat)
    requires 0 < v.significand < MAX64 && Shift(v.significand) > 0
    requires if v.lowerBoundaryIsCloser then 2 * f == 2 * Filled(v.significand) - Gap(v)
             else f == Filled(v.significand) - Gap(v)
    ensures f == LowerForm(v)
  {
    hide Pow, Shift, Filled, Gap;
  }

  /**
   The boundaries are those of u, which is v itself or v in single precision. When it returns true: the decimal lies
   strictly between them, so that it reads back; nothing with a higher last place does, not even on a boundary; and no
   other decimal with this last place is as close.
   */
  method Grisu3(v: D.Double, u: D.Double, tenMk: DiyFp, mk: int, buffer: array<char>)
    returns (result: bool, length: nat, decimalExponent: int)
    requires D.IsDouble(v) && SameNumber(v, u)
    requires CachedPower(tenMk, mk) && InRange(v, tenMk) && D.MaxDigits(u) <= buffer.Length
    modifies buffer
    ensures result <==> GrisuDecided(v, u, tenMk)
    ensures length <= D.MaxDigits(u)
    ensures result ==> length > 0 && buffer[0] != '0'
    ensures result ==> AllDigits(buffer[..length]) && ReadsBackStrictly(Dec(buffer[..length]), decimalExponent, u)
    ensures result ==> D.NothingFrom(decimalExponent + 1, u)
    ensures result ==> StrictlyClosest(Dec(buffer[..length]), decimalExponent, u)
    ensures result && !u.lowerBoundaryIsCloser ==> StrictlyClosestOfAll(Dec(buffer[..length]), decimalExponent, u)
  {
    hide Pow, RPow, Scaled, Near, SurelyShortest, Dec, AllDigits, Shift, Filled, Product, Worth, CachedPower,
      Gap, InRange, NormalizedExponent, D.IsDouble, D.IsSingle, D.MaxDigits, D.Double.Value, D.Double.LowerGap,
      D.Double.UpperGap, ReadsBackStrictly, StrictlyClosest, StrictlyClosestOfAll, D.NothingFrom,
      Decided, LowerForm;
    CachedFits(tenMk, mk);
    var w := AsNormalizedDiyFp(v);
    Aligned(v, u);
    var boundaryMinus, boundaryPlus := NormalizedBoundaries(u);
    var scaledW := Times(w, tenMk);
    var scaledMinus := Times(boundaryMinus, tenMk);
    var scaledPlus := Times(boundaryPlus, tenMk);
    BoundariesApart(u, boundaryMinus.f, boundaryPlus.f);
    DigitsReachGap(u);
    TargetExponent(v, tenMk);
    ReadyToGenerate(w.f, boundaryMinus.f, boundaryPlus.f, tenMk.f, scaledW.e, Gap(u), D.MaxDigits(u));
    ReachesPoint(boundaryPlus.f, tenMk.f, scaledW.e);
    LowerFormIs(u, boundaryMinus.f);
    var kappa;
    result, length, kappa := DigitGen(scaledMinus, scaledW, scaledPlus, buffer, D.MaxDigits(u));
    decimalExponent := -mk + kappa;
    if result {
      NormalizedValues(u, boundaryMinus.f, boundaryPlus.f);
      TimesNear(w, tenMk, mk, scaledW);
      TimesNear(boundaryMinus, tenMk, mk, scaledMinus);
      TimesNear(boundaryPlus, tenMk, mk, scaledPlus);
      AcceptedForDouble(Dec(buffer[..length]), kappa, u, mk, scaledW.e, scaledMinus.f, scaledW.f, scaledPlus.f);
      if !u.lowerBoundaryIsCloser { StrictlyClosestExactly(Dec(buffer[..length]), decimalExponent, u); }
    }
  }

  lemma TargetExponent(v: D.Double, tenMk: DiyFp)
    requires 0 < v.significand < MAX64 && InRange(v, tenMk)
    ensures -60 <= NormalizedExponent(v) + tenMk.e + 64 <= -32
  {
  }

  /** The number in single precision normalizes to the same, and its boundaries are at least as far. */
  lemma Aligned(v: D.Double, u: D.Double)
    requires D.IsDouble(v) && SameNumber(v, u) && Shift(v.significand) >= 11
    ensures (D.IsDouble(u) || D.IsSingle(u)) && 0 < u.significand < MAX64 && Shift(u.significand) >= 11
    ensures 0 < v.significand < MAX64 && D.MaxDigits(u) > 0
    ensures Filled(v.significand) == Filled(u.significand) && NormalizedExponent(v) == NormalizedExponent(u)
  {
    if u != v {
      SameForm(v, u);
      ShiftFills(u.significand);
      Units();
      if Shift(u.significand) < 11 {
        hide Pow;
        PowMonotone(2, Shift(u.significand), 10);
        MulMonotone2(u.significand, 0xFF_FFFF, Pow(2, Shift(u.significand)), 1024);
      }
    }
  }

  /** When it returns true: the requested digits, less than half a unit of the last one away from v. */
  method Grisu3Counted(v: D.Double, requestedDigits: nat, tenMk: DiyFp, mk: int, buffer: array<char>)
    returns (result: bool, length: nat, decimalExponent: int)
    requires D.IsDouble(v) && CachedPower(tenMk, mk) && InRange(v, tenMk) && 0 < requestedDigits <= buffer.Length
    modifies buffer
    ensures result <==> GrisuCountedDecided(v, requestedDigits, tenMk)
    ensures result ==> buffer[0] != '0'
    ensures result ==> length == requestedDigits && AllDigits(buffer[..length])
    ensures result ==>
      2.0 * D.RDistance(D.DecimalValue(Dec(buffer[..length]), decimalExponent), v.Value())
        < D.DecimalValue(1, decimalExponent)
  {
    hide Pow, RPow, Scaled, Near, WithinHalf, Dec, AllDigits, Shift, Filled, Product, Worth, CachedPower,
      D.Double.Value, D.DecimalValue, D.RDistance, CountedDecided, DigitsBeforePoint;
    CachedFits(tenMk, mk);
    var w := AsNormalizedDiyFp(v);
    var scaledW := Times(w, tenMk);
    ReachesPoint(w.f, tenMk.f, scaledW.e);
    var kappa;
    result, length, kappa := DigitGenCounted(scaledW, requestedDigits, buffer);
    decimalExponent := -mk + kappa;
    if result {
      ValueInUnits(v, Shift(v.significand));
      TimesNear(w, tenMk, mk, scaledW);
      HalfForDouble(Dec(buffer[..length]), kappa, v, mk, scaledW.e, scaledW.f);
    }
  }

  lemma HalfForDouble(x: int, kappa: int, v: D.Double, mk: int, e: int, w: nat)
    requires WithinHalf(x, kappa, e, w) && Near(Scaled(v.Value(), mk, e), w)
    ensures 2.0 * D.RDistance(D.DecimalValue(x, kappa - mk), v.Value()) < D.DecimalValue(1, kappa - mk)
  {
    hide Near, Scaled, D.DecimalValue, InUnits, RAbs, D.RDistance, D.Double.Value;
    var t, m := kappa - mk, v.Value();
    UnitsOfDecimal(x, t, mk, e);
    UnitsOfDecimal(1, t, mk, e);
    ScaledDistance(D.DecimalValue(x, t), m, mk, e);
    var d := D.RDistance(D.DecimalValue(x, t), m);
    ScaledTwice(d, mk, e);
    ScaledOrder(2.0 * d, D.DecimalValue(1, t), mk, e);
  }

  lemma ScaledTwice(d: real, mk: int, e: int)
    ensures Scaled(2.0 * d, mk, e) == 2.0 * Scaled(d, mk, e)
  {
    hide Factor;
    RMulAssoc(2.0, d, Factor(mk, e));
  }

  datatype Mode = Shortest | ShortestSingle(single: D.Double) | Precision

  /** The number that the mode prints, with its boundaries. */
  function Shown(v: D.Double, mode: Mode): D.Double
  {
    if mode.ShortestSingle? then mode.single else v
  }

  /** The decimal point and terminator around the accepted digits. */
  method Print(v: D.Double, mode: Mode, requestedDigits: nat, tenMk: DiyFp, mk: int, buffer: array<char>)
    returns (result: bool, length: nat, decimalPoint: int)
    requires D.IsDouble(v) && SameNumber(v, Shown(v, mode)) && CachedPower(tenMk, mk) && InRange(v, tenMk)
    requires !mode.Precision? ==> D.MaxDigits(Shown(v, mode)) < buffer.Length
    requires mode.Precision? ==> 0 < requestedDigits < buffer.Length
    modifies buffer
    ensures result <==>
      if mode.Precision? then GrisuCountedDecided(v, requestedDigits, tenMk) else GrisuDecided(v, Shown(v, mode), tenMk)
    ensures result ==> length > 0 && buffer[0] != '0'
    ensures result ==> length < buffer.Length && buffer[length] == '\0' && AllDigits(buffer[..length])
    ensures result && !mode.Precision? ==>
      && length <= D.MaxDigits(Shown(v, mode))
      && ReadsBackStrictly(Dec(buffer[..length]), decimalPoint - length, Shown(v, mode))
      && D.NothingFrom(decimalPoint - length + 1, Shown(v, mode))
      && StrictlyClosest(Dec(buffer[..length]), decimalPoint - length, Shown(v, mode))
      && (!Shown(v, mode).lowerBoundaryIsCloser ==>
            StrictlyClosestOfAll(Dec(buffer[..length]), decimalPoint - length, Shown(v, mode)))
    ensures result && mode.Precision? ==>
      && length == requestedDigits
      && 2.0 * D.RDistance(D.DecimalValue(Dec(buffer[..length]), decimalPoint - length), v.Value())
         < D.DecimalValue(1, decimalPoint - length)
  {
    hide CachedPower, InRange, Dec, AllDigits, D.Double.Value, D.IsDouble, D.IsSingle, D.MaxDigits, SameNumber,
      ReadsBackStrictly, StrictlyClosest, StrictlyClosestOfAll, D.NothingFrom, D.RDistance, D.DecimalValue,
      GrisuDecided, GrisuCountedDecided;
    var decimalExponent := 0;
    decimalPoint := 0;
    if !mode.Precision? {
      result, length, decimalExponent := Grisu3(v, Shown(v, mode), tenMk, mk, buffer);
    } else {
      result, length, decimalExponent := Grisu3Counted(v, requestedDigits, tenMk, mk, buffer);
    }
    if result {
      ghost var digits := buffer[..length];
      decimalPoint := length + decimalExponent;
      buffer[length] := '\0';
      assert buffer[..length] == digits;
      assert buffer[0] == digits[0];
    }
  }
}
