/**
 The whole way from a floating-point number to its shortest decimal: the digits printed for a
 double read back as that double, no shorter decimal does, and no other of that length is closer.
 */
module ShortestDouble {
  import opened Powers
  import opened RealPowers
  import opened Decimal
  import opened Bigits
  import opened BignumModule
  import opened ShortestDigits
  import opened BignumDtoa
  import opened TwosAndFives

  /** significand * 2^exponent; the lower neighbour is closer when the significand is a power of two. */
  datatype Double = Double(significand: nat, exponent: int, lowerBoundaryIsCloser: bool)
  {
    ghost function Value(): real
    {
      significand as real * RPow(2, exponent)
    }

    /** Half the distance to the upper neighbour. */
    ghost function UpperGap(): real
    {
      RPow(2, exponent - 1)
    }

    ghost function LowerGap(): real
    {
      RPow(2, exponent - DeltaBits(true, lowerBoundaryIsCloser))
    }

    predicate IsEven()
    {
      significand % 2 == 0
    }
  }

  /**
   What a positive floating-point number can be: a significand with the hidden bit set, or the smallest exponent. The
   lower neighbour is closer if only the hidden bit is set, but not at the smallest exponent.
   */
  predicate IsFloat(v: Double, hiddenBit: nat, minExponent: int, maxExponent: int)
  {
    && 0 < v.significand < 2 * hiddenBit && minExponent <= v.exponent <= maxExponent
    && (v.significand >= hiddenBit || v.exponent == minExponent)
    && (v.lowerBoundaryIsCloser <==> v.significand == hiddenBit && v.exponent != minExponent)
  }

  predicate IsDouble(v: Double)
  {
    IsFloat(v, 0x10_0000_0000_0000, -1074, 971)
  }

  /** The numbers of single precision, with the boundaries they have there. */
  predicate IsSingle(v: Double)
  {
    IsFloat(v, 0x80_0000, -149, 104)
  }

  /** The most digits a shortest decimal takes. */
  function MaxDigits(v: Double): nat
  {
    if IsSingle(v) then 9 else 17
  }

  /** The number x * 10^t. */
  ghost function DecimalValue(x: int, t: int): real
  {
    x as real * RPow(10, t)
  }

  /**
   A reader that rounds to nearest, ties to even, turns x * 10^t into v: it lies between the
   midpoints to the neighbours, and may be a midpoint only if v's significand is even.
   */
  ghost predicate ReadsBack(x: int, t: int, v: Double)
  {
    if v.IsEven() then v.Value() - v.LowerGap() <= DecimalValue(x, t) <= v.Value() + v.UpperGap()
    else v.Value() - v.LowerGap() < DecimalValue(x, t) < v.Value() + v.UpperGap()
  }

  ghost function RDistance(a: real, b: real): real
  {
    if a <= b then b - a else a - b
  }

  // ----- the integer start values, as multiples of the real ones -----

  ghost function RScaled(f: real, twos: int, tens: int): real
  {
    f * (RPow(2, twos) * RPow(10, tens))
  }

  lemma ScaledIsReal(f: nat, twos: nat, tens: nat)
    ensures Scaled(f, twos, tens) as real == RScaled(f as real, twos, tens)
  {
    hide Pow, RPow;
    RPowNat(2, twos);
    RPowNat(10, tens);
    CastMul(Pow(2, twos), Pow(10, tens));
    CastMul(f, Pow(2, twos) * Pow(10, tens));
  }

  lemma RScaledMul(f: real, a: int, b: int, c: int, d: int)
    ensures RScaled(f, a, b) * RScaled(1.0, c, d) == RScaled(f, a + c, b + d)
  {
    hide RPow;
    RPowAdd(2, a, c);
    RPowAdd(10, b, d);
    RMulSwap(RPow(2, a), RPow(10, b), RPow(2, c), RPow(10, d));
    RMulSwap(RPow(2, a), RPow(2, c), RPow(10, b), RPow(10, d));
    RMulAssoc(f, RPow(2, a) * RPow(10, b), RPow(2, c) * RPow(10, d));
  }

  lemma RScaledPlain(f: real, a: int)
    ensures RScaled(f, a, 0) == f * RPow(2, a)
    ensures RScaled(1.0, 0, a) == RPow(10, a)
    ensures RScaled(1.0, a, 0) == RPow(2, a)
  {
    assert RPow(10, 0) == 1.0 && RPow(2, 0) == 1.0;
  }

  /** What the ratios stand for, once decimalPoint is known. */
  ghost predicate Represents(n: nat, d: nat, minus: nat, plus: nat, decimalPoint: int, v: Double, unit: real)
  {
    && unit > 0.0
    && n as real == v.Value() * unit
    && minus as real == v.LowerGap() * unit
    && plus as real == v.UpperGap() * unit
    && d as real == RPow(10, decimalPoint - 1) * unit
  }

  lemma StartRepresents(v: Double, power: int, n: nat, d: nat, minus: nat, plus: nat) returns (unit: real)
    requires var bits := DeltaBits(true, v.lowerBoundaryIsCloser);
             && n == Scaled(v.significand, Up(v.exponent) + bits, Up(-power))
             && d == Scaled(1, Up(-v.exponent) + bits, Up(power))
             && plus == Scaled(1, Up(v.exponent) + bits - 1, Up(-power))
             && minus == Scaled(1, Up(v.exponent), Up(-power))
    ensures Represents(n, d, minus, plus, power + 1, v, unit)
  {
    hide RPow, Pow, RScaled, Scaled;
    var bits, e, f := DeltaBits(true, v.lowerBoundaryIsCloser), v.exponent, v.significand;
    var a, b := Up(-e) + bits, Up(-power);
    unit := RScaled(1.0, a, b);
    assert unit > 0.0 by { RScaledPositive(a, b); }
    ScaledIsReal(f, Up(e) + bits, Up(-power));
    ScaledIsReal(1, Up(-e) + bits, Up(power));
    ScaledIsReal(1, Up(e) + bits - 1, Up(-power));
    ScaledIsReal(1, Up(e), Up(-power));
    RScaledPlain(f as real, e);
    RScaledPlain(1.0, e - 1);
    RScaledPlain(1.0, e - bits);
    RScaledPlain(1.0, power);
    RScaledMul(f as real, e, 0, a, b);
    RScaledMul(1.0, e - 1, 0, a, b);
    RScaledMul(1.0, e - bits, 0, a, b);
    RScaledMul(1.0, 0, power, a, b);
  }

  lemma RScaledPositive(a: int, b: int)
    ensures RScaled(1.0, a, b) > 0.0
  {
    RPowPositive(2, a);
    RPowPositive(10, b);
    RMulPositive(RPow(2, a), RPow(10, b));
  }

  /** Multiplying value and deltas by ten moves the decimal point one place. */
  lemma TimesTenRepresents(n: nat, d: nat, minus: nat, plus: nat, decimalPoint: int, v: Double, unit: real)
    requires Represents(n, d, minus, plus, decimalPoint, v, unit)
    ensures Represents(10 * n, d, 10 * minus, 10 * plus, decimalPoint - 1, v, 10.0 * unit)
  {
    hide RPow;
    RPowAdd(10, decimalPoint - 2, 1);
    assert RPow(10, 1) == 10.0 by { RPowNat(10, 1); PowUnit(10); }
    RMulAssoc(v.Value(), 10.0, unit);
    RMulAssoc(v.LowerGap(), 10.0, unit);
    RMulAssoc(v.UpperGap(), 10.0, unit);
    RMulAssoc(10.0, v.Value(), unit);
    RMulAssoc(10.0, v.LowerGap(), unit);
    RMulAssoc(10.0, v.UpperGap(), unit);
    RMulAssoc(RPow(10, decimalPoint - 2), 10.0, unit);
  }

  // ----- the integer statements, as real ones -----

  /** Position x with k places, on the real line and in integers. */
  lemma Positions(x: int, k: nat, d: nat, decimalPoint: int, unit: real)
    requires unit > 0.0 && d as real == RPow(10, decimalPoint - 1) * unit
    ensures (x * d) as real == DecimalValue(x, decimalPoint - 1 - k) * (unit * Pow(10, k) as real)
    ensures unit * Pow(10, k) as real > 0.0
  {
    hide RPow, Pow;
    PowPositive(10, k);
    RPowNat(10, k);
    RPowAdd(10, decimalPoint - 1 - k, k);
    var r, t := RPow(10, decimalPoint - 1 - k), Pow(10, k) as real;
    RMulPositive(unit, t);
    assert d as real == r * (unit * t) by {
      RMulAssoc(r, t, unit);
      RMulAssoc(t, unit, 1.0);
    }
    CastMul(x, d);
    RMulAssoc(x as real, r, unit * t);
  }

  lemma Boundary(a: int, k: nat, b: real, unit: real)
    requires a as real == b * unit
    ensures (a * Pow(10, k)) as real == b * (unit * Pow(10, k) as real)
  {
    CastMul(a, Pow(10, k));
    RMulAssoc(b, unit, Pow(10, k) as real);
  }

  lemma InsideMeansReadsBack(x: int, k: nat, n: nat, d: nat, minus: nat, plus: nat, decimalPoint: int, v: Double,
                             unit: real)
    requires Represents(n, d, minus, plus, decimalPoint, v, unit)
    ensures Inside(x, k, n, d, minus, plus, v.IsEven()) <==> ReadsBack(x, decimalPoint - 1 - k, v)
  {
    hide RPow, Pow, DecimalValue, Double.Value, Double.LowerGap, Double.UpperGap;
    var w := unit * Pow(10, k) as real;
    var low, high, z := v.Value() - v.LowerGap(), v.Value() + v.UpperGap(), DecimalValue(x, decimalPoint - 1 - k);
    assert (x * d) as real == z * w && w > 0.0 by { Positions(x, k, d, decimalPoint, unit); }
    assert ((n - minus) * Pow(10, k)) as real == low * w by {
      RMulDistrib(unit, v.Value(), v.LowerGap());
      Boundary(n - minus, k, low, unit);
    }
    assert ((n + plus) * Pow(10, k)) as real == high * w by {
      RMulDistrib(unit, v.Value(), v.UpperGap());
      Boundary(n + plus, k, high, unit);
    }
    SameOrder((n - minus) * Pow(10, k), x * d, low, z, w);
    SameOrder(x * d, (n + plus) * Pow(10, k), z, high, w);
  }

  lemma SameOrder(a: int, b: int, x: real, y: real, w: real)
    requires w > 0.0 && a as real == x * w && b as real == y * w
    ensures a < b <==> x < y
    ensures a <= b <==> x <= y
  {
    RMulStrict(x, y, w);
  }

  lemma DistanceIsReal(x: int, k: nat, n: nat, d: nat, decimalPoint: int, v: Double, unit: real)
    requires unit > 0.0 && n as real == v.Value() * unit && d as real == RPow(10, decimalPoint - 1) * unit
    ensures Distance(x * d, n * Pow(10, k)) as real
         == RDistance(DecimalValue(x, decimalPoint - 1 - k), v.Value()) * (unit * Pow(10, k) as real)
  {
    hide RPow, Pow, DecimalValue;
    var w, z := unit * Pow(10, k) as real, DecimalValue(x, decimalPoint - 1 - k);
    Positions(x, k, d, decimalPoint, unit);
    Boundary(n, k, v.Value(), unit);
    RMulStrict(z, v.Value(), w);
    RMulDistrib(w, v.Value(), z);
    RMulDistrib(w, z, v.Value());
  }

  /** No other decimal with the last place t is closer to v; a tie goes to an even last digit. */
  ghost predicate ClosestDecimal(x: int, t: int, v: Double)
  {
    forall y: int :: ReadsBack(y, t, v) && y != x ==>
      && RDistance(DecimalValue(x, t), v.Value()) <= RDistance(DecimalValue(y, t), v.Value())
      && (RDistance(DecimalValue(x, t), v.Value()) == RDistance(DecimalValue(y, t), v.Value()) ==> x % 2 == 0)
  }

  lemma NearestMeansClosest(x: int, k: nat, n: nat, d: nat, minus: nat, plus: nat, decimalPoint: int, v: Double,
                            unit: real)
    requires Represents(n, d, minus, plus, decimalPoint, v, unit)
    requires Nearest(x, k, n, d, minus, plus, v.IsEven())
    ensures ClosestDecimal(x, decimalPoint - 1 - k, v)
  {
    hide RPow, Pow, DecimalValue, ReadsBack, Inside, Distance, RDistance;
    var t, w := decimalPoint - 1 - k, unit * Pow(10, k) as real;
    forall y: int | ReadsBack(y, t, v) && y != x
      ensures RDistance(DecimalValue(x, t), v.Value()) <= RDistance(DecimalValue(y, t), v.Value())
      ensures RDistance(DecimalValue(x, t), v.Value()) == RDistance(DecimalValue(y, t), v.Value()) ==> x % 2 == 0
    {
      InsideMeansReadsBack(y, k, n, d, minus, plus, decimalPoint, v, unit);
      Positions(0, k, d, decimalPoint, unit);
      DistanceIsReal(x, k, n, d, decimalPoint, v, unit);
      DistanceIsReal(y, k, n, d, decimalPoint, v, unit);
      RMulStrict(RDistance(DecimalValue(x, t), v.Value()), RDistance(DecimalValue(y, t), v.Value()), w);
      RMulStrict(RDistance(DecimalValue(y, t), v.Value()), RDistance(DecimalValue(x, t), v.Value()), w);
    }
  }

  // ----- the closest at all -----

  /** y is not closer to v than x; a tie goes to an even last digit. */
  ghost predicate NotCloser(y: int, x: int, t: int, v: Double)
  {
    && RDistance(DecimalValue(x, t), v.Value()) <= RDistance(DecimalValue(y, t), v.Value())
    && (RDistance(DecimalValue(x, t), v.Value()) == RDistance(DecimalValue(y, t), v.Value()) ==> x % 2 == 0)
  }

  /** No other decimal with the last place t is closer to v, whether it reads back or not. */
  ghost predicate ClosestOfAll(x: int, t: int, v: Double)
  {
    forall y: int :: y != x ==> NotCloser(y, x, t, v)
  }

  /** v in units of 10^t. */
  ghost function Places(v: Double, t: int): real
  {
    RPowPositive(10, t); v.Value() / RPow(10, t)
  }

  /** The multiple of 10^t that is nearest to v, by its factor; of two that are equally near, the even one. */
  ghost function NearestPlace(v: Double, t: int): int
  {
    var q := Places(v, t);
    var y := (q + 0.5).Floor;
    if y as real == q + 0.5 && y % 2 == 1 then y - 1 else y
  }

  /**
   The closest decimal that reads back is the closest of all if the boundaries are equally far, and otherwise if and
   only if the nearest multiple of its last place reads back.
   */
  lemma ClosestExactly(x: int, t: int, v: Double)
    requires ReadsBack(x, t, v) && ClosestDecimal(x, t, v)
    ensures !v.lowerBoundaryIsCloser ==> ClosestOfAll(x, t, v)
    ensures ClosestOfAll(x, t, v) <==> ReadsBack(NearestPlace(v, t), t, v)
  {
    hide ReadsBack, NotCloser, ClosestDecimal, NearestPlace;
    var r := NearestPlace(v, t);
    NearestPlaceIsClosest(v, t);
    ClosestNeighbour(x, t, v);
    if ClosestOfAll(x, t, v) {
      OneClosest(x, r, t, v);
    } else if ReadsBack(r, t, v) && r != x {
      AmongThese(r, x, t, v);
      AllNotCloser(x, r, t, v);
    }
  }

  /** The even one of two equally near multiples is the only closest one. */
  lemma NearestPlaceIsClosest(v: Double, t: int)
    ensures ClosestOfAll(NearestPlace(v, t), t, v)
  {
    hide DecimalValue, RDistance, Double.Value, NotCloser, Places;
    var q, r := Places(v, t), NearestPlace(v, t);
    forall y: int | y != r ensures NotCloser(y, r, t, v) {
      PlaceOrder(r, y, t, v);
      PlaceOrder(y, r, t, v);
      NearestInteger(q, r, y);
      NotCloserFrom(y, r, t, v);
    }
  }

  lemma NotCloserFrom(y: int, x: int, t: int, v: Double)
    requires RDistance(DecimalValue(x, t), v.Value()) <= RDistance(DecimalValue(y, t), v.Value())
    requires RDistance(DecimalValue(x, t), v.Value()) == RDistance(DecimalValue(y, t), v.Value()) ==> x % 2 == 0
    ensures NotCloser(y, x, t, v)
  {
  }

  lemma NearestInteger(q: real, r: int, y: int)
    requires y != r
    requires var z := (q + 0.5).Floor; r == if z as real == q + 0.5 && z % 2 == 1 then z - 1 else z
    ensures RDistance(r as real, q) <= RDistance(y as real, q)
    ensures RDistance(r as real, q) == RDistance(y as real, q) ==> r % 2 == 0
  {
  }

  /** Distances compare as they do in units of the place. */
  lemma PlaceOrder(x: int, y: int, t: int, v: Double)
    ensures var q, a, b :=
      Places(v, t), RDistance(DecimalValue(x, t), v.Value()), RDistance(DecimalValue(y, t), v.Value());
      && (a < b <==> RDistance(x as real, q) < RDistance(y as real, q))
      && (a == b <==> RDistance(x as real, q) == RDistance(y as real, q))
  {
    RPowPositive(10, t);
    PlaceDistance(x, t, v);
    PlaceDistance(y, t, v);
    hide RPow, DecimalValue, RDistance, Double.Value, Places, RTimes;
    TimesOrder(RDistance(x as real, Places(v, t)), RDistance(y as real, Places(v, t)), RPow(10, t));
  }

  ghost function RTimes(a: real, w: real): real
  {
    a * w
  }

  lemma TimesOrder(a: real, b: real, w: real)
    requires w > 0.0
    ensures RTimes(a, w) < RTimes(b, w) <==> a < b
    ensures RTimes(a, w) == RTimes(b, w) <==> a == b
  {
    RMulStrict(a, b, w);
    RMulStrict(b, a, w);
  }

  lemma PlaceDistance(y: int, t: int, v: Double)
    ensures RDistance(DecimalValue(y, t), v.Value()) == RTimes(RDistance(y as real, Places(v, t)), RPow(10, t))
  {
    RPowPositive(10, t);
    PlacesTimes(v, t);
    hide RPow, RDistance, Double.Value, Places;
    TimesDistance(y as real, Places(v, t), RPow(10, t));
  }

  lemma PlacesTimes(v: Double, t: int)
    ensures v.Value() == Places(v, t) * RPow(10, t)
  {
    RPowPositive(10, t);
    hide RPow, Double.Value;
  }

  lemma TimesDistance(x: real, q: real, w: real)
    requires w > 0.0
    ensures RDistance(x * w, q * w) == RDistance(x, q) * w
  {
    RMulStrict(x, q, w);
    RMulDistrib(w, q, x);
    RMulDistrib(w, x, q);
  }

  /** Two closest ones would have a closer one between them. */
  lemma OneClosest(x: int, y: int, t: int, v: Double)
    requires ClosestOfAll(x, t, v) && ClosestOfAll(y, t, v)
    ensures x == y
  {
    if x != y {
      assert NotCloser(y, x, t, v) && NotCloser(x, y, t, v);
      var z := EquallyNear(x, y, t, v);
    }
  }

  lemma EquallyNear(x: int, y: int, t: int, v: Double) returns (z: int)
    requires NotCloser(y, x, t, v) && NotCloser(x, y, t, v) && x != y
    ensures z != x && !NotCloser(z, x, t, v)
  {
    BothEven(x, y, t, v);
    z := (x + y) / 2;
    assert x + y == 2 * z && z != x;
    PlaceOrder(x, y, t, v);
    PlaceOrder(z, x, t, v);
    hide Double.Value, DecimalValue, RDistance, NotCloser, Places;
    Midpoint(Places(v, t), x, y, z);
    Closer(z, x, t, v);
  }

  lemma BothEven(x: int, y: int, t: int, v: Double)
    requires NotCloser(y, x, t, v) && NotCloser(x, y, t, v)
    ensures x % 2 == 0 && y % 2 == 0
      && RDistance(DecimalValue(x, t), v.Value()) == RDistance(DecimalValue(y, t), v.Value())
  {
    hide DecimalValue, RDistance, Double.Value;
  }

  lemma Closer(y: int, x: int, t: int, v: Double)
    requires RDistance(DecimalValue(y, t), v.Value()) < RDistance(DecimalValue(x, t), v.Value())
    ensures !NotCloser(y, x, t, v)
  {
    hide DecimalValue, RDistance, Double.Value;
  }

  lemma Midpoint(q: real, x: int, y: int, z: int)
    requires x != y && x + y == 2 * z && RDistance(x as real, q) == RDistance(y as real, q)
    ensures z != x && RDistance(z as real, q) < RDistance(x as real, q)
  {
  }

  lemma AllNotCloser(x: int, r: int, t: int, v: Double)
    requires NotCloser(r, x, t, v) && ClosestOfAll(r, t, v) && x != r
    ensures ClosestOfAll(x, t, v)
  {
    assert NotCloser(x, r, t, v);
    forall y: int | y != x ensures NotCloser(y, x, t, v) {
      if y != r { assert NotCloser(y, r, t, v); }
    }
  }

  /** Only the lower neighbour can be closer and not read back. */
  lemma ClosestNeighbour(x: int, t: int, v: Double)
    requires ReadsBack(x, t, v) && ClosestDecimal(x, t, v)
    ensures !v.lowerBoundaryIsCloser ==> ClosestOfAll(x, t, v)
    ensures ClosestOfAll(x, t, v) <==> NotCloser(x - 1, x, t, v)
  {
    hide ReadsBack, NotCloser;
    forall y: int | y != x && (!v.lowerBoundaryIsCloser || NotCloser(x - 1, x, t, v))
      ensures NotCloser(y, x, t, v)
    {
      if ReadsBack(y, t, v) { AmongThese(y, x, t, v); } else { OutsideNotCloser(y, x, t, v); }
    }
    ghost var lower := x - 1;
    assert ClosestOfAll(x, t, v) ==> NotCloser(lower, x, t, v);
  }

  lemma AmongThese(y: int, x: int, t: int, v: Double)
    requires ReadsBack(y, t, v) && ClosestDecimal(x, t, v) && y != x
    ensures NotCloser(y, x, t, v)
  {
  }

  lemma OutsideNotCloser(y: int, x: int, t: int, v: Double)
    requires ReadsBack(x, t, v) && !ReadsBack(y, t, v)
    requires !v.lowerBoundaryIsCloser || NotCloser(x - 1, x, t, v)
    ensures NotCloser(y, x, t, v)
  {
    DecimalOrder(y, x - 1, t);
    DecimalOrder(x - 1, y, t);
    DecimalOrder(x - 1, x, t);
    DecimalOrder(x, y, t);
    GapOrder(v);
    hide DecimalValue, Double.Value, Double.LowerGap, Double.UpperGap;
  }

  lemma DecimalOrder(x: int, y: int, t: int)
    ensures x < y <==> DecimalValue(x, t) < DecimalValue(y, t)
    ensures x == y <==> DecimalValue(x, t) == DecimalValue(y, t)
  {
    RPowPositive(10, t);
    hide RPow;
    CastOrder(x, y, RPow(10, t), DecimalValue(x, t), DecimalValue(y, t));
  }

  lemma CastOrder(x: int, y: int, c: real, a: real, b: real)
    requires c > 0.0 && a == x as real * c && b == y as real * c
    ensures x < y <==> a < b
    ensures x == y <==> a == b
  {
    RMulStrict(x as real, y as real, c);
    RMulStrict(y as real, x as real, c);
  }

  lemma GapOrder(v: Double)
    ensures 0.0 < v.LowerGap() <= v.UpperGap()
    ensures !v.lowerBoundaryIsCloser ==> v.LowerGap() == v.UpperGap()
  {
    RPowPositive(2, v.exponent - 2);
    RPowPositive(2, v.exponent - 1);
    RPowMonotone(2, v.exponent - 2, v.exponent - 1);
  }

  /** 2^-44: the closest decimal with sixteen digits does not read back, the printed one lies on the other side. */
  lemma CloserOutside()
    ensures var v, x, t := Double(0x10_0000_0000_0000, -96, true), 5684341886080802, -29;
      && IsDouble(v)
      && ReadsBack(x, t, v) && NothingFrom(t + 1, v) && ClosestDecimal(x, t, v)
      && !ReadsBack(x - 1, t, v) && !NotCloser(x - 1, x, t, v) && !ClosestOfAll(x, t, v)
      && !ReadsBack(NearestPlace(v, t), t, v)
  {
    var v, x, t := Double(0x10_0000_0000_0000, -96, true), 5684341886080802, -29;
    var n, d, minus, plus := Scaled(0x10_0000_0000_0000, 2, 29), Scaled(1, 98, 0), Scaled(1, 0, 29), Scaled(1, 1, 29);
    var unit := StartRepresents(v, t, n, d, minus, plus);
    BigPowers();
    hide Scaled, RPow, Pow, Represents, ReadsBack, DecimalValue, RDistance, Double.Value, NotCloser, NearestPlace;
    forall y: int ensures ReadsBack(y, t, v) <==> y == x {
      OnlyOneInside(y);
      InsideMeansReadsBack(y, 0, n, d, minus, plus, t + 1, v, unit);
    }
    forall y: int, u: int | u >= t + 1 ensures !ReadsBack(y, u, v) {
      if ReadsBack(y, u, v) {
        EndsInZero(y, u, t, v);
      }
    }
    LowerIsCloser(n, d, minus, plus, t + 1, v, unit);
    ClosestExactly(x, t, v);
  }

  lemma BigPowers()
    ensures Pow(2, 98) == 316912650057057350374175801344 && Pow(10, 29) == 100000000000000000000000000000
    ensures Scaled(0x10_0000_0000_0000, 2, 29) == 0x40_0000_0000_0000 * 100000000000000000000000000000
    ensures Scaled(1, 98, 0) == 316912650057057350374175801344
    ensures Scaled(1, 0, 29) == 100000000000000000000000000000 && Scaled(1, 1, 29) == 200000000000000000000000000000
  {
    PowersOfTwo();
    EightAndSixteen();
    SmallShifts();
    PowUnit(10);
    PowAdd(2, 64, 32);
    PowAdd(2, 96, 2);
    PowAdd(10, 8, 4);
    PowAdd(10, 16, 8);
    PowAdd(10, 24, 4);
    PowNext(10, 28);
    assert Pow(10, 4) == 10000 by { assert Pow(10, 2) == 100; }
  }

  lemma OnlyOneInside(y: int)
    ensures y == 5684341886080802 <==>
      Inside(y, 0, 0x40_0000_0000_0000 * 100000000000000000000000000000, 316912650057057350374175801344,
             100000000000000000000000000000, 200000000000000000000000000000, true)
  {
    PowUnit(10);
  }

  /** What reads back from a higher place ends in a zero at a lower one. */
  lemma EndsInZero(y: int, u: int, t: int, v: Double)
    requires u >= t + 1 && ReadsBack(y, u, v)
    ensures exists z: int :: ReadsBack(10 * z, t, v)
  {
    hide RPow;
    var z := LowerPlace(y, u, t + 1);
    RPowAdd(10, t, 1);
    RPowNat(10, 1);
    PowUnit(10);
    RMulAssoc(z as real, 10.0, RPow(10, t));
    RMulAssoc(10.0, RPow(10, t), 1.0);
    assert DecimalValue(10 * z, t) == DecimalValue(y, u);
    assert ReadsBack(10 * z, t, v);
  }

  lemma LowerIsCloser(n: nat, d: nat, minus: nat, plus: nat, decimalPoint: int, v: Double, unit: real)
    requires Represents(n, d, minus, plus, decimalPoint, v, unit)
    requires n == 0x40_0000_0000_0000 * 100000000000000000000000000000 && d == 316912650057057350374175801344
    ensures !NotCloser(5684341886080801, 5684341886080802, decimalPoint - 1, v)
  {
    hide RPow, DecimalValue, RDistance, Double.Value;
    PowUnit(10);
    DistanceIsReal(5684341886080801, 0, n, d, decimalPoint, v, unit);
    DistanceIsReal(5684341886080802, 0, n, d, decimalPoint, v, unit);
    RMulStrict(RDistance(DecimalValue(5684341886080801, decimalPoint - 1), v.Value()),
               RDistance(DecimalValue(5684341886080802, decimalPoint - 1), v.Value()), unit);
  }

  // ----- no shorter decimal, at any magnitude -----

  /** A decimal whose last place is at 10^t or above reads back as v for no digits at all. */
  ghost predicate NothingFrom(t: int, v: Double)
  {
    forall x: int, u: int :: u >= t ==> !ReadsBack(x, u, v)
  }

  /** A decimal with a high last place is a decimal with a lower last place too. */
  lemma LowerPlace(x: int, u: int, t: int) returns (y: int)
    requires u >= t
    ensures DecimalValue(y, t) == DecimalValue(x, u)
  {
    hide RPow, Pow;
    y := x * Pow(10, u - t);
    RPowAdd(10, u - t, t);
    RPowNat(10, u - t);
    CastMul(x, Pow(10, u - t));
    RMulAssoc(x as real, RPow(10, u - t), RPow(10, t));
  }

  /** Above the leading digit there is only zero, which is too small, or something too large. */
  lemma NothingAbove(x: int, u: int, v: Double, decimalPoint: int)
    requires u >= decimalPoint && v.Value() - v.LowerGap() > 0.0
    requires v.Value() + v.UpperGap() < RPow(10, decimalPoint)
      || (!v.IsEven() && v.Value() + v.UpperGap() <= RPow(10, decimalPoint))
    ensures !ReadsBack(x, u, v)
  {
    hide RPow, Pow;
    var y := LowerPlace(x, u, decimalPoint);
    var r, z := RPow(10, decimalPoint), DecimalValue(y, decimalPoint);
    RPowPositive(10, decimalPoint);
    if y >= 1 {
      assert r <= z by { RMulStrict(1.0, y as real, r); }
    } else {
      assert z <= 0.0 by { RMulStrict(y as real, 0.0, r); }
    }
  }

  lemma ShorterNever(length: nat, n: nat, d: nat, minus: nat, plus: nat, decimalPoint: int, v: Double, unit: real)
    requires length > 0 && Represents(n, d, minus, plus, decimalPoint, v, unit)
    requires forall j: nat :: j < length - 1 ==> NoneInside(j, n, d, minus, plus, v.IsEven())
    requires minus < n
    requires if v.IsEven() then n + plus < 10 * d else n + plus <= 10 * d
    ensures NothingFrom(decimalPoint - length + 1, v)
  {
    hide RPow, Pow, DecimalValue, ReadsBack, Inside;
    forall x: int, u: int | u >= decimalPoint - length + 1 ensures !ReadsBack(x, u, v) {
      if u >= decimalPoint {
        RangeIsReal(n, d, minus, plus, decimalPoint, v, unit);
        NothingAbove(x, u, v, decimalPoint);
      } else {
        var j: nat := decimalPoint - 1 - u;
        assert NoneInside(j, n, d, minus, plus, v.IsEven());
        InsideMeansReadsBack(x, j, n, d, minus, plus, decimalPoint, v, unit);
      }
    }
  }

  /** The integer range conditions, as real ones. */
  lemma RangeIsReal(n: nat, d: nat, minus: nat, plus: nat, decimalPoint: int, v: Double, unit: real)
    requires Represents(n, d, minus, plus, decimalPoint, v, unit)
    ensures minus < n <==> v.Value() - v.LowerGap() > 0.0
    ensures n + plus < 10 * d <==> v.Value() + v.UpperGap() < RPow(10, decimalPoint)
    ensures n + plus <= 10 * d <==> v.Value() + v.UpperGap() <= RPow(10, decimalPoint)
    ensures d <= n + plus <==> RPow(10, decimalPoint - 1) <= v.Value() + v.UpperGap()
  {
    hide RPow, Pow, Double.Value, Double.LowerGap, Double.UpperGap;
    var high, q, ten := v.Value() + v.UpperGap(), RPow(10, decimalPoint - 1), RPow(10, decimalPoint);
    assert (n + plus) as real == high * unit by { RMulDistrib(unit, v.Value(), v.UpperGap()); }
    assert (10 * d) as real == ten * unit by {
      RPowAdd(10, decimalPoint - 1, 1);
      RPowNat(10, 1);
      PowUnit(10);
      RMulAssoc(q, 10.0, 1.0);
      RMulAssoc(10.0, q, unit);
    }
    SameOrder(minus, n, v.LowerGap(), v.Value(), unit);
    SameOrder(n + plus, 10 * d, high, ten, unit);
    SameOrder(d, n + plus, q, high, unit);
  }

  /** The shortest decimal does not start with a zero. */
  lemma NoLeadingZero(x: int, k: nat, n: int, d: int, minus: int, plus: int, even: bool)
    requires IsShortest(x, k, n, d, minus, plus, even)
    requires 0 < minus < n && plus > 0 && d > 0 && RoomAbove(n, plus, d, even)
    ensures Pow(10, k) <= x
  {
    hide Nearest, Pow, Inside;
    ghost var none := NoneInside(0, n, d, minus, plus, even);
    if x < Pow(10, k) {
      BelowOne(x, k, n, d, minus, plus, even);
    }
  }

  /** If a number below 1 is inside and the upper boundary is at least 1, then 1 is inside. */
  lemma BelowOne(x: int, k: nat, n: int, d: int, minus: int, plus: int, even: bool)
    requires Inside(x, k, n, d, minus, plus, even) && x < Pow(10, k)
    requires 0 < minus < n && plus > 0 && d > 0 && RoomAbove(n, plus, d, even)
    ensures k > 0 && Inside(1, 0, n, d, minus, plus, even)
  {
    hide Pow;
    PowUnit(10);
    var s := Pow(10, k);
    assert s >= 1 by { PowPositive(10, k); }
    assert x >= 1 by {
      MulPositive(n - minus, s);
      if x <= 0 { MulMonotone(x, 0, d); }
    }
    assert n - minus < d by {
      MulStrict(x, s, d);
      MulAssoc(d, s, 1);
      if n - minus >= d { MulMonotone(d, n - minus, s); }
    }
  }

  // ----- the room for the digits -----

  /** Value and gaps as multiples of the lower gap, in integers. */
  ghost predicate InGaps(v: Double, n: int, minus: int, plus: int)
  {
    if v.lowerBoundaryIsCloser then n == 4 * v.significand * minus && plus == 2 * minus
    else n == 2 * v.significand * minus && plus == minus
  }

  lemma StartInGaps(v: Double, power: int, n: nat, minus: nat, plus: nat)
    requires var bits := DeltaBits(true, v.lowerBoundaryIsCloser);
             && n == Scaled(v.significand, Up(v.exponent) + bits, Up(-power))
             && plus == Scaled(1, Up(v.exponent) + bits - 1, Up(-power))
             && minus == Scaled(1, Up(v.exponent), Up(-power))
    ensures InGaps(v, n, minus, plus)
  {
    var bits, a, b := DeltaBits(true, v.lowerBoundaryIsCloser), Up(v.exponent), Up(-power);
    SmallShifts();
    hide Pow, Scaled;
    ScaledShift(1, a, b, bits - 1);
    ScaledShift(1, a, b, bits);
    ScaledFactor(v.significand, a + bits, b);
    MulAssoc(Pow(2, bits), v.significand, minus);
    MulAssoc(Pow(2, bits), minus, v.significand);
    MulAssoc(minus, v.significand, 1);
    MulAssoc(minus, Pow(2, bits - 1), 1);
  }

  lemma InGapsTimesTen(v: Double, n: int, minus: int, plus: int)
    requires InGaps(v, n, minus, plus)
    ensures InGaps(v, 10 * n, 10 * minus, 10 * plus)
  {
    var c := (if v.lowerBoundaryIsCloser then 4 else 2) * v.significand;
    MulAssoc(c, 10, minus);
    MulAssoc(10, c, minus);
  }

  /**
   Once the last place is below the gaps' sum there are enough digits: at most 17 of a double, 9 in single precision.
   */
  lemma EnoughRoom(v: Double, n: int, d: int, minus: int, plus: int)
    requires IsDouble(v) || IsSingle(v)
    requires InGaps(v, n, minus, plus) && minus > 0 && d <= n + plus
    ensures d < (minus + plus) * Pow(10, MaxDigits(v) - 1)
  {
    var f, t := v.significand, Pow(10, MaxDigits(v) - 1);
    EightAndSixteen();
    hide Pow;
    if v.lowerBoundaryIsCloser {
      MulDistrib(minus, 4 * f, 2);
      MulStrict(4 * f + 2, 3 * t, minus);
      MulAssoc(3, t, minus);
      MulAssoc(3, minus, t);
      MulAssoc(t, minus, 1);
    } else {
      MulDistrib(minus, 2 * f, 1);
      MulStrict(2 * f + 1, 2 * t, minus);
      MulAssoc(2, t, minus);
      MulAssoc(2, minus, t);
      MulAssoc(t, minus, 1);
    }
  }

  lemma EightAndSixteen()
    ensures Pow(10, 8) == 100000000 && Pow(10, 16) == 10000000000000000
  {
    assert Pow(10, 1) == 10 && Pow(10, 2) == 100 && Pow(10, 4) == 10000;
    PowAdd(10, 4, 4);
    PowAdd(10, 8, 8);
  }

  // ----- upper boundaries and powers of ten -----

  /** An odd number times a power of two is a power of ten only as a power of five with as many twos. */
  lemma PowerOfTenExactly(g: nat, a: int, p: int)
    requires g % 2 == 1
    ensures g as real * RPow(2, a) == RPow(10, p) <==> p >= 0 && a == p && g == Pow(5, p)
  {
    hide RPow, Pow, RScaled, Scaled;
    var i, j := Up(-a), Up(-p);
    OddIsPowerOfFive(g, a, p);
    RScaledPositive(i, j);
    ScaledIsReal(g, Up(a), j);
    ScaledIsReal(1, i, Up(p));
    RScaledPlain(g as real, a);
    RScaledPlain(1.0, p);
    RScaledMul(g as real, a, 0, i, j);
    RScaledMul(1.0, 0, p, i, j);
    var unit := RScaled(1.0, i, j);
    if Scaled(g, Up(a), j) == Scaled(1, i, Up(p)) { RMulCancel(g as real * RPow(2, a), RPow(10, p), unit); }
  }

  /** The upper boundary of a number with an odd significand is never a power of ten. */
  lemma OddBoundaryIsNoPowerOfTen(v: Double, p: int)
    requires !v.IsEven()
    ensures v.Value() + v.UpperGap() != RPow(10, p)
  {
    hide RPow, Pow, Double.Value, Double.UpperGap;
    var f, a := v.significand, v.exponent - 1;
    UpperBoundary(v);
    PowerOfTenExactly(2 * f + 1, a, p);
    if p >= 0 { FivesModFour(p); }
  }

  lemma UpperBoundary(v: Double)
    ensures v.Value() + v.UpperGap() == (2 * v.significand + 1) as real * RPow(2, v.exponent - 1)
  {
    hide RPow;
    var f, q := v.significand as real, RPow(2, v.exponent - 1);
    RPowAdd(2, v.exponent - 1, 1);
    assert RPow(2, 1) == 2.0 by { RPowNat(2, 1); PowUnit(2); }
    RMulAssoc(f, 2.0, q);
    RMulAssoc(2.0, f, q);
    RMulAssoc(q, 2.0, 1.0);
    RMulDistrib(q, 2.0 * f, 1.0);
  }

  // ----- the range of the power estimate -----

  /** Three bits are less than a decimal digit. */
  lemma TwosBelowTens(k: nat)
    ensures RPow(2, 3 * k) <= RPow(10, k) && RPow(10, 0 - k) <= RPow(2, -3 * k)
  {
    hide RPow, Pow;
    Eight();
    PowPow(2, 3, k);
    PowBaseMonotone(8, 10, k);
    RPowNat(2, 3 * k);
    RPowNat(10, k);
    RPowAdd(2, 3 * k, -3 * k);
    RPowAdd(10, k, 0 - k);
    RPowNat(2, 0);
    RPowNat(10, 0);
    PowUnit(2);
    PowUnit(10);
    RPowPositive(10, 0 - k);
    RPowPositive(2, -3 * k);
    InverseOrder(RPow(2, 3 * k), RPow(10, k), RPow(2, -3 * k), RPow(10, 0 - k));
  }

  lemma InverseOrder(a: real, b: real, x: real, y: real)
    requires a <= b && x > 0.0 && y > 0.0 && a * x == 1.0 && b * y == 1.0
    ensures y <= x
  {
    if x < y {
      RMulStrict(x, y, b);
      RMulStrict(a, b, x);
      RMulAssoc(x, b, 1.0);
      RMulAssoc(y, b, 1.0);
      RMulAssoc(x, a, 1.0);
    }
  }

  /** A usable power estimate is in the range that the bignums can hold. */
  lemma EstimateInRange(v: Double, power: int)
    requires IsDouble(v) || IsSingle(v)
    requires RPow(10, power - 1) <= v.Value() < RPow(10, power + 1)
    ensures DoubleRange(v.significand, v.exponent, power)
  {
    ValueRange(v);
    hide RPow, Pow, Double.Value, Double.UpperGap;
    if power > 400 {
      RPowMonotone(10, 400, power - 1);
      TwosBelowTens(400);
      RPowMonotone(2, 53 + v.exponent, 1200);
    }
    if power < -400 {
      RPowMonotone(10, power + 1, -400);
      TwosBelowTens(400);
      RPowMonotone(2, -1200, v.exponent);
    }
    if v.exponent >= 0 && power < 0 {
      ZerothPowers();
      RPowMonotone(10, power + 1, 0);
      RPowMonotone(2, 0, v.exponent);
    }
  }

  lemma ZerothPowers()
    ensures RPow(2, 0) == 1.0 && RPow(10, 0) == 1.0
  {
  }

  lemma ValueRange(v: Double)
    requires IsDouble(v) || IsSingle(v)
    ensures RPow(2, v.exponent) <= v.Value() < RPow(2, 53 + v.exponent)
  {
    hide RPow, Pow;
    RPowPositive(2, v.exponent);
    SignificandBound();
    RPowAdd(2, 53, v.exponent);
    SignificandRange(v.significand);
    FactorRange(v.significand as real, RPow(2, 53), RPow(2, v.exponent));
  }

  lemma SignificandRange(f: nat)
    requires 0 < f < 0x20_0000_0000_0000
    ensures 1.0 <= f as real < 0x20_0000_0000_0000 as real
  {
  }

  lemma FactorRange(f: real, limit: real, t: real)
    requires 1.0 <= f < limit && t > 0.0
    ensures t <= f * t < limit * t
  {
    RMulStrict(1.0, f, t);
    RMulStrict(f, limit, t);
  }

  lemma ValueBelowBoundary(v: Double)
    ensures v.Value() < v.Value() + v.UpperGap()
  {
    RPowPositive(2, v.exponent - 1);
  }

  lemma SignificandBound()
    ensures RPow(2, 53) == 0x20_0000_0000_0000 as real
  {
    hide RPow, Pow;
    RPowNat(2, 53);
    PowersOfTwo();
    Eight();
    PowAdd(2, 32, 16);
    PowAdd(2, 48, 4);
    PowUnit(2);
    PowAdd(2, 52, 1);
  }

  /** What the digit generator's result means for the double. */
  lemma FinishedMeansShortest(digits: seq<char>, n: nat, d: nat, minus: nat, plus: nat, decimalPoint: int, v: Double,
                              unit: real)
    requires Represents(n, d, minus, plus, decimalPoint, v, unit)
    requires Finished(digits, n, d, minus, plus, v.IsEven())
    requires 0 < minus < n && plus > 0 && d > 0 && RoomAbove(n, plus, d, v.IsEven())
    requires if v.IsEven() then n + plus < 10 * d else n + plus <= 10 * d
    ensures ReadsBack(Dec(digits), decimalPoint - |digits|, v)
    ensures NothingFrom(decimalPoint - |digits| + 1, v)
    ensures ClosestDecimal(Dec(digits), decimalPoint - |digits|, v)
    ensures AllDigits(digits) && digits[0] != '0'
  {
    hide RPow, Pow, Represents, ReadsBack, NothingFrom, ClosestDecimal, Inside, Nearest, NoneInside;
    var x, k := Dec(digits), |digits| - 1;
    InsideMeansReadsBack(x, k, n, d, minus, plus, decimalPoint, v, unit);
    NearestMeansClosest(x, k, n, d, minus, plus, decimalPoint, v, unit);
    ShorterNever(|digits|, n, d, minus, plus, decimalPoint, v, unit);
    NoLeadingZero(x, k, n, d, minus, plus, v.IsEven());
    FirstDigit(digits);
  }

  /** The start values are positive, ordered, and small enough for the buffer of bigits. */
  lemma StartFits(v: Double, power: int, n: nat, d: nat, minus: nat, plus: nat)
    requires DoubleRange(v.significand, v.exponent, power)
    requires var bits := DeltaBits(true, v.lowerBoundaryIsCloser);
             && n == Scaled(v.significand, Up(v.exponent) + bits, Up(-power))
             && d == Scaled(1, Up(-v.exponent) + bits, Up(power))
             && plus == Scaled(1, Up(v.exponent) + bits - 1, Up(-power))
             && minus == Scaled(1, Up(v.exponent), Up(-power))
    ensures 0 < minus <= plus && minus < n && 0 < d < P(CAPACITY - 2)
  {
    hide P, Pow, Scaled;
    var bits, a, b := DeltaBits(true, v.lowerBoundaryIsCloser), Up(v.exponent), Up(-power);
    ScaledBound(1, Up(-v.exponent) + bits, Up(power));
    ScaledFactor(1, Up(-v.exponent) + bits, Up(power));
    ScaledFactor(1, a, b);
    ScaledShift(1, a, b, bits - 1);
    ScaledShift(1, a, b, bits);
    ScaledFactor(v.significand, a + bits, b);
    assert Pow(2, bits - 1) >= 1 && Pow(2, bits) >= 2 by { SmallShifts(); }
    MulMonotone(1, Pow(2, bits - 1), minus);
    MulMonotone(2, Pow(2, bits), minus);
    MulMonotone(1, v.significand, Scaled(1, a + bits, b));
  }

  lemma SmallShifts()
    ensures Pow(2, 0) == 1 && Pow(2, 1) == 2 && Pow(2, 2) == 4
  {
  }

  /** After the fix-up the first digit is in range and the decimal point is known. */
  lemma FixupRepresents(v: Double, power: int, n: nat, d: nat, minus: nat, plus: nat, unit: real, reached: bool)
    returns (unit': real)
    requires Represents(n, d, minus, plus, power + 1, v, unit)
    requires RPow(10, power - 1) <= v.Value() && v.Value() + v.UpperGap() < RPow(10, power + 1)
    requires reached == RoomAbove(n, plus, d, v.IsEven())
    requires (IsDouble(v) || IsSingle(v)) && InGaps(v, n, minus, plus) && minus > 0
    ensures var factor := if reached then 1 else 10;
            && Represents(factor * n, d, factor * minus, factor * plus, if reached then power + 1 else power, v, unit')
            && d <= factor * n + factor * plus < 10 * d
            && RoomAbove(factor * n, factor * plus, d, v.IsEven())
            && d < (factor * minus + factor * plus) * Pow(10, MaxDigits(v) - 1)
  {
    hide RPow, Pow, Represents;
    var factor := if reached then 1 else 10;
    var point := if reached then power + 1 else power;
    unit' := unit;
    if reached {
      RangeIsReal(n, d, minus, plus, power + 1, v, unit);
    } else {
      unit' := 10.0 * unit;
      TimesTenRepresents(n, d, minus, plus, power + 1, v, unit);
      InGapsTimesTen(v, n, minus, plus);
      if !v.IsEven() { OddBoundaryIsNoPowerOfTen(v, power); }
      RangeIsReal(10 * n, d, 10 * minus, 10 * plus, power, v, unit');
      StrictlyAbove(10 * n, d, 10 * minus, 10 * plus, power, v, unit');
    }
    EnoughRoom(v, factor * n, d, factor * minus, factor * plus);
  }

  lemma StrictlyAbove(n: nat, d: nat, minus: nat, plus: nat, decimalPoint: int, v: Double, unit: real)
    requires Represents(n, d, minus, plus, decimalPoint, v, unit)
    requires RPow(10, decimalPoint - 1) <= v.Value()
    ensures d < n + plus
  {
    hide RPow;
    RPowPositive(2, v.exponent - 1);
    RMulPositive(v.UpperGap(), unit);
    RMulStrict(RPow(10, decimalPoint - 1), v.Value(), unit);
  }

  /** The printing itself, on four bignums of its own. */
  method PrintShortest(v: Double, estimatedPower: int, buffer: array<char>,
                       numerator: Bignum, denominator: Bignum, deltaMinus: Bignum, deltaPlus: Bignum)
    returns (length: nat, decimalPoint: int)
    requires Usable(numerator, denominator, deltaMinus, deltaPlus)
    requires IsDouble(v) || IsSingle(v)
    requires RPow(10, estimatedPower - 1) <= v.Value() && v.Value() + v.UpperGap() < RPow(10, estimatedPower + 1)
    requires MaxDigits(v) < buffer.Length
    modifies numerator, numerator.bigits, denominator, denominator.bigits,
             deltaMinus, deltaMinus.bigits, deltaPlus, deltaPlus.bigits, buffer
    ensures 0 < length <= MaxDigits(v) && AllDigits(buffer[..length]) && buffer[0] != '0'
    ensures RPow(10, decimalPoint - 1) <= v.Value() + v.UpperGap() < RPow(10, decimalPoint)
    ensures ReadsBack(Dec(buffer[..length]), decimalPoint - length, v)
    ensures NothingFrom(decimalPoint - length + 1, v)
    ensures ClosestDecimal(Dec(buffer[..length]), decimalPoint - length, v)
    ensures !v.lowerBoundaryIsCloser ==> ClosestOfAll(Dec(buffer[..length]), decimalPoint - length, v)
  {
    hide P, Val, RPow, Pow, Scaled, Represents, ReadsBack, NothingFrom, ClosestDecimal, ClosestOfAll, Bignum.Valid,
      Bignum.Value, Finished, RoomAbove, InGaps, Double.Value, Double.UpperGap, AllDigits, Dec, DoubleRange, IsDouble,
      IsSingle;
    ValueBelowBoundary(v);
    EstimateInRange(v, estimatedPower);
    var isEven := v.significand % 2 == 0;
    InitialScaledStartValues(v.significand, v.exponent, v.lowerBoundaryIsCloser, estimatedPower, true,
                             numerator, denominator, deltaMinus, deltaPlus);
    ghost var n, d, minus, plus := numerator.Value(), denominator.Value(), deltaMinus.Value(), deltaPlus.Value();
    ghost var unit := StartRepresents(v, estimatedPower, n, d, minus, plus);
    StartFits(v, estimatedPower, n, d, minus, plus);
    StartInGaps(v, estimatedPower, n, minus, plus);
    denominator.LengthFromValue(CAPACITY - 2);
    ghost var reached := RoomAbove(n, plus, d, isEven);
    unit := FixupRepresents(v, estimatedPower, n, d, minus, plus, unit, reached);
    decimalPoint := FixupMultiply10(estimatedPower, isEven, numerator, denominator, deltaMinus, deltaPlus);
    ghost var n', minus', plus' := numerator.Value(), deltaMinus.Value(), deltaPlus.Value();
    length := GenerateShortestDigits(numerator, denominator, deltaMinus, deltaPlus, isEven, buffer, MaxDigits(v));
    FinishedMeansShortest(buffer[..length], n', d, minus', plus', decimalPoint, v, unit);
    RangeIsReal(n', d, minus', plus', decimalPoint, v, unit);
    ClosestExactly(Dec(buffer[..length]), decimalPoint - length, v);
  }

  /**
   Prints the shortest decimal of v into the buffer, given the decimal power of v, possibly one too
   low, as the source's estimate delivers it.
   */
  method BignumDtoaShortest(v: Double, estimatedPower: int, buffer: array<char>)
    returns (length: nat, decimalPoint: int)
    requires IsDouble(v) || IsSingle(v)
    requires RPow(10, estimatedPower - 1) <= v.Value() && v.Value() + v.UpperGap() < RPow(10, estimatedPower + 1)
    requires MaxDigits(v) < buffer.Length
    modifies buffer
    ensures 0 < length <= MaxDigits(v) && AllDigits(buffer[..length]) && buffer[0] != '0' && buffer[length] == '\0'
    ensures RPow(10, decimalPoint - 1) <= v.Value() + v.UpperGap() < RPow(10, decimalPoint)
    ensures ReadsBack(Dec(buffer[..length]), decimalPoint - length, v)
    ensures NothingFrom(decimalPoint - length + 1, v)
    ensures ClosestDecimal(Dec(buffer[..length]), decimalPoint - length, v)
    ensures !v.lowerBoundaryIsCloser ==> ClosestOfAll(Dec(buffer[..length]), decimalPoint - length, v)
  {
    hide RPow, Pow, ReadsBack, NothingFrom, ClosestDecimal, ClosestOfAll, Bignum.Valid, Bignum.Value, Double.Value,
      Double.UpperGap, AllDigits, Dec, IsDouble, IsSingle, MaxDigits;
    var numerator := new Bignum();
    var denominator := new Bignum();
    var deltaMinus := new Bignum();
    var deltaPlus := new Bignum();
    length, decimalPoint := PrintShortest(v, estimatedPower, buffer, numerator, denominator, deltaMinus, deltaPlus);
    ghost var digits := buffer[..length];
    buffer[length] := '\0';
    assert buffer[..length] == digits;
  }
}
