/**
 What the fast digit generator may promise about imprecise inputs, and why its tests are enough.
 Everything is counted down from an upper end `total`; `step` is the weight of the last digit.
 */
module Grisu {
  import opened Powers
  import opened RealPowers
  import opened Decimal

  // ----- integers: the digits so far and what is left -----

  /** The digits are the total cut to multiples of step; what is left is not yet inside the gap. */
  ghost predicate Pending(digits: seq<char>, rest: nat, step: nat, total: nat, gap: nat)
  {
    AllDigits(digits) && total == Dec(digits) * step + rest && gap <= rest < step
  }

  /** No multiple of step lies strictly between total - gap and total. */
  ghost predicate NoneBetween(step: nat, total: nat, gap: nat)
  {
    forall m: int :: !(total - gap < m * step < total)
  }

  lemma PendingMeansNone(digits: seq<char>, rest: nat, step: nat, total: nat, gap: nat)
    requires Pending(digits, rest, step, total, gap)
    ensures NoneBetween(step, total, gap)
  {
    var x := Dec(digits);
    forall m: int ensures !(total - gap < m * step < total) {
      if m <= x {
        MulMonotone(m, x, step);
      } else {
        MulMonotone(x + 1, m, step);
        MulDistrib(step, x, 1);
      }
    }
  }

  /** One more digit, at a tenth of the weight. */
  lemma PendingDigit(digits: seq<char>, rest: nat, step: nat, total: nat, gap: nat, digit: nat, rest': nat)
    requires Pending(digits, rest, 10 * step, total, gap)
    requires rest == digit * step + rest' && rest' < step && digit <= 9
    ensures AllDigits(digits + [DigitChar(digit)])
    ensures total == Dec(digits + [DigitChar(digit)]) * step + rest'
    ensures rest' >= gap ==> Pending(digits + [DigitChar(digit)], rest', step, total, gap)
  {
    DecSnoc(digits, DigitChar(digit));
    var x := Dec(digits);
    MulDistrib(step, 10 * x, digit);
    MulAssoc(10, x, step);
    MulAssoc(x, 10, step);
  }

  /** Scaling everything by ten. */
  lemma PendingScaled(digits: seq<char>, rest: nat, step: nat, total: nat, gap: nat)
    requires Pending(digits, rest, step, total, gap)
    ensures Pending(digits, 10 * rest, 10 * step, 10 * total, 10 * gap)
  {
    var x := Dec(digits);
    MulAssoc(10, x, step);
    MulAssoc(x, 10, step);
  }

  // ----- weeding: distances from the upper end -----

  ghost function RAbs(x: real): real
  {
    if x < 0.0 then -x else x
  }

  /**
   The candidate at distance rest is closer to a value at distance delta than every other candidate
   strictly between the ends.
   */
  ghost predicate ClosestTo(rest: nat, delta: real, step: nat, gap: nat)
  {
    forall i: int :: i != 0 && 0 < rest + i * step < gap ==>
      RAbs(rest as real - delta) < RAbs((rest + i * step) as real - delta)
  }

  /** Why a decrement was right: the candidate before is farther from every possible value. */
  predicate MovedCloser(previous: int, step: int, smallDistance: int)
  {
    previous < smallDistance &&
    (previous + step < smallDistance || smallDistance - previous >= previous + step - smallDistance)
  }

  /** When one more decrement might still be right. */
  predicate MightMove(rest: int, step: int, gap: int, bigDistance: int)
  {
    rest < bigDistance && gap - rest >= step &&
    (rest + step < bigDistance || bigDistance - rest > rest + step - bigDistance)
  }

  /** The tests around the final candidate make it closest for every value they allow. */
  lemma WeededIsClosest(first: nat, n: nat, step: nat, gap: nat, smallDistance: int, bigDistance: int, delta: real)
    requires first < step
    requires n > 0 ==> MovedCloser(first + (n - 1) * step, step, smallDistance)
    requires !MightMove(first + n * step, step, gap, bigDistance)
    requires smallDistance as real < delta < bigDistance as real
    ensures ClosestTo(first + n * step, delta, step, gap)
  {
    var rest: int, s: int := first + n * step, step;
    forall i: int | i != 0 && 0 < rest + i * s < gap
      ensures RAbs(rest as real - delta) < RAbs((rest + i * s) as real - delta)
    {
      if i < 0 {
        assert i * s <= -s by { MulMonotone(i, -1, s); }
        if n == 0 {
          assert false;
        } else {
          assert first + (n - 1) * step == rest - s by { MulDistrib(step, n - 1, 1); }
          FartherAbove(rest, s, i * s, smallDistance, delta);
        }
      } else {
        assert i * s >= s by { MulMonotone(1, i, s); }
        FartherBelow(rest, s, i * s, gap, bigDistance, delta);
      }
    }
  }

  lemma FartherAbove(rest: int, step: int, offset: int, smallDistance: int, delta: real)
    requires MovedCloser(rest - step, step, smallDistance) && step > 0
    requires smallDistance as real < delta && offset <= -step
    ensures RAbs(rest as real - delta) < RAbs((rest + offset) as real - delta)
  {
  }

  lemma FartherBelow(rest: int, step: int, offset: int, gap: int, bigDistance: int, delta: real)
    requires !MightMove(rest, step, gap, bigDistance) && step > 0
    requires delta < bigDistance as real && offset >= step && rest + offset < gap
    ensures RAbs(rest as real - delta) < RAbs((rest + offset) as real - delta)
  {
  }

  // ----- reals: what the result means -----

  /** digits * 10^kappa, in units of the inputs' last place 2^e. */
  ghost function InUnits(x: int, kappa: int, e: int): real
  {
    x as real * (RPow(10, kappa) * RPow(2, -e))
  }

  predicate Near(x: real, f: nat)
  {
    f as real - 1.0 < x < f as real + 1.0
  }

  /**
   For all true values within one unit of low, w and high: the decimal is strictly between the true
   boundaries, nothing with a higher last place is, and nothing else with this last place is as close
   to the true value.
   */
  ghost predicate SurelyShortest(x: int, kappa: int, e: int, low: nat, w: nat, high: nat)
  {
    forall l: real, v: real, h: real :: Near(l, low) && Near(v, w) && Near(h, high) ==>
      && l < InUnits(x, kappa, e) < h
      && (forall m: int, j: int :: j > kappa ==> !(l < InUnits(m, j, e) < h))
      && (forall m: int :: m != x && l < InUnits(m, kappa, e) < h ==>
            RAbs(InUnits(x, kappa, e) - v) < RAbs(InUnits(m, kappa, e) - v))
  }

  /** unit input units are step / 10^kappa: how the integers relate to the inputs' scale. */
  ghost predicate ScaleOf(unit: nat, step: nat, kappa: int, e: int)
  {
    unit > 0 && step > 0 && step as real == (RPow(10, kappa) * RPow(2, -e)) * unit as real
  }

  lemma InUnitsScaled(x: int, unit: nat, step: nat, kappa: int, e: int)
    requires ScaleOf(unit, step, kappa, e)
    ensures Scale(InUnits(x, kappa, e), unit) == (x * step) as real
  {
    hide RPow;
    CastMul(x, step);
    RMulAssoc(x as real, RPow(10, kappa) * RPow(2, -e), unit as real);
  }

  /** The same decimal with its digits continued by zeros. */
  lemma PlaceMoved(m: int, place: int, lower: int, e: int)
    requires lower <= place
    ensures InUnits(m * Pow(10, place - lower), lower, e) == InUnits(m, place, e)
  {
    hide RPow, Pow;
    RPowAdd(10, place - lower, lower);
    RPowNat(10, place - lower);
    CastMul(m, Pow(10, place - lower));
    RMulAssoc(m as real, RPow(10, place - lower), RPow(10, lower) * RPow(2, -e));
    RMulAssoc(RPow(10, place - lower), RPow(10, lower), RPow(2, -e));
  }

  /** A decimal with a higher last place is one with a multiple of ten. */
  lemma HigherPlace(m: int, j: int, kappa: int, e: int) returns (y: int)
    requires j > kappa
    ensures InUnits(10 * y, kappa, e) == InUnits(m, j, e)
  {
    hide RPow, Pow, InUnits;
    var p := Pow(10, j - kappa - 1);
    y := m * p;
    TenTimes(j - kappa);
    MulAssoc(10, m, p);
    MulAssoc(m, 10, p);
    PlaceMoved(m, j, kappa, e);
  }

  lemma TenTimes(k: nat)
    requires k > 0
    ensures Pow(10, k) == 10 * Pow(10, k - 1)
  {
  }

  /** What the generator has established when it accepts, in integers. */
  ghost predicate Accepted(x: int, low: nat, w: nat, high: nat, unit: nat, step: nat, total: nat, gap: nat, rest: nat)
  {
    && total == (high + 1) * unit && gap == (high - low + 2) * unit && low <= high
    && total == x * step + rest && 2 * unit <= rest <= gap - 4 * unit
    && NoneBetween(10 * step, total, gap)
    && (forall delta: real :: ((high + 1 - w) * unit - unit) as real < delta < ((high + 1 - w) * unit + unit) as real
          ==> ClosestTo(rest, delta, step, gap))
  }

  /** A position on the inputs' scale, in the generator's finer unit. */
  ghost function Scale(z: real, unit: nat): real
  {
    z * unit as real
  }

  lemma ScaleKeepsOrder(l: real, z: real, h: real, unit: nat)
    requires unit > 0
    ensures l < z < h <==> Scale(l, unit) < Scale(z, unit) < Scale(h, unit)
  {
    hide Scale;
    ScaleOrder(l, z, unit);
    ScaleOrder(z, h, unit);
  }

  /** Where the true boundaries and a multiple of step are, in the finer unit. */
  lemma AcceptedPositions(x: int, kappa: int, e: int, low: nat, w: nat, high: nat,
                          unit: nat, step: nat, total: nat, gap: nat, rest: nat, l: real, h: real, m: int)
    requires ScaleOf(unit, step, kappa, e) && Accepted(x, low, w, high, unit, step, total, gap, rest)
    requires Near(l, low) && Near(h, high)
    ensures unit > 0 && 2 * unit <= rest <= gap - 4 * unit
    ensures (total - gap) as real < Scale(l, unit) < (total - gap + 2 * unit) as real
    ensures (total - 2 * unit) as real < Scale(h, unit) < total as real
    ensures Scale(InUnits(m, kappa, e), unit) == (m * step) as real
    ensures m == x ==> m * step == total - rest
  {
    hide RPow, InUnits, ClosestTo, NoneBetween;
    InUnitsScaled(m, unit, step, kappa, e);
    Ends(l, h, low, high, unit, total, gap);
  }

  lemma AcceptedIsInside(x: int, kappa: int, e: int, low: nat, w: nat, high: nat,
                         unit: nat, step: nat, total: nat, gap: nat, rest: nat, l: real, h: real)
    requires ScaleOf(unit, step, kappa, e) && Accepted(x, low, w, high, unit, step, total, gap, rest)
    requires Near(l, low) && Near(h, high)
    ensures l < InUnits(x, kappa, e) < h
  {
    hide RPow, InUnits, ScaleOf, Accepted, Scale;
    AcceptedPositions(x, kappa, e, low, w, high, unit, step, total, gap, rest, l, h, x);
    ScaleKeepsOrder(l, InUnits(x, kappa, e), h, unit);
  }

  lemma AcceptedHasNoneAbove(x: int, kappa: int, e: int, low: nat, w: nat, high: nat,
                             unit: nat, step: nat, total: nat, gap: nat, rest: nat, l: real, h: real, m: int, j: int)
    requires ScaleOf(unit, step, kappa, e) && Accepted(x, low, w, high, unit, step, total, gap, rest)
    requires Near(l, low) && Near(h, high) && j > kappa
    ensures !(l < InUnits(m, j, e) < h)
  {
    hide RPow, InUnits, ScaleOf, Accepted, Scale;
    var y := HigherPlace(m, j, kappa, e);
    AcceptedPositions(x, kappa, e, low, w, high, unit, step, total, gap, rest, l, h, 10 * y);
    ScaleKeepsOrder(l, InUnits(m, j, e), h, unit);
    NoTenfold(y, x, low, w, high, unit, step, total, gap, rest);
  }

  lemma NoTenfold(y: int, x: int, low: nat, w: nat, high: nat, unit: nat, step: nat, total: nat, gap: nat, rest: nat)
    requires Accepted(x, low, w, high, unit, step, total, gap, rest)
    ensures !(total - gap < (10 * y) * step < total)
  {
    hide ClosestTo;
    assert (10 * y) * step == y * (10 * step) by { MulAssoc(y, 10, step); MulAssoc(10, y, 1); }
    assert NoneBetween(10 * step, total, gap);
  }

  lemma AcceptedIsCloser(x: int, kappa: int, e: int, low: nat, w: nat, high: nat,
                         unit: nat, step: nat, total: nat, gap: nat, rest: nat, l: real, v: real, h: real, m: int)
    requires ScaleOf(unit, step, kappa, e) && Accepted(x, low, w, high, unit, step, total, gap, rest)
    requires Near(l, low) && Near(h, high) && Near(v, w) && m != x && l < InUnits(m, kappa, e) < h
    ensures RAbs(InUnits(x, kappa, e) - v) < RAbs(InUnits(m, kappa, e) - v)
  {
    hide RPow, InUnits, ScaleOf, Accepted, RAbs, Scale, ClosestTo;
    AcceptedPositions(x, kappa, e, low, w, high, unit, step, total, gap, rest, l, h, x);
    AcceptedPositions(x, kappa, e, low, w, high, unit, step, total, gap, rest, l, h, m);
    ScaleKeepsOrder(l, InUnits(m, kappa, e), h, unit);
    var delta := AcceptedValue(x, low, w, high, unit, step, total, gap, rest, v);
    Closer(x, m, v, unit, step, total, gap, rest, delta, InUnits(x, kappa, e), InUnits(m, kappa, e));
  }

  lemma AcceptedValue(x: int, low: nat, w: nat, high: nat, unit: nat, step: nat, total: nat, gap: nat, rest: nat,
                      v: real)
    returns (delta: real)
    requires Accepted(x, low, w, high, unit, step, total, gap, rest) && Near(v, w) && unit > 0
    ensures delta == total as real - Scale(v, unit) && ClosestTo(rest, delta, step, gap)
  {
    hide ClosestTo, NoneBetween;
    delta := total as real - Scale(v, unit);
    DeltaRange(v, w, high, unit, total);
  }

  /** The weeding tests, the closeness, and the missing higher places together are the promise. */
  lemma AcceptedIsShortest(x: int, kappa: int, e: int, low: nat, w: nat, high: nat,
                           unit: nat, step: nat, total: nat, gap: nat, rest: nat)
    requires ScaleOf(unit, step, kappa, e) && Accepted(x, low, w, high, unit, step, total, gap, rest)
    ensures SurelyShortest(x, kappa, e, low, w, high)
  {
    hide RPow, InUnits, Accepted, ScaleOf, RAbs;
    forall l: real, v: real, h: real | Near(l, low) && Near(v, w) && Near(h, high)
      ensures l < InUnits(x, kappa, e) < h
      ensures forall m: int, j: int :: j > kappa ==> !(l < InUnits(m, j, e) < h)
      ensures forall m: int :: m != x && l < InUnits(m, kappa, e) < h ==>
            RAbs(InUnits(x, kappa, e) - v) < RAbs(InUnits(m, kappa, e) - v)
    {
      AcceptedIsInside(x, kappa, e, low, w, high, unit, step, total, gap, rest, l, h);
      forall m: int, j: int | j > kappa ensures !(l < InUnits(m, j, e) < h) {
        AcceptedHasNoneAbove(x, kappa, e, low, w, high, unit, step, total, gap, rest, l, h, m, j);
      }
      forall m: int | m != x && l < InUnits(m, kappa, e) < h
        ensures RAbs(InUnits(x, kappa, e) - v) < RAbs(InUnits(m, kappa, e) - v)
      {
        AcceptedIsCloser(x, kappa, e, low, w, high, unit, step, total, gap, rest, l, v, h, m);
      }
    }
  }

  lemma ScaledBelow(x: real, k: int, unit: nat)
    requires x < k as real && unit > 0
    ensures x * unit as real < (k * unit) as real
  {
    RMulStrict(x, k as real, unit as real);
    CastMul(k, unit);
  }

  lemma ScaledAbove(x: real, k: int, unit: nat)
    requires k as real < x && unit > 0
    ensures (k * unit) as real < x * unit as real
  {
    RMulStrict(k as real, x, unit as real);
    CastMul(k, unit);
  }

  /** The true boundaries, scaled: within two units of the ends. */
  lemma Ends(l: real, h: real, low: int, high: int, unit: nat, total: int, gap: int)
    requires low as real - 1.0 < l < low as real + 1.0 && high as real - 1.0 < h < high as real + 1.0 && unit > 0
    requires total == (high + 1) * unit && gap == (high - low + 2) * unit
    ensures (total - gap) as real < Scale(l, unit) < (total - gap + 2 * unit) as real
    ensures (total - 2 * unit) as real < Scale(h, unit) < total as real
  {
    ScaledAbove(l, low - 1, unit);
    ScaledBelow(l, low + 1, unit);
    ScaledAbove(h, high - 1, unit);
    ScaledBelow(h, high + 1, unit);
    EndPoints(low, high, unit);
  }

  lemma EndPoints(low: int, high: int, unit: int)
    ensures (high + 1) * unit - (high - low + 2) * unit == (low - 1) * unit
    ensures (low - 1) * unit + 2 * unit == (low + 1) * unit
    ensures (high + 1) * unit - 2 * unit == (high - 1) * unit
  {
  }

  /** The true value's distance from the upper end. */
  lemma DeltaRange(v: real, w: int, high: int, unit: nat, total: int)
    requires w as real - 1.0 < v < w as real + 1.0 && unit > 0 && total == (high + 1) * unit
    ensures ((high + 1 - w) * unit - unit) as real < total as real - v * unit as real
      < ((high + 1 - w) * unit + unit) as real
  {
    ScaledAbove(v, w - 1, unit);
    ScaledBelow(v, w + 1, unit);
    DeltaPoints(w, high, unit);
  }

  lemma DeltaPoints(w: int, high: int, unit: int)
    ensures (high + 1) * unit - (w - 1) * unit == (high + 1 - w) * unit + unit
    ensures (high + 1) * unit - (w + 1) * unit == (high + 1 - w) * unit - unit
  {
  }

  /** Closer in distances from the upper end is closer on the scale. */
  lemma Closer(x: int, m: int, v: real, unit: nat, step: nat, total: nat, gap: nat, rest: nat, delta: real, zx: real,
               zm: real)
    requires unit > 0 && ClosestTo(rest, delta, step, gap) && delta == total as real - Scale(v, unit)
    requires Scale(zx, unit) == (x * step) as real && Scale(zm, unit) == (m * step) as real
    requires x * step == total - rest && m != x && total - gap < m * step < total
    ensures RAbs(zx - v) < RAbs(zm - v)
  {
    hide RAbs, Scale;
    var i: int := x - m;
    assert rest + i * step == total - m * step by { MulDistrib(step, i, m); }
    assert RAbs(rest as real - delta) < RAbs((rest + i * step) as real - delta);
    AbsScaled(zx, v, unit);
    AbsScaled(zm, v, unit);
    AbsNegated(Scale(zx, unit) - Scale(v, unit));
    AbsNegated(Scale(zm, unit) - Scale(v, unit));
    ScaleOrder(RAbs(zx - v), RAbs(zm - v), unit);
  }

  lemma ScaleOrder(a: real, b: real, unit: nat)
    requires unit > 0
    ensures a < b <==> Scale(a, unit) < Scale(b, unit)
  {
    RMulStrict(a, b, unit as real);
  }

  lemma AbsNegated(a: real)
    ensures RAbs(-a) == RAbs(a)
  {
  }

  lemma AbsScaled(z: real, v: real, unit: nat)
    requires unit > 0
    ensures RAbs(Scale(z, unit) - Scale(v, unit)) == Scale(RAbs(z - v), unit)
  {
    var u := unit as real;
    RMulDistrib(u, z, v);
    RMulStrict(z, v, u);
    RMulDistrib(u, v, z);
  }

  // ----- a fixed number of digits -----

  /** Every true value within one unit of w is less than half a last place from the decimal. */
  ghost predicate WithinHalf(x: int, kappa: int, e: int, w: nat)
  {
    forall v: real :: Near(v, w) ==> 2.0 * RAbs(InUnits(x, kappa, e) - v) < InUnits(1, kappa, e)
  }

  /** A decimal whose scaled distance to w leaves one unit below half a step. */
  lemma HalfFromIntegers(x: int, kappa: int, e: int, w: nat, unit: nat, step: nat)
    requires ScaleOf(unit, step, kappa, e)
    requires 2 * (x * step - w * unit + unit) <= step && 2 * (w * unit - x * step + unit) <= step
    ensures WithinHalf(x, kappa, e, w)
  {
    hide RPow, InUnits, ScaleOf, RAbs, Scale;
    forall v: real | Near(v, w) ensures 2.0 * RAbs(InUnits(x, kappa, e) - v) < InUnits(1, kappa, e) {
      HalfForValue(x, kappa, e, w, unit, step, v);
    }
  }

  lemma HalfForValue(x: int, kappa: int, e: int, w: nat, unit: nat, step: nat, v: real)
    requires ScaleOf(unit, step, kappa, e) && Near(v, w)
    requires 2 * (x * step - w * unit + unit) <= step && 2 * (w * unit - x * step + unit) <= step
    ensures 2.0 * RAbs(InUnits(x, kappa, e) - v) < InUnits(1, kappa, e)
  {
    hide RPow, InUnits, RAbs, Scale;
    var z := InUnits(x, kappa, e);
    InUnitsScaled(x, unit, step, kappa, e);
    InUnitsScaled(1, unit, step, kappa, e);
    ValueRange(v, w, unit);
    AbsScaled(z, v, unit);
    AbsBelow(Scale(z, unit) - Scale(v, unit), step);
    ScaleDouble(RAbs(z - v), unit);
    ScaleOrder(2.0 * RAbs(z - v), InUnits(1, kappa, e), unit);
  }

  lemma AbsBelow(a: real, step: int)
    ensures 2.0 * a < step as real && -(2.0 * a) < step as real ==> 2.0 * RAbs(a) < step as real
  {
  }

  lemma ScaleDouble(a: real, unit: nat)
    ensures Scale(2.0 * a, unit) == 2.0 * Scale(a, unit)
  {
    RMulAssoc(2.0, a, unit as real);
  }

  lemma ValueRange(v: real, w: int, unit: nat)
    requires w as real - 1.0 < v < w as real + 1.0 && unit > 0
    ensures (w * unit - unit) as real < Scale(v, unit) < (w * unit + unit) as real
  {
    ScaledAbove(v, w - 1, unit);
    ScaledBelow(v, w + 1, unit);
    MulDistrib(unit, w - 1, 1);
    MulDistrib(unit, w, 1);
  }

  /** Ten times a number of one place is the number of the next place up. */
  lemma HalfOneUp(x: int, y: int, kappa: int, e: int, w: nat)
    requires WithinHalf(x, kappa, e, w) && x == 10 * y
    ensures WithinHalf(y, kappa + 1, e, w)
  {
    hide RPow;
    RPowAdd(10, kappa, 1);
    assert RPow(10, 1) == 10.0 by { RPowNat(10, 1); TenTimes(1); }
    RPowPositive(10, kappa);
    RPowPositive(2, -e);
    RMulPositive(RPow(10, kappa), RPow(2, -e));
    var p, q := RPow(10, kappa), RPow(2, -e);
    RMulAssoc(10.0, p, q);
    RMulAssoc(p, 10.0, 1.0);
    RMulAssoc(y as real, 10.0, p * q);
    forall v: real | Near(v, w) ensures 2.0 * RAbs(InUnits(y, kappa + 1, e) - v) < InUnits(1, kappa + 1, e) {
      assert InUnits(y, kappa + 1, e) == InUnits(x, kappa, e);
    }
  }
}
