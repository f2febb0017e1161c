/**
 When the fast digit generators accept: on the numbers they are given, exactly if one decimal keeps clear of both ends
 and of the midpoints to its neighbours by the error of the inputs.
 */
module Acceptance {
  import opened Powers
  import opened RealPowers
  import opened Decimal
  import opened Grisu

  /** No decimal with a higher last place lies above low and up to high, each moved out by the error of one unit. */
  ghost predicate NothingHigher(kappa: int, e: int, low: nat, high: nat)
  {
    forall m: int, j: int :: j > kappa ==> !(low as real - 1.0 < InUnits(m, j, e) <= high as real + 1.0)
  }

  /**
   The decimal keeps three units from low and one from high. If the neighbour above is not above high and its error,
   the midpoint to it is above w and its error; if the neighbour below is not below low and its error, the midpoint to
   it is below w and its error.
   */
  ghost predicate ClearPlace(x: int, kappa: int, e: int, low: nat, w: nat, high: nat)
  {
    var p, s := InUnits(x, kappa, e), InUnits(1, kappa, e);
    && low as real + 3.0 <= p <= high as real - 1.0
    && (p + s <= high as real + 1.0 ==> w as real + 1.0 <= p + s / 2.0)
    && (low as real - 1.0 <= p - s ==> p - s / 2.0 <= w as real - 1.0)
  }

  ghost predicate Clear(x: int, kappa: int, e: int, low: nat, w: nat, high: nat)
  {
    NothingHigher(kappa, e, low, high) && ClearPlace(x, kappa, e, low, w, high)
  }

  /** Some decimal is clear. */
  ghost predicate Decided(e: int, low: nat, w: nat, high: nat)
  {
    exists x: int, kappa: int :: Clear(x, kappa, e, low, w, high)
  }

  lemma Decides(x: int, kappa: int, e: int, low: nat, w: nat, high: nat)
    requires Clear(x, kappa, e, low, w, high)
    ensures Decided(e, low, w, high)
  {
  }

  // ----- the same in the generator's integers -----

  /** The distance from the upper end, with the two distances that w may have at least and at most. */
  predicate ClearRest(rest: int, unit: int, step: int, gap: int, small: int, big: int)
  {
    && 2 * unit <= rest <= gap - 4 * unit
    && (rest >= step ==> 2 * rest - step <= 2 * small)
    && (rest + step <= gap ==> 2 * big <= 2 * rest + step)
  }

  /** A bound in input units is a bound in the finer unit. */
  lemma ScaledBound(k: int, z: real, n: int, unit: nat)
    requires unit > 0 && Scale(z, unit) == n as real
    ensures k as real <= z <==> k * unit <= n
    ensures z <= k as real <==> n <= k * unit
  {
    RMulStrict(k as real, z, unit as real);
    RMulStrict(z, k as real, unit as real);
    CastMul(k, unit);
  }

  /** The position p and the step s, and what is put together from them, in the finer unit. */
  lemma ScaledPositions(p: real, s: real, n: int, step: int, unit: nat)
    requires Scale(p, unit) == n as real && Scale(s, unit) == step as real
    ensures Scale(p + s, unit) == (n + step) as real && Scale(p - s, unit) == (n - step) as real
    ensures Scale(2.0 * p + s, unit) == (2 * n + step) as real && Scale(2.0 * p - s, unit) == (2 * n - step) as real
  {
    var u := unit as real;
    RMulDistrib(u, p, s);
    RMulAssoc(2.0, p, u);
    RMulDistrib(u, 2.0 * p, s);
  }

  lemma ClearScaled(x: int, kappa: int, e: int, low: nat, w: nat, high: nat, unit: nat, step: nat, total: nat,
                    gap: nat, distance: nat, rest: int)
    requires ScaleOf(unit, step, kappa, e) && low <= high && w <= high
    requires total == (high + 1) * unit && gap == (high - low + 2) * unit && distance == (high + 1 - w) * unit
    requires total == x * step + rest
    ensures ClearPlace(x, kappa, e, low, w, high)
      <==> ClearRest(rest, unit, step, gap, distance - unit, distance + unit)
  {
    hide RPow, InUnits, Scale;
    var p, s, n := InUnits(x, kappa, e), InUnits(1, kappa, e), x * step;
    InUnitsScaled(x, unit, step, kappa, e);
    InUnitsScaled(1, unit, step, kappa, e);
    ScaledPositions(p, s, n, step, unit);
    ScaledBound(low + 3, p, n, unit);
    ScaledBound(high - 1, p, n, unit);
    ScaledBound(high + 1, p + s, n + step, unit);
    ScaledBound(2 * (w + 1), 2.0 * p + s, 2 * n + step, unit);
    ScaledBound(low - 1, p - s, n - step, unit);
    ScaledBound(2 * (w - 1), 2.0 * p - s, 2 * n - step, unit);
    Distances(low, w, high, unit);
  }

  /** Positions counted from below and distances counted from the upper end. */
  lemma Distances(low: int, w: int, high: int, unit: int)
    ensures (high + 1) * unit - (high - low + 2) * unit == (low - 1) * unit
    ensures (low + 3) * unit == (low - 1) * unit + 4 * unit && (high - 1) * unit == (high + 1) * unit - 2 * unit
    ensures 2 * (w + 1) * unit == 2 * ((high + 1) * unit) - 2 * ((high + 1 - w) * unit) + 2 * unit
    ensures 2 * (w - 1) * unit == 2 * ((high + 1) * unit) - 2 * ((high + 1 - w) * unit) - 2 * unit
  {
    MulDistrib(unit, high + 1 - w, w);
    MulDistrib(unit, w, 1);
    MulAssoc(2, w + 1, unit);
    MulAssoc(2, w - 1, unit);
  }

  // ----- where the generator stops -----

  /** While the rest is at least the gap, no decimal with a higher place is near. */
  lemma PendingNothingHigher(digits: seq<char>, rest: nat, unit: nat, step: nat, total: nat, gap: nat, kappa: int,
                             e: int, low: nat, high: nat)
    requires ScaleOf(unit, step, kappa, e) && low <= high
    requires total == (high + 1) * unit && gap == (high - low + 2) * unit
    requires Pending(digits, rest, 10 * step, total, gap)
    ensures NothingHigher(kappa, e, low, high)
  {
    hide RPow, InUnits, Scale, ScaleOf;
    forall m: int, j: int | j > kappa
      ensures !(low as real - 1.0 < InUnits(m, j, e) <= high as real + 1.0)
    {
      var y := HigherPlace(m, j, kappa, e);
      InUnitsScaled(10 * y, unit, step, kappa, e);
      UnitPositive(unit, step, kappa, e);
      ScaledBound(low - 1, InUnits(m, j, e), 10 * y * step, unit);
      ScaledBound(high + 1, InUnits(m, j, e), 10 * y * step, unit);
      Distances(low, 0, high, unit);
      PendingAvoids(digits, rest, step, total, gap, y);
    }
  }

  lemma UnitPositive(unit: nat, step: nat, kappa: int, e: int)
    requires ScaleOf(unit, step, kappa, e)
    ensures unit > 0 && step > 0
  {
  }

  lemma PendingAvoids(digits: seq<char>, rest: nat, step: nat, total: nat, gap: nat, y: int)
    requires Pending(digits, rest, 10 * step, total, gap)
    ensures !(total - gap < 10 * y * step <= total)
  {
    var x, s := Dec(digits), 10 * step;
    MulAssoc(y, 10, step);
    MulAssoc(10, y, 1);
    if y <= x {
      MulMonotone(y, x, s);
    } else {
      MulMonotone(x + 1, y, s);
      MulDistrib(s, x, 1);
    }
  }

  /** Once the rest is below the gap, no lower place can be clear, as the digits so far are near already. */
  lemma NothingLower(x: int, kappa: int, e: int, low: nat, high: nat, unit: nat, step: nat, total: nat, gap: nat,
                     rest: nat, lower: int)
    requires ScaleOf(unit, step, kappa, e) && low <= high
    requires total == (high + 1) * unit && gap == (high - low + 2) * unit
    requires total == x * step + rest && rest < gap && lower < kappa
    ensures !NothingHigher(lower, e, low, high)
  {
    hide RPow, InUnits, Scale;
    InUnitsScaled(x, unit, step, kappa, e);
    ScaledBound(low - 1, InUnits(x, kappa, e), x * step, unit);
    ScaledBound(high + 1, InUnits(x, kappa, e), x * step, unit);
    Distances(low, 0, high, unit);
  }

  /** A clear decimal with a higher place than the last one that had none near. */
  lemma NoneAbove(x: int, kappa: int, e: int, low: nat, w: nat, high: nat, higher: int)
    requires NothingHigher(kappa, e, low, high) && higher > kappa
    ensures !Clear(x, higher, e, low, w, high)
  {
    hide InUnits;
    assert !(low as real - 1.0 < InUnits(x, higher, e) <= high as real + 1.0);
  }

  /** Where the generator stops, only one place can be clear. */
  lemma OnlyThere(digits: seq<char>, digit: nat, rest: nat, unit: nat, step: nat, total: nat, gap: nat, kappa: int,
                  e: int, low: nat, w: nat, high: nat, z: int, place: int)
    requires ScaleOf(unit, step, kappa, e) && low <= high && digit <= 9 && rest < step && rest < gap
    requires total == (high + 1) * unit && gap == (high - low + 2) * unit
    requires Pending(digits, digit * step + rest, 10 * step, total, gap)
    requires Clear(z, place, e, low, w, high)
    ensures place == kappa
  {
    hide ScaleOf, ClearPlace, NothingHigher, Dec, AllDigits;
    PendingNothingHigher(digits, digit * step + rest, unit, step, total, gap, kappa, e, low, high);
    PendingDigit(digits, digit * step + rest, step, total, gap, digit, rest);
    if place > kappa { NoneAbove(z, kappa, e, low, w, high, place); }
    if place < kappa {
      NothingLower(Dec(digits + [DigitChar(digit)]), kappa, e, low, high, unit, step, total, gap, rest, place);
    }
  }

  // ----- the tests of the weeding -----

  lemma MovedInNumbers(previous: int, step: int, small: int)
    requires step > 0
    ensures MovedCloser(previous, step, small) <==> 2 * previous + step <= 2 * small
  {
  }

  lemma MightMoveInNumbers(rest: int, step: int, gap: int, big: int)
    requires step > 0
    ensures MightMove(rest, step, gap, big) <==> rest + step <= gap && 2 * rest + step < 2 * big
  {
  }

  /**
   Of all candidates the weeding reaches the only one that can be clear: it passes over what is farther from the
   least distance, and what it passed over is not clear.
   */
  lemma WeedingFinds(first: nat, step: nat, gap: nat, unit: nat, small: int, big: int, count: nat, n: int)
    requires step > 0 && unit > 0 && big == small + 2 * unit && first < step
    requires count > 0 ==> MovedCloser(first + (count - 1) * step, step, small)
    requires first + count * step <= gap
    requires !(gap - (first + count * step) >= step && MovedCloser(first + count * step, step, small))
    requires ClearRest(first + n * step, unit, step, gap, small, big)
    ensures n == count
  {
    hide MovedCloser;
    if n < 0 { MulMonotone(n, -1, step); }
    var c, r := first + count * step, first + n * step;
    MovedInNumbers(c, step, small);
    MovedInNumbers(c - step, step, small);
    MulDistrib(step, count - 1, 1);
    if n < count {
      MulMonotone(n + 1, count, step);
      MulDistrib(step, n, 1);
    } else if n > count {
      MulMonotone(count + 1, n, step);
      MulDistrib(step, count, 1);
    }
  }

  /** With the final candidate, clear means what the weeding tests. */
  lemma ClearTests(first: nat, step: nat, gap: nat, unit: nat, small: int, big: int, count: nat)
    requires step > 0 && unit > 0 && big == small + 2 * unit && first < step
    requires count > 0 ==> MovedCloser(first + (count - 1) * step, step, small)
    ensures var r := first + count * step;
      ClearRest(r, unit, step, gap, small, big) <==> 2 * unit <= r <= gap - 4 * unit && !MightMove(r, step, gap, big)
  {
    hide MovedCloser, MightMove;
    var r := first + count * step;
    MovedInNumbers(r - step, step, small);
    MightMoveInNumbers(r, step, gap, big);
    MulDistrib(step, count - 1, 1);
    if count > 0 { MulMonotone(1, count, step); }
  }

  /** The candidate z steps away from the final one. */
  lemma OtherCandidate(x: int, z: int, first: int, count: int, step: int, total: int)
    requires total == x * step + (first + count * step)
    ensures total == z * step + (first + (count + x - z) * step)
  {
    MulDistrib(step, x, z);
    MulDistrib(step, count, x - z);
  }

  /** Where the generator stops, its last test says whether any decimal is clear; if one is, it is the one found. */
  lemma TestDecides(digits: seq<char>, digit: nat, first: nat, unit: nat, step: nat, total: nat, gap: nat, kappa: int,
                    e: int, low: nat, w: nat, high: nat, distance: nat, count: nat, x: int)
    requires ScaleOf(unit, step, kappa, e) && low <= high && w <= high && digit <= 9 && first < step && first < gap
    requires total == (high + 1) * unit && gap == (high - low + 2) * unit && distance == (high + 1 - w) * unit
    requires Pending(digits, digit * step + first, 10 * step, total, gap)
    requires first + count * step <= gap && total == x * step + (first + count * step)
    requires count > 0 ==> MovedCloser(first + (count - 1) * step, step, distance - unit)
    requires !(gap - (first + count * step) >= step && MovedCloser(first + count * step, step, distance - unit))
    ensures var rest := first + count * step;
      var ok := 2 * unit <= rest <= gap - 4 * unit && !MightMove(rest, step, gap, distance + unit);
      (ok <==> Decided(e, low, w, high)) && (ok ==> Clear(x, kappa, e, low, w, high))
  {
    hide Pending, ScaleOf, ClearRest, ClearPlace, NothingHigher, MovedCloser, MightMove;
    UnitPositive(unit, step, kappa, e);
    PendingNothingHigher(digits, digit * step + first, unit, step, total, gap, kappa, e, low, high);
    ClearScaled(x, kappa, e, low, w, high, unit, step, total, gap, distance, first + count * step);
    ClearTests(first, step, gap, unit, distance - unit, distance + unit, count);
    if Clear(x, kappa, e, low, w, high) { Decides(x, kappa, e, low, w, high); }
    if Decided(e, low, w, high) {
      var z, place :| Clear(z, place, e, low, w, high);
      OnlyThere(digits, digit, first, unit, step, total, gap, kappa, e, low, w, high, z, place);
      var n := count + x - z;
      OtherCandidate(x, z, first, count, step, total);
      ClearScaled(z, kappa, e, low, w, high, unit, step, total, gap, distance, first + n * step);
      WeedingFinds(first, step, gap, unit, distance - unit, distance + unit, count, n);
    }
  }

  // ----- a requested number of digits -----

  /** The decimal is w cut to a multiple of 10^place. */
  ghost predicate CutAt(x: int, place: int, e: int, w: nat)
  {
    InUnits(x, place, e) <= w as real < InUnits(x + 1, place, e)
  }

  /** What was cut off, with an error of one unit, stays on one side of half a step. */
  ghost predicate OneSide(x: int, place: int, e: int, w: nat)
  {
    var rest, s := w as real - InUnits(x, place, e), InUnits(1, place, e);
    CutAt(x, place, e, w) && 2.0 < s && (2.0 * (rest + 1.0) <= s || 2.0 * (rest - 1.0) >= s)
  }

  ghost predicate RoundsClearly(place: int, e: int, w: nat)
  {
    exists x: int :: OneSide(x, place, e, w)
  }

  /** What was cut off is more than the error. */
  ghost predicate MoreThanError(x: int, place: int, e: int, w: nat)
  {
    CutAt(x, place, e, w) && w as real - InUnits(x, place, e) > 1.0
  }

  ghost predicate RestMatters(place: int, e: int, w: nat)
  {
    exists x: int :: MoreThanError(x, place, e, w)
  }

  /**
   The error leaves no doubt which way to round to the place. After the point that is not enough: before the last
   digit, there still has to be more left than the error.
   */
  ghost predicate CountedDecided(place: int, e: int, w: nat)
  {
    RoundsClearly(place, e, w) && (place < 0 ==> RestMatters(place + 1, e, w))
  }

  /** The place, the positions and the rest of a cut in the finer unit. */
  lemma CutScaled(x: int, place: int, e: int, w: nat, unit: nat, step: nat, rest: int)
    requires ScaleOf(unit, step, place, e) && w * unit == x * step + rest
    ensures CutAt(x, place, e, w) <==> 0 <= rest < step
    ensures MoreThanError(x, place, e, w) <==> 0 <= rest < step && rest > unit
    ensures OneSide(x, place, e, w) <==>
      0 <= rest < step && 2 * unit < step && (2 * (rest + unit) <= step || 2 * (rest - unit) >= step)
  {
    hide RPow, InUnits, Scale;
    var p, s, n := InUnits(x, place, e), InUnits(1, place, e), x * step;
    InUnitsScaled(x, unit, step, place, e);
    InUnitsScaled(1, unit, step, place, e);
    InUnitsScaled(x + 1, unit, step, place, e);
    MulDistrib(step, x, 1);
    ScaledPositions(p, s, n, step, unit);
    ScaledBound(w, p, n, unit);
    ScaledBound(w, InUnits(x + 1, place, e), n + step, unit);
    ScaledBound(w - 1, p, n, unit);
    ScaledBound(2, s, step, unit);
    ScaledBound(2 * (w + 1), 2.0 * p + s, 2 * n + step, unit);
    ScaledBound(2 * (w - 1), 2.0 * p + s, 2 * n + step, unit);
    AroundTwice(w, unit);
  }

  lemma AroundTwice(w: int, unit: int)
    ensures 2 * (w + 1) * unit == 2 * (w * unit) + 2 * unit && 2 * (w - 1) * unit == 2 * (w * unit) - 2 * unit
    ensures (w - 1) * unit == w * unit - unit
  {
    MulDistrib(unit, w, 1);
    MulAssoc(2, w + 1, unit);
    MulAssoc(2, w - 1, unit);
  }

  /** There is one way to cut. */
  lemma OneCut(x: int, y: int, place: int, e: int, w: nat)
    requires CutAt(x, place, e, w) && CutAt(y, place, e, w)
    ensures x == y
  {
    if x < y { HigherMultiple(x + 1, y, place, e); }
    if y < x { HigherMultiple(y + 1, x, place, e); }
  }

  lemma HigherMultiple(x: int, y: int, place: int, e: int)
    requires x <= y
    ensures InUnits(x, place, e) <= InUnits(y, place, e)
  {
    hide RPow;
    RPowPositive(10, place);
    RPowPositive(2, -e);
    RMulPositive(RPow(10, place), RPow(2, -e));
    RMulStrict(x as real, y as real, RPow(10, place) * RPow(2, -e));
  }

  /** What rounding a requested number of digits tests. */
  lemma RoundingTests(x: int, place: int, e: int, w: nat, unit: nat, step: nat, rest: nat)
    requires ScaleOf(unit, step, place, e) && w * unit == x * step + rest && rest < step
    ensures RoundsClearly(place, e, w) <==>
      2 * unit < step && (2 * (rest + unit) <= step || 2 * (rest - unit) >= step)
  {
    hide InUnits, ScaleOf, CutAt;
    CutScaled(x, place, e, w, unit, step, rest);
    if RoundsClearly(place, e, w) {
      var y :| OneSide(y, place, e, w);
      OneCut(x, y, place, e, w);
    }
  }

  /** What the digits after the point are tested for before each of them. */
  lemma RestTests(x: int, place: int, e: int, w: nat, unit: nat, step: nat, rest: nat)
    requires ScaleOf(unit, step, place, e) && w * unit == x * step + rest && rest < step
    ensures RestMatters(place, e, w) <==> rest > unit
  {
    hide InUnits, ScaleOf, CutAt;
    CutScaled(x, place, e, w, unit, step, rest);
    if RestMatters(place, e, w) {
      var y :| MoreThanError(y, place, e, w);
      OneCut(x, y, place, e, w);
    }
  }

  /** With more digits less is cut off. */
  lemma RestShrinks(x: int, place: int, e: int, w: nat, lower: int)
    requires CutAt(x, place, e, w) && lower <= place && RestMatters(lower, e, w)
    ensures RestMatters(place, e, w)
  {
    hide InUnits, Pow;
    var y :| MoreThanError(y, lower, e, w);
    var p := Pow(10, place - lower);
    PlaceMoved(x, place, lower, e);
    if y + 1 <= x * p {
      HigherMultiple(y + 1, x * p, lower, e);
    } else {
      HigherMultiple(x * p, y, lower, e);
    }
    assert MoreThanError(x, place, e, w);
  }

  /** A number that reaches its leading place keeps as many digits as there are places. */
  lemma LeadingPlace(x: int, count: nat, place: int, e: int, w: nat, unit: nat, step: nat, rest: nat)
    requires ScaleOf(unit, step, place, e) && w * unit == x * step + rest && rest < step && count > 0
    requires InUnits(1, place + count - 1, e) <= w as real
    ensures Pow(10, count - 1) <= x
  {
    hide RPow, Pow, InUnits, Scale;
    var n := Pow(10, count - 1);
    PlaceMoved(1, place + count - 1, place, e);
    InUnitsScaled(n, unit, step, place, e);
    ScaledBound(w, InUnits(n, place, e), n * step, unit);
    if x < n {
      MulMonotone(x + 1, n, step);
      MulDistrib(step, x, 1);
    }
  }

  /** How many decimal digits a number has; zero has none. */
  function DigitCount(n: nat): nat
  {
    if n == 0 then 0 else 1 + DigitCount(n / 10)
  }

  lemma {:induction false} DigitCountIs(n: nat, count: nat)
    requires n < Pow(10, count) && (count > 0 ==> Pow(10, count - 1) <= n)
    ensures DigitCount(n) == count
  {
    if count > 0 {
      PowPositive(10, count - 1);
      if count > 1 { assert Pow(10, count - 1) == 10 * Pow(10, count - 2); }
      DigitCountIs(n / 10, count - 1);
    }
  }

  /** The digits of f * 2^e before the point. */
  function DigitsBeforePoint(f: nat, e: int): nat
    requires e <= 0
  {
    PowPositive(2, -e); DigitCount(f / Pow(2, -e))
  }
}
