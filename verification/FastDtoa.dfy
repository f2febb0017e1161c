/**
 Grisu3 digit generation: fast, in 64-bit integers, on inputs that are off by less than one unit.
 It either returns digits that are right for every true value the inputs may stand for, or refuses.
 */
module FastDtoa {
  import opened Powers
  import opened RealPowers
  import opened Decimal
  import opened Grisu
  import opened DigitRounding
  import opened Acceptance

  /** f * 2^e with a 64-bit f. */
  datatype DiyFp = DiyFp(f: nat, e: int)

  const MAX64: nat := 0x1_0000_0000_0000_0000

  // ----- the biggest power of ten -----

  const SMALL_POWERS_OF_TEN: seq<nat> := [0, 1, 10, 100, 1000, 10000, 100000, 1000000, 10000000, 100000000, 1000000000]

  lemma SmallPowers(i: nat)
    requires 0 < i <= 10
    ensures SMALL_POWERS_OF_TEN[i] == Pow(10, i - 1)
    ensures Pow(10, 10) == 10_000_000_000
  {
    assert Pow(10, 0) == 1 && Pow(10, 1) == 10 && Pow(10, 2) == 100 && Pow(10, 3) == 1000;
    PowAdd(10, 2, 2);
    PowAdd(10, 2, 3);
    PowAdd(10, 3, 3);
    PowAdd(10, 4, 3);
    PowAdd(10, 4, 4);
    PowAdd(10, 5, 4);
    PowAdd(10, 5, 5);
  }

  /** 1233 / 4096 is close enough to 1 / lg 10 for numbers of up to 33 bits. */
  lemma GuessIsEnough(bits: nat)
    requires bits <= 32
    ensures var guess := (bits + 1) * 1233 / 4096 + 1; guess <= 10 && Pow(2, bits + 1) <= Pow(10, guess)
  {
    hide Pow;
    var guess := (bits + 1) * 1233 / 4096 + 1;
    // The largest bit count that still gets this guess.
    var most := [3, 6, 9, 13, 16, 19, 23, 26, 29, 33][guess - 1];
    assert bits + 1 <= most;
    PowMonotone(2, bits + 1, most);
    GuessTable(guess, most);
  }

  lemma GuessTable(guess: nat, most: nat)
    requires 1 <= guess <= 10 && most == [3, 6, 9, 13, 16, 19, 23, 26, 29, 33][guess - 1]
    ensures Pow(2, most) <= Pow(10, guess)
  {
    hide Pow;
    SmallPowers(guess);
    if guess < 10 { SmallPowers(guess + 1); }
    PowersOfTwo();
    PowAdd(2, 1, 1);
    PowAdd(2, 2, 1);
    if guess == 1 {
    } else if guess == 2 {
      PowAdd(2, 3, 3);
    } else if guess == 3 {
      PowAdd(2, 8, 1);
    } else if guess == 4 {
      PowAdd(2, 8, 1);
      PowAdd(2, 9, 4);
    } else if guess <= 6 {
      PowAdd(2, 16, 3);
    } else if guess == 7 {
      PowAdd(2, 16, 3);
      PowAdd(2, 19, 4);
    } else if guess == 8 {
      PowAdd(2, 24, 2);
    } else if guess == 9 {
      PowAdd(2, 28, 1);
    } else {
      PowAdd(2, 32, 1);
    }
  }

  /** What the source asserts the number to be below, the count of its 32-bit shift taken modulo 32. */
  function AssertedBound(numberBits: nat): nat
  {
    Pow(2, (numberBits + 1) % 32)
  }

  /** The assertion is right for up to 30 bits; for 31 and 32 bits the shift leaves the word. */
  lemma AssertionShift(number: nat, numberBits: nat)
    requires 2 <= number < Pow(2, numberBits + 1) && numberBits <= 32
    ensures number < AssertedBound(numberBits) <==> numberBits <= 30
  {
    hide Pow;
    PowUnit(2);
    if numberBits <= 30 {
      assert (numberBits + 1) % 32 == numberBits + 1;
    } else if numberBits == 31 {
      assert AssertedBound(numberBits) == Pow(2, 0);
    } else {
      assert AssertedBound(numberBits) == Pow(2, 1);
    }
  }

  /** The biggest power of ten that is at most the number, and one more than its exponent; 0 gives 0. */
  method BiggestPowerTen(number: nat, numberBits: nat) returns (power: nat, exponentPlusOne: nat)
    requires numberBits <= 32 && number < 0x1_0000_0000 && number < Pow(2, numberBits + 1)
    ensures exponentPlusOne <= 10 && number < Pow(10, exponentPlusOne)
    ensures number == 0 ==> power == 0 && exponentPlusOne == 0
    ensures number > 0 ==> exponentPlusOne > 0 && power == Pow(10, exponentPlusOne - 1) <= number
  {
    hide Pow;
    GuessIsEnough(numberBits);
    var guess := (numberBits + 1) * 1233 / 4096 + 1;
    while number < SMALL_POWERS_OF_TEN[guess]
      invariant 0 <= guess <= 10 && number < Pow(10, guess)
      invariant number > 0 ==> guess > 0
      decreases guess
    {
      SmallPowers(guess);
      guess := guess - 1;
    }
    if number == 0 && guess > 0 { SmallPowers(guess); PowPositive(10, guess - 1); }
    if guess > 0 { SmallPowers(guess); }
    power, exponentPlusOne := SMALL_POWERS_OF_TEN[guess], guess;
  }

  // ----- weeding -----

  /** The loop's guard, evaluated left to right so that no 64-bit operation wraps. */
  method ShouldDecrement(rest: nat, tenKappa: nat, smallDistance: nat, unsafeInterval: nat) returns (r: bool)
    requires rest <= unsafeInterval < MAX64 && smallDistance < MAX64 && tenKappa > 0
    ensures r <==> unsafeInterval - rest >= tenKappa && MovedCloser(rest, tenKappa, smallDistance)
  {
    if rest < smallDistance {
      if unsafeInterval - rest >= tenKappa {
        assert rest + tenKappa < MAX64;
        if rest + tenKappa < smallDistance {
          return true;
        }
        return smallDistance - rest >= rest + tenKappa - smallDistance;
      }
    }
    return false;
  }

  method MightDecrement(rest: nat, tenKappa: nat, bigDistance: nat, unsafeInterval: nat) returns (r: bool)
    requires rest <= unsafeInterval < MAX64 && bigDistance < MAX64
    ensures r <==> MightMove(rest, tenKappa, unsafeInterval, bigDistance)
  {
    if rest < bigDistance {
      if unsafeInterval - rest >= tenKappa {
        assert rest + tenKappa < MAX64;
        if rest + tenKappa < bigDistance {
          return true;
        }
        return bigDistance - rest > rest + tenKappa - bigDistance;
      }
    }
    return false;
  }

  /**
   Moves the last digit down towards w, then refuses unless the result is safe: `count` decrements
   bring the distance from the upper end to `rest`.
   */
  method RoundWeed(buffer: array<char>, length: nat, distanceTooHighW: nat, unsafeInterval: nat,
                   restIn: nat, tenKappa: nat, unit: nat, ghost digit: nat)
    returns (ok: bool, ghost rest: nat, ghost count: nat)
    requires 0 < length <= buffer.Length && digit <= 9 && buffer[length - 1] == DigitChar(digit)
    requires 0 < unit <= distanceTooHighW && distanceTooHighW + unit <= unsafeInterval < MAX64
      && 4 * unit <= unsafeInterval
    requires restIn < tenKappa < MAX64 && restIn < unsafeInterval <= digit * tenKappa + restIn
    modifies buffer
    ensures count <= digit && rest == restIn + count * tenKappa
    ensures buffer[..] == old(buffer[..])[length - 1 := DigitChar(digit - count)]
    ensures count > 0 ==> MovedCloser(restIn + (count - 1) * tenKappa, tenKappa, distanceTooHighW - unit)
    ensures rest <= unsafeInterval
    ensures !(unsafeInterval - rest >= tenKappa && MovedCloser(rest, tenKappa, distanceTooHighW - unit))
    ensures ok <==> 2 * unit <= rest <= unsafeInterval - 4 * unit
                    && !MightMove(rest, tenKappa, unsafeInterval, distanceTooHighW + unit)
  {
    hide MovedCloser, MightMove;
    var smallDistance, bigDistance := distanceTooHighW - unit, distanceTooHighW + unit;
    var r := restIn;
    count := 0;
    var again := ShouldDecrement(r, tenKappa, smallDistance, unsafeInterval);
    while again
      invariant 0 <= count <= digit && restIn <= r <= unsafeInterval && r == restIn + count * tenKappa
      invariant buffer[..] == old(buffer[..])[length - 1 := DigitChar(digit - count)]
      invariant count > 0 ==> MovedCloser(restIn + (count - 1) * tenKappa, tenKappa, smallDistance)
      invariant again <==> unsafeInterval - r >= tenKappa && MovedCloser(r, tenKappa, smallDistance)
      decreases unsafeInterval - r, again
    {
      assert count + 1 <= digit by {
        MulDistrib(tenKappa, count, 1);
        if count + 1 > digit { MulMonotone(digit, count, tenKappa); }
      }
      buffer[length - 1] := (buffer[length - 1] as int - 1) as char;
      MulDistrib(tenKappa, count, 1);
      r := r + tenKappa;
      count := count + 1;
      assert restIn + (count - 1) * tenKappa == r - tenKappa;
      again := ShouldDecrement(r, tenKappa, smallDistance, unsafeInterval);
    }
    rest := r;
    // Could the value just as well be closer to the next digit down?
    var unclear := MightDecrement(r, tenKappa, bigDistance, unsafeInterval);
    if unclear { return false, r, count; }
    ok := 2 * unit <= r && r <= unsafeInterval - 4 * unit;
  }

  // ----- shortest digits -----

  /** The count of decrements moves the number down by as many last-place steps. */
  lemma Decremented(digits: seq<char>, digit: nat, count: nat, step: nat, total: nat, rest: nat)
    requires AllDigits(digits) && count <= digit <= 9
    requires total == Dec(digits + [DigitChar(digit)]) * step + rest
    ensures total == Dec(digits + [DigitChar(digit - count)]) * step + (rest + count * step)
    ensures AllDigits(digits + [DigitChar(digit - count)])
  {
    DecSnoc(digits, DigitChar(digit));
    DecSnoc(digits, DigitChar(digit - count));
    MulDistrib(step, 10 * Dec(digits) + digit - count, count);
  }

  lemma Weeded(x: int, low: nat, w: nat, high: nat, unit: nat, step: nat, total: nat, gap: nat,
               first: nat, count: nat, rest: nat, distance: nat)
    requires total == (high + 1) * unit && gap == (high - low + 2) * unit && low <= high
      && distance == (high + 1 - w) * unit
    requires first < step && rest == first + count * step && total == x * step + rest
    requires 2 * unit <= rest <= gap - 4 * unit && NoneBetween(10 * step, total, gap)
    requires count > 0 ==> MovedCloser(first + (count - 1) * step, step, distance - unit)
    requires !MightMove(rest, step, gap, distance + unit)
    ensures Accepted(x, low, w, high, unit, step, total, gap, rest)
  {
    hide MovedCloser, MightMove, ClosestTo, NoneBetween;
    forall delta: real | (distance - unit) as real < delta < (distance + unit) as real
      ensures ClosestTo(rest, delta, step, gap)
    {
      WeededIsClosest(first, count, step, gap, distance - unit, distance + unit, delta);
    }
  }

  lemma ReadyToWeed(digits: seq<char>, digit: nat, rest: nat, step: nat, total: nat, gap: nat,
                    low: nat, w: nat, high: nat, unit: nat, kappa: int, e: int)
    requires digit <= 9 && low + 1 < high && low < w < high && gap == (high - low + 2) * unit && rest < step
    requires ScaleOf(unit, step, kappa, e)
    requires Pending(digits, digit * step + rest, 10 * step, total, gap)
    ensures NoneBetween(10 * step, total, gap) && gap <= digit * step + rest && unit > 0
    ensures unit <= (high + 1 - w) * unit && (high + 1 - w) * unit + unit <= gap && 4 * unit <= gap
    ensures AllDigits(digits) && total == Dec(digits + [DigitChar(digit)]) * step + rest
  {
    hide NoneBetween, Dec, AllDigits, ScaleOf;
    PendingMeansNone(digits, digit * step + rest, 10 * step, total, gap);
    PendingDigit(digits, digit * step + rest, step, total, gap, digit, rest);
    PendingBounds(digits, digit * step + rest, 10 * step, total, gap);
    UnitPositive(unit, step, kappa, e);
    DistanceFits(low, w, high, unit);
  }

  /** The last digit is out: weed, and accept only what is sure. */
  method Finish(buffer: array<char>, length: nat, low: DiyFp, w: DiyFp, high: DiyFp, distanceTooHighW: nat,
                unsafeInterval: nat, rest: nat, tenKappa: nat, unit: nat, ghost kappa: int, ghost digits: seq<char>,
                ghost digit: nat, ghost total: nat)
    returns (ok: bool)
    requires 0 < length <= buffer.Length && digit <= 9 && buffer[..length] == digits + [DigitChar(digit)]
    requires low.f + 1 < high.f && low.f < w.f < high.f
    requires ScaleOf(unit, tenKappa, kappa, w.e)
    requires total == (high.f + 1) * unit && unsafeInterval == (high.f - low.f + 2) * unit && unsafeInterval < MAX64
    requires distanceTooHighW == (high.f + 1 - w.f) * unit
    requires Pending(digits, digit * tenKappa + rest, 10 * tenKappa, total, unsafeInterval)
    requires rest < tenKappa < MAX64 && rest < unsafeInterval
    modifies buffer
    ensures length > 1 ==> buffer[0] == old(buffer[0])
    ensures ok ==> Dec(buffer[..length]) > 0
    ensures ok <==> Decided(w.e, low.f, w.f, high.f)
    ensures ok ==> AllDigits(buffer[..length]) && SurelyShortest(Dec(buffer[..length]), kappa, w.e, low.f, w.f, high.f)
  {
    hide ScaleOf, SurelyShortest, MovedCloser, MightMove, ClosestTo, Pending, NoneBetween, Dec, AllDigits, Accepted,
      Clear, Decided;
    ReadyToWeed(digits, digit, rest, tenKappa, total, unsafeInterval, low.f, w.f, high.f, unit, kappa, w.e);
    assert buffer[length - 1] == DigitChar(digit) by { assert buffer[..length][length - 1] == DigitChar(digit); }
    ghost var final, count;
    ok, final, count := RoundWeed(buffer, length, distanceTooHighW, unsafeInterval, rest, tenKappa, unit, digit);
    assert buffer[..length] == digits + [DigitChar(digit - count)];
    Decremented(digits, digit, count, tenKappa, total, rest);
    ghost var x := Dec(buffer[..length]);
    TestDecides(digits, digit, rest, unit, tenKappa, total, unsafeInterval, kappa, w.e, low.f, w.f, high.f,
                distanceTooHighW, count, x);
    if ok {
      Weeded(x, low.f, w.f, high.f, unit, tenKappa, total, unsafeInterval, rest, count, final, distanceTooHighW);
      AcceptedIsShortest(x, kappa, w.e, low.f, w.f, high.f, unit, tenKappa, total, unsafeInterval, final);
      SurelyPositive(x, kappa, w.e, low.f, w.f, high.f);
    }
  }

  lemma SurelyPositive(x: int, kappa: int, e: int, low: nat, w: nat, high: nat)
    requires SurelyShortest(x, kappa, e, low, w, high)
    ensures x > 0
  {
    hide RPow;
    assert Near(low as real, low) && Near(w as real, w) && Near(high as real, high);
    assert low as real < InUnits(x, kappa, e);
    RPowPositive(10, kappa);
    RPowPositive(2, -e);
    RMulPositive(RPow(10, kappa), RPow(2, -e));
    RMulStrict(0.0, x as real, RPow(10, kappa) * RPow(2, -e));
  }

  lemma PendingBounds(digits: seq<char>, rest: nat, step: nat, total: nat, gap: nat)
    requires Pending(digits, rest, step, total, gap)
    ensures AllDigits(digits) && gap <= rest < step
  {
  }

  lemma DistanceFits(low: nat, w: nat, high: nat, unit: nat)
    requires low + 1 < high && low < w < high && unit > 0
    ensures unit <= (high + 1 - w) * unit && (high + 1 - w) * unit + unit <= (high - low + 2) * unit
    ensures 4 * unit <= (high - low + 2) * unit
  {
    MulMonotone(1, high + 1 - w, unit);
    MulDistrib(unit, high + 1 - w, 1);
    MulMonotone(high + 1 - w + 1, high - low + 2, unit);
    MulMonotone(4, high - low + 2, unit);
  }

  /** A pending round has written fewer digits than the buffer has room for. */
  lemma RoomLeft(rest: nat, kappa: int, length: nat, start: nat, one: nat, unit: nat, gap: nat, room: nat)
    requires length == start - kappa && one > 0
    requires kappa >= 0 ==> gap <= rest < Pow(10, kappa) * one
    requires kappa < 0 ==> unit == Pow(10, -kappa) && gap * unit <= rest < one
    requires Pow(10, start) * one <= gap * Pow(10, room)
    ensures length < room
  {
    hide Pow;
    if length >= room {
      PowMonotone(10, room, length);
      MulMonotone(Pow(10, room), Pow(10, length), gap);
      if kappa >= 0 {
        PowAdd(10, kappa, length);
        PowPositive(10, length);
        MulStrict(gap, Pow(10, kappa) * one, Pow(10, length));
        MulAssoc(Pow(10, kappa), one, Pow(10, length));
        MulAssoc(Pow(10, kappa), Pow(10, length), one);
      } else {
        PowAdd(10, start, -kappa);
        PowPositive(10, start);
        MulStrict(gap * unit, one, Pow(10, start));
        MulAssoc(gap, unit, Pow(10, start));
      }
    }
  }

  /** Scales of the two phases. */
  lemma IntegralScale(kappa: nat, e: int)
    requires e <= 0
    ensures ScaleOf(1, Pow(10, kappa) * Pow(2, -e), kappa, e)
  {
    RPowNat(10, kappa);
    RPowNat(2, -e);
    CastMul(Pow(10, kappa), Pow(2, -e));
    PowPositive(10, kappa);
    PowPositive(2, -e);
    MulPositive(Pow(10, kappa), Pow(2, -e));
  }

  lemma FractionScale(kappa: int, e: int)
    requires e <= 0 && kappa <= 0
    ensures ScaleOf(Pow(10, -kappa), Pow(2, -e), kappa, e)
  {
    hide RPow, Pow;
    var p, q := Pow(10, -kappa), Pow(2, -e);
    RPowNat(10, -kappa);
    RPowNat(2, -e);
    RPowAdd(10, kappa, -kappa);
    assert RPow(10, 0) == 1.0 by { RPowNat(10, 0); PowUnit(10); }
    PowPositive(10, -kappa);
    PowPositive(2, -e);
    var r := RPow(10, kappa);
    RMulAssoc(r, q as real, p as real);
    RMulAssoc(q as real, p as real, 1.0);
    RMulAssoc(r, p as real, q as real);
  }

  /** Cutting the upper end into integral and fractional part. */
  lemma SplitUpper(f: nat, e: int)
    requires -60 <= e <= -32 && f < MAX64
    ensures var one := Pow(2, -e);
            && 0x1_0000_0000 <= one <= 0x1000_0000_0000_0000
            && 0 <= f / one < 0x1_0000_0000 && f / one < Pow(2, (64 + e) + 1)
            && f == (f / one) * one + f % one && 0 <= f % one < one
  {
    hide Pow;
    var one := Pow(2, -e);
    PowersOfTwo();
    PowMonotone(2, 32, -e);
    PowMonotone(2, -e, 60);
    PowAdd(2, 28, 32);
    DivModFacts(f, one);
    PowAdd(2, -e, 64 + e);
    PowMonotone(2, 64 + e, 32);
    PowMonotone(2, 64 + e, 64 + e + 1);
    if f / one >= Pow(2, 64 + e) { MulMonotone(Pow(2, 64 + e), f / one, one); }
  }

  /** Before any digit: everything is pending. */
  lemma PendingStart(total: nat, gap: nat, integrals: nat, fractionals: nat, one: nat, start: nat)
    requires gap <= total == integrals * one + fractionals && fractionals < one && integrals < Pow(10, start)
    ensures Pending([], total, Pow(10, start) * one, total, gap)
  {
    MulMonotone(integrals + 1, Pow(10, start), one);
    MulDistrib(one, integrals, 1);
  }

  /** The buffer's demand, in the form the loop needs. */
  lemma RoomForAll(gap: nat, total: nat, one: nat, start: nat, room: nat)
    requires 10 * total <= gap * Pow(10, room) && one <= gap * Pow(10, room)
    requires start > 0 ==> Pow(10, start - 1) * one <= total
    ensures Pow(10, start) * one <= gap * Pow(10, room)
  {
    if start > 0 {
      assert Pow(10, start) == 10 * Pow(10, start - 1);
      MulAssoc(10, Pow(10, start - 1), one);
    }
  }

  /** What one division of the pending rest gives, in 64 bits. */
  lemma IntegralDigit(integrals: nat, fractionals: nat, divisor: nat, one: nat, total: nat, digit: nat, left: nat)
    requires divisor > 0 && fractionals < one && integrals * one + fractionals <= total < MAX64
      && integrals < 10 * divisor && integrals == digit * divisor + left && left < divisor
    ensures digit <= 9 && (divisor <= integrals ==> digit > 0)
    ensures integrals * one + fractionals == digit * (divisor * one) + (left * one + fractionals)
    ensures left * one + fractionals < divisor * one && left * one + fractionals <= total
  {
    if digit > 9 { MulMonotone(10, digit, divisor); }
    MulDistrib(one, digit * divisor, left);
    MulAssoc(digit, divisor, one);
    MulMonotone(left + 1, divisor, one);
    MulDistrib(one, left, 1);
    MulNonneg(digit, divisor * one);
  }

  /** The same for the digits so far: one more of them, or the last. */
  lemma IntegralStep(digits: seq<char>, integrals: nat, fractionals: nat, divisor: nat, one: nat, total: nat, gap: nat,
                     digit: nat, left: nat, pending: nat, step: nat, rest: nat)
    requires pending == integrals * one + fractionals && step == divisor * one && rest == left * one + fractionals
    requires Pending(digits, pending, 10 * step, total, gap) && total < MAX64
    requires divisor > 0 && fractionals < one && integrals < 10 * divisor
    requires integrals == digit * divisor + left && left < divisor
    ensures digit <= 9 && (divisor <= integrals ==> digit > 0) && rest < step && rest <= total
    ensures Pending(digits, digit * step + rest, 10 * step, total, gap)
    ensures rest >= gap ==> Pending(digits + [DigitChar(digit)], rest, step, total, gap)
  {
    hide Pending;
    PendingTotal(digits, pending, 10 * step, total, gap);
    IntegralDigit(integrals, fractionals, divisor, one, total, digit, left);
    PendingDigit(digits, pending, step, total, gap, digit, rest);
  }

  /** One digit before the point. */
  method IntegralRound(buffer: array<char>, length: nat, integrals: nat, fractionals: nat, divisor: nat, one: nat,
                       low: DiyFp, w: DiyFp, high: DiyFp, unsafeInterval: nat, ghost kappa: nat)
    returns (done: bool, ok: bool, integrals': nat)
    requires length < buffer.Length && w.e <= 0 && one == Pow(2, -w.e)
    requires low.f + 1 < high.f && low.f < w.f < high.f && high.f + 1 < MAX64 && 0 < low.f
    requires unsafeInterval == high.f - low.f + 2
    requires divisor == Pow(10, kappa) && integrals < 10 * divisor && fractionals < one && divisor * one < MAX64
    requires Pending(buffer[..length], integrals * one + fractionals, 10 * (divisor * one), high.f + 1, unsafeInterval)
    modifies buffer
    ensures length > 0 ==> buffer[0] == old(buffer[0])
    ensures length == 0 && divisor <= integrals && (!done || ok) ==> buffer[0] != '0'
    ensures done ==> (ok <==> Decided(w.e, low.f, w.f, high.f))
    ensures done && ok ==>
      AllDigits(buffer[..length + 1]) && SurelyShortest(Dec(buffer[..length + 1]), kappa, w.e, low.f, w.f, high.f)
    ensures !done ==> integrals' < divisor
    ensures !done ==>
      Pending(buffer[..length + 1], integrals' * one + fractionals, divisor * one, high.f + 1, unsafeInterval)
  {
    hide Pow, Pending, SurelyShortest, ScaleOf, Dec, AllDigits, Clear, Decided;
    ghost var digits, total := buffer[..length], high.f + 1;
    PowPositive(10, kappa);
    DivModFacts(integrals, divisor);
    var digit := integrals / divisor;
    IntegralStep(digits, integrals, fractionals, divisor, one, total, unsafeInterval, digit, integrals % divisor,
                 integrals * one + fractionals, divisor * one, integrals % divisor * one + fractionals);
    buffer[length] := DigitChar(digit);
    assert buffer[..length + 1] == digits + [DigitChar(digit)];
    integrals' := integrals % divisor;
    var rest := integrals' * one + fractionals;
    assert rest < MAX64;
    done, ok := false, false;
    if rest < unsafeInterval {
      IntegralScale(kappa, w.e);
      done := true;
      ok := Finish(buffer, length + 1, low, w, high, high.f + 1 - w.f, unsafeInterval, rest, divisor * one, 1,
                   kappa, digits, digit, total);
      if ok && length == 0 { OneDigit(buffer[..1]); }
    }
  }

  lemma OneDigit(digits: seq<char>)
    requires |digits| == 1 && Dec(digits) > 0
    ensures digits[0] != '0'
  {
    assert digits[..0] == [];
  }

  lemma QuotientPositive(n: nat, d: nat)
    requires 0 < d <= n
    ensures n / d > 0
  {
    DivModFacts(n, d);
    if n / d <= 0 { MulMonotone(n / d, 0, d); }
  }

  lemma PendingTotal(digits: seq<char>, rest: nat, step: nat, total: nat, gap: nat)
    requires Pending(digits, rest, step, total, gap)
    ensures rest <= total
  {
    DecBound(digits);
    MulNonneg(Dec(digits), step);
  }

  /** One digit after the point: everything is scaled by ten, and nothing overflows. */
  method FractionRound(buffer: array<char>, length: nat, fractionals: nat, one: nat, unit: nat,
                       low: DiyFp, w: DiyFp, high: DiyFp, unsafeInterval: nat, ghost kappa: int)
    returns (done: bool, ok: bool, fractionals': nat, unit': nat, unsafeInterval': nat)
    requires length < buffer.Length && -60 <= w.e <= -32 && one == Pow(2, -w.e) <= 0x1000_0000_0000_0000
    requires low.f + 1 < high.f && low.f < w.f < high.f && high.f + 1 < MAX64 && 0 < low.f
    requires kappa <= 0 && unit == Pow(10, -kappa) && unsafeInterval == (high.f - low.f + 2) * unit
    requires Pending(buffer[..length], fractionals, one, (high.f + 1) * unit, unsafeInterval)
    modifies buffer
    ensures unit' == Pow(10, -(kappa - 1)) && unsafeInterval' == (high.f - low.f + 2) * unit'
    ensures length > 0 ==> buffer[0] == old(buffer[0])
    ensures done ==> (ok <==> Decided(w.e, low.f, w.f, high.f))
    ensures done && ok ==>
      AllDigits(buffer[..length + 1]) && SurelyShortest(Dec(buffer[..length + 1]), kappa - 1, w.e, low.f, w.f, high.f)
    ensures !done ==>
      Pending(buffer[..length + 1], fractionals', one, (high.f + 1) * unit', unsafeInterval')
        && unsafeInterval' > unsafeInterval
  {
    hide Pow, Pending, SurelyShortest, ScaleOf, Dec, AllDigits, Clear, Decided;
    ghost var digits, total := buffer[..length], (high.f + 1) * unit;
    PendingBounds(digits, fractionals, one, total, unsafeInterval);
    var scaled := fractionals * 10;
    assert scaled < MAX64 && unsafeInterval * 10 < MAX64;
    unit' := unit * 10;
    unsafeInterval' := unsafeInterval * 10;
    FractionDigit(scaled, one);
    var digit := scaled / one;
    FractionStep(digits, fractionals, one, low.f, high.f, unit, total, unsafeInterval, kappa, digit, scaled % one);
    buffer[length] := DigitChar(digit);
    assert buffer[..length + 1] == digits + [DigitChar(digit)];
    fractionals' := scaled % one;
    done, ok := false, false;
    if fractionals' < unsafeInterval' {
      FractionScale(kappa - 1, w.e);
      done := true;
      MulNonneg(high.f + 1 - w.f, unit');
      ok := Finish(buffer, length + 1, low, w, high, (high.f + 1 - w.f) * unit', unsafeInterval', fractionals', one,
                   unit', kappa - 1, digits, digit, total * 10);
    }
  }

  lemma ScaleStep(low: nat, high: nat, unit: nat, kappa: int)
    requires kappa <= 0 && unit == Pow(10, -kappa) && low <= high
    ensures unit * 10 == Pow(10, -(kappa - 1)) && unit > 0
    ensures 10 * ((high + 1) * unit) == (high + 1) * (unit * 10)
    ensures 10 * ((high - low + 2) * unit) == (high - low + 2) * (unit * 10)
    ensures 0 < (high - low + 2) * unit
  {
    PowPositive(10, -kappa);
    MulAssoc(high + 1, unit, 10);
    MulAssoc(high - low + 2, unit, 10);
    MulPositive(high - low + 2, unit);
  }

  lemma FractionDigit(scaled: nat, one: nat)
    requires one > 0 && scaled < 10 * one
    ensures 0 <= scaled / one <= 9 && scaled == (scaled / one) * one + scaled % one && 0 <= scaled % one < one
  {
    DivModFacts(scaled, one);
    if scaled / one > 9 { MulMonotone(10, scaled / one, one); }
  }

  /** Everything scaled by ten, and one digit cut off. */
  lemma FractionStep(digits: seq<char>, fractionals: nat, one: nat, low: nat, high: nat, unit: nat, total: nat,
                     gap: nat, kappa: int, digit: nat, left: nat)
    requires Pending(digits, fractionals, one, total, gap) && low <= high
    requires total == (high + 1) * unit && gap == (high - low + 2) * unit
    requires kappa <= 0 && unit == Pow(10, -kappa) && fractionals * 10 == digit * one + left && left < one && digit <= 9
    ensures gap < gap * 10 && unit * 10 == Pow(10, -(kappa - 1)) && gap * 10 == (high - low + 2) * (unit * 10)
    ensures total * 10 == (high + 1) * (unit * 10)
    ensures Pending(digits, digit * one + left, 10 * one, total * 10, gap * 10)
    ensures left >= gap * 10 ==> Pending(digits + [DigitChar(digit)], left, one, total * 10, gap * 10)
  {
    hide Pow, Pending, Dec, AllDigits;
    PendingScaled(digits, fractionals, one, total, gap);
    ScaleStep(low, high, unit, kappa);
    PendingDigit(digits, digit * one + left, one, 10 * total, 10 * gap, digit, left);
  }

  lemma FirstPending(total: nat, gap: nat, integrals: nat, fractionals: nat, one: nat, start: nat, room: nat)
    requires gap <= total == integrals * one + fractionals && fractionals < one && integrals < Pow(10, start)
    requires start > 0 ==> Pow(10, start - 1) <= integrals
    requires 10 * total <= gap * Pow(10, room) && one <= gap * Pow(10, room)
    ensures Pending([], integrals * one + fractionals, Pow(10, start) * one, total, gap)
    ensures Pow(10, start) * one <= gap * Pow(10, room)
  {
    hide Pow;
    PendingStart(total, gap, integrals, fractionals, one, start);
    if start > 0 { MulMonotone(Pow(10, start - 1), integrals, one); }
    RoomForAll(gap, total, one, start, room);
  }

  lemma TenfoldStep(kappa: nat, divisor: nat, one: nat)
    requires kappa > 0 && divisor == Pow(10, kappa - 1)
    ensures Pow(10, kappa) == 10 * divisor && Pow(10, kappa) * one == 10 * (divisor * one)
  {
    MulAssoc(10, divisor, one);
  }

  lemma NextDivisor(kappa: nat, divisor: nat)
    requires divisor == Pow(10, kappa)
    ensures kappa > 0 ==> divisor / 10 == Pow(10, kappa - 1)
  {
  }

  lemma NoIntegrals(integrals: nat, kappa: int, one: nat)
    requires kappa == 0 && integrals < Pow(10, kappa)
    ensures integrals == 0 && Pow(10, kappa) * one == one && Pow(10, -kappa) == 1
  {
  }

  /** The leading digit's weight is within the number, so every weight that is still used fits in 64 bits. */
  lemma WeightFits(integrals: nat, one: nat, f: nat, start: nat, kappa: nat)
    requires integrals * one <= f < MAX64 && kappa < start && Pow(10, start - 1) <= integrals
    ensures Pow(10, kappa) * one < MAX64
  {
    hide Pow;
    PowMonotone(10, kappa, start - 1);
    MulMonotone(Pow(10, kappa), integrals, one);
  }

  /** The first loop: digits before the point, until the rest is inside the interval or none are left. */
  method IntegralPhase(buffer: array<char>, start: nat, integralsIn: nat, fractionals: nat, divisorIn: nat, one: nat,
                       low: DiyFp, w: DiyFp, high: DiyFp, unsafeInterval: nat, ghost room: nat)
    returns (done: bool, ok: bool, length: nat, kappa: nat)
    requires w.e <= 0 && one == Pow(2, -w.e) > 0 && fractionals < one
    requires low.f + 1 < high.f && low.f < w.f < high.f && high.f + 1 < MAX64 && 0 < low.f
    requires unsafeInterval == high.f - low.f + 2 && room <= buffer.Length
    requires start > 0 ==> divisorIn == Pow(10, start - 1) <= integralsIn && integralsIn * one <= high.f + 1
    requires integralsIn < Pow(10, start) && Pow(10, start) * one <= unsafeInterval * Pow(10, room)
    requires Pending([], integralsIn * one + fractionals, Pow(10, start) * one, high.f + 1, unsafeInterval)
    modifies buffer
    ensures kappa <= start && length == start - kappa && length <= room
    ensures start > 0 && (!done || ok) ==> length > 0 && buffer[0] != '0'
    ensures done ==> (ok <==> Decided(w.e, low.f, w.f, high.f))
    ensures done && ok ==>
      AllDigits(buffer[..length]) && SurelyShortest(Dec(buffer[..length]), kappa, w.e, low.f, w.f, high.f)
    ensures !done ==> kappa == 0 && Pending(buffer[..length], fractionals, one, high.f + 1, unsafeInterval)
  {
    hide Pow, Pending, SurelyShortest, ScaleOf, Dec, AllDigits, Clear, Decided;
    var integrals, divisor := integralsIn, divisorIn;
    done, ok, length, kappa := false, false, 0, start;
    assert buffer[..0] == [];
    while kappa > 0
      invariant 0 <= kappa <= start && length == start - kappa <= room
      invariant kappa == start ==> integrals == integralsIn && divisor == divisorIn
      invariant length > 0 ==> buffer[0] != '0'
      invariant kappa > 0 ==> divisor == Pow(10, kappa - 1)
      invariant 0 <= integrals < Pow(10, kappa)
      invariant Pending(buffer[..length], integrals * one + fractionals, Pow(10, kappa) * one, high.f + 1,
                        unsafeInterval)
      decreases kappa
    {
      RoomBefore(buffer[..length], integrals * one + fractionals, kappa, length, start, one, high.f + 1,
                 unsafeInterval, room);
      TenfoldStep(kappa, divisor, one);
      WeightFits(integralsIn, one, high.f + 1, start, kappa - 1);
      done, ok, integrals :=
        IntegralRound(buffer, length, integrals, fractionals, divisor, one, low, w, high, unsafeInterval, kappa - 1);
      length := length + 1;
      kappa := kappa - 1;
      if done { return; }
      NextDivisor(kappa, divisor);
      divisor := divisor / 10;
    }
    NoIntegrals(integrals, kappa, one);
  }

  lemma RoomBefore(digits: seq<char>, rest: nat, kappa: nat, length: nat, start: nat, one: nat, total: nat, gap: nat,
                   room: nat)
    requires Pending(digits, rest, Pow(10, kappa) * one, total, gap) && length == start - kappa && one > 0
    requires Pow(10, start) * one <= gap * Pow(10, room)
    ensures length < room
  {
    RoomLeft(rest, kappa, length, start, one, 1, gap, room);
  }

  /** The second loop: digits after the point. It ends because the interval grows past the fraction. */
  method FractionPhase(buffer: array<char>, lengthIn: nat, fractionalsIn: nat, one: nat, low: DiyFp, w: DiyFp,
                       high: DiyFp, ghost room: nat)
    returns (ok: bool, length: nat, kappa: int)
    requires -60 <= w.e <= -32 && one == Pow(2, -w.e) <= 0x1000_0000_0000_0000
    requires low.f + 1 < high.f && low.f < w.f < high.f && high.f + 1 < MAX64 && 0 < low.f
    requires lengthIn <= room <= buffer.Length
    requires Pow(10, lengthIn) * one <= (high.f - low.f + 2) * Pow(10, room)
    requires Pending(buffer[..lengthIn], fractionalsIn, one, high.f + 1, high.f - low.f + 2)
    modifies buffer
    ensures lengthIn < length <= room && (lengthIn > 0 ==> buffer[0] == old(buffer[0]))
    ensures ok <==> Decided(w.e, low.f, w.f, high.f)
    ensures ok ==> AllDigits(buffer[..length]) && SurelyShortest(Dec(buffer[..length]), kappa, w.e, low.f, w.f, high.f)
  {
    hide Pow, Pending, SurelyShortest, ScaleOf, Dec, AllDigits, Clear, Decided;
    var unit, unsafeInterval, fractionals, done := 1, high.f - low.f + 2, fractionalsIn, false;
    length, kappa, ok := lengthIn, 0, false;
    assert Pow(10, 0) == 1 by { PowUnit(10); }
    while !done
      invariant kappa <= 0 && length == lengthIn - kappa <= room
      invariant unit == Pow(10, -kappa) && unsafeInterval == (high.f - low.f + 2) * unit
      invariant !done ==> Pending(buffer[..length], fractionals, one, (high.f + 1) * unit, unsafeInterval)
      invariant done ==> lengthIn < length
      invariant lengthIn > 0 ==> buffer[0] == old(buffer[0])
      invariant done ==> (ok <==> Decided(w.e, low.f, w.f, high.f))
      invariant done && ok ==>
        AllDigits(buffer[..length]) && SurelyShortest(Dec(buffer[..length]), kappa, w.e, low.f, w.f, high.f)
      decreases !done, one - unsafeInterval
    {
      RoomAfter(buffer[..length], fractionals, kappa, length, lengthIn, one, unit, (high.f + 1) * unit,
                high.f - low.f + 2, unsafeInterval, room);
      done, ok, fractionals, unit, unsafeInterval :=
        FractionRound(buffer, length, fractionals, one, unit, low, w, high, unsafeInterval, kappa);
      length := length + 1;
      kappa := kappa - 1;
    }
  }

  lemma RoomAfter(digits: seq<char>, rest: nat, kappa: int, length: nat, start: nat, one: nat, unit: nat, total: nat,
                  gap: nat, scaledGap: nat, room: nat)
    requires kappa <= 0 && length == start - kappa
    requires Pending(digits, rest, one, total, scaledGap) && scaledGap == gap * unit && unit == Pow(10, -kappa)
    requires Pow(10, start) * one <= gap * Pow(10, room)
    ensures length < room && scaledGap < one
  {
    hide Pow;
    PowUnit(10);
    RoomLeft(rest, kappa, length, start, one, unit, gap, room);
  }

  /**
   Generates the digits of the upper end until they are inside the interval, then weeds. When it
   returns true the digits are the shortest and closest for all true values of its imprecise inputs.
   */
  method DigitGen(low: DiyFp, w: DiyFp, high: DiyFp, buffer: array<char>, ghost room: nat)
    returns (ok: bool, length: nat, kappa: int)
    requires low.e == w.e == high.e && -60 <= w.e <= -32
    requires 0 < low.f && low.f + 1 <= high.f - 1 && low.f < w.f < high.f && high.f + 1 < MAX64
    requires room <= buffer.Length
    requires 10 * (high.f + 1) <= (high.f - low.f + 2) * Pow(10, room)
    requires Pow(2, -w.e) <= (high.f - low.f + 2) * Pow(10, room)
    modifies buffer
    ensures length <= room
    ensures ok && Pow(2, -w.e) <= high.f + 1 ==> length > 0 && buffer[0] != '0'
    ensures ok <==> Decided(w.e, low.f, w.f, high.f)
    ensures ok ==> AllDigits(buffer[..length]) && SurelyShortest(Dec(buffer[..length]), kappa, w.e, low.f, w.f, high.f)
  {
    hide Pow, Pending, SurelyShortest, Dec, AllDigits, Clear, Decided;
    var tooHigh := high.f + 1;
    var unsafeInterval := tooHigh - (low.f - 1);
    var one := Pow(2, -w.e);
    SplitUpper(tooHigh, w.e);
    var integrals, fractionals := tooHigh / one, tooHigh % one;
    var divisor, divisorExponentPlusOne := BiggestPowerTen(integrals, 64 + w.e);
    FirstPending(tooHigh, unsafeInterval, integrals, fractionals, one, divisorExponentPlusOne, room);
    if one <= tooHigh { QuotientPositive(tooHigh, one); }
    var done;
    done, ok, length, kappa := IntegralPhase(buffer, divisorExponentPlusOne, integrals, fractionals, divisor, one,
                                             low, w, high, unsafeInterval, room);
    if done { return; }
    ok, length, kappa := FractionPhase(buffer, length, fractionals, one, low, w, high, room);
  }

  /** 5 with boundaries a quarter away: the digit 5 is clear. */
  lemma FiveIsDecided()
    ensures Decided(-60, 5 * Pow(2, 60) - Pow(2, 58), 5 * Pow(2, 60), 5 * Pow(2, 60) + Pow(2, 58))
  {
    hide Decided, Clear;
    IntegralScale(0, -60);
    PowUnit(10);
    PowNext(2, 58);
    PowNext(2, 59);
    PowersOfTwo();
    PowMonotone(2, 32, 58);
    hide Pow, ScaleOf;
    var q := Pow(2, 58);
    TestDecides([], 5, q + 1, 1, 4 * q, 21 * q + 1, 2 * q + 2, 0, -60, 19 * q, 20 * q, 21 * q, q + 1, 0, 5);
  }

  /**
   To be the closest strictly inside the interval is not enough: 1 is, between a half and almost 2, but the generator
   starts from the 2 on the upper end, does not leave it as w is nearer to it, and refuses.
   */
  lemma ClosestIsNotEnough()
    returns (low: nat, w: nat, high: nat, step: nat)
    ensures low + 1 < high && low < w < high && high + 1 < MAX64 && ScaleOf(1, step, 0, -32)
    ensures Accepted(1, low, w, high, 1, step, high + 1, high - low + 2, step)
    ensures !Decided(-32, low, w, high)
  {
    hide Decided, Clear;
    IntegralScale(0, -32);
    PowUnit(10);
    PowersOfTwo();
    hide Pow, ScaleOf;
    step := 0x1_0000_0000;
    low, w, high := 0x8000_0001, 0x1_FFFF_FFF6, 0x1_FFFF_FFFF;
    TestDecides([], 2, 0, 1, step, high + 1, high - low + 2, 0, -32, low, w, high, high + 1 - w, 0, 2);
    PendingMeansNone([], 2 * step, 10 * step, high + 1, high - low + 2);
  }

  // ----- a requested number of digits -----

  /** The digits are w cut to multiples of step. */
  ghost predicate CutDigits(digits: seq<char>, rest: nat, step: nat, total: nat)
  {
    Pending(digits, rest, step, total, 0)
  }

  /** How a rounding decision shows in integers. */
  lemma RoundedDown(x: nat, rest: nat, step: nat, w: nat, unit: nat)
    requires w * unit == x * step + rest && 2 * (rest + unit) <= step
    ensures 2 * (x * step - w * unit + unit) <= step && 2 * (w * unit - x * step + unit) <= step
  {
  }

  lemma RoundedUp(x: nat, rest: nat, step: nat, w: nat, unit: nat)
    requires w * unit == x * step + rest && rest < step && unit < rest && step - (rest - unit) <= rest - unit
      && step - unit > unit
    ensures 2 * ((x + 1) * step - w * unit + unit) <= step && 2 * (w * unit - (x + 1) * step + unit) <= step
  {
    MulDistrib(step, x, 1);
  }

  /** The digits so far are the number cut, and so its rest is what the tests look at. */
  lemma CutRestTests(digits: seq<char>, kappa: int, e: int, f: nat, unit: nat, step: nat, rest: nat)
    requires CutDigits(digits, rest, step, f * unit) && ScaleOf(unit, step, kappa, e)
    ensures RestMatters(kappa, e, f) <==> rest > unit
  {
    hide ScaleOf, RestMatters, Dec, AllDigits;
    RestTests(Dec(digits), kappa, e, f, unit, step, rest);
  }

  /** Once the rest is within the error it stays so at all lower places. */
  lemma NoMoreMatters(digits: seq<char>, kappa: int, e: int, f: nat, unit: nat, step: nat, rest: nat, lower: int)
    requires CutDigits(digits, rest, step, f * unit) && ScaleOf(unit, step, kappa, e)
    requires rest <= unit && lower <= kappa
    ensures !RestMatters(lower, e, f)
  {
    hide ScaleOf, RestMatters, CutAt, Dec, AllDigits;
    var x := Dec(digits);
    RestTests(x, kappa, e, f, unit, step, rest);
    CutScaled(x, kappa, e, f, unit, step, rest);
    if RestMatters(lower, e, f) { RestShrinks(x, kappa, e, f, lower); }
  }

  lemma CutLeads(digits: seq<char>, kappa: int, e: int, f: nat, unit: nat, step: nat, rest: nat)
    requires CutDigits(digits, rest, step, f * unit) && ScaleOf(unit, step, kappa, e) && |digits| > 0
    ensures InUnits(1, kappa + |digits| - 1, e) <= f as real ==> Pow(10, |digits| - 1) <= Dec(digits)
  {
    hide ScaleOf, InUnits, Pow, Dec, AllDigits;
    if InUnits(1, kappa + |digits| - 1, e) <= f as real {
      LeadingPlace(Dec(digits), |digits|, kappa, e, f, unit, step, rest);
    }
  }

  /** The biggest power of ten in the integral part, in units of the number's last place. */
  lemma LeadsBefore(f: nat, e: int, integrals: nat, left: nat, one: nat, start: nat)
    requires e <= 0 && one == Pow(2, -e) && f == integrals * one + left && left < one
    requires integrals > 0 ==> start > 0 && Pow(10, start - 1) <= integrals
    ensures one <= f ==> start > 0 && InUnits(1, start - 1, e) <= f as real
  {
    hide Pow, InUnits;
    if one <= f {
      if integrals == 0 { MulNonneg(integrals, one); }
      MulMonotone(Pow(10, start - 1), integrals, one);
      PlaceIs(start - 1, e, Pow(10, start - 1) * one);
    }
  }

  /**
   Rounds the digits to the nearest, if the error of w cannot change the direction. A carry through
   all nines moves the point instead of adding a digit.
   */
  method RoundWeedCounted(buffer: array<char>, length: nat, rest: nat, tenKappa: nat, unit: nat, kappa: int,
                          ghost w: DiyFp)
    returns (ok: bool, kappa': int)
    requires 0 < length <= buffer.Length && 0 < unit < MAX64 && tenKappa < MAX64
    requires CutDigits(buffer[..length], rest, tenKappa, w.f * unit) && ScaleOf(unit, tenKappa, kappa, w.e)
    modifies buffer
    ensures AllDigits(buffer[..length])
    ensures kappa <= kappa' <= kappa + 1
    ensures ok <==> 2 * unit < tenKappa && (2 * (rest + unit) <= tenKappa || 2 * (rest - unit) >= tenKappa)
    ensures ok <==> RoundsClearly(kappa, w.e, w.f)
    ensures ok ==> WithinHalf(Dec(buffer[..length]), kappa', w.e, w.f)
    ensures Pow(10, length - 1) <= old(Dec(buffer[..length])) ==> Pow(10, length - 1) <= Dec(buffer[..length])
    ensures !ok ==> buffer[..] == old(buffer[..]) && kappa' == kappa
  {
    hide Pow, ScaleOf, WithinHalf, RoundsClearly;
    ghost var x := Dec(buffer[..length]);
    DecBound(buffer[..length]);
    RoundingTests(x, kappa, w.e, w.f, unit, tenKappa, rest);
    kappa' := kappa;
    if unit >= tenKappa { return false, kappa; }
    if tenKappa - unit <= unit { return false, kappa; }
    // Even the largest w in question is at most half a step above the digits.
    if tenKappa - rest > rest && tenKappa - 2 * rest >= 2 * unit {
      RoundedDown(x, rest, tenKappa, w.f, unit);
      HalfFromIntegers(x, kappa, w.e, w.f, unit, tenKappa);
      return true, kappa;
    }
    // Even the smallest w in question is at least half a step above the digits.
    if rest > unit && tenKappa - (rest - unit) <= rest - unit {
      RoundedUp(x, rest, tenKappa, w.f, unit);
      HalfFromIntegers(x + 1, kappa, w.e, w.f, unit, tenKappa);
      var overflow := AddOne(buffer, length);
      if overflow {
        TenTimes(length);
        HalfOneUp(x + 1, Dec(buffer[..length]), kappa, w.e, w.f);
        kappa' := kappa + 1;
      }
      return true, kappa';
    }
    return false, kappa;
  }

  /** One digit of w, before the point. */
  method CountedIntegralDigit(buffer: array<char>, length: nat, integrals: nat, fractionals: nat, divisor: nat,
                              one: nat, ghost total: nat)
    returns (integrals': nat)
    requires length < buffer.Length && divisor > 0 && fractionals < one && integrals < 10 * divisor && total < MAX64
    requires CutDigits(buffer[..length], integrals * one + fractionals, 10 * (divisor * one), total)
    modifies buffer
    ensures integrals' < divisor && integrals' * one + fractionals <= total
    ensures CutDigits(buffer[..length + 1], integrals' * one + fractionals, divisor * one, total)
  {
    hide Pending, Dec, AllDigits;
    ghost var digits := buffer[..length];
    PendingTotal(digits, integrals * one + fractionals, 10 * (divisor * one), total, 0);
    DivModFacts(integrals, divisor);
    IntegralDigit(integrals, fractionals, divisor, one, total, integrals / divisor, integrals % divisor);
    var digit := integrals / divisor;
    buffer[length] := DigitChar(digit);
    assert buffer[..length + 1] == digits + [DigitChar(digit)];
    integrals' := integrals % divisor;
    PendingDigit(digits, integrals * one + fractionals, divisor * one, total, 0, digit, integrals' * one + fractionals);
  }

  /** The digits before the point, at most as many as requested. */
  method CountedIntegrals(buffer: array<char>, requested: nat, start: nat, integralsIn: nat, fractionals: nat,
                          divisorIn: nat, one: nat, ghost w: DiyFp)
    returns (length: nat, remaining: nat, integrals: nat, divisor: nat, kappa: nat)
    requires 0 < requested <= buffer.Length && w.e <= 0 && one == Pow(2, -w.e) && fractionals < one && w.f < MAX64
    requires start > 0 ==> divisorIn == Pow(10, start - 1)
    requires integralsIn < Pow(10, start)
    requires CutDigits([], integralsIn * one + fractionals, Pow(10, start) * one, w.f)
    modifies buffer
    ensures kappa <= start && length == start - kappa && length + remaining == requested
    ensures CutDigits(buffer[..length], integrals * one + fractionals, Pow(10, kappa) * one, w.f)
    ensures remaining == 0 ==> divisor == Pow(10, kappa) && length > 0
    ensures length > 0 ==> kappa < start
    ensures remaining > 0 ==> kappa == 0 && integrals == 0
  {
    hide Pow, Pending, CutDigits;
    integrals, divisor, kappa := integralsIn, divisorIn, start;
    length, remaining := 0, requested;
    assert buffer[..0] == [];
    while kappa > 0
      invariant 0 <= kappa <= start && length == start - kappa && length + remaining == requested && remaining > 0
      invariant kappa > 0 ==> divisor == Pow(10, kappa - 1)
      invariant 0 <= integrals < Pow(10, kappa)
      invariant CutDigits(buffer[..length], integrals * one + fractionals, Pow(10, kappa) * one, w.f)
      decreases kappa
    {
      TenfoldStep(kappa, divisor, one);
      PowPositive(10, kappa - 1);
      integrals := CountedIntegralDigit(buffer, length, integrals, fractionals, divisor, one, w.f);
      length := length + 1;
      remaining := remaining - 1;
      kappa := kappa - 1;
      if remaining == 0 { return; }
      NextDivisor(kappa, divisor);
      divisor := divisor / 10;
    }
    NoIntegrals(integrals, kappa, one);
  }

  method CountedFractionDigit(buffer: array<char>, length: nat, fractionals: nat, one: nat, wError: nat,
                              ghost kappa: int, ghost w: DiyFp)
    returns (fractionals': nat, wError': nat)
    requires w.e <= 0 && one == Pow(2, -w.e)
    requires length < buffer.Length && kappa <= 0 && one <= 0x1000_0000_0000_0000 && wError < fractionals
      && wError == Pow(10, -kappa)
    requires CutDigits(buffer[..length], fractionals, one, w.f * wError)
    modifies buffer
    ensures wError' == Pow(10, -(kappa - 1)) && wError' < MAX64
    ensures CutDigits(buffer[..length + 1], fractionals', one, w.f * wError')
    ensures RestMatters(kappa, w.e, w.f)
  {
    hide Pow, Pending, Dec, AllDigits, ScaleOf, RestMatters;
    ghost var digits, total := buffer[..length], w.f * wError;
    PendingBounds(digits, fractionals, one, total, 0);
    FractionScale(kappa, w.e);
    CutRestTests(digits, kappa, w.e, w.f, wError, one, fractionals);
    PendingScaled(digits, fractionals, one, total, 0);
    var scaled := fractionals * 10;
    assert scaled < MAX64 && wError * 10 < MAX64;
    ErrorStep(w.f, wError, kappa);
    wError' := wError * 10;
    FractionDigit(scaled, one);
    var digit := scaled / one;
    buffer[length] := DigitChar(digit);
    assert buffer[..length + 1] == digits + [DigitChar(digit)];
    fractionals' := scaled % one;
    PendingDigit(digits, scaled, one, 10 * total, 0, digit, fractionals');
  }

  lemma ErrorStep(f: nat, wError: nat, kappa: int)
    requires kappa <= 0 && wError == Pow(10, -kappa)
    ensures wError * 10 == Pow(10, -(kappa - 1)) && 10 * (f * wError) == f * (wError * 10)
  {
    MulAssoc(f, wError, 10);
  }

  /** The digits after the point, as long as the error leaves them any meaning. */
  method CountedFractions(buffer: array<char>, lengthIn: nat, remainingIn: nat, fractionalsIn: nat, one: nat,
                          ghost w: DiyFp)
    returns (length: nat, remaining: nat, fractionals: nat, wError: nat, kappa: int)
    requires w.e <= 0 && one == Pow(2, -w.e)
    requires lengthIn + remainingIn <= buffer.Length && one <= 0x1000_0000_0000_0000
    requires CutDigits(buffer[..lengthIn], fractionalsIn, one, w.f)
    modifies buffer
    ensures kappa <= 0 && length == lengthIn - kappa && length + remaining == lengthIn + remainingIn
    ensures 0 < wError < MAX64 && wError == Pow(10, -kappa)
    ensures CutDigits(buffer[..length], fractionals, one, w.f * wError)
    ensures remainingIn > 0 ==> (remaining == 0 <==> RestMatters(1 - remainingIn, w.e, w.f))
  {
    hide Pow, CutDigits, RestMatters;
    length, remaining, fractionals, wError, kappa := lengthIn, remainingIn, fractionalsIn, 1, 0;
    PowUnit(10);
    while remaining > 0 && fractionals > wError
      invariant kappa <= 0 && length == lengthIn - kappa && length + remaining == lengthIn + remainingIn
      invariant 0 < wError < MAX64 && wError == Pow(10, -kappa)
      invariant CutDigits(buffer[..length], fractionals, one, w.f * wError)
      invariant kappa < 0 ==> RestMatters(kappa + 1, w.e, w.f)
      decreases remaining
    {
      fractionals, wError := CountedFractionDigit(buffer, length, fractionals, one, wError, kappa, w);
      length := length + 1;
      remaining := remaining - 1;
      kappa := kappa - 1;
      PowPositive(10, -kappa);
    }
    if remaining > 0 {
      FractionScale(kappa, w.e);
      NoMoreMatters(buffer[..length], kappa, w.e, w.f, wError, one, fractionals, kappa - remaining + 1);
    }
  }

  /** The requested digits end before the point. */
  method CountedDone(buffer: array<char>, length: nat, integrals: nat, fractionals: nat, divisor: nat, one: nat,
                     exponent: nat, ghost w: DiyFp)
    returns (ok: bool, kappa: int)
    requires 0 < length <= buffer.Length && -60 <= w.e <= -32 && one == Pow(2, -w.e) && divisor == Pow(10, exponent)
    requires divisor * one < MAX64
    requires CutDigits(buffer[..length], integrals * one + fractionals, divisor * one, w.f)
    modifies buffer
    ensures AllDigits(buffer[..length])
    ensures ok <==> RoundsClearly(exponent, w.e, w.f)
    ensures ok && InUnits(1, exponent + length - 1, w.e) <= w.f as real ==> buffer[0] != '0'
    ensures ok ==> WithinHalf(Dec(buffer[..length]), kappa, w.e, w.f)
  {
    hide Pow, WithinHalf, ScaleOf, Dec, AllDigits, CutDigits, RoundsClearly, InUnits;
    IntegralScale(exponent, w.e);
    CutLeads(buffer[..length], exponent, w.e, w.f, 1, divisor * one, integrals * one + fractionals);
    ok, kappa := RoundWeedCounted(buffer, length, integrals * one + fractionals, divisor * one, 1, exponent, w);
    if ok && InUnits(1, exponent + length - 1, w.e) <= w.f as real { FirstDigit(buffer[..length]); }
  }

  /**
   Generates the requested number of digits of w. When it returns true, every true value within one
   unit of w is less than half a unit of the last digit away.
   */
  method DigitGenCounted(w: DiyFp, requestedDigits: nat, buffer: array<char>)
    returns (ok: bool, length: nat, kappa: int)
    requires -60 <= w.e <= -32 && w.f < MAX64 && 0 < requestedDigits <= buffer.Length
    modifies buffer
    ensures ok <==> CountedDecided(DigitsBeforePoint(w.f, w.e) - requestedDigits, w.e, w.f)
    ensures ok && Pow(2, -w.e) <= w.f ==> buffer[0] != '0'
    ensures ok ==>
      length == requestedDigits && AllDigits(buffer[..length]) && WithinHalf(Dec(buffer[..length]), kappa, w.e, w.f)
  {
    hide Pow, WithinHalf, ScaleOf, Dec, AllDigits, CutDigits, RoundsClearly, RestMatters, InUnits, DigitCount;
    var one := Pow(2, -w.e);
    SplitUpper(w.f, w.e);
    var integrals, fractionals := w.f / one, w.f % one;
    var divisor, divisorExponentPlusOne := BiggestPowerTen(integrals, 64 + w.e);
    StartsCut(w.f, integrals, fractionals, one, divisorExponentPlusOne);
    ghost var whole := integrals;
    DigitCountIs(integrals, divisorExponentPlusOne);
    LeadsBefore(w.f, w.e, integrals, fractionals, one, divisorExponentPlusOne);
    var remaining, exponent;
    length, remaining, integrals, divisor, exponent :=
      CountedIntegrals(buffer, requestedDigits, divisorExponentPlusOne, integrals, fractionals, divisor, one, w);
    kappa := exponent;
    if remaining == 0 {
      WeightFits(whole, one, w.f, divisorExponentPlusOne, exponent);
      ok, kappa := CountedDone(buffer, length, integrals, fractionals, divisor, one, exponent, w);
      return;
    }
    PowUnit(10);
    NoIntegrals(0, kappa, one);
    var wError;
    length, remaining, fractionals, wError, kappa := CountedFractions(buffer, length, remaining, fractionals, one, w);
    if remaining != 0 { return false, length, kappa; }
    FractionScale(kappa, w.e);
    CutLeads(buffer[..length], kappa, w.e, w.f, wError, one, fractionals);
    ok, kappa := RoundWeedCounted(buffer, length, fractionals, one, wError, kappa, w);
    if ok && one <= w.f { FirstDigit(buffer[..length]); }
  }

  lemma PlaceIs(place: nat, e: int, p: int)
    requires e <= 0 && p == Pow(10, place) * Pow(2, -e)
    ensures InUnits(1, place, e) == p as real
  {
    hide Pow, RPow;
    RPowNat(10, place);
    RPowNat(2, -e);
    CastMul(Pow(10, place), Pow(2, -e));
  }

  lemma StartsCut(total: nat, integrals: nat, fractionals: nat, one: nat, start: nat)
    requires total == integrals * one + fractionals && fractionals < one && integrals < Pow(10, start)
    ensures CutDigits([], integrals * one + fractionals, Pow(10, start) * one, total)
  {
    PendingStart(total, 0, integrals, fractionals, one, start);
  }
}
