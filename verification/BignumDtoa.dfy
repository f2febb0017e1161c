/**
 Exact shortest decimal printing on bignums.
 */
module BignumDtoa {
  import opened Powers
  import opened Bigits
  import opened Decimal
  import opened BignumModule
  import opened ShortestDigits

  /** The room tests of one round: may the digits so far, or their successor, be the result? */
  method RoomTests(numerator: Bignum, denominator: Bignum, deltaMinus: Bignum, deltaPlus: Bignum, isEven: bool)
    returns (below: bool, above: bool)
    requires numerator.Valid() && denominator.Valid() && deltaMinus.Valid() && deltaPlus.Valid()
    ensures below == RoomBelow(numerator.Value(), deltaMinus.Value(), isEven)
    ensures above == RoomAbove(numerator.Value(), deltaPlus.Value(), denominator.Value(), isEven)
  {
    var order := Bignum.Compare(numerator, deltaMinus);
    below := if isEven then order <= 0 else order < 0;
    order := Bignum.PlusCompare(numerator, deltaPlus, denominator);
    above := if isEven then order >= 0 else order > 0;
  }

  /** A dividend below ten times the divisor meets what the division asserts about the divisor's top bigit. */
  lemma SmallQuotient(numerator: Bignum, denominator: Bignum)
    requires numerator.Valid() && denominator.Valid() && denominator.Value() > 0
    requires numerator.Value() < 10 * denominator.Value()
    requires denominator.BigitLength() <= CAPACITY - 2
    ensures denominator.used > 0
    ensures numerator.Value() / denominator.Value() <= 9
    ensures numerator.BigitLength() <= CAPACITY - 1
    ensures numerator.BigitLength() > denominator.BigitLength() ==>
      denominator.bigits[denominator.used - 1] >= 0x1000_0000 / 16
  {
    hide P;
    ghost var v, o, n := numerator.Value(), denominator.Value(), denominator.BigitLength();
    denominator.SignificandBounds();
    denominator.ValueBounds();
    denominator.TopBounds();
    DivModFacts(v, o);
    if v / o > 9 { MulMonotone(10, v / o, o); }
    PFacts(n);
    PFacts(n - 1);
    numerator.LengthFromValue(n + 1);
    if numerator.BigitLength() > n {
      numerator.ValueBounds();
      PMonotone(n, numerator.BigitLength() - 1);
      ghost var t, p := denominator.bigits[denominator.used - 1], P(n - 1);
      if t < 0x1000_0000 / 16 { MulMonotone(t + 1, 0x100_0000, p); }
    }
  }

  /** Everything the next round scales stays within the buffer. */
  lemma RoomToScale(denominator: Bignum, x: nat)
    requires denominator.Valid() && denominator.BigitLength() <= CAPACITY - 2 && x <= denominator.Value()
    ensures x * 10 < P(CAPACITY)
  {
    hide P;
    denominator.ValueBounds();
    PMonotone(denominator.BigitLength(), CAPACITY - 2);
    PFacts(CAPACITY - 2);
    PFacts(CAPACITY - 1);
  }

  /** Scales the remainder and the deltas for the next digit; an aliased delta is scaled once. */
  method PrepareNextDigit(numerator: Bignum, deltaMinus: Bignum, deltaPlus: Bignum)
    requires numerator.Valid() && deltaMinus.Valid() && deltaPlus.Valid()
    requires numerator.Apart(deltaMinus) && numerator.Apart(deltaPlus)
    requires deltaMinus == deltaPlus || deltaMinus.Apart(deltaPlus)
    requires numerator.Value() * 10 < P(CAPACITY) && deltaMinus.Value() * 10 < P(CAPACITY)
      && deltaPlus.Value() * 10 < P(CAPACITY)
    modifies numerator, numerator.bigits, deltaMinus, deltaMinus.bigits, deltaPlus, deltaPlus.bigits
    ensures numerator.Valid() && deltaMinus.Valid() && deltaPlus.Valid()
    ensures numerator.Value() == 10 * old(numerator.Value())
    ensures deltaMinus.Value() == 10 * old(deltaMinus.Value())
    ensures deltaPlus.Value() == 10 * old(deltaPlus.Value())
  {
    hide P, Val;
    numerator.Times10();
    deltaMinus.Times10();
    if deltaMinus != deltaPlus {
      deltaPlus.Times10();
    }
  }

  /** What the digits generated so far mean, before the next division. */
  ghost predicate Generated(digits: seq<char>, rest: int, minusK: int, plusK: int, n: int, d: int, minus: int,
                            plus: int, even: bool)
  {
    var k := |digits|;
    && AllDigits(digits)
    && n * Pow(10, k) == 10 * Dec(digits) * d + rest && 0 <= rest
    && minusK == minus * Pow(10, k) && plusK == plus * Pow(10, k)
    && (if even then rest + plusK < 10 * d else rest + plusK <= 10 * d)
    && (forall j: nat :: j < k ==> NoneInside(j, n, d, minus, plus, even))
  }

  lemma GeneratedStart(n: int, d: int, minus: int, plus: int, even: bool)
    requires n >= 0 && (if even then n + plus < 10 * d else n + plus <= 10 * d)
    ensures Generated([], n, minus, plus, n, d, minus, plus, even)
  {
    assert Pow(10, 0) == 1;
  }

  /** One more digit is the value cut one place later. */
  lemma DigitCuts(digits: seq<char>, rest: int, minusK: int, plusK: int, n: int, d: int, minus: int, plus: int,
                  even: bool, digit: nat, r: int)
    requires Generated(digits, rest, minusK, plusK, n, d, minus, plus, even)
    requires rest == digit * d + r && 0 <= r < d && digit <= 9
    ensures Cut(Dec(digits + [DigitChar(digit)]), r, |digits|, n, d)
  {
    hide Pow, NoneInside;
    DecSnoc(digits, DigitChar(digit));
    assert (10 * Dec(digits) + digit) * d == 10 * Dec(digits) * d + digit * d by {
      MulDistrib(d, 10 * Dec(digits), digit);
    }
  }

  /** Going on: no decimal of this length works, and the bookkeeping moves one place. */
  lemma GeneratedStep(digits: seq<char>, rest: int, minusK: int, plusK: int, n: int, d: int, minus: int, plus: int,
                      even: bool, digit: nat, r: int)
    requires d > 0 && minus > 0 && plus > 0
    requires Generated(digits, rest, minusK, plusK, n, d, minus, plus, even)
    requires rest == digit * d + r && 0 <= r < d && digit <= 9
    requires !RoomBelow(r, minusK, even) && !RoomAbove(r, plusK, d, even)
    ensures Generated(digits + [DigitChar(digit)], 10 * r, 10 * minusK, 10 * plusK, n, d, minus, plus, even)
  {
    hide Dec, NoneInside;
    ghost var x, k, s := Dec(digits + [DigitChar(digit)]), |digits|, Pow(10, |digits|);
    DigitCuts(digits, rest, minusK, plusK, n, d, minus, plus, even, digit, r);
    NoRoomMeansNone(x, r, k, n, d, minus, plus, even);
    assert Pow(10, k + 1) == 10 * s;
    MulAssoc(10, x, d);
    MulAssoc(n, 10, s);
    MulAssoc(10, n, s);
    MulAssoc(minus, 10, s);
    MulAssoc(10, minus, s);
    MulAssoc(plus, 10, s);
    MulAssoc(10, plus, s);
  }

  /** As long as the generator goes on, both deltas together fit into the denominator, so the buffer has room. */
  lemma BufferHasRoom(minus: int, plus: int, d: int, k: nat, room: nat)
    requires minus > 0 && plus > 0 && room > 0
    requires d < (minus + plus) * Pow(10, room - 1) && minus * Pow(10, k) + plus * Pow(10, k) <= d
    ensures k + 1 < room
  {
    MulDistrib(Pow(10, k), minus, plus);
    if k >= room - 1 {
      PowMonotone(10, room - 1, k);
      MulMonotone(Pow(10, room - 1), Pow(10, k), minus + plus);
    }
  }

  /** The digit string the generator stops with. */
  ghost predicate Finished(digits: seq<char>, n: int, d: int, minus: int, plus: int, even: bool)
  {
    |digits| > 0 && AllDigits(digits) && IsShortest(Dec(digits), |digits| - 1, n, d, minus, plus, even)
  }

  lemma RoundedMoves(prefix: int, digit: int, r: int, d: int, below: bool, above: bool)
    ensures Rounded(10 * prefix + digit, r, d, below, above) == 10 * prefix + Rounded(digit, r, d, below, above)
  {
  }

  /** Stopping: the rounded digits are the shortest decimal between the boundaries. */
  lemma StopsRight(digits: seq<char>, rest: int, minusK: int, plusK: int, n: int, d: int, minus: int, plus: int,
                   even: bool, digit: nat, r: int, last: nat)
    requires d > 0 && minus > 0 && plus > 0
    requires Generated(digits, rest, minusK, plusK, n, d, minus, plus, even)
    requires rest == digit * d + r && 0 <= r < d && digit <= 9 && last <= 9
    requires RoomBelow(r, minusK, even) || RoomAbove(r, plusK, d, even)
    requires last == Rounded(digit, r, d, RoomBelow(r, minusK, even), RoomAbove(r, plusK, d, even))
    ensures Finished(digits + [DigitChar(last)], n, d, minus, plus, even)
  {
    hide NoneInside, Inside, Nearest, Cut, Dec, Rounded, RoomBelow, RoomAbove;
    ghost var k, below, above := |digits|, RoomBelow(r, minusK, even), RoomAbove(r, plusK, d, even);
    ghost var x, z := Dec(digits + [DigitChar(digit)]), Dec(digits + [DigitChar(last)]);
    DigitCuts(digits, rest, minusK, plusK, n, d, minus, plus, even, digit, r);
    assert x == 10 * Dec(digits) + digit && z == 10 * Dec(digits) + last by {
      DecSnoc(digits, DigitChar(digit));
      DecSnoc(digits, DigitChar(last));
    }
    RoundedMoves(Dec(digits), digit, r, d, below, above);
    RoundedIsInside(x, r, k, n, d, minus, plus, even, below, above);
    RoundedIsNearest(x, r, k, n, d, minus, plus, even, below, above);
  }

  /** A 9 is never rounded up: the generator would have stopped one digit earlier. */
  lemma NeverAboveNine(rest: int, plusK: int, d: int, even: bool, digit: nat, r: int, minusK: int)
    requires d > 0 && rest == digit * d + r && 0 <= r < d && digit <= 9
    requires if even then rest + plusK < 10 * d else rest + plusK <= 10 * d
    requires RoomBelow(r, minusK, even) || RoomAbove(r, plusK, d, even)
    ensures Rounded(digit, r, d, RoomBelow(r, minusK, even), RoomAbove(r, plusK, d, even)) <= 9
  {
    if digit == 9 { NineStays(rest, r, d, plusK, even); }
  }

  lemma GeneratedFacts(digits: seq<char>, rest: int, minusK: int, plusK: int, n: int, d: int, minus: int, plus: int,
                       even: bool)
    requires Generated(digits, rest, minusK, plusK, n, d, minus, plus, even) && plus > 0 && minus > 0
    ensures minusK == minus * Pow(10, |digits|) && plusK == plus * Pow(10, |digits|) && plusK > 0 && minusK > 0
    ensures if even then rest + plusK < 10 * d else rest + plusK <= 10 * d
    ensures 0 <= rest < 10 * d
  {
    PowPositive(10, |digits|);
    MulPositive(plus, Pow(10, |digits|));
    MulPositive(minus, Pow(10, |digits|));
  }

  /** While neither test succeeds, the interval is no longer than the last place. */
  lemma NotYet(r: int, minusK: int, plusK: int, d: int, even: bool)
    requires !RoomBelow(r, minusK, even) && !RoomAbove(r, plusK, d, even) && 0 <= r < d
    ensures minusK + plusK <= d
  {
  }

  /** Adds one to the last digit, which is not a 9. */
  method BumpLast(buffer: array<char>, length: nat)
    requires 0 < length <= buffer.Length && '0' <= buffer[length - 1] < '9'
    modifies buffer
    ensures buffer[..length] == old(buffer[..length - 1]) + [DigitChar(Digit(old(buffer[length - 1])) + 1)]
  {
    buffer[length - 1] := (buffer[length - 1] as int + 1) as char;
    assert buffer[..length] == buffer[..length - 1] + [buffer[length - 1]];
    assert buffer[..length - 1] == old(buffer[..length - 1]);
  }

  /** The last digit once the generator may stop: kept, or one more. */
  method RoundLast(numerator: Bignum, denominator: Bignum, below: bool, above: bool, buffer: array<char>, length: nat,
                   ghost digit: nat)
    requires numerator.Valid() && denominator.Valid() && (below || above)
    requires 0 < length <= buffer.Length && digit <= 9 && buffer[length - 1] == DigitChar(digit)
    requires Rounded(digit, numerator.Value(), denominator.Value(), below, above) <= 9
    modifies buffer
    ensures digit <= Rounded(digit, numerator.Value(), denominator.Value(), below, above)
    ensures buffer[..length]
      == old(buffer[..length - 1]) + [DigitChar(Rounded(digit, numerator.Value(), denominator.Value(), below, above))]
  {
    hide P, Val;
    assert buffer[..length] == buffer[..length - 1] + [buffer[length - 1]];
    if below && above {
      // Is the rest of the digits below or above one half?
      var compare := Bignum.PlusCompare(numerator, numerator, denominator);
      if compare < 0 {
        // Round down: nothing to do.
      } else if compare > 0 {
        BumpLast(buffer, length);
      } else if Digit(buffer[length - 1]) % 2 == 0 {
        // Halfway case, already even.
      } else {
        BumpLast(buffer, length);
      }
    } else if below {
      // Round down: nothing to do.
    } else {
      BumpLast(buffer, length);
    }
  }

  /** One round: a digit, and the decision whether to stop with it. */
  method GenerateDigit(numerator: Bignum, denominator: Bignum, deltaMinus: Bignum, deltaPlus: Bignum, isEven: bool,
                       buffer: array<char>, length: nat, ghost room: nat, ghost n: int, ghost d: int,
                       ghost minus: int, ghost plus: int)
    returns (done: bool)
    requires numerator.Valid() && denominator.Valid() && deltaMinus.Valid() && deltaPlus.Valid()
    requires numerator.Apart(denominator) && numerator.Apart(deltaMinus) && numerator.Apart(deltaPlus)
    requires denominator.Apart(deltaMinus) && denominator.Apart(deltaPlus)
    requires deltaMinus == deltaPlus || deltaMinus.Apart(deltaPlus)
    requires d == denominator.Value() > 0 && minus > 0 && plus > 0 && denominator.BigitLength() <= CAPACITY - 2
    requires length < room <= buffer.Length && d < (minus + plus) * Pow(10, room - 1)
    requires Generated(buffer[..length], numerator.Value(), deltaMinus.Value(), deltaPlus.Value(), n, d, minus, plus,
                       isEven)
    modifies numerator, numerator.bigits, deltaMinus, deltaMinus.bigits, deltaPlus, deltaPlus.bigits, buffer
    ensures numerator.Valid() && deltaMinus.Valid() && deltaPlus.Valid()
    ensures done ==> Finished(buffer[..length + 1], n, d, minus, plus, isEven)
    ensures !done ==>
              && length + 1 < room
              && deltaMinus.Value() == 10 * old(deltaMinus.Value()) && old(deltaMinus.Value()) < d
              && Generated(buffer[..length + 1], numerator.Value(), deltaMinus.Value(), deltaPlus.Value(), n, d, minus,
                           plus, isEven)
  {
    hide P, Val, Pow, Dec, Generated, Finished, RoomBelow, RoomAbove, Rounded, Bignum.Valid, Bignum.Value;
    ghost var digits, rest, minusK, plusK := buffer[..length], numerator.Value(), deltaMinus.Value(), deltaPlus.Value();
    GeneratedFacts(digits, rest, minusK, plusK, n, d, minus, plus, isEven);
    SmallQuotient(numerator, denominator);
    var digit := numerator.DivideModuloIntBignum(denominator);
    ghost var r := numerator.Value();
    DivModFacts(rest, d);
    buffer[length] := DigitChar(digit);
    assert buffer[..length + 1] == digits + [DigitChar(digit)];
    var below, above := RoomTests(numerator, denominator, deltaMinus, deltaPlus, isEven);
    done := below || above;
    if !done {
      GeneratedStep(digits, rest, minusK, plusK, n, d, minus, plus, isEven, digit, r);
      NotYet(r, minusK, plusK, d, isEven);
      BufferHasRoom(minus, plus, d, length, room);
      RoomToScale(denominator, r);
      RoomToScale(denominator, minusK);
      RoomToScale(denominator, plusK);
      PrepareNextDigit(numerator, deltaMinus, deltaPlus);
    } else {
      NeverAboveNine(rest, plusK, d, isEven, digit, r, minusK);
      ghost var last := Rounded(digit, r, d, below, above);
      RoundLast(numerator, denominator, below, above, buffer, length + 1, digit);
      StopsRight(digits, rest, minusK, plusK, n, d, minus, plus, isEven, digit, r, last);
    }
  }

  /**
   Generates digits from the left until they, or they with the last digit one higher, lie between
   the boundaries. There are at most as many as it takes for the last place to be shorter than the interval.
   */
  method GenerateShortestDigits(numerator: Bignum, denominator: Bignum, deltaMinus: Bignum, deltaPlus: Bignum,
                                isEven: bool, buffer: array<char>, ghost room: nat) returns (length: nat)
    requires numerator.Valid() && denominator.Valid() && deltaMinus.Valid() && deltaPlus.Valid()
    requires numerator.Apart(denominator) && numerator.Apart(deltaMinus) && numerator.Apart(deltaPlus)
    requires denominator.Apart(deltaMinus) && denominator.Apart(deltaPlus) && deltaMinus.Apart(deltaPlus)
    requires denominator.Value() > 0 && deltaMinus.Value() > 0 && deltaPlus.Value() > 0
    requires if isEven then numerator.Value() + deltaPlus.Value() < 10 * denominator.Value()
             else numerator.Value() + deltaPlus.Value() <= 10 * denominator.Value()
    requires denominator.BigitLength() <= CAPACITY - 2
    requires 0 < room <= buffer.Length
      && denominator.Value() < (deltaMinus.Value() + deltaPlus.Value()) * Pow(10, room - 1)
    modifies numerator, numerator.bigits, deltaMinus, deltaMinus.bigits, deltaPlus, deltaPlus.bigits, buffer
    ensures 0 < length <= room
    ensures Finished(buffer[..length], old(numerator.Value()), old(denominator.Value()),
                     old(deltaMinus.Value()), old(deltaPlus.Value()), isEven)
  {
    hide P, Val, Pow, Generated, Finished;
    ghost var n, d, minus, plus := numerator.Value(), denominator.Value(), deltaMinus.Value(), deltaPlus.Value();
    var plusRef := deltaPlus;
    // Equal deltas share one object.
    var order := Bignum.Compare(deltaMinus, deltaPlus);
    if order == 0 { plusRef := deltaMinus; }
    length := 0;
    GeneratedStart(n, d, minus, plus, isEven);
    assert buffer[..0] == [];
    while true
      invariant numerator.Valid() && deltaMinus.Valid() && plusRef.Valid() && deltaMinus.Value() > 0
      invariant length < room
      invariant Generated(buffer[..length], numerator.Value(), deltaMinus.Value(), plusRef.Value(), n, d, minus, plus,
                          isEven)
      decreases 10 * d - deltaMinus.Value()
    {
      var done :=
        GenerateDigit(numerator, denominator, deltaMinus, plusRef, isEven, buffer, length, room, n, d, minus, plus);
      length := length + 1;
      if done { return; }
    }
  }

  // ----- the start values -----

  /** The form every start value has. */
  ghost function Scaled(f: nat, twos: nat, tens: nat): nat
  {
    f * (Pow(2, twos) * Pow(10, tens))
  }

  lemma ScaledFacts(f: nat)
    ensures Scaled(f, 0, 0) == f
  {
    assert Pow(2, 0) == 1 && Pow(10, 0) == 1;
  }

  lemma ScaledShift(f: nat, twos: nat, tens: nat, more: nat)
    ensures Scaled(f, twos, tens) * Pow(2, more) == Scaled(f, twos + more, tens)
  {
    PowAdd(2, twos, more);
    var a, b, c := Pow(2, twos), Pow(10, tens), Pow(2, more);
    MulAssoc(f, a * b, c);
    MulAssoc(a, b, c);
    MulAssoc(b, c, 1);
    MulAssoc(a, c, b);
  }

  lemma ScaledFactor(f: nat, twos: nat, tens: nat)
    ensures Scaled(1, twos, tens) * f == Scaled(f, twos, tens)
    ensures Scaled(1, 0, tens) == Pow(10, tens)
    ensures f > 0 ==> Scaled(f, twos, tens) > 0
  {
    assert Pow(2, 0) == 1;
    PowPositive(2, twos);
    PowPositive(10, tens);
    MulPositive(Pow(2, twos), Pow(10, tens));
    MulAssoc(f, Pow(2, twos) * Pow(10, tens), 1);
    if f > 0 { MulPositive(f, Pow(2, twos) * Pow(10, tens)); }
  }

  /** Start values of doubles take at most 99 bigits. */
  lemma ScaledBound(f: nat, twos: nat, tens: nat)
    requires f < 0x1_0000_0000_0000_0000 && twos <= 1103 && tens <= 400
    ensures Scaled(f, twos, tens) < P(99) <= P(CAPACITY - 2) <= P(CAPACITY)
  {
    hide Pow;
    PowersOfTwo();
    ghost var a, b := Pow(2, twos), Pow(10, tens);
    assert b <= Pow(2, 4 * tens) by { PowBaseMonotone(10, 16, tens); PowPow(2, 4, tens); }
    assert a * b <= Pow(2, twos + 4 * tens) by { MulMonotone2(a, a, b, Pow(2, 4 * tens)); PowAdd(2, twos, 4 * tens); }
    assert f * (a * b) <= Pow(2, 64 + (twos + 4 * tens)) by {
      PowAdd(2, 64, twos + 4 * tens);
      MulMonotone2(f, Pow(2, 64), a * b, Pow(2, twos + 4 * tens));
    }
    assert Pow(2, 64 + (twos + 4 * tens)) < P(99) by {
      PowStrict(2, 64 + (twos + 4 * tens), 28 * 99);
      PowPow(2, 28, 99);
    }
    PMonotone(99, CAPACITY - 2);
    PMonotone(CAPACITY - 2, CAPACITY);
  }

  method ShiftScaled(b: Bignum, shift: nat, ghost f: nat, ghost twos: nat, ghost tens: nat)
    requires b.Valid() && b.Value() == Scaled(f, twos, tens)
    requires f < 0x1_0000_0000_0000_0000 && twos + shift <= 1103 && tens <= 400
    modifies b, b.bigits
    ensures b.Valid() && b.Value() == Scaled(f, twos + shift, tens)
  {
    hide P, Val, Pow, Scaled;
    ScaledBound(f, twos, tens);
    b.LengthFromValue(99);
    b.ShiftLeft(shift);
    ScaledShift(f, twos, tens, shift);
  }

  method AssignTens(b: Bignum, tens: nat)
    requires b.Valid() && tens <= 400
    modifies b, b.bigits
    ensures b.Valid() && b.Value() == Scaled(1, 0, tens)
  {
    assert OddPart(10) == OddPart(5) == 5;
    assert BitSize(5) == 1 + BitSize(2) && BitSize(2) == 1 + BitSize(1) && BitSize(1) == 1;
    b.AssignPowerUInt16(10, tens);
    ScaledFactor(1, 0, tens);
  }

  method AssignScaledOne(b: Bignum, shift: nat)
    requires b.Valid() && shift <= 1100
    modifies b, b.bigits
    ensures b.Valid() && b.Value() == Scaled(1, shift, 0)
  {
    hide P, Val, Pow, Scaled;
    ScaledFacts(1);
    b.AssignUInt16(1);
    ShiftScaled(b, shift, 1, 0, 0);
  }

  /** The four numbers are separate objects in order. */
  ghost predicate Usable(numerator: Bignum, denominator: Bignum, deltaMinus: Bignum, deltaPlus: Bignum)
    reads numerator, numerator.bigits, denominator, denominator.bigits, deltaMinus, deltaMinus.bigits, deltaPlus,
      deltaPlus.bigits
  {
    && numerator.Valid() && denominator.Valid() && deltaMinus.Valid() && deltaPlus.Valid()
    && numerator.Apart(denominator) && numerator.Apart(deltaMinus) && numerator.Apart(deltaPlus)
    && denominator.Apart(deltaMinus) && denominator.Apart(deltaPlus) && deltaMinus.Apart(deltaPlus)
  }

  /** The ranges that doubles and their decimal powers stay in. */
  predicate DoubleRange(significand: nat, exponent: int, estimatedPower: int)
  {
    && 0 < significand < 0x1_0000_0000_0000_0000
    && -1100 <= exponent <= 1100 && -400 <= estimatedPower <= 400
    && (exponent >= 0 ==> estimatedPower >= 0)
  }

  method InitialScaledStartValuesPositiveExponent(
    significand: nat, exponent: int, estimatedPower: int, needBoundaryDeltas: bool,
    numerator: Bignum, denominator: Bignum, deltaMinus: Bignum, deltaPlus: Bignum)
    requires Usable(numerator, denominator, deltaMinus, deltaPlus)
    requires DoubleRange(significand, exponent, estimatedPower) && exponent >= 0
    modifies numerator, numerator.bigits, denominator, denominator.bigits,
             deltaMinus, deltaMinus.bigits, deltaPlus, deltaPlus.bigits
    ensures Usable(numerator, denominator, deltaMinus, deltaPlus)
    ensures var bits := if needBoundaryDeltas then 1 else 0;
            && numerator.Value() == Scaled(significand, exponent + bits, 0)
            && denominator.Value() == Scaled(1, bits, estimatedPower)
            && (needBoundaryDeltas ==> deltaPlus.Value() == deltaMinus.Value() == Scaled(1, exponent, 0))
    ensures !needBoundaryDeltas ==>
      deltaMinus.Value() == old(deltaMinus.Value()) && deltaPlus.Value() == old(deltaPlus.Value())
  {
    hide P, Val, Pow, Scaled, Bignum.Valid, Bignum.Value;
    ScaledFacts(significand);
    numerator.AssignUInt64(significand);
    ShiftScaled(numerator, exponent, significand, 0, 0);
    AssignTens(denominator, estimatedPower);
    if needBoundaryDeltas {
      // A common denominator of 2 makes the deltas integers.
      ShiftScaled(denominator, 1, 1, 0, estimatedPower);
      ShiftScaled(numerator, 1, significand, exponent, 0);
      AssignScaledOne(deltaPlus, exponent);
      AssignScaledOne(deltaMinus, exponent);
    }
  }

  method InitialScaledStartValuesNegativeExponentPositivePower(
    significand: nat, exponent: int, estimatedPower: int, needBoundaryDeltas: bool,
    numerator: Bignum, denominator: Bignum, deltaMinus: Bignum, deltaPlus: Bignum)
    requires Usable(numerator, denominator, deltaMinus, deltaPlus)
    requires DoubleRange(significand, exponent, estimatedPower) && exponent < 0 <= estimatedPower
    modifies numerator, numerator.bigits, denominator, denominator.bigits,
             deltaMinus, deltaMinus.bigits, deltaPlus, deltaPlus.bigits
    ensures Usable(numerator, denominator, deltaMinus, deltaPlus)
    ensures var bits := if needBoundaryDeltas then 1 else 0;
            && numerator.Value() == Scaled(significand, bits, 0)
            && denominator.Value() == Scaled(1, -exponent + bits, estimatedPower)
            && (needBoundaryDeltas ==> deltaPlus.Value() == deltaMinus.Value() == Scaled(1, 0, 0))
    ensures !needBoundaryDeltas ==>
      deltaMinus.Value() == old(deltaMinus.Value()) && deltaPlus.Value() == old(deltaPlus.Value())
  {
    hide P, Val, Pow, Scaled, Bignum.Valid, Bignum.Value;
    ScaledFacts(significand);
    numerator.AssignUInt64(significand);
    AssignTens(denominator, estimatedPower);
    ShiftScaled(denominator, -exponent, 1, 0, estimatedPower);
    if needBoundaryDeltas {
      ShiftScaled(denominator, 1, 1, -exponent, estimatedPower);
      ShiftScaled(numerator, 1, significand, 0, 0);
      AssignScaledOne(deltaPlus, 0);
      AssignScaledOne(deltaMinus, 0);
    }
  }

  method MultiplyTens(b: Bignum, factor: nat, ghost tens: nat)
    requires b.Valid() && b.Value() == Scaled(1, 0, tens) && 0 < factor < 0x1_0000_0000_0000_0000 && tens <= 400
    modifies b, b.bigits
    ensures b.Valid() && b.Value() == Scaled(factor, 0, tens)
  {
    hide P, Val, Pow, Scaled;
    ScaledBound(factor, 0, tens);
    ScaledFactor(factor, 0, tens);
    assert b.Significand() * factor <= b.Value() * factor by {
      PFacts(b.exponent);
      MulMonotone(1, P(b.exponent), b.Significand());
      MulMonotone(b.Significand(), b.Value(), factor);
    }
    b.MultiplyByUInt64(factor);
  }

  method InitialScaledStartValuesNegativeExponentNegativePower(
    significand: nat, exponent: int, estimatedPower: int, needBoundaryDeltas: bool,
    numerator: Bignum, denominator: Bignum, deltaMinus: Bignum, deltaPlus: Bignum)
    requires Usable(numerator, denominator, deltaMinus, deltaPlus)
    requires DoubleRange(significand, exponent, estimatedPower) && exponent < 0 && estimatedPower < 0
    modifies numerator, numerator.bigits, denominator, denominator.bigits,
             deltaMinus, deltaMinus.bigits, deltaPlus, deltaPlus.bigits
    ensures Usable(numerator, denominator, deltaMinus, deltaPlus)
    ensures var bits := if needBoundaryDeltas then 1 else 0;
            && numerator.Value() == Scaled(significand, bits, -estimatedPower)
            && denominator.Value() == Scaled(1, -exponent + bits, 0)
            && (needBoundaryDeltas ==> deltaPlus.Value() == deltaMinus.Value() == Scaled(1, 0, -estimatedPower))
    ensures !needBoundaryDeltas ==>
      deltaMinus.Value() == old(deltaMinus.Value()) && deltaPlus.Value() == old(deltaPlus.Value())
  {
    hide P, Val, Pow, Scaled, Bignum.Valid, Bignum.Value;
    // The numerator doubles as the power of ten.
    var powerTen := numerator;
    AssignTens(powerTen, -estimatedPower);
    if needBoundaryDeltas {
      deltaPlus.AssignBignum(powerTen);
      deltaMinus.AssignBignum(powerTen);
    }
    MultiplyTens(numerator, significand, -estimatedPower);
    AssignScaledOne(denominator, -exponent);
    if needBoundaryDeltas {
      ShiftScaled(numerator, 1, significand, 0, -estimatedPower);
      ShiftScaled(denominator, 1, 1, -exponent, 0);
    }
  }

  /** How many extra bits the common denominator carries. */
  function DeltaBits(needBoundaryDeltas: bool, lowerBoundaryIsCloser: bool): nat
  {
    if !needBoundaryDeltas then 0 else if lowerBoundaryIsCloser then 2 else 1
  }

  /** numerator / denominator is the value over 10^estimatedPower, the deltas are the distances to its boundaries. */
  method InitialScaledStartValues(
    significand: nat, exponent: int, lowerBoundaryIsCloser: bool, estimatedPower: int, needBoundaryDeltas: bool,
    numerator: Bignum, denominator: Bignum, deltaMinus: Bignum, deltaPlus: Bignum)
    requires Usable(numerator, denominator, deltaMinus, deltaPlus)
    requires DoubleRange(significand, exponent, estimatedPower)
    modifies numerator, numerator.bigits, denominator, denominator.bigits,
             deltaMinus, deltaMinus.bigits, deltaPlus, deltaPlus.bigits
    ensures Usable(numerator, denominator, deltaMinus, deltaPlus)
    ensures var bits := DeltaBits(needBoundaryDeltas, lowerBoundaryIsCloser);
            && numerator.Value() == Scaled(significand, Up(exponent) + bits, Up(-estimatedPower))
            && denominator.Value() == Scaled(1, Up(-exponent) + bits, Up(estimatedPower))
            && (needBoundaryDeltas ==> deltaPlus.Value() == Scaled(1, Up(exponent) + bits - 1, Up(-estimatedPower)))
            && (needBoundaryDeltas ==> deltaMinus.Value() == Scaled(1, Up(exponent), Up(-estimatedPower)))
    ensures !needBoundaryDeltas ==>
      deltaMinus.Value() == old(deltaMinus.Value()) && deltaPlus.Value() == old(deltaPlus.Value())
  {
    hide P, Val, Pow, Scaled, Bignum.Valid, Bignum.Value;
    if exponent >= 0 {
      InitialScaledStartValuesPositiveExponent(
        significand, exponent, estimatedPower, needBoundaryDeltas, numerator, denominator, deltaMinus, deltaPlus);
    } else if estimatedPower >= 0 {
      InitialScaledStartValuesNegativeExponentPositivePower(
        significand, exponent, estimatedPower, needBoundaryDeltas, numerator, denominator, deltaMinus, deltaPlus);
    } else {
      InitialScaledStartValuesNegativeExponentNegativePower(
        significand, exponent, estimatedPower, needBoundaryDeltas, numerator, denominator, deltaMinus, deltaPlus);
    }
    if needBoundaryDeltas && lowerBoundaryIsCloser {
      // The lower boundary is half as far away.
      ShiftScaled(denominator, 1, 1, Up(-exponent) + 1, Up(estimatedPower));
      ShiftScaled(numerator, 1, significand, Up(exponent) + 1, Up(-estimatedPower));
      ShiftScaled(deltaPlus, 1, 1, Up(exponent), Up(-estimatedPower));
    }
  }

  /**
   Brings the value into the range of one leading digit. The estimate of the power may be one too
   low, which shows as an upper boundary that has already reached the denominator.
   */
  method FixupMultiply10(estimatedPower: int, isEven: bool, numerator: Bignum, denominator: Bignum,
                         deltaMinus: Bignum, deltaPlus: Bignum) returns (decimalPoint: int)
    requires Usable(numerator, denominator, deltaMinus, deltaPlus)
    requires denominator.BigitLength() <= CAPACITY - 2 && deltaMinus.Value() <= deltaPlus.Value()
    modifies numerator, numerator.bigits, deltaMinus, deltaMinus.bigits, deltaPlus, deltaPlus.bigits
    ensures Usable(numerator, denominator, deltaMinus, deltaPlus)
    ensures decimalPoint == estimatedPower || decimalPoint == estimatedPower + 1
    ensures var reached := RoomAbove(old(numerator.Value()), old(deltaPlus.Value()), denominator.Value(), isEven);
            var factor := if reached then 1 else 10;
            && decimalPoint == (if reached then estimatedPower + 1 else estimatedPower)
            && numerator.Value() == factor * old(numerator.Value())
            && deltaMinus.Value() == factor * old(deltaMinus.Value())
            && deltaPlus.Value() == factor * old(deltaPlus.Value())
  {
    hide P, Val, Bignum.Valid, Bignum.Value;
    var order := Bignum.PlusCompare(numerator, deltaPlus, denominator);
    var inRange := if isEven then order >= 0 else order > 0;
    if inRange {
      decimalPoint := estimatedPower + 1;
    } else {
      decimalPoint := estimatedPower;
      RoomToScale(denominator, numerator.Value());
      RoomToScale(denominator, deltaMinus.Value());
      RoomToScale(denominator, deltaPlus.Value());
      numerator.Times10();
      order := Bignum.Compare(deltaMinus, deltaPlus);
      if order == 0 {
        deltaMinus.Times10();
        deltaPlus.AssignBignum(deltaMinus);
      } else {
        deltaMinus.Times10();
        deltaPlus.Times10();
      }
    }
  }
}
