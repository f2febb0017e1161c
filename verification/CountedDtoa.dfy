/**
 Exact printing with a requested number of digits on bignums: counted from the first digit, or after the point.
 */
module CountedDtoa {
  import opened Powers
  import opened RealPowers
  import opened Decimal
  import opened DigitRounding
  import opened Bigits
  import opened BignumModule
  import opened BignumDtoa
  import opened TwosAndFives
  import D = ShortestDouble

  /** The digits so far and what is still to be divided, scaled up for the next digit. */
  ghost predicate Long(digits: seq<char>, rest: int, n: int, d: int)
  {
    AllDigits(digits) && Divided(n, Pow(10, |digits|), Dec(digits), d, rest) && 0 <= rest < 10 * d
  }

  ghost predicate Divided(n: int, t: int, x: int, d: int, rest: int)
  {
    n * t == 10 * x * d + rest
  }

  lemma LongStart(n: nat, d: nat)
    requires n < 10 * d
    ensures Long([], n, n, d)
  {
    assert Pow(10, 0) == 1;
  }

  lemma LongStep(digits: seq<char>, rest: nat, n: nat, d: nat)
    requires d > 0 && Long(digits, rest, n, d) && rest / d <= 9
    ensures Long(digits + [DigitChar(rest / d)], 10 * (rest % d), n, d)
    ensures n * Pow(10, |digits|) == Dec(digits + [DigitChar(rest / d)]) * d + rest % d
  {
    hide Pow, Dec, Long;
    DivModFacts(rest, d);
    LongDigit(digits, rest, n, d, rest / d, rest % d);
  }

  lemma LongDigit(digits: seq<char>, rest: nat, n: nat, d: nat, q: nat, r: nat)
    requires Long(digits, rest, n, d) && q <= 9 && rest == q * d + r && r < d
    ensures Long(digits + [DigitChar(q)], 10 * r, n, d)
    ensures n * Pow(10, |digits|) == Dec(digits + [DigitChar(q)]) * d + r
  {
    hide Pow, Dec, Divided;
    var c := DigitChar(q);
    DecSnoc(digits, c);
    PowNext(10, |digits|);
    LongArithmetic(n, Pow(10, |digits|), Dec(digits), d, rest, q, r);
    assert |digits + [c]| == |digits| + 1 && Dec(digits + [c]) == 10 * Dec(digits) + q;
    assert AllDigits(digits + [c]);
  }

  lemma LongArithmetic(n: int, t: int, x: int, d: int, rest: int, q: int, r: int)
    requires Divided(n, t, x, d, rest) && rest == q * d + r
    ensures n * t == (10 * x + q) * d + r && Divided(n, 10 * t, 10 * x + q, d, 10 * r)
  {
    MulDistrib(d, 10 * x, q);
    MulAssoc(n, t, 10);
    MulAssoc(t, 10, 1);
    MulAssoc(10, 10 * x + q, d);
  }

  /** One digit of the division, and the remainder for the next. */
  method NextDigit(numerator: Bignum, denominator: Bignum) returns (digit: nat)
    requires numerator.Valid() && denominator.Valid() && numerator.Apart(denominator) && denominator.Value() > 0
    requires numerator.Value() < 10 * denominator.Value() && denominator.BigitLength() <= CAPACITY - 2
    modifies numerator, numerator.bigits
    ensures numerator.Valid() && digit <= 9 && digit == old(numerator.Value()) / denominator.Value()
    ensures numerator.Value() == old(numerator.Value()) % denominator.Value()
  {
    hide P, Val, Bignum.Valid, Bignum.Value;
    SmallQuotient(numerator, denominator);
    digit := numerator.DivideModuloIntBignum(denominator);
  }

  /**
   Generates count digits of numerator / denominator, the last one rounded, halves upwards. A carry out of the first
   digit moves the point.
   */
  method GenerateCountedDigits(count: nat, decimalPoint: int, numerator: Bignum, denominator: Bignum,
                               buffer: array<char>)
    returns (length: nat, newPoint: int)
    requires 0 < count <= buffer.Length
    requires numerator.Valid() && denominator.Valid() && numerator.Apart(denominator) && denominator.Value() > 0
    requires numerator.Value() < 10 * denominator.Value() && denominator.BigitLength() <= CAPACITY - 2
    modifies numerator, numerator.bigits, buffer
    ensures length == count && AllDigits(buffer[..count])
    ensures decimalPoint <= newPoint <= decimalPoint + 1
    ensures Dec(buffer[..count]) * (if newPoint > decimalPoint then 10 else 1)
         == RoundHalfUp(old(numerator.Value()) * Pow(10, count - 1), denominator.Value())
    ensures newPoint > decimalPoint <==>
      RoundHalfUp(old(numerator.Value()) * Pow(10, count - 1), denominator.Value()) == Pow(10, count)
    ensures denominator.Value() <= old(numerator.Value()) ==> buffer[0] != '0'
  {
    hide P, Val, Pow, Dec, Long, RoundHalfUp, Bignum.Valid, Bignum.Value;
    ghost var n, d := numerator.Value(), denominator.Value();
    newPoint := decimalPoint;
    LongStart(n, d);
    assert buffer[..0] == [];
    var i := 0;
    while i < count - 1
      invariant 0 <= i <= count - 1 && numerator.Valid() && denominator.Valid() && denominator.Value() == d
      invariant numerator.Value() < 10 * d && denominator.BigitLength() <= CAPACITY - 2
      invariant Long(buffer[..i], numerator.Value(), n, d)
    {
      ghost var rest, digits := numerator.Value(), buffer[..i];
      var digit := NextDigit(numerator, denominator);
      LongStep(digits, rest, n, d);
      buffer[i] := DigitChar(digit);
      assert buffer[..i + 1] == digits + [DigitChar(digit)];
      DivModFacts(rest, d);
      RoomToScale(denominator, numerator.Value());
      numerator.Times10();
      i := i + 1;
    }
    ghost var rest, digits := numerator.Value(), buffer[..count - 1];
    var digit := NextDigit(numerator, denominator);
    LongStep(digits, rest, n, d);
    LastDigit(digits, rest, n, d, 2 * (rest % d) >= d);
    var order := Bignum.PlusCompare(numerator, numerator, denominator);
    if order >= 0 { digit := digit + 1; }
    buffer[count - 1] := DigitChar(digit);
    assert buffer[..count] == digits + [DigitChar(digit)];
    DigitsThenCarry(digits, DigitChar(digit), rest, n, d);
    var overflow := PropagateCarry(buffer, count);
    if overflow { newPoint := newPoint + 1; }
    length := count;
    if d <= n { LeadsRounded(buffer[..count], n, d, overflow); }
  }

  /** A quotient of at least one, rounded, has as many digits as it was scaled for. */
  lemma LeadsRounded(digits: seq<char>, n: nat, d: nat, overflow: bool)
    requires AllDigits(digits) && |digits| > 0 && 0 < d <= n && 0 <= n * Pow(10, |digits| - 1)
    requires Dec(digits) * (if overflow then 10 else 1) == RoundHalfUp(n * Pow(10, |digits| - 1), d)
    requires overflow <==> RoundHalfUp(n * Pow(10, |digits| - 1), d) == Pow(10, |digits|)
    ensures digits[0] != '0'
  {
    PowNext(10, |digits| - 1);
    hide Pow, Dec, RoundHalfUp, AllDigits;
    var p := Pow(10, |digits| - 1);
    PowPositive(10, |digits| - 1);
    RoundedReaches(n, d, p);
    ShownReaches(Dec(digits), RoundHalfUp(n * p, d), p, overflow);
    FirstDigit(digits);
  }

  lemma RoundedReaches(n: nat, d: nat, p: nat)
    requires 0 < d <= n
    ensures 0 <= n * p && p <= RoundHalfUp(n * p, d)
  {
    hide RoundHalfUp;
    MulNonneg(n, p);
    MulMonotone(d, n, p);
    HalfUpBounds(n * p, d);
    var x := RoundHalfUp(n * p, d);
    if x < p {
      MulMonotone(x + 1, p, d);
      MulDistrib(d, x, 1);
    }
  }

  lemma ShownReaches(y: int, x: nat, p: nat, overflow: bool)
    requires y * (if overflow then 10 else 1) == x && p <= x && (overflow <==> x == 10 * p)
    ensures p <= y
  {
  }

  lemma DigitsThenCarry(digits: seq<char>, c: char, rest: int, n: int, d: int)
    requires Long(digits, rest, n, d) && '0' <= c <= ':'
    ensures CarryAt(digits + [c], |digits|)
  {
  }

  /** The last digit with its rounding is the rounded quotient; it may be one past nine. */
  lemma LastDigit(digits: seq<char>, rest: nat, n: nat, d: nat, up: bool)
    requires d > 0 && Long(digits, rest, n, d) && rest / d <= 9 && (up <==> 2 * (rest % d) >= d)
    ensures 0 <= n * Pow(10, |digits|)
    ensures Dec(digits + [DigitChar(rest / d + if up then 1 else 0)]) == RoundHalfUp(n * Pow(10, |digits|), d)
  {
    LongStep(digits, rest, n, d);
    var c := DigitChar(rest / d);
    DecSnoc(digits, c);
    DecSnoc(digits, DigitChar(rest / d + if up then 1 else 0));
    assert AllDigits(digits + [c]);
    DecBound(digits + [c]);
    hide Dec, Pow, RoundHalfUp;
    DivModFacts(rest, d);
    RoundQuotient(Dec(digits + [c]), rest % d, d, up);
  }

  /** numerator / denominator * 10^shift, rounded to the nearest integer, halves upwards. */
  ghost function RoundedShift(n: nat, d: nat, shift: int): nat
    requires d > 0
  {
    PowPositive(10, if shift >= 0 then 0 else -shift);
    if shift >= 0 then RoundHalfUp(n * Pow(10, shift), d)
    else MulPositive(d, Pow(10, -shift)); RoundHalfUp(n, d * Pow(10, -shift))
  }

  /** Far below the last requested place everything rounds to zero. */
  lemma FarTooSmall(n: nat, d: nat, shift: int)
    requires d > 0 && n < 10 * d && shift <= -2
    ensures RoundedShift(n, d, shift) == 0
  {
    PowMonotone(10, 2, -shift);
    assert Pow(10, 2) == 100;
    hide Pow;
    MulMonotone(100, Pow(10, -shift), d);
    var m := d * Pow(10, -shift);
    DivModUnique(2 * n + m, 2 * m, 0, 2 * n + m);
  }

  /** One place below only the rounding is left to decide. */
  lemma OnlyRounding(n: nat, d: nat, up: bool)
    requires d > 0 && n < 10 * d && (up <==> 2 * n >= 10 * d)
    ensures RoundedShift(n, d, -1) == if up then 1 else 0
  {
    assert Pow(10, 1) == 10;
    RoundQuotient(0, n, 10 * d, up);
  }

  /** The characters that the digits up to the requested place and a terminator may take. */
  function Room(decimalPoint: int, requestedDigits: nat): nat
  {
    if decimalPoint + requestedDigits < 0 then 1
    else if decimalPoint + requestedDigits == 0 then 2
    else decimalPoint + requestedDigits + 1
  }

  lemma RoomPositive(decimalPoint: int, requestedDigits: nat)
    ensures Room(decimalPoint, requestedDigits) > 0
  {
  }

  /**
   The requested number of digits after the point, of a number with its point after the first digit. Nothing is
   printed for a number that rounds to zero.
   */
  method BignumToFixed(requestedDigits: nat, decimalPoint: int, numerator: Bignum, denominator: Bignum,
                       buffer: array<char>)
    returns (length: nat, newPoint: int)
    requires numerator.Valid() && denominator.Valid() && numerator.Apart(denominator) && denominator.Value() > 0
    requires numerator.Value() < 10 * denominator.Value() && denominator.BigitLength() <= CAPACITY - 2
    requires Room(decimalPoint, requestedDigits) <= buffer.Length + 1
    modifies numerator, numerator.bigits, denominator, denominator.bigits, buffer
    ensures length <= buffer.Length && AllDigits(buffer[..length])
    ensures length == 0 || length == decimalPoint + requestedDigits
      || (length == 1 && decimalPoint + requestedDigits == 0)
    ensures 0 <= newPoint - length + requestedDigits <= 1
    ensures length > 0 && old(denominator.Value() <= numerator.Value()) ==> buffer[0] != '0'
    ensures Dec(buffer[..length]) * Pow(10, newPoint - length + requestedDigits)
         == RoundedShift(old(numerator.Value()), old(denominator.Value()), decimalPoint - 1 + requestedDigits)
  {
    hide P, Val, Dec, RoundedShift, RoundHalfUp, Bignum.Valid, Bignum.Value;
    ghost var n, d := numerator.Value(), denominator.Value();
    assert Pow(10, 0) == 1 && Pow(10, 1) == 10;
    NothingPrinted();
    if -decimalPoint > requestedDigits {
      FarTooSmall(n, d, decimalPoint - 1 + requestedDigits);
      length, newPoint := 0, 0 - requestedDigits;
      assert buffer[..0] == [];
    } else if -decimalPoint == requestedDigits {
      RoomToScale(denominator, d);
      denominator.Times10();
      var order := Bignum.PlusCompare(numerator, numerator, denominator);
      OnlyRounding(n, d, order >= 0);
      if order >= 0 {
        buffer[0] := '1';
        assert buffer[..1] == [] + ['1'];
        DecSnoc([], '1');
        length, newPoint := 1, decimalPoint + 1;
      } else {
        assert buffer[..0] == [];
        length, newPoint := 0, decimalPoint;
      }
    } else {
      var neededDigits := decimalPoint + requestedDigits;
      ShiftUp(n, d, neededDigits - 1);
      length, newPoint := GenerateCountedDigits(neededDigits, decimalPoint, numerator, denominator, buffer);
    }
  }

  lemma NothingPrinted()
    ensures Dec([]) == 0
  {
  }

  lemma ShiftUp(n: nat, d: nat, shift: nat)
    requires d > 0
    ensures 0 <= n * Pow(10, shift) && RoundedShift(n, d, shift) == RoundHalfUp(n * Pow(10, shift), d)
  {
    MulNonneg(n, Pow(10, shift));
  }

  // ----- what the rounded numbers are worth -----

  /** x is v rounded to a multiple of 10^place, halves upwards: no further than half of it, and a half only above. */
  ghost predicate RoundedTo(x: real, v: real, place: int)
  {
    -RPow(10, place) < 2.0 * (x - v) <= RPow(10, place)
  }

  /** numerator / denominator * 10^power is v. */
  ghost predicate Ratio(n: nat, d: nat, power: int, v: real, unit: real)
  {
    unit > 0.0 && n as real == v * unit && d as real == RPow(10, power) * unit
  }

  /** A rounded quotient is within half of the quotient. */
  lemma HalfUpBounds(n: nat, d: nat)
    requires d > 0
    ensures var x := RoundHalfUp(n, d); 2 * n - d < 2 * (x * d) <= 2 * n + d
  {
    var x := RoundHalfUp(n, d);
    DivModFacts(2 * n + d, 2 * d);
    MulAssoc(x, 2, d);
    MulAssoc(2, x, d);
  }

  /** x is n * w / d rounded, halves upwards. */
  ghost predicate HalfUp(n: real, d: real, w: real, x: real)
  {
    2.0 * (n * w) - d < 2.0 * (x * d) <= 2.0 * (n * w) + d
  }

  lemma RoundedShiftBounds(n: nat, d: nat, shift: int)
    requires d > 0
    ensures HalfUp(n as real, d as real, RPow(10, shift), RoundedShift(n, d, shift) as real)
  {
    if shift >= 0 { BoundsUp(n, d, shift); } else { BoundsDown(n, d, -shift); }
  }

  lemma BoundsUp(n: nat, d: nat, shift: nat)
    requires d > 0
    ensures HalfUp(n as real, d as real, RPow(10, shift), RoundedShift(n, d, shift) as real)
  {
    hide Pow, RoundHalfUp, RoundedShift, RPow, HalfUp;
    var x, z := RoundedShift(n, d, shift), Pow(10, shift);
    ShiftUp(n, d, shift);
    HalfUpBounds(n * z, d);
    RPowNat(10, shift);
    CastMul(n, z);
    CastMul(x, d);
    CastBounds(n * z, d, x * d);
    HalfUpFrom(n as real, d as real, z as real, x as real);
  }

  lemma HalfUpFrom(n: real, d: real, w: real, x: real)
    requires 2.0 * (n * w) - d < 2.0 * (x * d) <= 2.0 * (n * w) + d
    ensures HalfUp(n, d, w, x)
  {
  }

  lemma CastBounds(n: int, d: int, xd: int)
    requires 2 * n - d < 2 * xd <= 2 * n + d
    ensures 2.0 * (n as real) - d as real < 2.0 * (xd as real) <= 2.0 * (n as real) + d as real
  {
  }

  lemma BoundsDown(n: nat, d: nat, shift: nat)
    requires d > 0 && shift > 0
    ensures HalfUp(n as real, d as real, RPow(10, 0 - shift), RoundedShift(n, d, 0 - shift) as real)
  {
    var x, z := RoundedShift(n, d, 0 - shift), Pow(10, shift);
    PowPositive(10, shift);
    MulPositive(d, z);
    HalfUpBounds(n, d * z);
    hide Pow, RoundHalfUp, RoundedShift;
    TenInverse(shift);
    hide RPow, HalfUp;
    RPowPositive(10, 0 - shift);
    CastMul(x, d * z);
    CastMul(d, z);
    CastBounds(n, d * z, x * (d * z));
    ShiftBounds(n as real, d as real, z as real, RPow(10, 0 - shift), x as real);
  }

  lemma TenInverse(shift: nat)
    ensures Pow(10, shift) as real * RPow(10, 0 - shift) == 1.0
  {
    RPowAdd(10, shift, 0 - shift);
    RPowNat(10, shift);
    assert RPow(10, 0) == 1.0;
  }

  lemma ShiftBounds(n: real, d: real, z: real, w: real, x: real)
    requires z * w == 1.0 && w > 0.0
    requires 2.0 * n - d * z < 2.0 * (x * (d * z)) <= 2.0 * n + d * z
    ensures HalfUp(n, d, w, x)
  {
    RMulStrict(2.0 * n - d * z, 2.0 * (x * (d * z)), w);
    RMulStrict(2.0 * (x * (d * z)), 2.0 * n + d * z, w);
    RMulDistrib(w, 2.0 * n, d * z);
    RMulAssoc(d, z, w);
    RMulAssoc(2.0, n, w);
    RMulAssoc(2.0, x * (d * z), w);
    RMulAssoc(x, d * z, w);
  }

  /** The rounded number, put back at its place, is v rounded to that place. */
  lemma RoundedMeans(n: nat, d: nat, power: int, shift: int, v: real, unit: real)
    requires d > 0 && Ratio(n, d, power, v, unit)
    ensures RoundedTo(D.DecimalValue(RoundedShift(n, d, shift), power - shift), v, power - shift)
  {
    hide RoundedShift, RPow, HalfUp, Ratio, RoundedTo, D.DecimalValue;
    var x := RoundedShift(n, d, shift);
    RoundedShiftBounds(n, d, shift);
    RatioHalfUp(n, d, power, v, unit, RPow(10, shift), x as real);
    ToPlace(v, power, shift, x);
  }

  lemma RatioHalfUp(n: nat, d: nat, power: int, v: real, unit: real, w: real, x: real)
    requires Ratio(n, d, power, v, unit) && HalfUp(n as real, d as real, w, x)
    ensures HalfUp(v, RPow(10, power), w, x)
  {
    hide RPow, HalfUp;
    CancelUnit(v, unit, RPow(10, power), w, x, n as real, d as real);
  }

  lemma ToPlace(v: real, power: int, shift: int, x: int)
    requires HalfUp(v, RPow(10, power), RPow(10, shift), x as real)
    ensures RoundedTo(D.DecimalValue(x, power - shift), v, power - shift)
  {
    hide RPow, HalfUp, D.DecimalValue;
    RPowAdd(10, power - shift, shift);
    RPowPositive(10, shift);
    ValueOfDecimal(x, power - shift);
    CancelShift(v, RPow(10, power), RPow(10, shift), RPow(10, power - shift), x as real,
                D.DecimalValue(x, power - shift));
  }

  lemma ValueOfDecimal(x: int, t: int)
    ensures D.DecimalValue(x, t) == x as real * RPow(10, t)
  {
    hide RPow;
  }

  lemma CancelUnit(v: real, unit: real, t: real, w: real, x: real, n: real, d: real)
    requires unit > 0.0 && n == v * unit && d == t * unit && HalfUp(n, d, w, x)
    ensures HalfUp(v, t, w, x)
  {
    RMulAssoc(v, unit, w);
    RMulAssoc(v, w, unit);
    RMulAssoc(unit, w, 1.0);
    RMulAssoc(x, t, unit);
    Unscaled(v * w, x * t, t, unit);
  }

  /** A common factor of all three quantities goes away. */
  lemma Unscaled(a: real, b: real, c: real, unit: real)
    requires unit > 0.0 && 2.0 * (a * unit) - c * unit < 2.0 * (b * unit) <= 2.0 * (a * unit) + c * unit
    ensures 2.0 * a - c < 2.0 * b <= 2.0 * a + c
  {
    RMulAssoc(2.0, a, unit);
    RMulAssoc(2.0, b, unit);
    RMulDistrib(unit, 2.0 * a, c);
    RMulStrict(2.0 * a - c, 2.0 * b, unit);
    RMulStrict(2.0 * b, 2.0 * a + c, unit);
  }

  lemma CancelShift(v: real, t: real, w: real, p: real, x: real, value: real)
    requires w > 0.0 && t == p * w && value == x * p && HalfUp(v, t, w, x)
    ensures -p < 2.0 * (value - v) <= p
  {
    RMulAssoc(x, p, w);
    Unscaled(v, value, p, w);
  }

  /** The start values without boundary deltas. */
  lemma StartRatio(v: D.Double, power: int, n: nat, d: nat) returns (unit: real)
    requires n == Scaled(v.significand, Up(v.exponent), Up(-power)) && d == Scaled(1, Up(-v.exponent), Up(power))
    ensures Ratio(n, d, power, v.Value(), unit)
  {
    hide RPow, Pow, D.RScaled, Scaled;
    var e, f := v.exponent, v.significand;
    var a, b := Up(-e), Up(-power);
    unit := D.RScaled(1.0, a, b);
    D.RScaledPositive(a, b);
    D.ScaledIsReal(f, Up(e), Up(-power));
    D.ScaledIsReal(1, Up(-e), Up(power));
    D.RScaledPlain(f as real, e);
    D.RScaledPlain(1.0, power);
    D.RScaledMul(f as real, e, 0, a, b);
    D.RScaledMul(1.0, 0, power, a, b);
  }

  /** After the fix-up the number has its point after the first digit. */
  lemma FixedRatio(n: nat, d: nat, power: int, v: real, unit: real, reached: bool) returns (unit': real)
    requires Ratio(n, d, power, v, unit) && d > 0
    requires RPow(10, power - 1) <= v < RPow(10, power + 1)
    requires reached ==> d <= n
    requires !reached ==> n < d
    ensures var point, m := if reached then power + 1 else power, if reached then n else 10 * n;
      Ratio(m, d, point - 1, v, unit') && d <= m < 10 * d && RPow(10, point - 1) <= v < RPow(10, point)
  {
    TenMore(power - 1);
    TenMore(power);
    hide RPow, Ratio;
    unit' := if reached then unit else 10.0 * unit;
    if reached {
      AtLeast(n, d, power, v, unit);
      BelowTen(n, d, power, v, unit);
    } else {
      var m := 10 * n;
      NotYetReached(n, d, power, v, unit);
    }
  }

  lemma TenMore(e: int)
    ensures RPow(10, e + 1) == 10.0 * RPow(10, e)
  {
    RPowAdd(10, e, 1);
    assert RPow(10, 1) == 10.0;
    RMulAssoc(RPow(10, e), 10.0, 1.0);
  }

  lemma AtLeast(n: nat, d: nat, power: int, v: real, unit: real)
    requires Ratio(n, d, power, v, unit)
    ensures d <= n <==> RPow(10, power) <= v
  {
    hide RPow;
    RMulStrict(RPow(10, power), v, unit);
  }

  lemma BelowTen(n: nat, d: nat, power: int, v: real, unit: real)
    requires Ratio(n, d, power, v, unit) && v < 10.0 * RPow(10, power)
    ensures n < 10 * d
  {
    hide RPow;
    RMulStrict(v, 10.0 * RPow(10, power), unit);
    RMulAssoc(10.0, RPow(10, power), unit);
  }

  lemma NotYetReached(n: nat, d: nat, power: int, v: real, unit: real)
    requires Ratio(n, d, power, v, unit) && n < d && RPow(10, power) == 10.0 * RPow(10, power - 1)
      && RPow(10, power - 1) <= v
    ensures Ratio(10 * n, d, power - 1, v, 10.0 * unit) && d <= 10 * n && v < RPow(10, power)
  {
    hide RPow;
    AtLeast(n, d, power, v, unit);
    TenfoldUnit(v, unit);
    TenfoldUnit(RPow(10, power - 1), unit);
    RMulAssoc(10.0, RPow(10, power - 1), unit);
    AtLeast(10 * n, d, power - 1, v, 10.0 * unit);
  }

  lemma TenfoldUnit(x: real, unit: real)
    ensures x * (10.0 * unit) == 10.0 * (x * unit)
  {
    RMulAssoc(x, 10.0, unit);
    RMulAssoc(10.0, x, unit);
  }

  // ----- an odd significand is never a power of ten -----

  /** Powers of five leave out the range of full significands. */
  lemma FivesOutside(p: nat)
    ensures Pow(5, p) < 0x10_0000_0000_0000 || Pow(5, p) >= 0x20_0000_0000_0000
  {
    PowersOfFive();
    PowAdd(5, 13, 9);
    PowAdd(5, 22, 1);
    if p <= 22 { PowMonotone(5, p, 22); } else { PowMonotone(5, 23, p); }
  }

  /** In integers: a double with an odd significand differs from every power of ten. */
  lemma OddIsNoPowerOfTen(v: D.Double, p: int)
    requires D.IsDouble(v) && v.significand % 2 == 1
    ensures Scaled(v.significand, Up(v.exponent), Up(-p)) != Scaled(1, Up(-v.exponent), Up(p))
  {
    OddIsPowerOfFive(v.significand, v.exponent, p);
    if p >= 0 { FivesOutside(p); }
  }

  // ----- the whole -----

  datatype Mode = Fixed | Precision

  /** A decimal with some factors of ten moved into its exponent. */
  lemma TensMoved(x: int, k: nat, t: int)
    ensures D.DecimalValue(x * Pow(10, k), t) == D.DecimalValue(x, t + k)
  {
    hide RPow, Pow;
    RPowAdd(10, k, t);
    RPowNat(10, k);
    CastMul(x, Pow(10, k));
    RMulAssoc(x as real, Pow(10, k) as real, RPow(10, t));
  }

  /** Below half of the last requested place zero is the rounded number. */
  lemma RoundsToZero(v: real, power: int, place: int)
    requires 0.0 < v < RPow(10, power + 1) && power + 2 <= place
    ensures RoundedTo(0.0, v, place)
  {
    RPowMonotone(10, power + 2, place);
    TenMore(power + 1);
    hide RPow;
  }

  lemma StartInRange(v: D.Double, power: int, d: nat)
    requires DoubleRange(v.significand, v.exponent, power) && d == Scaled(1, Up(-v.exponent), Up(power))
    ensures 0 < d < P(CAPACITY - 2)
  {
    hide P, Pow, Scaled;
    ScaledBound(1, Up(-v.exponent), Up(power));
    ScaledFactor(1, Up(-v.exponent), Up(power));
  }

  /** Start values and fix-up: the point behind the first digit, and a numerator below ten denominators. */
  method StartCounted(v: D.Double, estimatedPower: int, numerator: Bignum, denominator: Bignum, deltaMinus: Bignum,
                      deltaPlus: Bignum)
    returns (decimalPoint: int, ghost unit: real)
    requires Usable(numerator, denominator, deltaMinus, deltaPlus) && deltaMinus.Value() == deltaPlus.Value() == 0
    requires D.IsDouble(v)
    requires RPow(10, estimatedPower - 1) <= v.Value() < RPow(10, estimatedPower + 1)
    modifies numerator, numerator.bigits, denominator, denominator.bigits,
             deltaMinus, deltaMinus.bigits, deltaPlus, deltaPlus.bigits
    ensures Usable(numerator, denominator, deltaMinus, deltaPlus)
    ensures denominator.Value() > 0 && denominator.BigitLength() <= CAPACITY - 2
    ensures denominator.Value() <= numerator.Value() < 10 * denominator.Value()
    ensures Ratio(numerator.Value(), denominator.Value(), decimalPoint - 1, v.Value(), unit)
    ensures RPow(10, decimalPoint - 1) <= v.Value() < RPow(10, decimalPoint)
    ensures estimatedPower <= decimalPoint <= estimatedPower + 1
  {
    hide P, Val, RPow, Pow, Scaled, Ratio, Bignum.Valid, Bignum.Value, D.Double.Value, DoubleRange, D.IsDouble;
    D.EstimateInRange(v, estimatedPower);
    var isEven := v.significand % 2 == 0;
    InitialScaledStartValues(v.significand, v.exponent, v.lowerBoundaryIsCloser, estimatedPower, false,
                             numerator, denominator, deltaMinus, deltaPlus);
    ghost var n, d := numerator.Value(), denominator.Value();
    unit := StartRatio(v, estimatedPower, n, d);
    StartInRange(v, estimatedPower, d);
    denominator.LengthFromValue(CAPACITY - 2);
    if !isEven { OddIsNoPowerOfTen(v, estimatedPower); }
    unit := FixedRatio(n, d, estimatedPower, v.Value(), unit, if isEven then n >= d else n > d);
    decimalPoint := FixupMultiply10(estimatedPower, isEven, numerator, denominator, deltaMinus, deltaPlus);
  }

  /** The digits of a number that is ready: its ratio, and its point after the first digit. */
  method PrintRatio(v: D.Double, mode: Mode, requestedDigits: nat, numerator: Bignum, denominator: Bignum, point: int,
                    buffer: array<char>, ghost unit: real)
    returns (length: nat, decimalPoint: int, ghost place: int)
    requires numerator.Valid() && denominator.Valid() && numerator.Apart(denominator) && denominator.Value() > 0
    requires denominator.Value() <= numerator.Value() < 10 * denominator.Value()
      && denominator.BigitLength() <= CAPACITY - 2
    requires Ratio(numerator.Value(), denominator.Value(), point - 1, v.Value(), unit)
    requires RPow(10, point - 1) <= v.Value() < RPow(10, point)
    requires mode.Fixed? ==> Room(point, requestedDigits) <= buffer.Length
    requires mode.Precision? ==> 0 < requestedDigits < buffer.Length
    modifies numerator, numerator.bigits, denominator, denominator.bigits, buffer
    ensures length < buffer.Length && AllDigits(buffer[..length])
    ensures RoundedTo(D.DecimalValue(Dec(buffer[..length]), decimalPoint - length), v.Value(), place)
    ensures place <= decimalPoint - length <= place + 1 && (length > 0 ==> buffer[0] != '0')
    ensures mode.Fixed? ==> place == 0 - requestedDigits
    ensures mode.Precision? ==>
      length == requestedDigits && RPow(10, place + length - 1) <= v.Value() < RPow(10, place + length)
  {
    hide P, Val, RPow, Pow, Dec, Ratio, RoundedTo, RoundedShift, RoundHalfUp, Bignum.Valid, Bignum.Value,
      D.Double.Value, D.DecimalValue;
    ghost var n, d := numerator.Value(), denominator.Value();
    if mode.Fixed? {
      place := 0 - requestedDigits;
      length, decimalPoint := BignumToFixed(requestedDigits, point, numerator, denominator, buffer);
      RoundedMeans(n, d, point - 1, point - 1 + requestedDigits, v.Value(), unit);
      TensMoved(Dec(buffer[..length]), decimalPoint - length + requestedDigits, place);
    } else {
      length, decimalPoint := GenerateCountedDigits(requestedDigits, point, numerator, denominator, buffer);
      place := point - requestedDigits;
      RoundedMeans(n, d, point - 1, requestedDigits - 1, v.Value(), unit);
      ShiftUp(n, d, requestedDigits - 1);
      PowUnit(10);
      TensMoved(Dec(buffer[..length]), decimalPoint - point, place);
    }
  }

  /** Start values, fix-up and digits, on four bignums of their own. */
  method PrintOn(v: D.Double, mode: Mode, requestedDigits: nat, ghost power: int, estimatedPower: int,
                 buffer: array<char>, numerator: Bignum, denominator: Bignum, deltaMinus: Bignum, deltaPlus: Bignum)
    returns (length: nat, decimalPoint: int, ghost place: int)
    requires Usable(numerator, denominator, deltaMinus, deltaPlus) && deltaMinus.Value() == deltaPlus.Value() == 0
    requires D.IsDouble(v) && RPow(10, power - 1) <= v.Value() < RPow(10, power)
    requires RPow(10, estimatedPower - 1) <= v.Value() < RPow(10, estimatedPower + 1)
    requires mode.Fixed? ==> Room(power, requestedDigits) <= buffer.Length
    requires mode.Precision? ==> 0 < requestedDigits < buffer.Length
    modifies numerator, numerator.bigits, denominator, denominator.bigits,
             deltaMinus, deltaMinus.bigits, deltaPlus, deltaPlus.bigits, buffer
    ensures length < buffer.Length && AllDigits(buffer[..length])
    ensures RoundedTo(D.DecimalValue(Dec(buffer[..length]), decimalPoint - length), v.Value(), place)
    ensures place <= decimalPoint - length <= place + 1 && (length > 0 ==> buffer[0] != '0')
    ensures mode.Fixed? ==> place == 0 - requestedDigits
    ensures mode.Precision? ==>
      length == requestedDigits && RPow(10, place + length - 1) <= v.Value() < RPow(10, place + length)
  {
    hide P, Val, RPow, Pow, Dec, Ratio, RoundedTo, RoundedShift, RoundHalfUp, Room, Bignum.Valid, Bignum.Value,
      D.Double.Value, D.DecimalValue, D.IsDouble;
    ghost var unit;
    decimalPoint, unit := StartCounted(v, estimatedPower, numerator, denominator, deltaMinus, deltaPlus);
    SamePoint(v.Value(), power, decimalPoint);
    length, decimalPoint, place :=
      PrintRatio(v, mode, requestedDigits, numerator, denominator, decimalPoint, buffer, unit);
  }

  /**
   Prints v rounded to a requested number of places after the point, or to a requested number of digits: the decimal
   shown is v rounded to that place, halves upwards. The power is where v has its point; the estimate of it may be one
   too low.
   */
  method Print(v: D.Double, mode: Mode, requestedDigits: nat, ghost power: int, estimatedPower: int,
               buffer: array<char>)
    returns (length: nat, decimalPoint: int, ghost place: int)
    requires D.IsDouble(v) && RPow(10, power - 1) <= v.Value() < RPow(10, power)
    requires power - 1 <= estimatedPower <= power
    requires mode.Fixed? ==> Room(power, requestedDigits) <= buffer.Length
    requires mode.Precision? ==> 0 < requestedDigits < buffer.Length
    modifies buffer
    ensures length < buffer.Length && buffer[length] == '\0' && AllDigits(buffer[..length])
    ensures RoundedTo(D.DecimalValue(Dec(buffer[..length]), decimalPoint - length), v.Value(), place)
    ensures place <= decimalPoint - length <= place + 1 && (length > 0 ==> buffer[0] != '0')
    ensures mode.Fixed? ==> place == 0 - requestedDigits
    ensures mode.Precision? ==>
      length == requestedDigits && RPow(10, place + length - 1) <= v.Value() < RPow(10, place + length)
  {
    hide P, Val, RPow, Pow, Dec, Ratio, RoundedTo, RoundedShift, RoundHalfUp, Bignum.Valid, Bignum.Value,
      D.Double.Value, D.DecimalValue, D.IsDouble;
    RoomPositive(power, requestedDigits);
    hide Room;
    place := 0 - requestedDigits;
    RPowPositive(10, estimatedPower - 1);
    RPowMonotone(10, estimatedPower - 1, power - 1);
    RPowMonotone(10, power, estimatedPower + 1);
    if mode.Fixed? && -estimatedPower - 1 > requestedDigits {
      buffer[0] := '\0';
      length, decimalPoint := 0, 0 - requestedDigits;
      assert buffer[..0] == [];
      NothingPrinted();
      ZeroDecimal(decimalPoint);
      RoundsToZero(v.Value(), estimatedPower, place);
      return;
    }
    var numerator := new Bignum();
    var denominator := new Bignum();
    var deltaMinus := new Bignum();
    var deltaPlus := new Bignum();
    length, decimalPoint, place := PrintOn(v, mode, requestedDigits, power, estimatedPower, buffer,
                                           numerator, denominator, deltaMinus, deltaPlus);
    ghost var digits := buffer[..length];
    buffer[length] := '\0';
    assert buffer[..length] == digits;
    assert length > 0 ==> buffer[0] == digits[0];
  }

  /** A number has its point in one place. */
  lemma SamePoint(v: real, a: int, b: int)
    requires RPow(10, a - 1) <= v < RPow(10, a) && RPow(10, b - 1) <= v < RPow(10, b)
    ensures a == b
  {
    hide RPow;
    if a < b { RPowMonotone(10, a, b - 1); }
    if b < a { RPowMonotone(10, b, a - 1); }
  }

  lemma ZeroDecimal(t: int)
    ensures D.DecimalValue(0, t) == 0.0
  {
    hide RPow;
  }
}
