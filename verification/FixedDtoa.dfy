/**
 Printing with a fixed number of digits after the point, in 64-bit and 128-bit fixed-point arithmetic.
 */
module FixedDtoa {
  import opened Powers
  import opened Decimal
  import opened DigitRounding
  import opened UInt128Module

  // ----- rounding and expansion on numbers -----

  /** After i decimal places of f / 2^p: the places as the number digits, and the rest rest / 2^(p - i). */
  ghost predicate Expansion(f: nat, p: nat, i: nat, digits: nat, rest: nat)
  {
    i <= p && f * Pow(5, i) == digits * Pow(2, p - i) + rest && rest < Pow(2, p - i)
  }

  lemma ExpansionStarts(f: nat, p: nat)
    requires f < Pow(2, p)
    ensures Expansion(f, p, 0, 0, f)
  {
  }

  /** One more place: multiplying by five and moving the point is multiplying by ten. */
  lemma ExpansionStep(f: nat, p: nat, i: nat, digits: nat, rest: nat)
    requires Expansion(f, p, i, digits, rest) && rest > 0
    ensures i < p && Pow(2, p - i - 1) > 0 && rest * 5 / Pow(2, p - i - 1) < 10
    ensures Expansion(f, p, i + 1, 10 * digits + rest * 5 / Pow(2, p - i - 1), rest * 5 % Pow(2, p - i - 1))
  {
    assert Pow(2, 0) == 1;
    var m := Pow(2, p - i - 1);
    assert Pow(2, p - i) == 2 * m;
    PowPositive(2, p - i - 1);
    assert Pow(5, i + 1) == 5 * Pow(5, i);
    hide Pow;
    DivModFacts(rest * 5, m);
    var q, r := rest * 5 / m, rest * 5 % m;
    if q >= 10 { MulMonotone(10, q, m); }
    assert f * Pow(5, i + 1) == (10 * digits + q) * m + r by {
      MulAssoc(f, Pow(5, i), 5);
      MulAssoc(f, 5, Pow(5, i));
      MulAssoc(digits, 2, m);
      MulAssoc(10, digits, m);
      MulDistrib(m, 10 * digits, q);
      MulAssoc(digits, 2 * m, 5);
      MulAssoc(digits, m, 10);
      MulAssoc(digits, 10, m);
    }
  }

  /**
   Multiplying the rest by five stays within the word: for three places because f has seven bits to spare,
   afterwards because the point has moved down by three.
   */
  lemma FiveTimesFits(f: nat, p: nat, i: nat, digits: nat, rest: nat, width: nat)
    requires Expansion(f, p, i, digits, rest) && 3 <= width && p <= width && f * 128 <= Pow(2, width)
    ensures rest * 5 < Pow(2, width)
  {
    hide Pow;
    PowPositive(2, width);
    if i < 3 {
      EarlyPower(i);
      MulNonneg(digits, Pow(2, p - i));
      MulMonotone(Pow(5, i), 25, f);
      EarlyFits(f, f * Pow(5, i), digits * Pow(2, p - i), rest, Pow(2, width));
    } else {
      PowMonotone(2, p - i, width - 3);
      PowAdd(2, 3, width - 3);
      Eight();
    }
  }

  lemma EarlyPower(i: nat)
    requires i < 3
    ensures Pow(5, i) <= 25
  {
    assert Pow(5, 0) == 1 && Pow(5, 1) == 5 && Pow(5, 2) == 25;
  }

  lemma EarlyFits(f: nat, scaled: int, printed: int, rest: nat, limit: nat)
    requires scaled == printed + rest && printed >= 0 && scaled <= f * 25 && f * 128 <= limit && limit > 0
    ensures rest * 5 < limit
  {
  }

  /** The bit after the point decides: once the places are done, digits plus that bit is the rounded number. */
  lemma ExpansionRounds(f: nat, p: nat, i: nat, digits: nat, rest: nat, count: nat, up: bool)
    requires Expansion(f, p, i, digits, rest) && i <= count && (i == count || rest == 0)
    requires up <==> i < p && rest >= Pow(2, p - i - 1)
    ensures Pow(2, p) > 0
    ensures (digits + if up then 1 else 0) * Pow(10, count - i) == RoundHalfUp(f * Pow(10, count), Pow(2, p))
  {
    assert i < p ==> Pow(2, p - i) == 2 * Pow(2, p - i - 1);
    assert Pow(2, 0) == 1 && Pow(10, 0) == 1;
    hide Pow, RoundHalfUp;
    PowPositive(2, p);
    PowPositive(2, p - i);
    PowPositive(2, i);
    PowAdd(2, p - i, i);
    PowMulBase(5, 2, i);
    var m, t := Pow(2, p - i), Pow(2, i);
    assert f * Pow(10, i) == (digits * m + rest) * t by { MulAssoc(f, Pow(5, i), t); }
    if i == count {
      RoundAt(digits, m, rest, t, up);
    } else {
      PowAdd(10, i, count - i);
      var z := Pow(10, count - i);
      assert !up by { if i < p { PowPositive(2, p - i - 1); } }
      assert f * Pow(10, count) == (digits * z) * (m * t) by {
        MulAssoc(f, Pow(10, i), z);
        MulAssoc(digits * m, t, z);
        MulAssoc(digits, m, t * z);
        MulAssoc(m, t, z);
        MulAssoc(digits, z, m * t);
        MulAssoc(m * t, z, 1);
        MulAssoc(digits, m * t, z);
      }
      PowPositive(10, count - i);
      MulNonneg(digits, z);
      RoundExact(digits * z, m * t);
    }
  }

  lemma RoundAt(digits: nat, m: nat, rest: nat, t: nat, up: bool)
    requires rest < m && t > 0 && (up <==> 2 * rest >= m)
    ensures 0 <= (digits * m + rest) * t && 0 < m * t
    ensures RoundHalfUp((digits * m + rest) * t, m * t) == digits + if up then 1 else 0
  {
    RoundQuotient(digits, rest, m, up);
    RoundScaled(digits * m + rest, m, t);
  }

  /** Rounding does not see a common factor. */
  lemma RoundScaled(n: nat, d: nat, t: nat)
    requires d > 0 && t > 0
    ensures 0 <= n * t && 0 < d * t && RoundHalfUp(n * t, d * t) == RoundHalfUp(n, d)
  {
    MulNonneg(n, t);
    MulPositive(d, t);
    var x := 2 * n + d;
    assert 2 * (n * t) + d * t == x * t by { MulDistrib(t, 2 * n, d); MulAssoc(2, n, t); }
    assert 2 * (d * t) == (2 * d) * t by { MulAssoc(2, d, t); }
    DivModFacts(x, 2 * d);
    var q, r := x / (2 * d), x % (2 * d);
    assert x * t == q * ((2 * d) * t) + r * t by { MulDistrib(t, q * (2 * d), r); MulAssoc(q, 2 * d, t); }
    MulStrict(r, 2 * d, t);
    MulNonneg(r, t);
    DivModUnique(x * t, (2 * d) * t, q, r * t);
  }

  lemma RoundExact(n: nat, d: nat)
    requires d > 0
    ensures 0 <= n * d && RoundHalfUp(n * d, d) == n
  {
    MulNonneg(n, d);
    assert 2 * (n * d) + d == n * (2 * d) + d by { MulAssoc(n, 2, d); MulAssoc(2, n, d); }
    DivModUnique(2 * (n * d) + d, 2 * d, n, d);
  }

  // ----- shift counts outside the word -----

  /** As long as there are places left, the rest is odd if the fraction is. */
  lemma RestParity(f: nat, p: nat, i: nat, digits: nat, rest: nat)
    requires Expansion(f, p, i, digits, rest) && i < p
    ensures rest % 2 == f % 2
  {
    PowersOfFiveAreOdd(i);
    PowNext(2, p - i - 1);
    hide Pow;
    OddFactor(f, Pow(5, i), digits, Pow(2, p - i - 1), rest);
  }

  lemma OddFactor(f: nat, y: nat, digits: nat, m: nat, rest: nat)
    requires f * y == digits * (2 * m) + rest && y % 2 == 1
    ensures rest % 2 == f % 2
  {
    var h := y / 2;
    MulDistrib(f, 2 * h, 1);
    MulAssoc(f, h, 2);
    MulAssoc(h, 2, 1);
    MulAssoc(digits, m, 2);
    MulAssoc(m, 2, 1);
    Parity(f * h, digits * m, f, rest);
  }

  lemma Parity(a: int, b: int, f: int, rest: int)
    requires a * 2 + f == b * 2 + rest
    ensures rest % 2 == f % 2
  {
  }

  /** The last place is computed for odd fractions only. */
  lemma LastPlaceIsOdd(f: nat, p: nat, i: nat, digits: nat, rest: nat)
    requires Expansion(f, p, i, digits, rest) && rest > 0 && i + 1 == p
    ensures f % 2 == 1
  {
    RestParity(f, p, i, digits, rest);
    PowUnit(2);
  }

  /** The places use up all bits exactly when an odd fraction is asked for that many. */
  lemma AllPlaces(f: nat, p: nat, i: nat, digits: nat, rest: nat, count: nat)
    requires Expansion(f, p, i, digits, rest) && i <= count && (i == count || rest == 0)
    requires i == p && p > 0 ==> f % 2 == 1
    ensures i == p <==> p == 0 || (f % 2 == 1 && p <= count)
  {
    if i < p { RestParity(f, p, i, digits, rest); }
  }

  /**
   Whether the point reaches the left end. Then the last shift in 64 bits is by -1. In 128 bits the word that the last
   place is taken from is shifted by 64, and the rounding bit by -1. What is shifted is zero each time.
   */
  predicate ShiftsPastTheEnd(fractionals: nat, exponent: int, fractionalCount: nat)
  {
    if -exponent <= 64 then exponent == 0 || (fractionals % 2 == 1 && -exponent <= fractionalCount)
    else exponent == -128 && fractionals % 2 == 1 && 128 <= fractionalCount
  }

  /** A half to one place: one multiplication by five, and the rounding bit is looked for below the last bit. */
  lemma HalfShiftsPastTheEnd()
    ensures ShiftsPastTheEnd(1, -1, 1) && !ShiftsPastTheEnd(1, -1, 0) && !ShiftsPastTheEnd(2, -2, 2)
  {
  }

  /** A fraction that fills the word would overflow 128 bits at once, if it is above a fifth of the unit. */
  lemma FirstProductFits(f: nat, p: nat)
    requires 64 < p <= 128
    ensures f * Pow(2, 128 - p) * 5 < Pow(2, 128) <==> 5 * f < Pow(2, p)
  {
    PowAdd(2, p, 128 - p);
    PowPositive(2, 128 - p);
    hide Pow;
    var t := Pow(2, 128 - p);
    MulAssoc(5, f, t);
    MulAssoc(f, t, 5);
    if 5 * f < Pow(2, p) { MulStrict(5 * f, Pow(2, p), t); } else { MulMonotone(Pow(2, p), 5 * f, t); }
  }

  /** 2^63 of 2^65: times five in 128 bits it does not fit, so the fraction must leave bits to spare there too. */
  lemma WideFractionOverflows()
    ensures Pow(2, 65) == 4 * 0x8000_0000_0000_0000
    ensures 0x8000_0000_0000_0000 * Pow(2, 63) * 5 >= Pow(2, 128)
  {
    PowersOfTwo();
    PowNext(2, 64);
    FirstProductFits(0x8000_0000_0000_0000, 65);
  }

  // ----- the digits after the point -----

  /** The digits that the loops below append, and what remains to be decided about them. */
  ghost predicate Appended(before: seq<char>, now: seq<char>, length: nat, newLength: nat)
  {
    && length <= newLength <= |now| == |before| && now[..length] == before[..length]
    && AllDigits(now[length..newLength])
  }

  method AppendDigit(buffer: array<char>, length: nat, ghost start: nat, digit: nat) returns (newLength: nat)
    requires start <= length < buffer.Length && digit < 10
    requires AllDigits(buffer[start..length])
    modifies buffer
    ensures newLength == length + 1
    ensures Appended(old(buffer[..]), buffer[..], start, newLength)
    ensures Dec(buffer[start..newLength]) == 10 * Dec(old(buffer[start..length])) + digit
  {
    ghost var s := buffer[start..length];
    buffer[length] := DigitChar(digit);
    newLength := length + 1;
    assert buffer[start..newLength] == s + [DigitChar(digit)];
    DecSnoc(s, DigitChar(digit));
  }

  /** The loop in one 64-bit word. */
  method Fractionals64(fractionals: nat, exponent: int, fractionalCount: nat, buffer: array<char>, length: nat)
    returns (newLength: nat, roundUp: bool)
    requires -64 <= exponent <= 0 && fractionals < Pow(2, 56) && fractionals < Pow(2, -exponent)
    requires length + fractionalCount <= buffer.Length
    modifies buffer
    ensures Appended(old(buffer[..]), buffer[..], length, newLength) && newLength <= length + fractionalCount
    ensures Pow(2, -exponent) > 0
    ensures Dec(buffer[length..newLength]) >= 0
    ensures (Dec(buffer[length..newLength]) + if roundUp then 1 else 0) * Pow(10, length + fractionalCount - newLength)
         == RoundHalfUp(fractionals * Pow(10, fractionalCount), Pow(2, -exponent))
    ensures -exponent - (newLength - length) - 1 < 0 <==> ShiftsPastTheEnd(fractionals, exponent, fractionalCount)
  {
    hide Pow, Dec, Expansion, RoundHalfUp, ShiftRight, ShiftLeft;
    PowersOfTwo();
    PowAdd(2, 56, 8);
    ghost var p, digits := -exponent, 0;
    var point := -exponent;
    var fraction := fractionals;
    var i := 0;
    newLength := length;
    ExpansionStarts(fractionals, p);
    NoDigits();
    assert buffer[length..newLength] == [];
    while i < fractionalCount && fraction != 0
      invariant 0 <= i <= fractionalCount && newLength == length + i && point == p - i && point >= 0
      invariant Appended(old(buffer[..]), buffer[..], length, newLength)
      invariant digits == Dec(buffer[length..newLength]) && digits >= 0 && fraction >= 0
      invariant Expansion(fractionals, p, i, digits, fraction)
      invariant i == p && p > 0 ==> fractionals % 2 == 1
    {
      if i + 1 == p { LastPlaceIsOdd(fractionals, p, i, digits, fraction); }
      FiveTimesFits(fractionals, p, i, digits, fraction, 64);
      ExpansionStep(fractionals, p, i, digits, fraction);
      fraction := fraction * 5;
      assert fraction < TWO64;
      point := point - 1;
      WordKept(fraction, point);
      DivModFacts(fraction, Pow(2, point));
      digits := 10 * digits + fraction / Pow(2, point);
      var digit := ShiftRight(fraction, point);
      newLength := AppendDigit(buffer, newLength, length, digit);
      fraction := fraction - ShiftLeft(digit, point);
      i := i + 1;
    }
    AllPlaces(fractionals, p, i, digits, fraction, fractionalCount);
    TopBit(fraction, point, fractionals, p, i, digits);
    if fraction == 0 { NothingShifted(point - 1); }
    roundUp := ShiftRight(fraction, point - 1) % 2 == 1;
    assert !roundUp || fraction > 0;
    if point > 0 { PowPositive(2, point - 1); }
    ExpansionRounds(fractionals, p, i, digits, fraction, fractionalCount, roundUp);
  }

  lemma NoDigits()
    ensures Dec([]) == 0
  {
  }

  /** The bit below the point says whether the rest is at least a half. */
  lemma TopBit(rest: nat, point: nat, f: nat, p: nat, i: nat, digits: nat)
    requires Expansion(f, p, i, digits, rest) && point == p - i <= 128
    ensures rest == 0 || point > 0
    ensures point > 0 ==> Pow(2, point - 1) > 0
    ensures point > 0 ==> (rest / Pow(2, point - 1) % 2 == 1 <==> rest >= Pow(2, point - 1))
    ensures rest > 0 && point <= 64 ==> (ShiftRight(rest, point - 1) % 2 == 1 <==> rest >= Pow(2, point - 1))
  {
    if point == 0 {
      assert Pow(2, 0) == 1;
    } else {
      var m := Pow(2, point - 1);
      PowPositive(2, point - 1);
      assert Pow(2, point) == 2 * m;
      if rest < m { DivModUnique(rest, m, 0, rest); } else { DivModUnique(rest, m, 1, rest - m); }
    }
  }

  /** One place of the expansion in 128 bits. */
  method NextDigit128(fractionals128: UInt128, point: int, ghost f: nat, ghost i: nat, ghost digits: nat)
    returns (digit: nat)
    requires fractionals128.Valid() && 0 < fractionals128.Value() && i <= 128 && point == 128 - i - 1
    requires Expansion(f, 128, i, digits, fractionals128.Value()) && f * 128 <= Pow(2, 128)
    modifies fractionals128
    ensures fractionals128.Valid() && digit < 10 && point >= 0
    ensures Expansion(f, 128, i + 1, 10 * digits + digit, fractionals128.Value())
  {
    hide Pow, Expansion;
    ghost var rest := fractionals128.Value();
    PowersOfTwo();
    PowAdd(2, 64, 64);
    FiveTimesFits(f, 128, i, digits, rest, 128);
    ExpansionStep(f, 128, i, digits, rest);
    fractionals128.Multiply(5);
    if point == 0 { LastPlace(fractionals128.highBits, fractionals128.lowBits); }
    digit := fractionals128.DivModPowerOf2(point);
  }

  /** The rounding bit of a finished expansion in 128 bits. */
  method RoundingBit128(fractionals128: UInt128, point: int, ghost f: nat, ghost i: nat, ghost digits: nat)
    returns (bit: nat)
    requires fractionals128.Valid() && i <= 128 && point == 128 - i
    requires Expansion(f, 128, i, digits, fractionals128.Value())
    ensures bit == 1 <==> i < 128 && fractionals128.Value() >= Pow(2, 128 - i - 1)
  {
    hide Pow, Expansion;
    TopBit(fractionals128.Value(), point, f, 128, i, digits);
    bit := fractionals128.BitAt(point - 1);
  }

  /** The loop in 128 bits, for numbers too small for one word. */
  method Fractionals128(fractionals: nat, exponent: int, fractionalCount: nat, buffer: array<char>, length: nat)
    returns (newLength: nat, roundUp: bool)
    requires -128 <= exponent < -64 && fractionals < Pow(2, 56)
    requires length + fractionalCount <= buffer.Length
    modifies buffer
    ensures Appended(old(buffer[..]), buffer[..], length, newLength) && newLength <= length + fractionalCount
    ensures Pow(2, -exponent) > 0
    ensures Dec(buffer[length..newLength]) >= 0
    ensures (Dec(buffer[length..newLength]) + if roundUp then 1 else 0) * Pow(10, length + fractionalCount - newLength)
         == RoundHalfUp(fractionals * Pow(10, fractionalCount), Pow(2, -exponent))
    ensures newLength - length == 128 <==> ShiftsPastTheEnd(fractionals, exponent, fractionalCount)
  {
    hide Pow, Dec, Expansion, RoundHalfUp, UInt128.Value;
    PowersOfTwo();
    Widen(fractionals, -exponent, fractionalCount);
    WidenedParity(fractionals, -exponent);
    ghost var digits: nat := 0;
    ghost var f := fractionals * Pow(2, 128 + exponent);
    var fractionals128 := new UInt128(fractionals, 0);
    fractionals128.Shift(-exponent - 64);
    var point: int := 128;
    var i := 0;
    newLength := length;
    ExpansionStarts(f, 128);
    NoDigits();
    assert buffer[length..newLength] == [];
    var zero := fractionals128.IsZero();
    while i < fractionalCount && !zero
      invariant 0 <= i <= fractionalCount && newLength == length + i && point == 128 - i && point >= 0
      invariant fractionals128.Valid() && fresh(fractionals128) && (zero <==> fractionals128.Value() == 0)
      invariant Appended(old(buffer[..]), buffer[..], length, newLength)
      invariant digits == Dec(buffer[length..newLength])
      invariant Expansion(f, 128, i, digits, fractionals128.Value())
      invariant i == 128 ==> f % 2 == 1
      decreases fractionalCount - i
    {
      if i + 1 == 128 { LastPlaceIsOdd(f, 128, i, digits, fractionals128.Value()); }
      point := point - 1;
      var digit := NextDigit128(fractionals128, point, f, i, digits);
      digits := 10 * digits + digit;
      newLength := AppendDigit(buffer, newLength, length, digit);
      i := i + 1;
      zero := fractionals128.IsZero();
    }
    AllPlaces(f, 128, i, digits, fractionals128.Value(), fractionalCount);
    var bit := RoundingBit128(fractionals128, point, f, i, digits);
    roundUp := bit == 1;
    ExpansionRounds(f, 128, i, digits, fractionals128.Value(), fractionalCount, roundUp);
  }

  lemma WidenedParity(f: nat, p: nat)
    requires 64 < p <= 128
    ensures 0 <= f * Pow(2, 128 - p) && (f * Pow(2, 128 - p) % 2 == 1 <==> p == 128 && f % 2 == 1)
  {
    MulNonneg(f, Pow(2, 128 - p));
    if p == 128 {
      PowUnit(2);
    } else {
      var m := Pow(2, 127 - p);
      assert Pow(2, 128 - p) == 2 * m;
      MulAssoc(f, 2, m);
      MulAssoc(2, f, m);
    }
  }

  /** A number of at most nine has no high word. */
  lemma LastPlace(high: nat, low: nat)
    requires (high * TWO64 + low) / Pow(2, 0) < 10
    ensures high == 0
  {
    assert Pow(2, 0) == 1;
  }

  /** Moving the fraction to the top of 128 bits loses nothing and changes no rounding. */
  lemma Widen(f: nat, p: nat, count: nat)
    requires 64 < p <= 128 && f < Pow(2, 56)
    ensures Pow(2, p) > 0 && Pow(2, p - 64) > 0
    ensures 0 <= f * Pow(2, 128 - p) && (f * TWO64 + 0) / Pow(2, p - 64) == f * Pow(2, 128 - p)
    ensures f < TWO64 && f * Pow(2, 128 - p) < Pow(2, 128) && f * Pow(2, 128 - p) * 128 <= Pow(2, 128)
    ensures Pow(2, 128) > 0
    ensures 0 <= f * Pow(10, count) && 0 <= f * Pow(2, 128 - p) * Pow(10, count)
    ensures RoundHalfUp(f * Pow(2, 128 - p) * Pow(10, count), Pow(2, 128)) == RoundHalfUp(f * Pow(10, count), Pow(2, p))
  {
    hide Pow, RoundHalfUp;
    PowersOfTwo();
    PowAdd(2, 56, 8);
    PowAdd(2, p - 64, 128 - p);
    PowAdd(2, p, 128 - p);
    PowAdd(2, 56, 72);
    PowAdd(2, 8, 64);
    PowPositive(2, p);
    PowPositive(2, 56);
    PowPositive(2, p - 64);
    PowPositive(2, 128 - p);
    PowPositive(10, count);
    PowMonotone(2, 128 - p, 64);
    PowMonotone(2, 56, 64);
    var t, z := Pow(2, 128 - p), Pow(10, count);
    MulNonneg(f, t);
    MulNonneg(f, z);
    MulMonotone2(f, Pow(2, 56), t, TWO64);
    assert f * TWO64 == f * t * Pow(2, p - 64) by { MulAssoc(f, t, Pow(2, p - 64)); MulAssoc(t, Pow(2, p - 64), 1); }
    DivModUnique(f * TWO64, Pow(2, p - 64), f * t, 0);
    RoundScaled(f * z, Pow(2, p), t);
    SwapFactors(f, z, t);
  }

  /** Adds one to the last place of the printed number; an empty buffer stands for zero. */
  method RoundUp(buffer: array<char>, length: nat, decimalPoint: int) returns (newLength: nat, newPoint: int)
    requires length <= buffer.Length && 0 < buffer.Length && AllDigits(buffer[..length])
    modifies buffer
    ensures newLength <= buffer.Length && AllDigits(buffer[..newLength])
    ensures length == 0 ==> newLength == 1 && newPoint == 1 && Dec(buffer[..1]) == 1
    ensures length > 0 ==> newLength == length && decimalPoint <= newPoint <= decimalPoint + 1
    ensures length > 0 ==>
      Dec(buffer[..length]) * (if newPoint > decimalPoint then 10 else 1) == Dec(old(buffer[..length])) + 1
  {
    hide Dec;
    newLength, newPoint := length, decimalPoint;
    if length == 0 {
      buffer[0] := '1';
      newPoint := 1;
      newLength := 1;
      assert buffer[..1] == [] + ['1'];
      DecSnoc([], '1');
      NoDigits();
      return;
    }
    var overflow := AddOne(buffer, length);
    if overflow { newPoint := newPoint + 1; }
  }

  /**
   Appends the fraction fractionals * 2^exponent, rounded half up to fractionalCount places. A carry may run into
   the digits before the point and move the point.
   */
  method FillFractionals(fractionals: nat, exponent: int, fractionalCount: nat, buffer: array<char>, length: nat,
                         decimalPoint: int) returns (newLength: nat, newPoint: int)
    requires -128 <= exponent <= 0 && fractionals < Pow(2, 56) && fractionals < Pow(2, -exponent)
    requires length + fractionalCount <= buffer.Length && 0 < buffer.Length
    requires AllDigits(buffer[..length]) && decimalPoint == length
    modifies buffer
    ensures newLength <= buffer.Length && AllDigits(buffer[..newLength]) && Pow(2, -exponent) > 0
    ensures newLength <= length + fractionalCount || newLength == 1
    ensures newPoint - newLength + fractionalCount >= 0
    ensures Dec(buffer[..newLength]) * Pow(10, newPoint - newLength + fractionalCount)
         == Dec(old(buffer[..length])) * Pow(10, fractionalCount)
            + RoundHalfUp(fractionals * Pow(10, fractionalCount), Pow(2, -exponent))
  {
    hide Pow, Dec, RoundHalfUp;
    ghost var s := buffer[..length];
    var up;
    if -exponent <= 64 {
      newLength, up := Fractionals64(fractionals, exponent, fractionalCount, buffer, length);
    } else {
      newLength, up := Fractionals128(fractionals, exponent, fractionalCount, buffer, length);
    }
    ghost var d := buffer[length..newLength];
    assert buffer[..newLength] == s + d by { assert buffer[..length] == s; }
    newPoint := decimalPoint;
    Printed(s, d, up, fractionalCount,
            RoundHalfUp(fractionals * Pow(10, fractionalCount), Pow(2, -exponent)));
    if up {
      ghost var before := newLength;
      newLength, newPoint := RoundUp(buffer, newLength, newPoint);
      Carried(Dec(s + d), Dec(buffer[..newLength]), newPoint > decimalPoint && before > 0,
              length + fractionalCount - before);
    }
  }

  /** The digits before the point and the rounded digits after it, in units of the last place. */
  lemma Printed(s: seq<char>, d: seq<char>, up: bool, count: nat, rounded: nat)
    requires |d| <= count && (Dec(d) + if up then 1 else 0) * Pow(10, count - |d|) == rounded
    ensures (Dec(s + d) + if up then 1 else 0) * Pow(10, count - |d|) == Dec(s) * Pow(10, count) + rounded
    ensures s + d == [] ==> Dec(s + d) == 0
  {
    hide Pow, Dec;
    NoDigits();
    var a, z := Dec(s), Pow(10, count - |d|);
    DecAppend(s, d);
    PowAdd(10, |d|, count - |d|);
    MulAssoc(a, Pow(10, |d|), z);
    MulDistrib(z, a * Pow(10, |d|), Dec(d) + if up then 1 else 0);
  }

  lemma Carried(before: int, after: int, moved: bool, k: nat)
    requires after * (if moved then 10 else 1) == before + 1
    ensures after * Pow(10, k + if moved then 1 else 0) == (before + 1) * Pow(10, k)
  {
    assert Pow(10, k + 1) == 10 * Pow(10, k);
    MulAssoc(after, 10, Pow(10, k));
  }
}
