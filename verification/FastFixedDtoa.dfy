/**
 Fixed-point printing of a double from its significand and exponent: integer digits, fraction, trimming.
 */
module FastFixedDtoa {
  import opened Powers
  import opened Decimal
  import opened DigitRounding
  import opened UInt128Module
  import opened FixedDtoa

  // ----- integer digits -----

  function Reverse(s: seq<char>): (r: seq<char>)
    ensures |r| == |s|
  {
    if s == [] then [] else [s[|s| - 1]] + Reverse(s[..|s| - 1])
  }

  lemma {:induction false} ReverseAt(s: seq<char>, k: nat)
    requires k < |s|
    ensures Reverse(s)[k] == s[|s| - 1 - k]
  {
    if k > 0 { ReverseAt(s[..|s| - 1], k - 1); }
  }

  lemma DecOne(c: char)
    ensures Dec([c]) == Digit(c)
  {
    assert [c] == [] + [c];
    DecSnoc([], c);
    NoDigits();
  }

  lemma DecPrefix(c: char, s: seq<char>)
    ensures Dec([c] + s) == Digit(c) * Pow(10, |s|) + Dec(s)
  {
    hide Dec, Pow;
    DecAppend([c], s);
    DecOne(c);
  }

  /** A digit that is more significant than all before it. */
  lemma DecReverseSnoc(s: seq<char>, c: char)
    ensures Dec(Reverse(s + [c])) == Digit(c) * Pow(10, |s|) + Dec(Reverse(s))
  {
    assert (s + [c])[..|s|] == s;
    hide Dec, Pow;
    assert Reverse(s + [c]) == [c] + Reverse(s);
    DecPrefix(c, Reverse(s));
  }

  /** Moving the last digit of the number still to print to the front of the digits printed. */
  lemma TakeDigit(whole: nat, number: nat, printed: nat, p: nat)
    requires p > 0 && whole == number * p + printed
    ensures whole == number / 10 * (10 * p) + (number % 10 * p + printed)
  {
    var q, r := number / 10, number % 10;
    assert number * p == q * (10 * p) + r * p by {
      MulDistrib(p, q * 10, r);
      MulAssoc(q, 10, p);
    }
  }

  method FillDigits32FixedLength(number: nat, requestedLength: nat, buffer: array<char>, length: nat)
    returns (newLength: nat)
    requires number < Pow(10, requestedLength) && length + requestedLength <= buffer.Length
    modifies buffer
    ensures newLength == length + requestedLength && Appended(old(buffer[..]), buffer[..], length, newLength)
    ensures Dec(buffer[length..newLength]) == number
  {
    hide Pow, Dec;
    ghost var k, end := 0, length + requestedLength;
    var rest: nat := number;
    var i: int := requestedLength - 1;
    NoDigits();
    PowUnit(10);
    assert buffer[end..end] == [];
    while i >= 0
      invariant -1 <= i < requestedLength && k == requestedLength - 1 - i
      invariant number == rest * Pow(10, k) + Dec(buffer[end - k..end])
      invariant AllDigits(buffer[end - k..end]) && buffer[..length] == old(buffer[..length])
    {
      ghost var tail := buffer[end - k..end];
      PowPositive(10, k);
      DecBound(tail);
      TakeDigit(number, rest, Dec(tail), Pow(10, k));
      PowNext(10, k);
      var c := DigitChar(rest % 10);
      buffer[length + i] := c;
      rest := rest / 10;
      assert end - k - 1 == length + i && buffer[end - k..end] == tail;
      assert buffer[end - k - 1..end] == [buffer[end - k - 1]] + buffer[end - k..end];
      DecPrefix(c, tail);
      k := k + 1;
      i := i - 1;
    }
    newLength := length + requestedLength;
    DecBound(buffer[length..end]);
    if rest > 0 { MulMonotone(1, rest, Pow(10, k)); }
  }

  /** As many digits as the number has, none for zero. */
  ghost predicate Digits(s: seq<char>, number: nat)
  {
    && AllDigits(s) && Dec(s) == number
    && (number == 0 ==> s == []) && (s != [] ==> Pow(10, |s| - 1) <= number)
  }

  lemma DigitsAreDigits(s: seq<char>, number: nat)
    requires Digits(s, number)
    ensures AllDigits(s)
  {
  }

  lemma DigitsFit(s: seq<char>, number: nat, room: nat)
    requires Digits(s, number) && number < Pow(10, room)
    ensures |s| <= room
  {
    if |s| > room { PowMonotone(10, room, |s| - 1); }
  }

  /** The digits come out last one first and are then exchanged in place. */
  method FillDigits32(number: nat, buffer: array<char>, length: nat, ghost room: nat) returns (newLength: nat)
    requires number < Pow(10, room) && length + room <= buffer.Length
    modifies buffer
    ensures Appended(old(buffer[..]), buffer[..], length, newLength) && newLength <= length + room
    ensures Digits(buffer[length..newLength], number)
  {
    hide Pow, Dec, Reverse, Digits;
    var numberLength := ReversedDigits(number, buffer, length, room);
    Exchange(buffer, length, numberLength);
    newLength := length + numberLength;
    DigitsAreDigits(buffer[length..newLength], number);
  }

  method ReversedDigits(number: nat, buffer: array<char>, length: nat, ghost room: nat) returns (numberLength: nat)
    requires number < Pow(10, room) && length + room <= buffer.Length
    modifies buffer
    ensures numberLength <= room && buffer[..length] == old(buffer[..length])
    ensures AllDigits(buffer[length..length + numberLength])
    ensures Digits(Reverse(buffer[length..length + numberLength]), number)
  {
    hide Pow, Dec, Reverse;
    numberLength := 0;
    var rest: nat := number;
    NoDigits();
    PowUnit(10);
    assert Reverse([]) == [];
    assert buffer[length..length] == [];
    while rest != 0
      invariant numberLength <= room && rest * Pow(10, numberLength) <= number
      invariant numberLength > 0 ==> Pow(10, numberLength - 1) <= number
      invariant number == rest * Pow(10, numberLength) + Dec(Reverse(buffer[length..length + numberLength]))
      invariant AllDigits(buffer[length..length + numberLength]) && buffer[..length] == old(buffer[..length])
      invariant number == 0 ==> numberLength == 0
    {
      ghost var k, s := numberLength, buffer[length..length + numberLength];
      PowPositive(10, k);
      MulMonotone(1, rest, Pow(10, k));
      if k >= room { PowMonotone(10, room, k); }
      TakeDigit(number, rest, number - rest * Pow(10, k), Pow(10, k));
      PowNext(10, k);
      var digit := rest % 10;
      rest := rest / 10;
      buffer[length + numberLength] := DigitChar(digit);
      numberLength := numberLength + 1;
      assert buffer[length..length + numberLength] == s + [DigitChar(digit)];
      DecReverseSnoc(s, DigitChar(digit));
      MulNonneg(digit, Pow(10, k));
    }
    MulNonneg(0, Pow(10, numberLength));
    ReverseDigits(buffer[length..length + numberLength]);
  }

  lemma ReverseDigits(s: seq<char>)
    requires AllDigits(s)
    ensures AllDigits(Reverse(s))
  {
    forall k | 0 <= k < |s| ensures '0' <= Reverse(s)[k] <= '9' { ReverseAt(s, k); }
  }

  method Exchange(buffer: array<char>, length: nat, numberLength: nat)
    requires length + numberLength <= buffer.Length
    modifies buffer
    ensures buffer[..length] == old(buffer[..length])
    ensures buffer[length..length + numberLength] == Reverse(old(buffer[length..length + numberLength]))
  {
    hide Reverse;
    ghost var b, s := buffer[..], buffer[length..length + numberLength];
    ghost var ends := length + length + numberLength - 1;
    var i: int := length;
    var j: int := length + numberLength - 1;
    while i < j
      invariant length <= i <= j + 2 && i + j == ends
      invariant buffer[..length] == b[..length]
      invariant forall k :: length <= k < i || j < k < length + numberLength ==> buffer[k] == b[ends - k]
      invariant forall k :: i <= k <= j ==> buffer[k] == b[k]
    {
      var tmp := buffer[i];
      buffer[i] := buffer[j];
      buffer[j] := tmp;
      i := i + 1;
      j := j - 1;
    }
    assert i == j ==> ends - i == i;
    forall k | 0 <= k < numberLength
      ensures buffer[length..length + numberLength][k] == Reverse(s)[k]
    {
      ReverseAt(s, k);
      assert buffer[length + k] == b[ends - (length + k)];
    }
  }

  const TEN7: nat := 10000000

  /** Seventeen digits, printed as three words. */
  method FillDigits64FixedLength(number: nat, buffer: array<char>, length: nat) returns (newLength: nat)
    requires number < 100000000000000000 && length + 17 <= buffer.Length
    modifies buffer
    ensures newLength == length + 17 && Appended(old(buffer[..]), buffer[..], length, newLength)
    ensures Dec(buffer[length..newLength]) == number
  {
    hide Pow, Dec, Appended, AllDigits;
    TenPowers();
    var part2 := number % TEN7;
    var rest := number / TEN7;
    var part1 := rest % TEN7;
    var part0 := rest / TEN7;
    ghost var b0 := buffer[..];
    newLength := FillDigits32FixedLength(part0, 3, buffer, length);
    ghost var b1 := buffer[..];
    newLength := FillDigits32FixedLength(part1, 7, buffer, newLength);
    ghost var b2 := buffer[..];
    newLength := FillDigits32FixedLength(part2, 7, buffer, newLength);
    AppendedTwice(b0, b1, b2, length, length + 3, length + 10);
    AppendedTwice(b0, b2, buffer[..], length, length + 10, newLength);
    DecAppend(b1[length..length + 3], b2[length + 3..length + 10]);
    DecAppend(b2[length..length + 10], buffer[length + 10..newLength]);
  }

  /** Two pieces appended one after the other. */
  lemma AppendedTwice(b0: seq<char>, b1: seq<char>, b2: seq<char>, length: nat, middle: nat, end: nat)
    requires Appended(b0, b1, length, middle) && Appended(b1, b2, middle, end)
    ensures Appended(b0, b2, length, end)
    ensures b2[length..end] == b1[length..middle] + b2[middle..end]
    ensures AllDigits(b1[length..middle]) && AllDigits(b2[middle..end])
  {
    assert forall k :: 0 <= k < middle ==> b2[k] == b2[..middle][k] == b1[k];
    assert forall k :: 0 <= k < length ==> b1[k] == b1[..length][k] == b0[k];
    assert forall k :: length <= k < middle ==> b1[k] == b1[length..middle][k - length];
    assert forall k :: middle <= k < end ==> b2[k] == b2[middle..end][k - middle];
  }

  lemma TenPowers()
    ensures Pow(10, 3) == 1000 && Pow(10, 7) == TEN7 && Pow(10, 14) == TEN7 * TEN7
    ensures Pow(10, 17) == 100000000000000000
  {
    assert Pow(10, 3) == 1000 && Pow(10, 4) == 10000;
    PowAdd(10, 3, 4);
    PowAdd(10, 7, 7);
    PowAdd(10, 3, 14);
  }

  /** Digits of a number followed by a fixed number of digits of another. */
  lemma DigitsAppend(s: seq<char>, t: seq<char>, high: nat, low: nat)
    requires Digits(s, high) && high > 0 && AllDigits(t) && Dec(t) == low
    ensures 0 <= high * Pow(10, |t|) && Digits(s + t, high * Pow(10, |t|) + low)
  {
    DecAppend(s, t);
    NoDigits();
    PowAdd(10, |s| - 1, |t|);
    PowPositive(10, |t|);
    MulMonotone(Pow(10, |s| - 1), high, Pow(10, |t|));
    MulPositive(high, Pow(10, |t|));
  }

  method FillDigits64(number: nat, buffer: array<char>, length: nat, ghost room: nat) returns (newLength: nat)
    requires number < TWO64 && number < Pow(10, room) && length + room <= buffer.Length
    modifies buffer
    ensures Appended(old(buffer[..]), buffer[..], length, newLength) && newLength <= length + room
    ensures Digits(buffer[length..newLength], number)
  {
    hide Pow, Dec, Digits, Appended, AllDigits;
    TenPowers();
    var part2 := number % TEN7;
    var rest := number / TEN7;
    var part1 := rest % TEN7;
    var part0 := rest / TEN7;
    ghost var b0 := buffer[..];
    if part0 != 0 {
      DropPlaces(number, TEN7 * TEN7, 14, room);
      newLength := FillDigits32(part0, buffer, length, room - 14);
      ghost var n, b1 := newLength, buffer[..];
      newLength := FillDigits32FixedLength(part1, 7, buffer, newLength);
      ghost var b2 := buffer[..];
      newLength := FillDigits32FixedLength(part2, 7, buffer, newLength);
      AppendedTwice(b0, b1, b2, length, n, n + 7);
      AppendedTwice(b0, b2, buffer[..], length, n + 7, newLength);
      DigitsAppend(b1[length..n], b2[n..n + 7], part0, part1);
      DigitsAppend(b2[length..n + 7], buffer[n + 7..newLength], part0 * TEN7 + part1, part2);
    } else if part1 != 0 {
      DropPlaces(number, TEN7, 7, room);
      newLength := FillDigits32(part1, buffer, length, room - 7);
      ghost var n, b1 := newLength, buffer[..];
      newLength := FillDigits32FixedLength(part2, 7, buffer, newLength);
      AppendedTwice(b0, b1, buffer[..], length, n, newLength);
      DigitsAppend(b1[length..n], buffer[n..newLength], part1, part2);
    } else {
      newLength := FillDigits32(part2, buffer, length, room);
    }
  }

  /** Without its last places a number needs that much less room. */
  lemma DropPlaces(number: nat, p: nat, places: nat, room: nat)
    requires p == Pow(10, places) && p <= number < Pow(10, room)
    ensures places <= room && p > 0 && number / p < Pow(10, room - places)
  {
    PowPositive(10, places);
    if room < places { PowMonotone(10, room, places); }
    PowAdd(10, room - places, places);
    DivModFacts(number, p);
    if number / p >= Pow(10, room - places) { MulMonotone(Pow(10, room - places), number / p, p); }
  }

  // ----- trimming -----

  /** Drops zeros at both ends in place; the number printed stays the same. */
  method TrimZeros(buffer: array<char>, length: nat, decimalPoint: int) returns (newLength: nat, newPoint: int)
    requires length <= buffer.Length && AllDigits(buffer[..length])
    modifies buffer
    ensures newLength <= length && AllDigits(buffer[..newLength])
    ensures newLength > 0 ==> buffer[0] != '0' && buffer[newLength - 1] != '0'
    ensures newPoint - newLength >= decimalPoint - length
    ensures Dec(buffer[..newLength]) * Pow(10, (newPoint - newLength) - (decimalPoint - length))
         == Dec(old(buffer[..length]))
  {
    hide Pow, Dec;
    newLength, newPoint := length, decimalPoint;
    PowUnit(10);
    while newLength > 0 && buffer[newLength - 1] == '0'
      invariant newLength <= length && buffer[..] == old(buffer[..])
      invariant Dec(buffer[..newLength]) * Pow(10, length - newLength) == Dec(old(buffer[..length]))
    {
      assert buffer[..newLength] == buffer[..newLength - 1] + ['0'];
      DecSnoc(buffer[..newLength - 1], '0');
      PowNext(10, length - newLength);
      MulAssoc(Dec(buffer[..newLength - 1]), 10, Pow(10, length - newLength));
      MulAssoc(10, Dec(buffer[..newLength - 1]), 1);
      newLength := newLength - 1;
    }
    var firstNonZero := 0;
    while firstNonZero < newLength && buffer[firstNonZero] == '0'
      invariant firstNonZero <= newLength
      invariant forall k :: 0 <= k < firstNonZero ==> buffer[k] == '0'
    {
      firstNonZero := firstNonZero + 1;
    }
    ghost var s := buffer[..newLength];
    LeadingZeros(s, firstNonZero);
    if firstNonZero != 0 {
      MoveDown(buffer, firstNonZero, newLength);
      newLength := newLength - firstNonZero;
      newPoint := newPoint - firstNonZero;
    }
    TailDigits(s, firstNonZero);
    assert buffer[..newLength] == s[firstNonZero..];
    assert newLength > 0 ==> buffer[0] == s[firstNonZero] && buffer[newLength - 1] == s[|s| - 1];
  }

  method MoveDown(buffer: array<char>, from: nat, to: nat)
    requires from <= to <= buffer.Length
    modifies buffer
    ensures buffer[..to - from] == old(buffer[from..to])
  {
    ghost var b := buffer[..];
    for i := from to to
      invariant forall k :: 0 <= k < i - from ==> buffer[k] == b[k + from]
      invariant forall k :: i <= k < to ==> buffer[k] == b[k]
    {
      buffer[i - from] := buffer[i];
    }
  }

  lemma TailDigits(s: seq<char>, n: nat)
    requires n <= |s| && AllDigits(s)
    ensures AllDigits(s[n..])
  {
  }

  lemma LeadingZeros(s: seq<char>, n: nat)
    requires n <= |s| && forall k :: 0 <= k < n ==> s[k] == '0'
    ensures Dec(s[n..]) == Dec(s)
  {
    assert s == s[..n] + s[n..];
    DecAppend(s[..n], s[n..]);
    DecZeros(s[..n]);
  }

  // ----- the whole -----

  /** significand * 2^exponent, times 10^count, rounded half up to an integer. */
  ghost function Fixed(significand: nat, exponent: int, count: nat): nat
  {
    if exponent >= 0 then
      significand * Pow(2, exponent) * Pow(10, count)
    else
      PowPositive(2, -exponent); RoundHalfUp(significand * Pow(10, count), Pow(2, -exponent))
  }

  /** What the buffer must show: the digits, with the point where it is, are the rounded number. */
  ghost predicate Shows(s: seq<char>, decimalPoint: int, count: nat, rounded: nat)
  {
    && AllDigits(s) && decimalPoint - |s| + count >= 0
    && Dec(s) * Pow(10, decimalPoint - |s| + count) == rounded
  }

  lemma ExactShows(s: seq<char>, significand: nat, exponent: nat, count: nat)
    requires AllDigits(s) && Dec(s) == significand * Pow(2, exponent)
    ensures Shows(s, |s|, count, Fixed(significand, exponent, count))
  {
  }

  const FIVE17: nat := 762939453125
  const TEN17: nat := 100000000000000000

  lemma LargePowers()
    ensures Pow(2, 17) == 131072 && Pow(2, 20) == 1048576 && Pow(2, 53) == 9007199254740992
    ensures Pow(2, 5) == 32 && Pow(2, 3) == 8 && Pow(10, 5) == 100000
  {
    PowersOfTwo();
    assert Pow(2, 5) == 32 && Pow(2, 3) == 8 && Pow(10, 5) == 100000;
    PowAdd(2, 16, 1);
    PowAdd(2, 16, 4);
    PowAdd(2, 32, 16);
    PowAdd(2, 48, 5);
  }

  /** Dividing by 10^17 as 5^17 and 2^17: the quotient is small and the remainder fits a word. */
  lemma LargeSplit(significand: nat, exponent: nat, quotient: nat, remainder: nat, low: nat, high: nat)
    requires significand < Pow(2, 53) && 12 <= exponent <= 20
    requires exponent > 17 ==> low == 17 && high == 0
    requires exponent <= 17 ==> low == exponent && high == 17 - exponent
    requires significand * Pow(2, exponent - low) == quotient * (FIVE17 * Pow(2, high)) + remainder
    requires remainder < FIVE17 * Pow(2, high)
    ensures quotient < Pow(10, 5) && remainder * Pow(2, low) < TEN17
    ensures significand * Pow(2, exponent) == quotient * TEN17 + remainder * Pow(2, low)
  {
    hide Pow;
    LargePowers();
    PowAdd(2, exponent - low, low);
    PowAdd(2, high, low);
    PowPositive(2, low);
    assert high + low == 17;
    PowMonotone(2, exponent, 20);
    PowPositive(2, exponent);
    LargeSplitAt(significand, Pow(2, exponent - low), Pow(2, low), Pow(2, high), Pow(2, exponent), quotient, remainder);
  }

  lemma LargeSplitAt(f: nat, up: nat, l: nat, h: nat, p: nat, quotient: nat, remainder: nat)
    requires f * up == quotient * (FIVE17 * h) + remainder && remainder < FIVE17 * h
    requires h * l == 131072 && up * l == p && p <= 1048576 && f < 9007199254740992 && l > 0
    ensures quotient < 100000 && 0 <= remainder * l < TEN17
    ensures f * p == quotient * TEN17 + remainder * l
  {
    MulNonneg(remainder, l);
    assert f * p == quotient * TEN17 + remainder * l by {
      MulAssoc(f, up, l);
      MulDistrib(l, quotient * (FIVE17 * h), remainder);
      MulAssoc(quotient, FIVE17 * h, l);
      MulAssoc(FIVE17, h, l);
    }
    MulStrict(remainder, FIVE17 * h, l);
    MulAssoc(FIVE17, h, l);
    MulMonotone2(f, 9007199254740991, p, 1048576);
  }

  /** Up to 73 bits: the number over 10^17, then seventeen more digits. */
  method LargeDigits(significand: nat, exponent: nat, buffer: array<char>, ghost room: nat) returns (length: nat)
    requires significand < Pow(2, 53) && 12 <= exponent <= 20
    requires 17 <= room <= buffer.Length && significand * Pow(2, exponent) < Pow(10, room)
    modifies buffer
    ensures length <= room && AllDigits(buffer[..length])
    ensures Dec(buffer[..length]) == significand * Pow(2, exponent)
  {
    hide Pow, Dec;
    LargePowers();
    TenPowers();
    var quotient, remainder;
    if exponent > 17 {
      LargeDividend(significand, exponent - 17);
      var dividend := significand * Pow(2, exponent - 17);
      assert dividend < TWO64;
      quotient := dividend / FIVE17;
      remainder := dividend % FIVE17;
      PowUnit(2);
      LargeSplit(significand, exponent, quotient, remainder, 17, 0);
      remainder := remainder * Pow(2, 17);
    } else {
      LargeDivisor(17 - exponent);
      PowUnit(2);
      var divisor := FIVE17 * Pow(2, 17 - exponent);
      assert divisor < TWO64;
      quotient := significand / divisor;
      remainder := significand % divisor;
      DivModFacts(significand, divisor);
      LargeSplit(significand, exponent, quotient, remainder, exponent, 17 - exponent);
      remainder := remainder * Pow(2, exponent);
    }
    assert remainder < TWO64;
    QuotientRoom(significand * Pow(2, exponent), quotient, remainder, room);
    length := FillDigits32(quotient, buffer, 0, room - 17);
    ghost var n, s := length, buffer[0..length];
    length := FillDigits64FixedLength(remainder, buffer, length);
    ghost var t := buffer[n..length];
    assert buffer[..length] == s + t;
    DecAppend(s, t);
  }

  lemma QuotientRoom(whole: nat, quotient: nat, rest: nat, room: nat)
    requires whole == quotient * TEN17 + rest && whole < Pow(10, room) && room >= 17
    ensures quotient < Pow(10, room - 17)
  {
    TenPowers();
    PowAdd(10, room - 17, 17);
    hide Pow;
    MulCancelLess(quotient, Pow(10, room - 17), TEN17);
  }

  lemma LargeDividend(f: nat, k: nat)
    requires f < Pow(2, 53) && k <= 3
    ensures 0 <= f * Pow(2, k) < TWO64
  {
    hide Pow;
    LargePowers();
    PowMonotone(2, k, 3);
    MulMonotone2(f, Pow(2, 53), Pow(2, k), 8);
  }

  lemma LargeDivisor(k: nat)
    requires k <= 5
    ensures 0 < FIVE17 * Pow(2, k) < TWO64
  {
    hide Pow;
    LargePowers();
    PowPositive(2, k);
    PowMonotone(2, k, 5);
  }

  /** Up to 64 bits without a fraction. */
  method IntegerDigits(significand: nat, exponent: nat, buffer: array<char>, ghost room: nat) returns (length: nat)
    requires significand < Pow(2, 53) && exponent <= 11
    requires room <= buffer.Length && significand * Pow(2, exponent) < Pow(10, room)
    modifies buffer
    ensures length <= room && AllDigits(buffer[..length])
    ensures Dec(buffer[..length]) == significand * Pow(2, exponent)
  {
    hide Pow, Dec;
    ShiftedFits(significand, exponent);
    var shifted := ShiftLeft(significand, exponent);
    length := FillDigits64(shifted, buffer, 0, room);
    assert buffer[0..length] == buffer[..length];
  }

  lemma ShiftedFits(f: nat, k: nat)
    requires f < Pow(2, 53) && k <= 11
    ensures ShiftLeft(f, k) == f * Pow(2, k) < TWO64
  {
    hide Pow;
    LargePowers();
    TenPowers();
    PowersOfTwo();
    PowAdd(10, 17, 3);
    PowMonotone(2, k, 11);
    PowAdd(2, 53, 11);
    PowPositive(2, k);
    MulNonneg(f, Pow(2, k));
    MulStrict(f, Pow(2, 53), Pow(2, k));
    MulMonotone(Pow(2, k), Pow(2, 11), Pow(2, 53));
  }

  /** Integer part and fraction of a number with its point inside the significand. */
  lemma CutNumber(f: nat, p: nat, integrals: nat, fractionals: nat, count: nat)
    requires f == integrals * Pow(2, p) + fractionals && fractionals < Pow(2, p)
    ensures Pow(2, p) > 0 && 0 <= integrals * Pow(10, count)
    ensures RoundHalfUp(f * Pow(10, count), Pow(2, p))
         == integrals * Pow(10, count) + RoundHalfUp(fractionals * Pow(10, count), Pow(2, p))
  {
    hide Pow;
    PowPositive(2, p);
    PowPositive(10, count);
    var d, z := Pow(2, p), Pow(10, count);
    MulNonneg(integrals, z);
    MulNonneg(fractionals, z);
    var whole, n := integrals * z, fractionals * z;
    assert f * z == whole * d + n by {
      MulDistrib(z, integrals * d, fractionals);
      SwapFactors(integrals, d, z);
    }
    var x := 2 * n + d;
    DivModFacts(x, 2 * d);
    var q, r := x / (2 * d), x % (2 * d);
    assert 2 * (f * z) + d == (whole + q) * (2 * d) + r by {
      MulDistrib(2 * d, whole, q);
      MulAssoc(whole, 2, d);
      MulAssoc(2, whole, d);
    }
    DivModUnique(2 * (f * z) + d, 2 * d, whole + q, r);
  }

  method MixedDigits(significand: nat, exponent: int, fractionalCount: nat, buffer: array<char>, ghost room: nat)
    returns (length: nat, decimalPoint: int)
    requires significand < Pow(2, 53) && -53 < exponent < 0 && Pow(2, -exponent) > 0
    requires significand / Pow(2, -exponent) < Pow(10, room) && Max(1, room + fractionalCount) < buffer.Length
    modifies buffer
    ensures length < buffer.Length
    ensures Shows(buffer[..length], decimalPoint, fractionalCount, Fixed(significand, exponent, fractionalCount))
  {
    hide Pow, Dec, RoundHalfUp;
    var shift := -exponent;
    MixedParts(significand, shift);
    var integrals := ShiftRight(significand, shift);
    var fractionals := significand - ShiftLeft(integrals, shift);
    if integrals > 0xFFFF_FFFF {
      length := FillDigits64(integrals, buffer, 0, room);
    } else {
      length := FillDigits32(integrals, buffer, 0, room);
    }
    assert buffer[0..length] == buffer[..length];
    decimalPoint := length;
    CutNumber(significand, shift, integrals, fractionals, fractionalCount);
    length, decimalPoint := FillFractionals(fractionals, exponent, fractionalCount, buffer, length, decimalPoint);
  }

  lemma MixedParts(f: nat, shift: nat)
    requires f < Pow(2, 53) && 0 < shift < 53
    ensures Pow(2, shift) > 0
    ensures var q := ShiftRight(f, shift);
      && q == f / Pow(2, shift) < TWO64 && ShiftLeft(q, shift) <= f && ShiftLeft(q, shift) == q * Pow(2, shift)
      && f - ShiftLeft(q, shift) < Pow(2, shift) && f - ShiftLeft(q, shift) < Pow(2, 56)
  {
    hide Pow;
    LargePowers();
    TenPowers();
    PowMonotone(2, 53, 56);
    WordKept(f, shift);
    DivModFacts(f, Pow(2, shift));
  }

  method PureFraction(significand: nat, exponent: int, fractionalCount: nat, buffer: array<char>)
    returns (length: nat, decimalPoint: int)
    requires significand < Pow(2, 53) && -128 <= exponent <= -53 && Max(1, fractionalCount) < buffer.Length
    modifies buffer
    ensures length < buffer.Length
    ensures Shows(buffer[..length], decimalPoint, fractionalCount, Fixed(significand, exponent, fractionalCount))
  {
    hide Pow, Dec, RoundHalfUp;
    PowMonotone(2, 53, -exponent);
    PowMonotone(2, 53, 56);
    NoDigits();
    assert buffer[..0] == [];
    length, decimalPoint := FillFractionals(significand, exponent, fractionalCount, buffer, 0, 0);
  }

  /** Below 2^-128 a double rounds to zero at twenty places. */
  lemma NothingToShow(significand: nat, exponent: int, count: nat)
    requires significand < Pow(2, 53) && exponent < -128 && count <= 20
    ensures Shows([], 0 - count, count, Fixed(significand, exponent, count))
  {
    hide Pow;
    LargePowers();
    TenPowers();
    NoDigits();
    PowAdd(10, 17, 3);
    PowersOfTwo();
    PowAdd(2, 64, 64);
    PowPositive(10, count);
    PowMonotone(10, count, 20);
    PowMonotone(2, 128, -exponent);
    MulMonotone2(significand, Pow(2, 53), Pow(10, count), Pow(10, 20));
    MulNonneg(significand, Pow(10, count));
    var n, d := significand * Pow(10, count), Pow(2, -exponent);
    DivModUnique(2 * n + d, 2 * d, 0, 2 * n + d);
    MulNonneg(0, Pow(10, 0));
  }

  lemma Trimmed(s: seq<char>, point: int, t: seq<char>, newPoint: int, count: nat, rounded: nat)
    requires Shows(s, point, count, rounded) && AllDigits(t)
    requires newPoint - |t| >= point - |s|
    requires Dec(t) * Pow(10, (newPoint - |t|) - (point - |s|)) == Dec(s)
    ensures Shows(t, newPoint, count, rounded)
    ensures t == [] ==> Shows(t, 0 - count, count, rounded)
  {
    hide Pow, Dec;
    var a, b := (newPoint - |t|) - (point - |s|), point - |s| + count;
    PowAdd(10, a, b);
    MulAssoc(Dec(t), Pow(10, a), Pow(10, b));
    NoDigits();
    MulNonneg(0, Pow(10, a + b));
    MulNonneg(0, Pow(10, 0));
  }

  lemma ShowsDigits(s: seq<char>, decimalPoint: int, count: nat, rounded: nat)
    requires Shows(s, decimalPoint, count, rounded)
    ensures AllDigits(s)
  {
  }

  /** significand * 2^exponent without its fraction. */
  function Whole(significand: nat, exponent: int): nat
  {
    if exponent >= 0 then MulNonneg(significand, Pow(2, exponent)); significand * Pow(2, exponent)
    else PowPositive(2, -exponent); significand / Pow(2, -exponent)
  }

  /** A significand with the hidden bit set, or the smallest exponent. */
  predicate Normal(significand: nat, exponent: int)
  {
    0x10_0000_0000_0000 <= significand < 0x20_0000_0000_0000 || (significand < 0x10_0000_0000_0000 && exponent == -1074)
  }

  lemma NormalFits(significand: nat, exponent: int)
    requires Normal(significand, exponent)
    ensures significand < Pow(2, 53)
  {
    hide Pow;
    LargePowers();
  }

  /** From 2^64 on there are at least seventeen digits. */
  lemma LargeRoom(significand: nat, exponent: int, room: nat)
    requires Normal(significand, exponent) && exponent >= 12 && Whole(significand, exponent) < Pow(10, room)
    ensures 17 <= room
  {
    hide Pow;
    LargePowers();
    TenPowers();
    PowMonotone(2, 5, exponent);
    MulMonotone2(0x10_0000_0000_0000, significand, 32, Pow(2, exponent));
    if room < 17 { PowMonotone(10, room, 17); }
  }

  /**
   Prints the double exactly rounded half up to the requested number of places, with no zeros at either end, or
   says that it cannot: then the exponent or the count is above 20. The buffer needs room for the digits before the
   point, the places, and the terminator, at least for one digit.
   */
  method Print(significand: nat, exponent: int, fractionalCount: nat, buffer: array<char>, ghost room: nat)
    returns (done: bool, length: nat, decimalPoint: int)
    requires Normal(significand, exponent)
    requires exponent <= 20 && fractionalCount <= 20 ==>
      Whole(significand, exponent) < Pow(10, room) && Max(1, room + fractionalCount) < buffer.Length
    modifies buffer
    ensures done <==> exponent <= 20 && fractionalCount <= 20
    ensures !done ==> buffer[..] == old(buffer[..])
    ensures done ==> length < buffer.Length && buffer[length] == '\0'
    ensures done ==>
      Shows(buffer[..length], decimalPoint, fractionalCount, Fixed(significand, exponent, fractionalCount))
    ensures done && length > 0 ==> buffer[0] != '0' && buffer[length - 1] != '0'
    ensures done && length == 0 ==> decimalPoint == 0 - fractionalCount
  {
    hide Pow, Dec, Fixed, Shows;
    NormalFits(significand, exponent);
    if exponent < 0 { PowPositive(2, -exponent); }
    if exponent > 20 { return false, 0, 0; }
    if fractionalCount > 20 { return false, 0, 0; }
    done := true;
    length, decimalPoint := 0, 0;
    if exponent + 53 > 64 {
      LargeRoom(significand, exponent, room);
      length := LargeDigits(significand, exponent, buffer, room);
      decimalPoint := length;
      ExactShows(buffer[..length], significand, exponent, fractionalCount);
    } else if exponent >= 0 {
      length := IntegerDigits(significand, exponent, buffer, room);
      decimalPoint := length;
      ExactShows(buffer[..length], significand, exponent, fractionalCount);
    } else if exponent > -53 {
      length, decimalPoint := MixedDigits(significand, exponent, fractionalCount, buffer, room);
    } else if exponent < -128 {
      buffer[0] := '\0';
      length := 0;
      decimalPoint := 0 - fractionalCount;
      assert buffer[..0] == [];
      NothingToShow(significand, exponent, fractionalCount);
    } else {
      decimalPoint := 0;
      length, decimalPoint := PureFraction(significand, exponent, fractionalCount, buffer);
    }
    ghost var s, point, rounded := buffer[..length], decimalPoint, Fixed(significand, exponent, fractionalCount);
    ShowsDigits(s, point, fractionalCount, rounded);
    length, decimalPoint := TrimZeros(buffer, length, decimalPoint);
    ghost var t := buffer[..length];
    Trimmed(s, point, t, decimalPoint, fractionalCount, rounded);
    buffer[length] := '\0';
    assert buffer[..length] == t;
    if length == 0 { decimalPoint := 0 - fractionalCount; }
  }

  /**
   Where printing a double shifts by -1: an odd significand with no more bits after the point than places asked for.
   */
  lemma PrintShiftsPastTheEnd(significand: nat, exponent: int, count: nat)
    requires Normal(significand, exponent) && -128 <= exponent < 0 && count <= 20
    ensures Pow(2, -exponent) > 0
    ensures ShiftsPastTheEnd(if exponent > -53 then significand % Pow(2, -exponent) else significand, exponent, count)
       <==> significand % 2 == 1 && -exponent <= count
  {
    PowPositive(2, -exponent);
    PowNext(2, -exponent - 1);
    hide Pow;
    EvenModulus(significand, Pow(2, -exponent), Pow(2, -exponent - 1));
  }

  lemma EvenModulus(x: nat, d: nat, m: nat)
    requires d == 2 * m > 0
    ensures x % d % 2 == x % 2
  {
    var q := x / d;
    DivModFacts(x, d);
    MulAssoc(q, m, 2);
    MulAssoc(m, 2, 1);
    Parity(0, q * m, x, x % d);
  }

  /** 2251799813685248.5 to one place. */
  lemma HalfAfterManyDigits()
    ensures Normal(0x10_0000_0000_0001, -1) && Whole(0x10_0000_0000_0001, -1) == 2251799813685248
    ensures ShiftsPastTheEnd(0x10_0000_0000_0001 % 2, -1, 1)
  {
    PowUnit(2);
  }
}
