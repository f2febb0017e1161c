/**
 An unsigned 128-bit number in two 64-bit words, with the few operations fixed-point printing needs.
 */
module UInt128Module {
  import opened Powers

  const TWO32: nat := 0x1_0000_0000
  const TWO64: nat := 0x1_0000_0000_0000_0000

  /** A shift of a 64-bit word. The counts that the language leaves undefined occur on zero only. */
  function ShiftRight(x: nat, count: int): nat
    requires x == 0 || 0 <= count < 64
  {
    if x == 0 then 0 else PowPositive(2, count); x / Pow(2, count)
  }

  function ShiftLeft(x: nat, count: int): nat
    requires x == 0 || 0 <= count < 64
  {
    if x == 0 then 0 else x * Pow(2, count) % TWO64
  }

  /** Splitting a word at bit s and moving both halves up. */
  lemma SplitWord(x: nat, s: nat)
    requires x < TWO64 && 0 < s < 64
    ensures Pow(2, s) > 0 && Pow(2, 64 - s) > 0 && Pow(2, s) * Pow(2, 64 - s) == TWO64
    ensures x * Pow(2, 64 - s) == x / Pow(2, s) * TWO64 + x * Pow(2, 64 - s) % TWO64
    ensures x * Pow(2, 64 - s) % TWO64 == x % Pow(2, s) * Pow(2, 64 - s)
  {
    hide Pow;
    PowersOfTwo();
    PowAdd(2, s, 64 - s);
    PowPositive(2, s);
    PowPositive(2, 64 - s);
    SplitAt(x, Pow(2, s), Pow(2, 64 - s), TWO64);
  }

  lemma SplitAt(x: nat, a: nat, b: nat, w: nat)
    requires a > 0 && b > 0 && a * b == w
    ensures w > 0 && x * b == x / a * w + x * b % w && x * b % w == x % a * b
  {
    MulPositive(a, b);
    DivModFacts(x, a);
    var q, r := x / a, x % a;
    assert x * b == q * w + r * b by {
      MulDistrib(b, q * a, r);
      MulAssoc(q, a, b);
    }
    MulStrict(r, a, b);
    MulNonneg(r, b);
    DivModUnique(x * b, w, q, r * b);
  }

  /** Dividing high * 2^64 + low by 2^s, word by word. */
  lemma ShiftWords(high: nat, low: nat, a: nat, b: nat)
    requires a > 0 && b > 0 && a * b == TWO64 && low < TWO64
    ensures high * b % TWO64 + low / a < TWO64
    ensures (high * TWO64 + low) / a == high / a * TWO64 + (high * b % TWO64 + low / a)
  {
    SplitAt(high, a, b, TWO64);
    DivModFacts(low, a);
    DivModFacts(high, a);
    var q, r := low / a, low % a;
    assert q < b by {
      if q >= b {
        MulMonotone(b, q, a);
        MulAssoc(a, b, 1);
      }
    }
    MulMonotone(high % a + 1, a, b);
    MulDistrib(b, high % a, 1);
    assert high * TWO64 + low == (high * b + q) * a + r by {
      MulDistrib(a, high * b, q);
      MulAssoc(high, b, a);
      MulAssoc(a, b, 1);
    }
    DivModUnique(high * TWO64 + low, a, high * b + q, r);
  }

  class UInt128 {
    var highBits: nat
    var lowBits: nat

    ghost predicate Valid()
      reads this
    {
      highBits < TWO64 && lowBits < TWO64
    }

    ghost function Value(): nat
      reads this
    {
      highBits * TWO64 + lowBits
    }

    constructor (high: nat, low: nat)
      requires high < TWO64 && low < TWO64
      ensures Valid() && Value() == high * TWO64 + low
    {
      highBits, lowBits := high, low;
    }

    /** Exact multiplication; no partial sum leaves 64 bits and the assertion on the last carry holds. */
    method Multiply(multiplicand: nat)
      requires Valid() && multiplicand < TWO32 && Value() * multiplicand < TWO64 * TWO64
      modifies this
      ensures Valid() && Value() == old(Value()) * multiplicand
    {
      ghost var l0, l1 := lowBits % TWO32, lowBits / TWO32;
      ghost var h0, h1 := highBits % TWO32, highBits / TWO32;
      HalfProduct(l0, multiplicand, 0);
      var accumulator := lowBits % TWO32 * multiplicand;
      var part := accumulator % TWO32;
      ghost var p0 := part;
      accumulator := accumulator / TWO32;
      ghost var c0 := accumulator;
      HalfProduct(l1, multiplicand, c0);
      accumulator := accumulator + lowBits / TWO32 * multiplicand;
      ghost var a1 := accumulator;
      lowBits := accumulator * TWO32 % TWO64 + part;
      accumulator := accumulator / TWO32;
      ghost var c1 := accumulator;
      HalfProduct(h0, multiplicand, c1);
      accumulator := accumulator + highBits % TWO32 * multiplicand;
      part := accumulator % TWO32;
      accumulator := accumulator / TWO32;
      ghost var c2 := accumulator;
      HalfProduct(h1, multiplicand, c2);
      accumulator := accumulator + highBits / TWO32 * multiplicand;
      highBits := accumulator * TWO32 % TWO64 + part;
      ProductWords(l0, l1, h0, h1, multiplicand, p0, c0, a1, part, c1, c2, accumulator, lowBits, highBits,
                   old(Value()));
      assert accumulator / TWO32 == 0;
    }

    /** A right shift drops bits, a left shift loses what leaves the 128 bits. */
    method Shift(shiftAmount: int)
      requires Valid() && -64 <= shiftAmount <= 64
      modifies this
      ensures Valid()
      ensures shiftAmount >= 0 ==> Pow(2, shiftAmount) > 0 && Value() == old(Value()) / Pow(2, shiftAmount)
      ensures shiftAmount < 0 ==> Value() == old(Value()) * Pow(2, -shiftAmount) % (TWO64 * TWO64)
    {
      hide Pow, ShiftRight, ShiftLeft;
      PowersOfTwo();
      ghost var h, l := highBits, lowBits;
      if shiftAmount == 0 {
        DivModUnique(Value(), 1, Value(), 0);
      } else if shiftAmount == -64 {
        highBits := lowBits;
        lowBits := 0;
        DivModUnique((h * TWO64 + l) * TWO64, TWO64 * TWO64, h, l * TWO64);
      } else if shiftAmount == 64 {
        lowBits := highBits;
        highBits := 0;
        DivModUnique(h * TWO64 + l, TWO64, h, l);
      } else if shiftAmount <= 0 {
        WordsLeft(h, l, -shiftAmount);
        highBits := ShiftLeft(highBits, -shiftAmount);
        highBits := highBits + ShiftRight(lowBits, 64 + shiftAmount);
        lowBits := ShiftLeft(lowBits, -shiftAmount);
      } else {
        WordsRight(h, l, shiftAmount);
        lowBits := ShiftRight(lowBits, shiftAmount);
        lowBits := lowBits + ShiftLeft(highBits, 64 - shiftAmount);
        highBits := ShiftRight(highBits, shiftAmount);
      }
    }

    /** Takes the bits from power upwards off the number; they must fit the source's int. */
    method DivModPowerOf2(power: int) returns (result: nat)
      requires Valid() && 0 <= power < 128 && Pow(2, power) > 0 && Value() / Pow(2, power) < 0x8000_0000
      requires power == 0 ==> highBits == 0
      modifies this
      ensures Valid() && result == old(Value()) / Pow(2, power) && Value() == old(Value()) % Pow(2, power)
    {
      hide Pow, ShiftRight, ShiftLeft;
      ghost var h, l := highBits, lowBits;
      if power >= 64 {
        TakeHigh(h, l, power);
        result := ShiftRight(highBits, power - 64);
        highBits := highBits - ShiftLeft(result, power - 64);
      } else {
        TakeLow(h, l, power);
        var partLow := ShiftRight(lowBits, power);
        var partHigh := ShiftLeft(highBits, 64 - power);
        result := partLow + partHigh;
        highBits := 0;
        lowBits := lowBits - ShiftLeft(partLow, power);
      }
    }

    method IsZero() returns (zero: bool)
      requires Valid()
      ensures zero <==> Value() == 0
    {
      zero := highBits == 0 && lowBits == 0;
    }

    /** The bit at a position; the position before the first is asked for on zero only. */
    method BitAt(position: int) returns (bit: nat)
      requires Valid() && -1 <= position < 128 && (position == -1 ==> Value() == 0)
      ensures position >= 0 ==> Pow(2, position) > 0 && bit == Value() / Pow(2, position) % 2
      ensures position == -1 ==> bit == 0
    {
      hide Pow;
      if position >= 64 {
        TakeHigh(highBits, lowBits, position);
        bit := ShiftRight(highBits, position - 64) % 2;
      } else {
        if position >= 0 { LowBit(highBits, lowBits, position); }
        bit := ShiftRight(lowBits, position) % 2;
      }
    }
  }

  lemma HalfProduct(x: nat, m: nat, carry: nat)
    requires x < TWO32 && m < TWO32 && carry < TWO32
    ensures 0 <= x * m && x * m + carry < TWO64 && (x * m + carry) / TWO32 < TWO32
  {
    MulNonneg(x, m);
    MulMonotone2(x, TWO32 - 1, m, TWO32 - 1);
  }

  lemma ProductWords(l0: nat, l1: nat, h0: nat, h1: nat, m: nat, p0: nat, c0: nat, a1: nat, p2: nat, c1: nat,
                     c2: nat, a3: nat, low: nat, high: nat, value: nat)
    requires value == ((h1 * TWO32 + h0) * TWO64) + (l1 * TWO32 + l0) && value * m < TWO64 * TWO64
    requires l0 * m == c0 * TWO32 + p0 && p0 < TWO32
    requires l1 * m + c0 == a1 && c1 == a1 / TWO32 && low == a1 * TWO32 % TWO64 + p0
    requires h0 * m + c1 == c2 * TWO32 + p2 && p2 < TWO32
    requires h1 * m + c2 == a3 && high == a3 * TWO32 % TWO64 + p2
    ensures high * TWO64 + low == value * m && low < TWO64 && high < TWO64 && a3 < TWO32
  {
    ExpandProduct(l0, l1, h0, h1, m, value);
    JoinWords(h1 * m, h0 * m, l1 * m, l0 * m, p0, c0, a1 % TWO32, p2, c1, c2, a3, a1 % TWO32 * TWO32 + p0, value * m);
  }

  lemma ExpandProduct(l0: nat, l1: nat, h0: nat, h1: nat, m: nat, value: nat)
    requires value == ((h1 * TWO32 + h0) * TWO64) + (l1 * TWO32 + l0)
    ensures value * m == h1 * m * TWO32 * TWO64 + h0 * m * TWO64 + l1 * m * TWO32 + l0 * m
    ensures 0 <= h1 * m && 0 <= h0 * m && 0 <= l1 * m && 0 <= l0 * m
  {
    MulNonneg(h1, m);
    MulNonneg(h0, m);
    MulNonneg(l1, m);
    MulNonneg(l0, m);
    Distribute4(h1 * (TWO32 * TWO64), h0 * TWO64, l1 * TWO32, l0, m);
    SwapFactors(h1, TWO32 * TWO64, m);
    SwapFactors(h0, TWO64, m);
    SwapFactors(l1, TWO32, m);
  }

  lemma JoinWords(hm1: nat, hm0: nat, lm1: nat, lm0: nat, p0: nat, c0: nat, r1: nat, p2: nat, c1: nat, c2: nat,
                  a3: nat, low: nat, product: nat)
    requires product == hm1 * TWO32 * TWO64 + hm0 * TWO64 + lm1 * TWO32 + lm0 && product < TWO64 * TWO64
    requires lm0 == c0 * TWO32 + p0 && lm1 + c0 == c1 * TWO32 + r1 && low == r1 * TWO32 + p0
    requires hm0 + c1 == c2 * TWO32 + p2 && hm1 + c2 == a3
    requires p0 < TWO32 && r1 < TWO32 && p2 < TWO32
    ensures product == (a3 * TWO32 + p2) * TWO64 + low && low < TWO64 && a3 < TWO32
    ensures a3 * TWO32 % TWO64 == a3 * TWO32 && a3 * TWO32 + p2 < TWO64
  {
  }

  lemma Distribute4(a: int, b: int, c: int, d: int, m: int)
    ensures (a + b + c + d) * m == a * m + b * m + c * m + d * m
  {
  }

  lemma LeftWords(h: nat, l: nat, a: nat, b: nat)
    requires a > 0 && b > 0 && a * b == TWO64 && l < TWO64 && h < TWO64
    ensures h * a % TWO64 + l / b < TWO64
    ensures (h * TWO64 + l) * a % (TWO64 * TWO64) == (h * a % TWO64 + l / b) * TWO64 + l * a % TWO64
  {
    MulAssoc(a, b, 1);
    SplitAt(h, b, a, TWO64);
    SplitAt(l, b, a, TWO64);
    DivModFacts(h, b);
    DivModFacts(l, b);
    var hi, hr, q, lo := h / b, h * a % TWO64, l / b, l * a % TWO64;
    MulMonotone(h % b + 1, b, a);
    MulDistrib(a, h % b, 1);
    assert q < a by {
      if q >= a { MulMonotone(a, q, b); MulAssoc(a, b, 1); }
    }
    assert (h * TWO64 + l) * a == hi * (TWO64 * TWO64) + ((hr + q) * TWO64 + lo) by {
      MulDistrib(a, h * TWO64, l);
      MulAssoc(h, TWO64, a);
      MulAssoc(h, a, TWO64);
      MulAssoc(TWO64, a, 1);
    }
    DivModUnique((h * TWO64 + l) * a, TWO64 * TWO64, hi, (hr + q) * TWO64 + lo);
  }

  lemma TakeHigh(h: nat, l: nat, power: nat)
    requires 64 <= power < 128 && h < TWO64 && l < TWO64
    ensures var q := ShiftRight(h, power - 64);
      && Pow(2, power) > 0 && (h * TWO64 + l) / Pow(2, power) == q
      && ShiftLeft(q, power - 64) <= h
      && (h * TWO64 + l) % Pow(2, power) == (h - ShiftLeft(q, power - 64)) * TWO64 + l
  {
    hide Pow;
    PowersOfTwo();
    PowPositive(2, power - 64);
    PowAdd(2, power - 64, 64);
    WordKept(h, power - 64);
    TakeHighAt(h, l, Pow(2, power - 64), Pow(2, power), h / Pow(2, power - 64), h % Pow(2, power - 64));
  }

  lemma TakeHighAt(h: nat, l: nat, a: nat, b: nat, q: nat, r: nat)
    requires b == a * TWO64 && l < TWO64 && h == q * a + r && r < a
    ensures b > 0 && (h * TWO64 + l) / b == q && (h * TWO64 + l) % b == r * TWO64 + l
  {
    assert h * TWO64 + l == q * b + (r * TWO64 + l) by {
      MulDistrib(TWO64, q * a, r);
      MulAssoc(q, a, TWO64);
    }
    DivModUnique(h * TWO64 + l, b, q, r * TWO64 + l);
  }

  /** Shifting a word down and up again clears its low bits. */
  lemma WordKept(x: nat, s: nat)
    requires x < TWO64 && s < 64
    ensures Pow(2, s) > 0 && ShiftRight(x, s) == x / Pow(2, s) <= x
    ensures ShiftLeft(ShiftRight(x, s), s) == x / Pow(2, s) * Pow(2, s) == x - x % Pow(2, s)
  {
    hide Pow;
    PowPositive(2, s);
    var a := Pow(2, s);
    DivModFacts(x, a);
    var q := x / a;
    MulMonotone(1, a, q);
    DivModUnique(0, a, 0, 0);
    assert q * a < TWO64;
    if q == 0 { MulNonneg(q, a); }
  }

  lemma TakeLow(h: nat, l: nat, power: nat)
    requires power < 64 && h < TWO64 && l < TWO64 && Pow(2, power) > 0 && (power == 0 ==> h == 0)
    requires (h * TWO64 + l) / Pow(2, power) < 0x8000_0000
    ensures var q := ShiftRight(l, power);
      && ShiftLeft(q, power) <= l
      && (h * TWO64 + l) / Pow(2, power) == q + ShiftLeft(h, 64 - power)
      && (h * TWO64 + l) % Pow(2, power) == l - ShiftLeft(q, power)
  {
    hide Pow, ShiftLeft, ShiftRight;
    var a := Pow(2, power);
    WordKept(l, power);
    DivModFacts(l, a);
    if power > 0 {
      SplitWord(0, power);
      TakeLowAt(h, l, a, Pow(2, 64 - power), l / a, l % a);
      ShiftLeftFits(h, 64 - power);
    } else {
      NothingShifted(64);
    }
  }

  lemma ShiftLeftFits(x: nat, s: nat)
    requires s < 64 && x * Pow(2, s) < TWO64
    ensures ShiftLeft(x, s) == x * Pow(2, s)
  {
    MulNonneg(x, Pow(2, s));
  }

  lemma NothingShifted(s: int)
    ensures ShiftLeft(0, s) == 0 && ShiftRight(0, s) == 0
  {
  }

  lemma TakeLowAt(h: nat, l: nat, a: nat, b: nat, q: nat, r: nat)
    requires a * b == TWO64 && l == q * a + r && r < a
    requires (h * TWO64 + l) / a < 0x8000_0000
    ensures (h * TWO64 + l) / a == q + h * b && (h * TWO64 + l) % a == r && 0 <= h * b < 0x8000_0000
  {
    assert h * TWO64 + l == (h * b + q) * a + r by {
      MulDistrib(a, h * b, q);
      MulAssoc(h, b, a);
      MulAssoc(a, b, 1);
    }
    MulNonneg(h, b);
    DivModUnique(h * TWO64 + l, a, h * b + q, r);
  }

  /** Bits of the high word do not show at a position in the low word. */
  lemma LowBit(h: nat, l: nat, position: nat)
    requires position < 64 && l < TWO64
    ensures Pow(2, position) > 0 && (h * TWO64 + l) / Pow(2, position) % 2 == l / Pow(2, position) % 2
  {
    hide Pow;
    PowersOfTwo();
    PowPositive(2, position);
    PowAdd(2, position, 64 - position);
    PowAdd(2, 1, 63 - position);
    var a, c := Pow(2, position), Pow(2, 63 - position);
    DivModFacts(l, a);
    LowBitAt(h, l, a, c, l / a, l % a);
  }

  lemma LowBitAt(h: nat, l: nat, a: nat, c: nat, q: nat, r: nat)
    requires a * (2 * c) == TWO64 && l == q * a + r && r < a
    ensures (h * TWO64 + l) / a % 2 == q % 2
  {
    var m := h * c;
    MulNonneg(h, c);
    assert h * TWO64 == (2 * m) * a by {
      MulAssoc(h, 2 * c, a);
      MulAssoc(2 * c, a, 1);
      MulAssoc(h, c, 2);
      MulAssoc(2, c, 1);
      MulAssoc(2, m, 1);
    }
    MulDistrib(a, 2 * m, q);
    DivModUnique(h * TWO64 + l, a, 2 * m + q, r);
  }

  lemma WordsRight(h: nat, l: nat, s: nat)
    requires h < TWO64 && l < TWO64 && 0 < s < 64
    ensures var low := ShiftRight(l, s) + ShiftLeft(h, 64 - s);
      && low < TWO64 && ShiftRight(h, s) < TWO64
      && Pow(2, s) > 0 && (h * TWO64 + l) / Pow(2, s) == ShiftRight(h, s) * TWO64 + low
  {
    hide Pow;
    SplitWord(h, s);
    ShiftWords(h, l, Pow(2, s), Pow(2, 64 - s));
    WordKept(h, s);
    WordKept(l, s);
    assert h == 0 ==> h * Pow(2, 64 - s) % TWO64 == 0;
  }

  lemma WordsLeft(h: nat, l: nat, s: nat)
    requires h < TWO64 && l < TWO64 && 0 < s < 64
    ensures var high := ShiftLeft(h, s) + ShiftRight(l, 64 - s);
      && high < TWO64 && ShiftLeft(l, s) < TWO64
      && (h * TWO64 + l) * Pow(2, s) % (TWO64 * TWO64) == high * TWO64 + ShiftLeft(l, s)
  {
    hide Pow;
    SplitWord(h, 64 - s);
    LeftWords(h, l, Pow(2, s), Pow(2, 64 - s));
    WordKept(l, 64 - s);
    assert h == 0 ==> h * Pow(2, s) % TWO64 == 0;
    assert l == 0 ==> l * Pow(2, s) % TWO64 == 0;
  }
}
