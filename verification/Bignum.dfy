/**
 The arbitrary-precision natural numbers behind exact decimal printing: base-2^28 bigits in a
 fixed buffer of 128, with an exponent that counts hidden low zero bigits.
 Every in-place operation is proved against the natural number that the object stands for.
 */
module BignumModule {
  import opened Powers
  import opened Bigits
  import opened Decimal
  import Comba

  const CAPACITY: nat := 128

  /** Unsigned 32-bit arithmetic. */
  function Wrap32(x: int): nat
  {
    x % 0x1_0000_0000
  }

  /** The number without its factors of two, and how many of them there are. */
  function OddPart(x: nat): (r: nat)
    requires x > 0
    ensures 0 < r <= x && r % 2 == 1
  {
    if x % 2 == 0 then OddPart(x / 2) else x
  }

  function Twos(x: nat): nat
    requires x > 0
  {
    if x % 2 == 0 then 1 + Twos(x / 2) else 0
  }

  function BitSize(x: nat): nat
  {
    if x == 0 then 0 else 1 + BitSize(x / 2)
  }

  lemma {:induction false} BitSizeFacts(x: nat)
    ensures x < Pow(2, BitSize(x))
    ensures x > 0 ==> BitSize(x) > 0 && Pow(2, BitSize(x) - 1) <= x
  {
    if x > 0 { BitSizeFacts(x / 2); }
  }

  lemma {:induction false} OddPartFacts(x: nat)
    requires x > 0
    ensures OddPart(x) * Pow(2, Twos(x)) == x
  {
    if x % 2 == 0 {
      OddPartFacts(x / 2);
      MulAssoc(OddPart(x), Pow(2, Twos(x / 2)), 2);
      MulAssoc(2, Pow(2, Twos(x / 2)), 1);
    }
  }

  /** A power of a b-bit number fits in the bigits its bit count asks for. */
  lemma PowerFits(base: nat, bits: nat, e: nat)
    requires base < Pow(2, bits)
    ensures Pow(base, e) < P(bits * e / 28 + 1)
  {
    hide Pow;
    var n := bits * e / 28 + 1;
    PowBaseMonotone(base, Pow(2, bits), e);
    PowPow(2, bits, e);
    PowStrict(2, bits * e, 28 * n);
    PowPow(2, 28, n);
    PowersOfTwo();
  }

  /** The exponent's leading bits, one more bit at a time. */
  lemma PrefixStep(e: nat, j: nat)
    requires j > 0
    ensures Pow(2, j - 1) > 0 && Pow(2, j) > 0
    ensures e / Pow(2, j - 1) == 2 * (e / Pow(2, j)) + (e / Pow(2, j - 1)) % 2
    ensures e / Pow(2, j - 1) <= e
  {
    var m := Pow(2, j - 1);
    PowPositive(2, j - 1);
    DivDiv(e, m, 2);
    DivModFacts(e, m);
    MulMonotone(1, m, e / m);
  }

  /** How a three-way comparison reports the order of a and b. */
  function Sign(a: int, b: int): int
  {
    if a < b then -1 else if a == b then 0 else 1
  }

  /** Splitting a column sum into a bigit and a carry keeps its weight. */
  lemma CarryOut(sum: nat, i: nat)
    ensures (sum % 0x1000_0000) * P(i) + (sum / 0x1000_0000) * P(i + 1) == sum * P(i)
  {
    PFacts(i);
    var q, r := sum / 0x1000_0000, sum % 0x1000_0000;
    MulAssoc(q, 0x1000_0000, P(i));
    MulDistrib(P(i), q * 0x1000_0000, r);
  }

  /** A wrapped 32-bit difference, masked to a bigit, and its sign bit used as a borrow. */
  lemma BorrowOut(difference: int)
    requires -0x1000_0000 <= difference < 0x1000_0000
    ensures Wrap32(difference) / 0x8000_0000 == if difference < 0 then 1 else 0
    ensures Wrap32(difference) % 0x1000_0000 == if difference < 0 then difference + 0x1000_0000 else difference
  {}

  class Bignum {
    const bigits: array<nat>
    var used: nat
    var exponent: nat

    /** The buffer holds bigits, and the ones from `used` on are zero. */
    ghost predicate Shaped()
      reads this, bigits
    {
      && bigits.Length == CAPACITY
      && used <= CAPACITY
      && AllBigits(bigits[..])
      && forall k :: used <= k < CAPACITY ==> bigits[k] == 0
    }

    predicate IsClamped()
      requires used <= bigits.Length
      reads this, bigits
    {
      used == 0 || bigits[used - 1] != 0
    }

    /** What holds between public operations: no leading zero bigit, and zero has exponent 0. */
    ghost predicate Valid()
      reads this, bigits
    {
      Shaped() && IsClamped() && (used == 0 ==> exponent == 0)
    }

    /** The number the bigits stand for, before the exponent is applied. */
    ghost function Significand(): nat
      reads bigits
    {
      Val(bigits[..])
    }

    /** The number this object stands for. */
    ghost function Value(): nat
      reads this, bigits
    {
      Significand() * P(exponent)
    }

    function BigitLength(): nat
      reads this
    {
      used + exponent
    }

    /** The two objects share no memory. */
    ghost predicate Apart(other: Bignum)
    {
      this != other && bigits != other.bigits
    }

    // ----- what the representation says about the value -----

    lemma SignificandBounds()
      requires Valid()
      ensures Significand() < P(used)
      ensures used > 0 ==> P(used - 1) <= Significand()
      ensures used == 0 <==> Significand() == 0
      ensures used == 0 <==> Value() == 0
    {
      ValTrim(bigits[..], used);
      assert AllBigits(bigits[..][..used]);
      ValBound(bigits[..][..used]);
      PFacts(exponent);
      if used > 0 {
        ValAtLeast(bigits[..], used - 1);
        PFacts(used - 1);
        MulPositive(Significand(), P(exponent));
      } else {
        PFacts(0);
      }
    }

    lemma ValueBounds()
      requires Valid()
      ensures Value() < P(BigitLength())
      ensures used > 0 ==> P(BigitLength() - 1) <= Value()
    {
      SignificandBounds();
      PFacts(exponent);
      PAdd(used, exponent);
      MulStrict(Significand(), P(used), P(exponent));
      if used > 0 {
        PAdd(used - 1, exponent);
        MulMonotone(P(used - 1), Significand(), P(exponent));
      }
    }

    /** A number below B^n has at most n bigits. */
    lemma LengthFromValue(n: nat)
      requires Valid() && Value() < P(n)
      ensures BigitLength() <= n
    {
      ValueBounds();
      if BigitLength() > n {
        PowMonotone(0x1000_0000, n, BigitLength() - 1);
      }
    }

    lemma LengthAtLeast(n: nat)
      requires Valid() && P(n) <= Value()
      ensures BigitLength() > n
    {
      ValueBounds();
      PowMonotone(0x1000_0000, BigitLength(), Max(n, BigitLength()));
    }

    lemma UsedFromSignificand(n: nat)
      requires Valid() && Significand() < P(n)
      ensures used <= n
    {
      SignificandBounds();
      if used > n {
        PowMonotone(0x1000_0000, n, used - 1);
      }
    }

    // ----- construction and assignment -----

    constructor ()
      ensures Valid() && Value() == 0
      ensures fresh(bigits)
    {
      bigits := new nat[128](_ => 0);
      used := 0;
      exponent := 0;
      new;
      ValZero(bigits[..]);
    }

    method Zero()
      requires Shaped()
      modifies this, bigits
      ensures Valid() && Value() == 0 && used == 0
    {
      for i := 0 to used
        invariant Shaped() && used == old(used)
        invariant forall k :: 0 <= k < i ==> bigits[k] == 0
      {
        bigits[i] := 0;
      }
      used := 0;
      exponent := 0;
      ValZero(bigits[..]);
    }

    method Clamp()
      requires Shaped()
      modifies this
      ensures Valid()
      ensures Value() == old(Value())
      ensures used <= old(used)
      ensures old(Valid()) ==> used == old(used) && exponent == old(exponent)
      ensures used > 0 ==> exponent == old(exponent)
    {
      while used > 0 && bigits[used - 1] == 0
        invariant Shaped() && exponent == old(exponent) && used <= old(used)
        invariant old(Valid()) ==> used == old(used)
      {
        used := used - 1;
      }
      if used == 0 {
        ValZero(bigits[..]);
        exponent := 0;
      }
    }

    method AssignUInt16(value: nat)
      requires Valid() && value < 0x1_0000
      modifies this, bigits
      ensures Valid() && Value() == value
      ensures exponent == 0 && used <= 1
    {
      Zero();
      if value == 0 { return; }
      bigits[0] := value;
      used := 1;
      SingleBigit();
    }

    lemma SingleBigit()
      requires Shaped() && exponent == 0
      requires forall k :: 1 <= k < CAPACITY ==> bigits[k] == 0
      ensures Value() == bigits[0]
    {
      var s := bigits[..];
      ValTrim(s, 1);
      ValStep(s, 0);
      PFacts(0);
      assert s[..0] == [];
    }

    method AssignUInt64(value: nat)
      requires Valid() && value < 0x1_0000_0000_0000_0000
      modifies this, bigits
      ensures Valid() && Value() == value
      ensures exponent == 0 && used <= 3
    {
      hide Val, P;
      Zero();
      if value == 0 { return; }
      var rest := value;
      var needed := 64 / 28 + 1;
      assert Val(bigits[..][..0]) + rest * P(0) == value by { EmptyVal(bigits[..]); }
      for i := 0 to needed
        invariant bigits.Length == CAPACITY && AllBigits(bigits[..]) && exponent == 0
        invariant forall k :: i <= k < CAPACITY ==> bigits[k] == 0
        invariant Val(bigits[..][..i]) + rest * P(i) == value
        invariant 0 <= rest < 0x1_0000_0000_0000_0000
        invariant i == 1 ==> rest < 0x10_0000_0000
        invariant i == 2 ==> rest < 0x100
        invariant i == 3 ==> rest == 0
      {
        ghost var before := bigits[..];
        CarryOut(rest, i);
        bigits[i] := rest % 0x1000_0000;
        ValWrite(before, bigits[..], i, rest % 0x1000_0000);
        rest := rest / 0x1000_0000;
      }
      used := needed;
      ValTrim(bigits[..], 3);
      PFacts(0);
      Clamp();
      SignificandBounds();
    }

    static lemma EmptyVal(s: seq<nat>)
      ensures Val(s[..0]) == 0 && P(0) == 1
    {
      PFacts(0);
    }

    method AssignBignum(other: Bignum)
      requires Valid() && other.Valid() && Apart(other)
      modifies this, bigits
      ensures Valid() && Value() == other.Value()
      ensures used == other.used && exponent == other.exponent
    {
      exponent := other.exponent;
      for i := 0 to other.used
        invariant bigits.Length == CAPACITY && used == old(used) && exponent == other.exponent
        invariant forall k :: 0 <= k < i ==> bigits[k] == other.bigits[k]
        invariant forall k :: i <= k < CAPACITY ==> bigits[k] == old(bigits[k])
      {
        bigits[i] := other.bigits[i];
      }
      // Clear the excess bigits.
      var i := other.used;
      while i < used
        invariant other.used <= i && (i <= used || i == other.used)
        invariant bigits.Length == CAPACITY && used == old(used) && exponent == other.exponent
        invariant forall k :: 0 <= k < other.used ==> bigits[k] == other.bigits[k]
        invariant forall k :: other.used <= k < i ==> bigits[k] == 0
        invariant forall k :: i <= k < CAPACITY ==> bigits[k] == old(bigits[k])
      {
        bigits[i] := 0;
        i := i + 1;
      }
      used := other.used;
      assert bigits[..] == other.bigits[..];
    }

    // ----- addition and subtraction -----

    /** Moves the bigits up, from the top so that none is lost. */
    method MoveUp(zeroDigits: nat)
      requires Shaped() && used + zeroDigits <= CAPACITY
      modifies bigits
      ensures forall k :: zeroDigits <= k < used + zeroDigits ==> bigits[k] == old(bigits[k - zeroDigits])
      ensures forall k :: used + zeroDigits <= k < CAPACITY ==> bigits[k] == 0
    {
      for i := used downto 0
        modifies bigits
        invariant forall k :: i + zeroDigits <= k < used + zeroDigits ==> bigits[k] == old(bigits[k - zeroDigits])
        invariant forall k :: 0 <= k < i + zeroDigits ==> bigits[k] == old(bigits[k])
        invariant forall k :: used + zeroDigits <= k < CAPACITY ==> bigits[k] == 0
      {
        bigits[i + zeroDigits] := bigits[i];
      }
    }

    method ClearLow(n: nat)
      requires bigits.Length == CAPACITY && n <= CAPACITY
      modifies bigits
      ensures forall k :: 0 <= k < n ==> bigits[k] == 0
      ensures forall k :: n <= k < CAPACITY ==> bigits[k] == old(bigits[k])
    {
      for i := 0 to n
        modifies bigits
        invariant forall k :: 0 <= k < i ==> bigits[k] == 0
        invariant forall k :: i <= k < CAPACITY ==> bigits[k] == old(bigits[k])
      {
        bigits[i] := 0;
      }
    }

    method InsertZeros(zeroDigits: nat)
      requires Shaped() && 0 < used && used + zeroDigits <= CAPACITY
      modifies bigits
      ensures AllBigits(bigits[..]) && bigits[used + zeroDigits - 1] == old(bigits[used - 1])
      ensures forall k :: used + zeroDigits <= k < CAPACITY ==> bigits[k] == 0
      ensures Significand() == P(zeroDigits) * old(Significand())
    {
      hide Val, P;
      ghost var before := bigits[..];
      MoveUp(zeroDigits);
      ghost var moved := bigits[..];
      assert forall k :: zeroDigits <= k < used + zeroDigits ==> moved[k] == before[k - zeroDigits];
      ClearLow(zeroDigits);
      ghost var after := bigits[..];
      assert forall k :: zeroDigits <= k < CAPACITY ==> after[k] == moved[k];
      ShiftedUp(before, after, used, zeroDigits);
    }

    /** Turns hidden zero bigits into stored ones until the exponents allow bigit-wise work. */
    method Align(other: Bignum)
      requires Valid() && other.Valid() && Apart(other)
      requires exponent > other.exponent ==> BigitLength() - other.exponent <= CAPACITY
      modifies this, bigits
      ensures Valid() && Value() == old(Value())
      ensures exponent == Min(old(exponent), other.exponent)
      ensures BigitLength() == old(BigitLength())
    {
      hide Val, P;
      if exponent > other.exponent {
        var zeroDigits := exponent - other.exponent;
        ghost var before := bigits[..];
        InsertZeros(zeroDigits);
        AlignedValue(Val(before), zeroDigits, exponent - zeroDigits);
        used := used + zeroDigits;
        exponent := exponent - zeroDigits;
      }
    }

    static lemma AlignedValue(x: nat, z: nat, e: nat)
      ensures (P(z) * x) * P(e) == x * P(z + e)
    {
      PAdd(z, e);
      MulAssoc(x, P(z), P(e));
      MulAssoc(P(z), x, 1);
    }

    static lemma ShiftedUp(s: seq<nat>, t: seq<nat>, n: nat, z: nat)
      requires |s| == |t| && n + z <= |s| && AllBigits(s)
      requires forall k :: z <= k < n + z ==> t[k] == s[k - z]
      requires forall k :: 0 <= k < z ==> t[k] == 0
      requires forall k :: n <= k < |s| ==> s[k] == 0
      requires forall k :: n + z <= k < |s| ==> t[k] == 0
      ensures Val(t) == P(z) * Val(s) && AllBigits(t)
    {
      hide Val, P;
      ValTrim(s, n);
      ValTrim(t, n + z);
      ValLowZeros(t[..n + z], z);
      assert t[..n + z][z..] == s[..n];
    }

    /** Combining significands relative to the smaller exponent combines the numbers. */
    static lemma Combine(a: int, factor: int, x: int, high: nat, low: nat)
      requires low <= high
      ensures (a + factor * (P(high - low) * x)) * P(low) == a * P(low) + factor * (x * P(high))
    {
      var p := P(low);
      MulDistrib(p, a, factor * (P(high - low) * x));
      MulAssoc(factor, P(high - low) * x, p);
      PAdd(high - low, low);
      MulAssoc(x, P(high - low), p);
      MulAssoc(P(high - low), x, p);
    }

    /** The columns where both numbers have bigits. */
    method AddColumns(other: Bignum, offset: nat) returns (carry: nat)
      requires Shaped() && other.Shaped() && Apart(other) && offset + other.used <= CAPACITY
      modifies bigits
      ensures AllBigits(bigits[..]) && carry <= 1
      ensures forall k :: offset + other.used <= k < CAPACITY ==> bigits[k] == old(bigits[k])
      ensures Columns(bigits[..], old(bigits[..]), 1, other.bigits[..], offset, offset + other.used, other.used, carry)
      ensures other.used > 0 && carry == 0 ==>
                var top := offset + other.used - 1;
                bigits[top] >= old(bigits[top]) && bigits[top] >= other.bigits[other.used - 1]
      ensures other.used == 0 ==> carry == 0
    {
      hide Columns, Val, P;
      carry := 0;
      var pos := offset;
      ghost var s, o := bigits[..], other.bigits[..];
      ColumnsStart(s, 1, o, offset);
      for i := 0 to other.used
        invariant AllBigits(bigits[..])
        invariant pos == offset + i && carry <= 1
        invariant forall k :: pos <= k < CAPACITY ==> bigits[k] == s[k]
        invariant Columns(bigits[..], s, 1, o, offset, pos, i, carry)
        invariant i == 0 ==> carry == 0
        invariant i > 0 && carry == 0 ==> bigits[pos - 1] >= s[pos - 1] && bigits[pos - 1] >= o[i - 1]
      {
        ghost var t := bigits[..];
        var sum := bigits[pos] + other.bigits[i] + carry;
        assert sum < 0x1_0000_0000;
        bigits[pos] := sum % 0x1000_0000;
        ColumnsStep(t, bigits[..], s, 1, o, offset, i, carry, sum % 0x1000_0000, sum / 0x1000_0000);
        carry := sum / 0x1000_0000;
        pos := pos + 1;
      }
    }

    /** The columns above the operand, until the carry is used up. */
    method PropagateCarry(from: nat, carryIn: nat, top: nat,
                          ghost s: seq<nat>, ghost o: seq<nat>, ghost offset: nat, ghost n: nat) returns (pos: nat)
      requires bigits.Length == CAPACITY == |s| && AllBigits(bigits[..]) && carryIn <= 1 && from <= top < CAPACITY
      requires forall k :: from <= k < CAPACITY ==> bigits[k] == s[k]
      requires forall k :: top <= k < CAPACITY ==> s[k] == 0
      requires Columns(bigits[..], s, 1, o, offset, from, n, carryIn)
      modifies bigits
      ensures from <= pos <= top + 1 && AllBigits(bigits[..])
      ensures pos == from <==> carryIn == 0
      ensures pos > from ==> bigits[pos - 1] > s[pos - 1]
      ensures forall k :: 0 <= k < from ==> bigits[k] == old(bigits[k])
      ensures forall k :: pos <= k < CAPACITY ==> bigits[k] == s[k]
      ensures Columns(bigits[..], s, 1, o, offset, pos, n, 0)
    {
      hide Columns, Val, P;
      pos := from;
      var carry := carryIn;
      while carry != 0
        invariant AllBigits(bigits[..]) && carry <= 1
        invariant from <= pos <= top + 1 && (carry != 0 ==> pos <= top)
        invariant pos == from ==> carry == carryIn
        invariant pos > from ==> carryIn > 0
        invariant pos > from && carry == 0 ==> bigits[pos - 1] > s[pos - 1]
        invariant forall k :: 0 <= k < from ==> bigits[k] == old(bigits[k])
        invariant forall k :: pos <= k < CAPACITY ==> bigits[k] == s[k]
        invariant Columns(bigits[..], s, 1, o, offset, pos, n, carry)
        decreases top + 1 - pos
      {
        ghost var t := bigits[..];
        var sum := bigits[pos] + carry;
        bigits[pos] := sum % 0x1000_0000;
        ColumnsCarry(t, bigits[..], s, 1, o, offset, pos, n, carry, sum % 0x1000_0000, sum / 0x1000_0000);
        carry := sum / 0x1000_0000;
        pos := pos + 1;
      }
    }

    method AddAligned(other: Bignum)
      requires Valid() && other.Valid() && Apart(other) && exponent <= other.exponent
      requires 1 + Max(BigitLength(), other.BigitLength()) - exponent <= CAPACITY
      modifies this, bigits
      ensures Valid() && Value() == old(Value()) + other.Value()
      ensures exponent == old(exponent)
      ensures used <= 1 + Max(old(used), other.used + other.exponent - exponent)
    {
      hide Columns, Val, P;
      var offset := other.exponent - exponent;
      ghost var s, o := bigits[..], other.bigits[..];
      var carry := AddColumns(other, offset);
      var pos := PropagateCarry(offset + other.used, carry, Max(used, other.used + offset), s, o, offset, other.used);
      used := Max(pos, used);
      assert Val(bigits[..]) * P(exponent) == Val(s) * P(exponent) + Val(o) * P(other.exponent) by {
        ColumnsDone(bigits[..], s, 1, o, offset, pos, other.used);
        Combine(Val(s), 1, Val(o), other.exponent, exponent);
      }
    }

    method AddBignum(other: Bignum)
      requires Valid() && other.Valid() && Apart(other)
      requires 1 + Max(BigitLength(), other.BigitLength()) - Min(exponent, other.exponent) <= CAPACITY
      modifies this, bigits
      ensures Valid() && Value() == old(Value()) + other.Value()
      ensures exponent == Min(old(exponent), other.exponent)
      ensures BigitLength() <= 1 + Max(old(BigitLength()), other.BigitLength())
    {
      hide Val, P, Value;
      Align(other);
      AddAligned(other);
    }

    method AddUInt64(operand: nat)
      requires Valid() && operand < 0x1_0000_0000_0000_0000
      requires 1 + Max(BigitLength(), 3) <= CAPACITY
      modifies this, bigits
      ensures Valid() && Value() == old(Value()) + operand
      ensures operand != 0 ==> exponent == 0
      ensures operand == 0 ==> exponent == old(exponent)
      ensures BigitLength() <= 1 + Max(old(BigitLength()), 3)
    {
      if operand == 0 { return; }
      var other := new Bignum();
      other.AssignUInt64(operand);
      AddBignum(other);
    }

    /** The columns where both numbers have bigits. */
    method SubtractColumns(other: Bignum, offset: nat) returns (borrow: int)
      requires Shaped() && other.Shaped() && Apart(other) && offset + other.used <= CAPACITY
      modifies bigits
      ensures AllBigits(bigits[..]) && 0 <= borrow <= 1
      ensures forall k :: offset + other.used <= k < CAPACITY ==> bigits[k] == old(bigits[k])
      ensures Columns(bigits[..], old(bigits[..]), -1, other.bigits[..], offset, offset + other.used, other.used,
                      -borrow)
    {
      hide Columns, Val, P;
      borrow := 0;
      ghost var s, o := bigits[..], other.bigits[..];
      ColumnsStart(s, -1, o, offset);
      for i := 0 to other.used
        invariant AllBigits(bigits[..]) && 0 <= borrow <= 1
        invariant forall k :: offset + i <= k < CAPACITY ==> bigits[k] == s[k]
        invariant Columns(bigits[..], s, -1, o, offset, offset + i, i, -borrow)
      {
        ghost var t := bigits[..];
        var exact: int := bigits[i + offset] - other.bigits[i] - borrow;
        var difference: int := Wrap32(exact);
        BorrowOut(exact);
        bigits[i + offset] := difference % 0x1000_0000;
        ColumnsStep(t, bigits[..], s, -1, o, offset, i, -borrow, difference % 0x1000_0000, -(difference / 0x8000_0000));
        borrow := difference / 0x8000_0000;
      }
    }

    /** The columns above the operand, until the borrow is paid back. */
    method PropagateBorrow(from: nat, borrowIn: int, ghost s: seq<nat>, ghost o: seq<nat>, ghost offset: nat,
                           ghost n: nat)
      requires bigits.Length == CAPACITY == |s| && AllBigits(bigits[..]) && AllBigits(s) && 0 <= borrowIn <= 1
        && from <= used <= CAPACITY
      requires forall k :: from <= k < CAPACITY ==> bigits[k] == s[k]
      requires forall k :: used <= k < CAPACITY ==> s[k] == 0
      requires forall k :: n <= k < |o| ==> o[k] == 0
      requires Columns(bigits[..], s, -1, o, offset, from, n, -borrowIn)
      requires P(offset) * Val(o) <= Val(s)
      modifies bigits
      ensures AllBigits(bigits[..])
      ensures forall k :: used <= k < CAPACITY ==> bigits[k] == 0
      ensures Val(bigits[..]) == Val(s) - P(offset) * Val(o)
    {
      hide Columns, Val, P;
      var pos := from;
      var borrow := borrowIn;
      while borrow != 0
        invariant AllBigits(bigits[..]) && 0 <= borrow <= 1
        invariant from <= pos <= used
        invariant forall k :: pos <= k < CAPACITY ==> bigits[k] == s[k]
        invariant Columns(bigits[..], s, -1, o, offset, pos, n, -borrow)
        decreases used - pos
      {
        ghost var t := bigits[..];
        if pos == used { BorrowEnds(t, s, -1, o, offset, pos, n, -borrow); }
        var exact: int := bigits[pos] - borrow;
        var difference: int := Wrap32(exact);
        BorrowOut(exact);
        bigits[pos] := difference % 0x1000_0000;
        ColumnsCarry(t, bigits[..], s, -1, o, offset, pos, n, -borrow, difference % 0x1000_0000,
                     -(difference / 0x8000_0000));
        borrow := difference / 0x8000_0000;
        pos := pos + 1;
      }
      ColumnsDone(bigits[..], s, -1, o, offset, pos, n);
    }

    /** A borrow cannot leave a number that is at least as large as what is taken from it. */
    static lemma BorrowEnds(t: seq<nat>, s: seq<nat>, factor: int, o: seq<nat>, offset: nat, pos: nat, n: nat,
                            carry: int)
      requires Columns(t, s, factor, o, offset, pos, n, carry) && carry <= 0
      requires forall k :: pos <= k < |s| ==> s[k] == 0
      requires forall k :: n <= k < |o| ==> o[k] == 0
      requires AllBigits(t)
      requires 0 <= Val(s) + factor * (P(offset) * Val(o))
      ensures carry == 0
    {
      hide P, Val;
      ghost var low, p, whole, change := Val(t[..pos]), P(pos), Val(s), factor * (P(offset) * Val(o));
      assert low < p by { ValBound(t[..pos]); }
      assert low + carry * p == whole + change by { ValTrim(s, pos); ValTrim(o, n); }
      if carry < 0 { MulMonotone(carry, -1, p); }
    }

    method SubtractBignum(other: Bignum)
      requires Valid() && other.Valid() && Apart(other)
      requires exponent > other.exponent ==> BigitLength() - other.exponent <= CAPACITY
      requires other.Value() <= Value()
      modifies this, bigits
      ensures Valid() && Value() == old(Value()) - other.Value()
      ensures BigitLength() <= old(BigitLength())
      ensures used > 0 ==> exponent == Min(old(exponent), other.exponent)
    {
      hide Columns, Val, P;
      Align(other);
      var offset := other.exponent - exponent;
      ghost var s, o := bigits[..], other.bigits[..];
      assert P(offset) * Val(o) <= Val(s) && offset + other.used <= used by {
        Combine(0, 1, Val(o), other.exponent, exponent);
        PFacts(exponent);
        MulCancelLessEqual(P(offset) * Val(o), Val(s), P(exponent));
        LongerThan(other);
      }
      var borrow := SubtractColumns(other, offset);
      PropagateBorrow(offset + other.used, borrow, s, o, offset, other.used);
      assert Value() == old(Value()) - other.Value() by {
        Combine(Val(s), -1, Val(o), other.exponent, exponent);
      }
      Clamp();
    }

    /** A larger number is at least as long. */
    lemma LongerThan(other: Bignum)
      requires Valid() && other.Valid() && other.Value() <= Value()
      ensures other.BigitLength() <= BigitLength() || (other.used == 0 && other.exponent == 0)
    {
      ValueBounds();
      other.ValueBounds();
      if other.used > 0 && BigitLength() < other.BigitLength() {
        PowMonotone(0x1000_0000, BigitLength(), other.BigitLength() - 1);
      }
    }

    // ----- multiplication -----

    /** Stores what is left of a carry in fresh bigits. */
    method AppendCarry(carryIn: nat, ghost s: seq<nat>, ghost factor: nat)
      requires Shaped() && |s| == CAPACITY
      requires Columns(bigits[..], Zeros(CAPACITY), factor, s, 0, used, used, carryIn)
      requires forall k :: used <= k < CAPACITY ==> s[k] == 0
      requires factor * Val(s) < P(CAPACITY)
      requires carryIn == 0 ==> IsClamped()
      modifies this`used, bigits
      ensures Shaped() && IsClamped() && used >= old(used)
      ensures Significand() == factor * Val(s)
    {
      hide Columns, Val, P;
      ghost var n := used;
      var carry := carryIn;
      while carry != 0
        invariant Shaped() && n <= used
        invariant Columns(bigits[..], Zeros(CAPACITY), factor, s, 0, used, n, carry)
        invariant carry == 0 ==> IsClamped()
      {
        ghost var t := bigits[..];
        if used == CAPACITY { CarryEnds(t, s, factor, n, carry); }
        bigits[used] := carry % 0x1000_0000;
        ColumnsCarry(t, bigits[..], Zeros(CAPACITY), factor, s, 0, used, n, carry, carry % 0x1000_0000,
                     carry / 0x1000_0000);
        used := used + 1;
        carry := carry / 0x1000_0000;
      }
      ProductIsDone(bigits[..], s, factor, used, n);
    }

    /** A product that fits leaves no carry above the buffer. */
    static lemma CarryEnds(t: seq<nat>, s: seq<nat>, factor: nat, n: nat, carry: nat)
      requires |t| == |s| == CAPACITY && n <= CAPACITY
      requires Columns(t, Zeros(CAPACITY), factor, s, 0, CAPACITY, n, carry)
      requires forall k :: n <= k < CAPACITY ==> s[k] == 0
      requires factor * Val(s) < P(CAPACITY)
      ensures carry == 0
    {
      hide Val, P;
      ghost var low, p, product := Val(t), P(CAPACITY), factor * Val(s);
      assert low + carry * p == product by {
        ValTrim(s, n);
        ValZero(Zeros(CAPACITY));
        PFacts(0);
        assert t[..CAPACITY] == t && Zeros(CAPACITY)[..CAPACITY] == Zeros(CAPACITY);
      }
      if carry > 0 { MulMonotone(1, carry, p); }
    }

    static lemma ProductIsDone(t: seq<nat>, s: seq<nat>, factor: nat, pos: nat, n: nat)
      requires |t| == |s| == CAPACITY && n <= pos <= CAPACITY
      requires Columns(t, Zeros(CAPACITY), factor, s, 0, pos, n, 0)
      requires forall k :: n <= k < CAPACITY ==> s[k] == 0
      requires forall k :: pos <= k < CAPACITY ==> t[k] == 0
      ensures Val(t) == factor * Val(s)
    {
      ColumnsDone(t, Zeros(CAPACITY), factor, s, 0, pos, n);
      ValZero(Zeros(CAPACITY));
      PFacts(0);
    }

    static lemma ProductStart(s: seq<nat>, factor: nat)
      requires |s| == CAPACITY
      ensures Columns(s, Zeros(CAPACITY), factor, s, 0, 0, 0, 0)
    {
      assert s[..0] == [] == Zeros(CAPACITY)[..0];
    }

    /** Scaling the significand scales the value. */
    static lemma ScaleValue(factor: nat, x: nat, e: nat)
      ensures (factor * x) * P(e) == factor * (x * P(e))
      ensures (factor * x) * P(e) == (x * P(e)) * factor
    {
      MulAssoc(factor, x, P(e));
      MulAssoc(x * P(e), factor, 1);
    }

    method MultiplyColumns32(factor: nat) returns (carry: nat)
      requires Shaped() && 0 < factor < 0x1_0000_0000
      modifies bigits
      ensures AllBigits(bigits[..])
      ensures forall k :: used <= k < CAPACITY ==> bigits[k] == 0
      ensures Columns(bigits[..], Zeros(CAPACITY), factor, old(bigits[..]), 0, used, used, carry)
      ensures used > 0 && carry == 0 ==> bigits[used - 1] >= old(bigits[used - 1])
    {
      hide Columns, Val, P;
      ghost var s := bigits[..];
      ProductStart(s, factor);
      carry := 0;
      for i := 0 to used
        modifies bigits
        invariant AllBigits(bigits[..]) && carry < 0x1_0000_0000
        invariant forall k :: i <= k < CAPACITY ==> bigits[k] == s[k]
        invariant Columns(bigits[..], Zeros(CAPACITY), factor, s, 0, i, i, carry)
        invariant i > 0 && carry == 0 ==> bigits[i - 1] >= s[i - 1]
      {
        ghost var t := bigits[..];
        assert s[i] <= factor * s[i] <= factor * 0xFFF_FFFF by {
          MulMonotone(1, factor, s[i]);
          MulMonotone(s[i], 0xFFF_FFFF, factor);
        }
        var product := factor * bigits[i] + carry;
        assert s[i] <= product < 0x1_0000_0000_0000_0000;
        bigits[i] := product % 0x1000_0000;
        ColumnsStep(t, bigits[..], Zeros(CAPACITY), factor, s, 0, i, carry, product % 0x1000_0000,
                    product / 0x1000_0000);
        carry := product / 0x1000_0000;
      }
    }

    method MultiplyByUInt32(factor: nat)
      requires Valid() && factor < 0x1_0000_0000
      requires Significand() * factor < P(CAPACITY)
      modifies this, bigits
      ensures Valid() && Value() == old(Value()) * factor
      ensures factor != 0 ==>
        exponent == old(exponent) && used >= old(used) && Significand() == old(Significand()) * factor
    {
      hide Columns, Val, P;
      if factor == 1 { return; }
      if factor == 0 {
        Zero();
        return;
      }
      if used == 0 {
        SignificandBounds();
        return;
      }
      ghost var s := bigits[..];
      var carry := MultiplyColumns32(factor);
      AppendCarry(carry, s, factor);
      ScaleValue(factor, Val(s), exponent);
    }

    method Times10()
      requires Valid() && Value() * 10 < P(CAPACITY)
      modifies this, bigits
      ensures Valid() && Value() == old(Value()) * 10
    {
      PFacts(exponent);
      MulMonotone(1, P(exponent), Significand());
      MultiplyByUInt32(10);
    }

    method MultiplyColumns64(factor: nat) returns (carry: nat)
      requires Shaped() && 0 < factor < 0x1_0000_0000_0000_0000
      modifies bigits
      ensures AllBigits(bigits[..])
      ensures forall k :: used <= k < CAPACITY ==> bigits[k] == 0
      ensures Columns(bigits[..], Zeros(CAPACITY), factor, old(bigits[..]), 0, used, used, carry)
      ensures used == 0 ==> carry == 0
      ensures used > 0 && carry == 0 ==> bigits[used - 1] >= old(bigits[used - 1])
    {
      hide Columns, Val, P;
      ghost var s := bigits[..];
      ProductStart(s, factor);
      carry := 0;
      var low, high := factor % 0x1_0000_0000, factor / 0x1_0000_0000;
      for i := 0 to used
        modifies bigits
        invariant AllBigits(bigits[..]) && carry < 0x1_0000_0000_0000_0000
        invariant forall k :: i <= k < CAPACITY ==> bigits[k] == s[k]
        invariant Columns(bigits[..], Zeros(CAPACITY), factor, s, 0, i, i, carry)
        invariant i == 0 ==> carry == 0
        invariant i > 0 && carry == 0 ==> bigits[i - 1] >= s[i - 1]
      {
        ghost var t := bigits[..];
        var bigit, nextCarry := MultiplyChunk64(low, high, bigits[i], carry);
        bigits[i] := bigit;
        ColumnsStep(t, bigits[..], Zeros(CAPACITY), factor, s, 0, i, carry, bigit, nextCarry);
        carry := nextCarry;
      }
    }

    method MultiplyByUInt64(factor: nat)
      requires Valid() && factor < 0x1_0000_0000_0000_0000
      requires Significand() * factor < P(CAPACITY)
      modifies this, bigits
      ensures Valid() && Value() == old(Value()) * factor
      ensures factor != 0 ==>
        exponent == old(exponent) && used >= old(used) && Significand() == old(Significand()) * factor
    {
      hide Columns, Val, P;
      if factor == 1 { return; }
      if factor == 0 {
        Zero();
        return;
      }
      ghost var s := bigits[..];
      var carry := MultiplyColumns64(factor);
      AppendCarry(carry, s, factor);
      ScaleValue(factor, Val(s), exponent);
    }

    /** One column of a 64-bit product, computed by halves: exact, with a carry that fits in 64 bits. */
    static method MultiplyChunk64(low: nat, high: nat, bigit: nat, carry: nat) returns (bigit': nat, carry': nat)
      requires low < 0x1_0000_0000 && high < 0x1_0000_0000 && 0 < low + 0x1_0000_0000 * high
      requires bigit < BASE && carry < 0x1_0000_0000_0000_0000
      ensures bigit' < BASE && carry' < 0x1_0000_0000_0000_0000
      ensures bigit' + carry' * 0x1000_0000 == (low + 0x1_0000_0000 * high) * bigit + carry
      ensures carry' == 0 ==> bigit' >= bigit
    {
      var productLow := low * bigit;
      var productHigh := high * bigit;
      assert 0 <= productLow <= 0xFFFF_FFFF * 0xFFF_FFFF by {
        MulMonotone2(low, 0xFFFF_FFFF, bigit, 0xFFF_FFFF);
        MulNonneg(low, bigit);
      }
      assert 0 <= productHigh <= 0xFFFF_FFFF * 0xFFF_FFFF by {
        MulMonotone2(high, 0xFFFF_FFFF, bigit, 0xFFF_FFFF);
        MulNonneg(high, bigit);
      }
      var tmp := carry % 0x1000_0000 + productLow;
      assert productHigh * 16 < 0x1_0000_0000_0000_0000;
      bigit' := tmp % 0x1000_0000;
      carry' := carry / 0x1000_0000 + tmp / 0x1000_0000 + productHigh * 16;
      ghost var factor := low + 0x1_0000_0000 * high;
      assert factor * bigit == productLow + 0x1_0000_0000 * productHigh by {
        MulDistrib(bigit, low, 0x1_0000_0000 * high);
        MulAssoc(0x1_0000_0000, high, bigit);
      }
      assert factor * bigit >= bigit by { MulMonotone(1, factor, bigit); }
    }

    method ShiftColumns(shift: nat) returns (carry: nat)
      requires Shaped() && shift < 28
      modifies bigits
      ensures AllBigits(bigits[..]) && carry < Pow(2, shift)
      ensures forall k :: used <= k < CAPACITY ==> bigits[k] == 0
      ensures Columns(bigits[..], Zeros(CAPACITY), Pow(2, shift), old(bigits[..]), 0, used, used, carry)
      ensures used > 0 && carry == 0 ==> bigits[used - 1] >= old(bigits[used - 1])
    {
      hide Columns, Val, P, Pow;
      ghost var s := bigits[..];
      ProductStart(s, Pow(2, shift));
      carry := 0;
      var up, down := Pow(2, shift), Pow(2, 28 - shift);
      ShiftBounds(shift);
      for i := 0 to used
        modifies bigits
        invariant AllBigits(bigits[..]) && carry < up
        invariant forall k :: i <= k < CAPACITY ==> bigits[k] == s[k]
        invariant Columns(bigits[..], Zeros(CAPACITY), up, s, 0, i, i, carry)
        invariant i > 0 && carry == 0 ==> bigits[i - 1] >= s[i - 1]
      {
        ghost var t := bigits[..];
        var bigit, newCarry := ShiftChunk(up, down, bigits[i], carry);
        bigits[i] := bigit;
        ColumnsStep(t, bigits[..], Zeros(CAPACITY), up, s, 0, i, carry, bigit, newCarry);
        carry := newCarry;
      }
    }

    /** Multiplies by 2^shift for a shift below one bigit. */
    method BigitsShiftLeft(shift: nat)
      requires Valid() && used > 0 && shift < 28 && used + 1 <= CAPACITY
      modifies this`used, bigits
      ensures Shaped() && IsClamped() && Significand() == old(Significand()) * Pow(2, shift)
      ensures old(used) <= used <= old(used) + 1
    {
      hide Columns, Val, P, Pow;
      ghost var s, factor := bigits[..], Pow(2, shift);
      var carry := ShiftColumns(shift);
      ShiftBounds(shift);
      if carry != 0 {
        ghost var t := bigits[..];
        bigits[used] := carry;
        ColumnsCarry(t, bigits[..], Zeros(CAPACITY), factor, s, 0, used, used, carry, carry, 0);
        used := used + 1;
      }
      ProductIsDone(bigits[..], s, factor, used, old(used));
    }

    static lemma ShiftBounds(shift: nat)
      requires shift < 28
      ensures Pow(2, shift) * Pow(2, 28 - shift) == 0x1000_0000
      ensures 1 <= Pow(2, shift) <= 0x800_0000
      ensures 2 <= Pow(2, 28 - shift)
    {
      hide Pow;
      PowersOfTwo();
      PowAdd(2, shift, 28 - shift);
      PowMonotone(2, 0, shift);
      PowMonotone(2, shift, 27);
      PowMonotone(2, 1, 28 - shift);
    }

    /** One column of a shift by less than a bigit; the 32-bit shift itself may wrap. */
    static method ShiftChunk(up: nat, down: nat, x: nat, carry: nat) returns (bigit: nat, carry': nat)
      requires up * down == 0x1000_0000 && 0 < up <= 0x800_0000 && 0 < down
      requires x < BASE && carry < up
      ensures bigit < BASE && carry' < up
      ensures bigit + carry' * 0x1000_0000 == up * x + carry
      ensures carry' == 0 ==> bigit >= x
    {
      DivModFacts(x, down);
      carry' := x / down;
      ghost var r := x % down;
      assert carry' < up by { if carry' >= up { MulMonotone(up, carry', down); } }
      assert x * up == carry' * 0x1000_0000 + r * up by {
        MulDistrib(up, carry' * down, r);
        MulAssoc(carry', down, up);
        MulAssoc(down, up, 1);
      }
      assert 0 <= r * up && r * up + carry < 0x1000_0000 by {
        MulMonotone(r + 1, down, up);
        MulDistrib(up, r, 1);
        MulNonneg(r, up);
        MulAssoc(down, up, 1);
      }
      ShiftWraps(x * up, carry', r * up, carry);
      bigit := Wrap32(Wrap32(x * up) + carry) % 0x1000_0000;
      MulAssoc(x, up, 1);
      MulMonotone(1, up, x);
    }

    static lemma ShiftWraps(shifted: nat, q: nat, rest: nat, carry: nat)
      requires shifted == q * 0x1000_0000 + rest && rest + carry < 0x1000_0000
      ensures Wrap32(Wrap32(shifted) + carry) % 0x1000_0000 == rest + carry
    {
      var low := (q % 16) * 0x1000_0000 + rest;
      assert Wrap32(shifted) == low by { DivModUnique(shifted, 0x1_0000_0000, q / 16, low); }
      assert Wrap32(low + carry) == low + carry;
      DivModUnique(low + carry, 0x1000_0000, q % 16, rest + carry);
    }

    method ShiftLeft(shift: nat)
      requires Valid() && used + 1 <= CAPACITY
      modifies this, bigits
      ensures Valid() && Value() == old(Value()) * Pow(2, shift)
      ensures used <= old(used) + 1
      ensures used > 0 ==> exponent == old(exponent) + shift / 28
      ensures old(used) > 0 ==> used >= old(used)
    {
      hide Val, P, Pow;
      if used == 0 {
        SignificandBounds();
        return;
      }
      ghost var x, e := Significand(), exponent;
      exponent := exponent + shift / 28;
      var local := shift % 28;
      BigitsShiftLeft(local);
      ShiftedValue(x, e, shift);
    }

    static lemma ShiftedValue(x: nat, e: nat, shift: nat)
      ensures (x * Pow(2, shift % 28)) * P(e + shift / 28) == (x * P(e)) * Pow(2, shift)
    {
      hide Pow;
      var q, r := shift / 28, shift % 28;
      var a, b, c := Pow(2, r), P(e), P(q);
      assert Pow(2, shift) == a * c by {
        PowAdd(2, r, 28 * q);
        PowPow(2, 28, q);
        PowersOfTwo();
      }
      assert P(e + q) == b * c by { PAdd(e, q); }
      assert (x * a) * (b * c) == (x * b) * (a * c) by {
        MulAssoc(x, a, b * c);
        MulAssoc(a, b, c);
        MulAssoc(b, a, c);
        MulAssoc(x, b, a * c);
      }
    }

    method MultiplyByPowerOfTen(e: nat)
      requires Valid() && Significand() * Pow(5, e) < P(CAPACITY - 1)
      modifies this, bigits
      ensures Valid() && Value() == old(Value()) * Pow(10, e)
      ensures used > 0 ==> exponent == old(exponent) + e / 28
    {
      assert Fives(Significand(), e) < P(CAPACITY - 1);
      hide Val, P, Pow, Fives;
      if e == 0 {
        assert Pow(10, 0) == 1 by { PowUnit(10); }
        return;
      }
      if used == 0 {
        SignificandBounds();
        return;
      }
      ghost var v := Value();
      MultiplyByFives(e);
      UsedFromSignificand(CAPACITY - 1);
      ShiftLeft(e);
      FivesAndTwos(v, e);
    }

    /** The powers of five in pieces of 27, 13 and at most 12. */
    method MultiplyByFives(e: nat)
      requires Valid() && used > 0 && Fives(Significand(), e) < P(CAPACITY - 1)
      modifies this, bigits
      ensures Valid() && used > 0 && exponent == old(exponent)
      ensures Significand() == Fives(old(Significand()), e) && Value() == Fives(old(Value()), e)
    {
      hide Val, P, Pow, Fives, Bignum.Valid, Bignum.Value, Bignum.Significand;
      var kFive1To12 := [5, 25, 125, 625, 3125, 15625, 78125, 390625, 1953125, 9765625, 48828125, 244140625];
      ghost var x, v := Significand(), Value();
      NoFives(v);
      NoFives(x);
      var remaining := e;
      while remaining >= 27
        invariant Valid() && 0 <= remaining <= e && exponent == old(exponent) && used > 0
        invariant Significand() == Fives(x, e - remaining) && Value() == Fives(v, e - remaining)
      {
        FiveStep(x, v, e - remaining, 27, e);
        MultiplyByUInt64(0x6765_c793_fa10_079d);
        remaining := remaining - 27;
      }
      while remaining >= 13
        invariant Valid() && 0 <= remaining <= e && exponent == old(exponent) && used > 0
        invariant remaining < 27
        invariant Significand() == Fives(x, e - remaining) && Value() == Fives(v, e - remaining)
      {
        FiveStep(x, v, e - remaining, 13, e);
        MultiplyByUInt32(1220703125);
        remaining := remaining - 13;
      }
      if remaining > 0 {
        FiveStep(x, v, e - remaining, remaining, e);
        MultiplyByUInt32(kFive1To12[remaining - 1]);
      }
    }

    static ghost function Fives(x: nat, k: nat): nat
    {
      x * Pow(5, k)
    }

    static lemma NoFives(x: nat)
      ensures Fives(x, 0) == x
    {
      PowUnit(5);
    }

    static lemma FivesAndTwos(v: nat, e: nat)
      ensures Fives(v, e) * Pow(2, e) == v * Pow(10, e)
    {
      hide Pow;
      MulAssoc(v, Pow(5, e), Pow(2, e));
      PowMulBase(5, 2, e);
    }

    /** Multiplying by 5^step stays within the capacity that the whole product respects. */
    static lemma FiveStep(x: nat, v: nat, done: nat, step: nat, e: nat)
      requires done + step <= e && Fives(x, e) < P(CAPACITY - 1)
      ensures Fives(x, done) * Pow(5, step) == Fives(x, done + step) < P(CAPACITY)
      ensures Fives(v, done) * Pow(5, step) == Fives(v, done + step)
      ensures step == 27 ==> Pow(5, step) == 0x6765_c793_fa10_079d
      ensures step == 13 ==> Pow(5, step) == 1220703125
      ensures 1 <= step <= 12 ==>
                Pow(5, step)
                  == [5, 25, 125, 625, 3125, 15625, 78125, 390625, 1953125, 9765625, 48828125, 244140625][step - 1]
    {
      hide Pow;
      PowAdd(5, done, step);
      MulAssoc(x, Pow(5, done), Pow(5, step));
      MulAssoc(v, Pow(5, done), Pow(5, step));
      PowMonotone(5, done + step, e);
      MulMonotone(Pow(5, done + step), Pow(5, e), x);
      PowMonotone(0x1000_0000, CAPACITY - 1, CAPACITY);
      PowersOfFive();
    }

    /** The number written in `count` digits of the string, from position `from`. */
    static method ReadUInt64(value: seq<char>, from: nat, count: nat) returns (result: nat)
      requires AllDigits(value) && from + count <= |value| && count <= 19
      ensures result == Dec(value[from..from + count])
      ensures result < Pow(10, count) <= Pow(10, 19) == 10_000_000_000_000_000_000
    {
      result := 0;
      assert value[from..from] == [] && Dec([]) == 0;
      hide Pow, Dec;
      for i := from to from + count
        invariant result == Dec(value[from..i])
      {
        assert value[from..i + 1] == value[from..i] + [value[i]];
        DecSnoc(value[from..i], value[i]);
        result := result * 10 + Digit(value[i]);
      }
      DecBound(value[from..from + count]);
      PowMonotone(10, count, 19);
      TenToNineteen();
    }

    static lemma TenToNineteen()
      ensures Pow(10, 19) == 10_000_000_000_000_000_000
    {
      assert Pow(10, 1) == 10 && Pow(10, 2) == 100 && Pow(10, 3) == 1000;
      PowAdd(10, 2, 2);
      PowAdd(10, 4, 4);
      PowAdd(10, 8, 8);
      PowAdd(10, 16, 3);
    }

    /** The digits read so far leave room for the next group. */
    static lemma DigitsFit(value: seq<char>, pos: nat, count: nat)
      requires AllDigits(value) && pos + count <= |value| && Pow(10, |value|) <= P(CAPACITY - 1)
      ensures 0 <= Dec(value[..pos]) && Dec(value[..pos]) * Pow(5, count) < P(CAPACITY - 1)
      ensures Dec(value[..pos]) * Pow(10, count) < P(CAPACITY - 1)
      ensures Dec(value[..pos + count]) == Dec(value[..pos]) * Pow(10, count) + Dec(value[pos..pos + count])
    {
      hide Pow, Dec, P;
      ghost var x, five, ten := Dec(value[..pos]), Pow(5, count), Pow(10, count);
      assert 0 <= x < Pow(10, pos) by { DecBound(value[..pos]); }
      assert x * ten < P(CAPACITY - 1) by {
        PowPositive(10, count);
        MulStrict(x, Pow(10, pos), ten);
        PowAdd(10, pos, count);
        PowMonotone(10, pos + count, |value|);
      }
      assert x * five <= x * ten by {
        PowBaseMonotone(5, 10, count);
        MulMonotone(five, ten, x);
      }
      assert value[..pos] + value[pos..pos + count] == value[..pos + count];
      DecAppend(value[..pos], value[pos..pos + count]);
    }

    /** One group of digits: the number so far moves up and the group is added. */
    method AppendDigits(value: seq<char>, pos: nat, count: nat)
      requires Valid() && exponent == 0 && AllDigits(value) && pos + count <= |value| && count <= 19
      requires Value() == Dec(value[..pos]) && Pow(10, |value|) <= P(CAPACITY - 1)
      modifies this, bigits
      ensures Valid() && exponent == 0 && Value() == Dec(value[..pos + count])
    {
      hide Val, P, Pow, Dec;
      var digits := ReadUInt64(value, pos, count);
      assert Significand() == Value() by { PFacts(0); }
      DigitsFit(value, pos, count);
      MultiplyByPowerOfTen(count);
      LengthFromValue(CAPACITY - 1);
      AddUInt64(digits);
    }

    method AssignDecimalString(value: seq<char>)
      requires Valid() && AllDigits(value) && Pow(10, |value|) <= P(CAPACITY - 1)
      modifies this, bigits
      ensures Valid() && exponent == 0 && Value() == Dec(value)
    {
      hide Val, P, Pow;
      Zero();
      var length, pos := |value|, 0;
      assert value[..0] == [];
      while length >= 19
        invariant Valid() && exponent == 0 && 0 <= pos && 0 <= length && pos + length == |value|
        invariant Value() == Dec(value[..pos])
        decreases length
      {
        AppendDigits(value, pos, 19);
        pos := pos + 19;
        length := length - 19;
      }
      AppendDigits(value, pos, length);
      assert value[..pos + length] == value;
      Clamp();
    }

    // ----- comparison -----

    function BigitAt(index: nat): nat
      requires used <= bigits.Length
      reads this, bigits
    {
      if index >= BigitLength() then 0
      else if index < exponent then 0
      else bigits[index - exponent]
    }

    /** The first n bigits of the number, the hidden zeros included. */
    ghost function Expanded(n: nat): (s: seq<nat>)
      requires Shaped()
      reads this, bigits
      ensures |s| == n && forall k :: 0 <= k < n ==> s[k] == BigitAt(k)
      ensures AllBigits(s)
    {
      seq(n, i requires 0 <= i < n && Shaped() reads this, bigits => BigitAt(i))
    }

    lemma ExpandedValue(n: nat)
      requires Valid() && BigitLength() <= n
      ensures Val(Expanded(n)) == Value()
    {
      hide P;
      var s := Expanded(n);
      ValTrim(s, BigitLength());
      var t := s[..BigitLength()];
      ValLowZeros(t, exponent);
      assert t[exponent..] == bigits[..][..used];
      ValTrim(bigits[..], used);
      MulAssoc(P(exponent), Significand(), 1);
    }

    static method Compare(a: Bignum, b: Bignum) returns (r: int)
      requires a.Valid() && b.Valid()
      ensures r == Sign(a.Value(), b.Value())
    {
      hide Val, P;
      var lengthA, lengthB := a.BigitLength(), b.BigitLength();
      if lengthA < lengthB {
        a.ShorterIsLess(b);
        return -1;
      }
      if lengthA > lengthB {
        b.ShorterIsLess(a);
        return 1;
      }
      ghost var x, y := a.Expanded(lengthA), b.Expanded(lengthA);
      a.ExpandedValue(lengthA);
      b.ExpandedValue(lengthA);
      for i := lengthA downto Min(a.exponent, b.exponent)
        invariant forall k :: i <= k < lengthA ==> x[k] == y[k]
      {
        var bigitA, bigitB := a.BigitAt(i), b.BigitAt(i);
        assert x[i + 1..] == y[i + 1..];
        if bigitA < bigitB {
          ValCompare(x, y, i);
          return -1;
        }
        if bigitA > bigitB {
          ValCompare(y, x, i);
          return 1;
        }
      }
      assert x == y;
      return 0;
    }

    lemma ShorterIsLess(other: Bignum)
      requires Valid() && other.Valid() && BigitLength() < other.BigitLength()
      ensures Value() < other.Value()
    {
      ValueBounds();
      other.ValueBounds();
      PowMonotone(0x1000_0000, BigitLength(), other.BigitLength() - 1);
    }

    /** Too short a larger addend cannot reach a much longer number. */
    static lemma SumIsShort(a: Bignum, b: Bignum, c: Bignum)
      requires a.Valid() && b.Valid() && c.Valid()
      requires b.BigitLength() <= a.BigitLength()
      requires a.BigitLength() + 1 < c.BigitLength()
        || (a.exponent >= b.BigitLength() && a.BigitLength() < c.BigitLength())
      ensures a.Value() + b.Value() < c.Value()
    {
      hide Val, P;
      a.ValueBounds();
      b.ValueBounds();
      c.ValueBounds();
      var n := a.BigitLength();
      if n + 1 < c.BigitLength() {
        assert P(b.BigitLength()) <= P(n) && 2 * P(n) <= P(n + 1) <= P(c.BigitLength() - 1) by {
          PowMonotone(0x1000_0000, b.BigitLength(), n);
          PowMonotone(0x1000_0000, n + 1, c.BigitLength() - 1);
          PFacts(n);
          PUnfold(b.BigitLength());
          PUnfold(n);
          PUnfold(n + 1);
          PUnfold(c.BigitLength() - 1);
        }
      } else {
        a.SignificandBounds();
        assert P(b.BigitLength()) <= P(a.exponent) by {
          PowMonotone(0x1000_0000, b.BigitLength(), a.exponent);
          PUnfold(b.BigitLength());
          PUnfold(a.exponent);
        }
        assert (a.Significand() + 1) * P(a.exponent) <= P(a.used) * P(a.exponent) == P(n) by {
          PFacts(a.exponent);
          MulMonotone(a.Significand() + 1, P(a.used), P(a.exponent));
          PAdd(a.used, a.exponent);
        }
        MulDistrib(P(a.exponent), a.Significand(), 1);
        assert P(n) <= P(c.BigitLength() - 1) by {
          PowMonotone(0x1000_0000, n, c.BigitLength() - 1);
          PUnfold(n);
          PUnfold(c.BigitLength() - 1);
        }
      }
    }

    static lemma PUnfold(n: nat)
      ensures P(n) == Pow(0x1000_0000, n)
    {
    }

    /** What the bigits from i up leave of c - a - b decides the sign once it is below 0 or above 1. */
    static lemma TopDecides(x: seq<nat>, y: seq<nat>, z: seq<nat>, i: nat)
      requires |x| == |y| == |z| && i <= |x| && AllBigits(x) && AllBigits(y) && AllBigits(z)
      ensures Val(z[i..]) - Val(x[i..]) - Val(y[i..]) < 0 ==> Val(x) + Val(y) > Val(z)
      ensures Val(z[i..]) - Val(x[i..]) - Val(y[i..]) > 1 ==> Val(x) + Val(y) < Val(z)
    {
      hide Val, P, AllBigits;
      SplitBound(x, i);
      SplitBound(y, i);
      SplitBound(z, i);
      TopArithmetic(P(i), Val(x[..i]), Val(x[i..]), Val(x), Val(y[..i]), Val(y[i..]), Val(y), Val(z[..i]), Val(z[i..]),
                    Val(z));
    }

    static lemma SplitBound(s: seq<nat>, i: nat)
      requires i <= |s| && AllBigits(s)
      ensures Val(s) == Val(s[..i]) + P(i) * Val(s[i..]) && 0 <= Val(s[..i]) < P(i)
    {
      ValSplit(s, i);
      ValBound(s[..i]);
    }

    static lemma TopArithmetic(p: int, lx: int, tx: int, x: int, ly: int, ty: int, y: int, lz: int, tz: int, z: int)
      requires 0 <= lx < p && 0 <= ly < p && 0 <= lz < p
      requires x == lx + p * tx && y == ly + p * ty && z == lz + p * tz
      ensures tz - tx - ty < 0 ==> x + y > z
      ensures tz - tx - ty > 1 ==> x + y < z
    {
      var rest := tz - tx - ty;
      assert p * tz - p * tx - p * ty == p * rest by {
        MulDistrib(p, rest, tx + ty);
        MulDistrib(p, tx, ty);
      }
      if rest < 0 { MulMonotone(rest, -1, p); }
      if rest > 1 { MulMonotone(2, rest, p); }
    }

    static lemma TailStep(s: seq<nat>, i: nat)
      requires i < |s|
      ensures Val(s[i..]) == s[i] + 0x1000_0000 * Val(s[i + 1..])
    {
      ValSplit(s[i..], 1);
      assert s[i..][1..] == s[i + 1..];
      ValStep(s[i..], 0);
      assert s[i..][..0] == [];
      PFacts(0);
    }

    /** One column from the top: the running difference, and what it already decides. */
    static lemma ColumnDecides(x: seq<nat>, y: seq<nat>, z: seq<nat>, i: nat, borrow: int)
      requires |x| == |y| == |z| && i < |x| && AllBigits(x) && AllBigits(y) && AllBigits(z)
      requires borrow == 0x1000_0000 * (Val(z[i + 1..]) - Val(x[i + 1..]) - Val(y[i + 1..]))
      ensures var rest := z[i] + borrow - (x[i] + y[i]);
              && rest == Val(z[i..]) - Val(x[i..]) - Val(y[i..])
              && (rest < 0 ==> Val(x) + Val(y) > Val(z))
              && (rest > 1 ==> Val(x) + Val(y) < Val(z))
    {
      hide Val, P;
      TailStep(x, i);
      TailStep(y, i);
      TailStep(z, i);
      TopDecides(x, y, z, i);
    }

    /** Below the smallest exponent there are only zeros, so what is left is the whole difference. */
    static lemma LastColumn(x: seq<nat>, y: seq<nat>, z: seq<nat>, i: nat, borrow: int)
      requires |x| == |y| == |z| && i <= |x| && AllBigits(x) && AllBigits(y) && AllBigits(z)
      requires forall k :: 0 <= k < i ==> x[k] == y[k] == z[k] == 0
      requires borrow == 0x1000_0000 * (Val(z[i..]) - Val(x[i..]) - Val(y[i..]))
      ensures borrow == 0 ==> Val(x) + Val(y) == Val(z)
      ensures borrow == 0x1000_0000 ==> Val(x) + Val(y) < Val(z)
    {
      hide Val, P;
      ghost var p, tx, ty, tz := P(i), Val(x[i..]), Val(y[i..]), Val(z[i..]);
      assert Val(x) == p * tx by { ValLowZeros(x, i); }
      assert Val(y) == p * ty by { ValLowZeros(y, i); }
      assert Val(z) == p * tz by { ValLowZeros(z, i); }
      assert p > 0 by { PFacts(i); }
      LastArithmetic(p, tx, Val(x), ty, Val(y), tz, Val(z));
    }

    static lemma LastArithmetic(p: int, tx: int, x: int, ty: int, y: int, tz: int, z: int)
      requires p > 0 && x == p * tx && y == p * ty && z == p * tz
      ensures tz - tx - ty == 0 ==> x + y == z
      ensures tz - tx - ty == 1 ==> x + y < z
    {
      MulDistrib(p, tx, ty);
      MulDistrib(p, tx + ty, 1);
    }

    /** The scan from the top bigit, with a borrow of 0 or 1 in units of the next column. */
    static method PlusCompareColumns(a: Bignum, b: Bignum, c: Bignum) returns (r: int)
      requires a.Valid() && b.Valid() && c.Valid()
      requires a.BigitLength() <= c.BigitLength() && b.BigitLength() <= c.BigitLength()
      ensures r == Sign(a.Value() + b.Value(), c.Value())
    {
      hide Val, P;
      var n := c.BigitLength();
      ghost var x, y, z := a.Expanded(n), b.Expanded(n), c.Expanded(n);
      a.ExpandedValue(n);
      b.ExpandedValue(n);
      c.ExpandedValue(n);
      var borrow := 0;
      var minExponent := Min(Min(a.exponent, b.exponent), c.exponent);
      assert Val(x[n..]) == 0 && Val(y[n..]) == 0 && Val(z[n..]) == 0 by {
        ValZero(x[n..]);
        ValZero(y[n..]);
        ValZero(z[n..]);
      }
      for i := n downto minExponent
        invariant borrow == 0x1000_0000 * (Val(z[i..]) - Val(x[i..]) - Val(y[i..]))
        invariant borrow == 0 || borrow == 0x1000_0000
      {
        ColumnDecides(x, y, z, i, borrow);
        var chunkA, chunkB, chunkC := a.BigitAt(i), b.BigitAt(i), c.BigitAt(i);
        var sum := chunkA + chunkB;
        if sum > chunkC + borrow {
          return 1;
        }
        borrow := chunkC + borrow - sum;
        if borrow > 1 { return -1; }
        borrow := borrow * 0x1000_0000;
      }
      LastColumn(x, y, z, minExponent, borrow);
      if borrow == 0 { return 0; }
      return -1;
    }

    /** Compares a + b with c without forming the sum. */
    static method PlusCompare(a: Bignum, b: Bignum, c: Bignum) returns (r: int)
      requires a.Valid() && b.Valid() && c.Valid()
      ensures r == Sign(a.Value() + b.Value(), c.Value())
      decreases a.BigitLength() < b.BigitLength()
    {
      hide Val, P;
      if a.BigitLength() < b.BigitLength() {
        r := PlusCompare(b, a, c);
        return;
      }
      if a.BigitLength() + 1 < c.BigitLength() {
        SumIsShort(a, b, c);
        return -1;
      }
      if a.BigitLength() > c.BigitLength() {
        c.ShorterIsLess(a);
        return 1;
      }
      if a.exponent >= b.BigitLength() && a.BigitLength() < c.BigitLength() {
        SumIsShort(a, b, c);
        return -1;
      }
      r := PlusCompareColumns(a, b, c);
    }

    // ----- squaring -----

    /** Adds column i of the square for i below `used`, reading the digits' copy. */
    method LowColumn(copyOffset: nat, i: nat, start: nat, ghost d: seq<nat>) returns (accumulator: nat)
      requires bigits.Length == CAPACITY && |d| == copyOffset <= 64 && AllBigits(d) && i < copyOffset
      requires forall k :: 0 <= k < copyOffset ==> bigits[copyOffset + k] == d[k]
      requires start <= 0x8_0000_0000
      ensures accumulator == start + Comba.Column(d, d, i) < 0x1_0000_0000_0000_0000
    {
      hide Comba.Column;
      accumulator := start;
      var index1: int, index2 := i, 0;
      assert Comba.Column(d[..0], d, i) == 0 by { Comba.ColumnNothing(d, i); }
      while index1 >= 0
        invariant 0 <= index2 <= i + 1 && index1 + index2 == i
        invariant accumulator == start + Comba.Column(d[..index2], d, i)
        decreases index1 + 1
      {
        var chunk1, chunk2 := bigits[copyOffset + index1], bigits[copyOffset + index2];
        assert chunk1 * chunk2 == d[index2] * Comba.At(d, i - index2) by { MulAssoc(d[index1], d[index2], 1); }
        Comba.ColumnStep(d, d, i, index2);
        accumulator := accumulator + chunk1 * chunk2;
        index1 := index1 - 1;
        index2 := index2 + 1;
      }
      Comba.ColumnTail(d, d, i, i + 1);
      Comba.ColumnBound(d, d, i);
    }

    /** Adds column i of the square for i from `used` on; only copies above position i are read. */
    method HighColumn(copyOffset: nat, i: nat, start: nat, ghost d: seq<nat>) returns (accumulator: nat)
      requires bigits.Length == CAPACITY && |d| == copyOffset <= 64 && AllBigits(d) && copyOffset <= i < 2 * copyOffset
      requires forall k :: i < copyOffset + k < 2 * copyOffset ==> bigits[copyOffset + k] == d[k]
      requires start <= 0x8_0000_0000
      ensures accumulator == start + Comba.Column(d, d, i) < 0x1_0000_0000_0000_0000
    {
      hide Comba.Column;
      accumulator := start;
      var index1 := copyOffset - 1;
      var index2 := i - index1;
      Comba.ColumnHead(d[..index2], d, i);
      while index2 < copyOffset
        invariant 0 < index2 <= copyOffset && index1 + index2 == i && i - copyOffset <= index1 < copyOffset
        invariant accumulator == start + Comba.Column(d[..index2], d, i)
      {
        var chunk1, chunk2 := bigits[copyOffset + index1], bigits[copyOffset + index2];
        assert chunk1 * chunk2 == d[index2] * Comba.At(d, i - index2) by { MulAssoc(d[index1], d[index2], 1); }
        Comba.ColumnStep(d, d, i, index2);
        accumulator := accumulator + chunk1 * chunk2;
        index1 := index1 - 1;
        index2 := index2 + 1;
      }
      assert d[..index2] == d;
      Comba.ColumnBound(d, d, i);
    }

    /** t holds the low i bigits of the square of d, and the accumulator what is due at i. */
    static ghost predicate Squared(t: seq<nat>, d: seq<nat>, i: nat, accumulator: nat)
    {
      i <= |t| && Val(t[..i]) + accumulator * P(i) == Comba.Total(d, d, i)
    }

    static lemma SquareStep(s: seq<nat>, t: seq<nat>, d: seq<nat>, i: nat, start: nat, accumulator: nat)
      requires Squared(s, d, i, start) && i < |s| && t == s[i := accumulator % 0x1000_0000]
      requires accumulator == start + Comba.Column(d, d, i)
      ensures Squared(t, d, i + 1, accumulator / 0x1000_0000)
    {
      hide P, Val;
      ValWrite(s, t, i, accumulator % 0x1000_0000);
      CarryOut(accumulator, i);
      MulDistrib(P(i), start, Comba.Column(d, d, i));
    }

    /** The square fits in twice the bigits, so nothing is left in the accumulator. */
    static lemma SquareDone(t: seq<nat>, d: seq<nat>, accumulator: nat)
      requires 2 * |d| <= |t| && AllBigits(d) && Squared(t, d, 2 * |d|, accumulator)
      requires forall k :: 2 * |d| <= k < |t| ==> t[k] == 0
      ensures accumulator == 0 && Val(t) == Val(d) * Val(d)
    {
      hide P, Val;
      ghost var p, v := P(|d|), Val(d);
      Comba.TotalIsProduct(d, d, 2 * |d|);
      ValTrim(t, 2 * |d|);
      assert v * v < P(2 * |d|) by {
        ValBound(d);
        PAdd(|d|, |d|);
        MulMonotone2(v, p - 1, v, p - 1);
        MulStrict(p - 1, p, p);
        MulMonotone(p - 1, p, p - 1);
      }
      if accumulator > 0 { MulMonotone(1, accumulator, P(2 * |d|)); }
    }

    method SquareLow(copyOffset: nat, ghost d: seq<nat>) returns (accumulator: nat)
      requires bigits.Length == CAPACITY && |d| == copyOffset <= 64 && AllBigits(d)
      requires forall k :: 0 <= k < copyOffset ==> bigits[copyOffset + k] == d[k]
      requires forall k :: 2 * copyOffset <= k < CAPACITY ==> bigits[k] == 0
      requires AllBigits(bigits[..])
      modifies bigits
      ensures AllBigits(bigits[..]) && accumulator <= 0x8_0000_0000
      ensures forall k :: 0 <= k < copyOffset ==> bigits[copyOffset + k] == d[k]
      ensures forall k :: 2 * copyOffset <= k < CAPACITY ==> bigits[k] == 0
      ensures Squared(bigits[..], d, copyOffset, accumulator)
    {
      hide Squared;
      accumulator := 0;
      SquareStart(bigits[..], d);
      for i := 0 to copyOffset
        invariant AllBigits(bigits[..]) && accumulator <= 0x8_0000_0000
        invariant forall k :: 0 <= k < copyOffset ==> bigits[copyOffset + k] == d[k]
        invariant forall k :: 2 * copyOffset <= k < CAPACITY ==> bigits[k] == 0
        invariant Squared(bigits[..], d, i, accumulator)
      {
        ghost var s, start := bigits[..], accumulator;
        accumulator := LowColumn(copyOffset, i, accumulator, d);
        Comba.ColumnBound(d, d, i);
        bigits[i] := accumulator % 0x1000_0000;
        SquareStep(s, bigits[..], d, i, start, accumulator);
        accumulator := accumulator / 0x1000_0000;
      }
    }

    static lemma SquareStart(t: seq<nat>, d: seq<nat>)
      ensures Squared(t, d, 0, 0)
    {
      assert t[..0] == [];
    }

    method SquareHigh(copyOffset: nat, start: nat, ghost d: seq<nat>) returns (accumulator: nat)
      requires bigits.Length == CAPACITY && |d| == copyOffset <= 64 && AllBigits(d) && start <= 0x8_0000_0000
      requires forall k :: 0 <= k < copyOffset ==> bigits[copyOffset + k] == d[k]
      requires forall k :: 2 * copyOffset <= k < CAPACITY ==> bigits[k] == 0
      requires AllBigits(bigits[..])
      requires Squared(bigits[..], d, copyOffset, start)
      modifies bigits
      ensures AllBigits(bigits[..])
      ensures forall k :: 2 * copyOffset <= k < CAPACITY ==> bigits[k] == 0
      ensures Squared(bigits[..], d, 2 * copyOffset, accumulator)
    {
      hide Squared;
      accumulator := start;
      for i := copyOffset to 2 * copyOffset
        invariant AllBigits(bigits[..]) && accumulator <= 0x8_0000_0000
        // The copy below position i is already overwritten and no longer needed.
        invariant forall k :: i <= copyOffset + k < 2 * copyOffset ==> bigits[copyOffset + k] == d[k]
        invariant forall k :: 2 * copyOffset <= k < CAPACITY ==> bigits[k] == 0
        invariant Squared(bigits[..], d, i, accumulator)
      {
        ghost var s, before := bigits[..], accumulator;
        accumulator := HighColumn(copyOffset, i, accumulator, d);
        Comba.ColumnBound(d, d, i);
        bigits[i] := accumulator % 0x1000_0000;
        SquareStep(s, bigits[..], d, i, before, accumulator);
        accumulator := accumulator / 0x1000_0000;
      }
    }

    method Square()
      requires Valid() && 2 * used <= CAPACITY
      modifies this, bigits
      ensures Valid() && Value() == old(Value()) * old(Value())
      ensures used > 0 ==> exponent == 2 * old(exponent)
      ensures used <= 2 * old(used)
    {
      hide Squared, Val, P;
      var productLength := 2 * used;
      ghost var d := bigits[..][..used];
      ghost var v, e := Significand(), exponent;
      ValTrim(bigits[..], used);
      // First shift the digits so that they are not overwritten.
      var copyOffset := used;
      for i := 0 to used
        modifies bigits
        invariant forall k :: 0 <= k < used ==> bigits[k] == d[k]
        invariant forall k :: 0 <= k < i ==> bigits[copyOffset + k] == d[k]
        invariant forall k :: copyOffset + i <= k < CAPACITY ==> bigits[k] == 0
      {
        bigits[copyOffset + i] := bigits[i];
      }
      assert AllBigits(bigits[..]) by { Copied(bigits[..], d, copyOffset); }
      var accumulator := SquareLow(copyOffset, d);
      accumulator := SquareHigh(copyOffset, accumulator, d);
      SquareDone(bigits[..], d, accumulator);
      used := productLength;
      exponent := exponent * 2;
      assert Value() == (v * P(e)) * (v * P(e)) by { SquareValue(v, e); }
      Clamp();
    }

    static lemma Copied(t: seq<nat>, d: seq<nat>, n: nat)
      requires |d| == n && 2 * n <= |t| && AllBigits(d)
      requires forall k :: 0 <= k < n ==> t[k] == d[k]
      requires forall k :: 0 <= k < n ==> t[n + k] == d[k]
      requires forall k :: 2 * n <= k < |t| ==> t[k] == 0
      ensures AllBigits(t)
    {
      forall k | 0 <= k < |t| ensures t[k] < BASE {
        if n <= k < 2 * n { assert t[n + (k - n)] == d[k - n]; }
      }
    }

    static lemma SquareValue(v: nat, e: nat)
      ensures (v * v) * P(e * 2) == (v * P(e)) * (v * P(e))
    {
      var p := P(e);
      PAdd(e, e);
      MulAssoc(v, v, p * p);
      MulAssoc(v, p, p);
      MulAssoc(v, p, v * p);
      MulAssoc(p, v * p, 1);
    }

    // ----- powers -----

    /** What a bit mask that walks down the exponent is worth with j bits to go. */
    static function Mask(j: nat): nat
    {
      if j == 0 then 0 else Pow(2, j - 1)
    }

    /** Finds the bit below the exponent's leading one. */
    static method SecondHighestBit(e: nat) returns (mask: nat, ghost j: nat)
      requires e > 0
      ensures mask == Mask(j) && Pow(2, j) > 0 && e / Pow(2, j) == 1
    {
      hide Pow;
      mask := 1;
      ghost var k := 0;
      PowersOfTwo();
      while e >= mask
        invariant mask == Pow(2, k) > 0
        invariant k > 0 ==> Pow(2, k - 1) <= e && mask == 2 * Pow(2, k - 1)
        decreases e - mask
      {
        assert Pow(2, k + 1) == 2 * Pow(2, k) by { PowAdd(2, 1, k); }
        mask := mask * 2;
        k := k + 1;
      }
      j := k - 1;
      LeadingOne(e, Pow(2, j));
      if j > 0 { assert Pow(2, j) == 2 * Pow(2, j - 1) by { PowAdd(2, 1, j - 1); } }
      mask := mask / 4;
    }

    static lemma LeadingOne(e: nat, p: nat)
      requires 0 < p <= e < 2 * p
      ensures e / p == 1
    {
      DivModUnique(e, p, 1, e - p);
    }

    /**
     Left-to-right exponentiation in 64 bits, as far as it goes. At most one multiplication by the
     base has to be left for later, because it then no longer fits.
     */
    static method SmallPower(base: nat, bits: nat, e: nat, maskIn: nat, ghost jIn: nat)
      returns (thisValue: nat, delayed: bool, mask: nat, ghost j: nat)
      requires 0 < base < 0x1_0000 && bits == BitSize(base) && maskIn == Mask(jIn) && Pow(2, jIn) > 0
        && e / Pow(2, jIn) == 1
      ensures mask == Mask(j) && Pow(2, j) > 0 && e / Pow(2, j) <= e && thisValue < 0x1_0000_0000_0000_0000
      ensures thisValue * (if delayed then base else 1) == Pow(base, e / Pow(2, j))
      ensures delayed ==> thisValue > 0xFFFF_FFFF
    {
      hide Pow;
      BitSizeFacts(base);
      SmallBits(base, bits);
      mask, j := maskIn, jIn;
      thisValue, delayed := base, false;
      PowUnit(base);
      DivModFacts(e, Pow(2, j));
      while mask != 0 && thisValue <= 0xFFFF_FFFF
        invariant mask == Mask(j) && Pow(2, j) > 0 && e / Pow(2, j) <= e && thisValue < 0x1_0000_0000_0000_0000
        invariant thisValue * (if delayed then base else 1) == Pow(base, e / Pow(2, j))
        invariant delayed ==> thisValue > 0xFFFF_FFFF
        decreases j
      {
        PrefixStep(e, j);
        ghost var prefix := e / Pow(2, j);
        assert thisValue * thisValue == Pow(base, 2 * prefix) by { PowAdd(base, prefix, prefix); }
        assert thisValue * thisValue <= 0xFFFF_FFFF * 0xFFFF_FFFF by {
          MulMonotone2(thisValue, 0xFFFF_FFFF, thisValue, 0xFFFF_FFFF);
        }
        thisValue := thisValue * thisValue;
        if (e / mask) % 2 == 1 {
          var highBitsZero := thisValue / Pow(2, 64 - bits) == 0;
          assert thisValue * base == Pow(base, 2 * prefix + 1) by { PowAdd(base, 2 * prefix, 1); PowUnit(base); }
          if highBitsZero {
            assert thisValue * base < 0x1_0000_0000_0000_0000 by {
              DivModFacts(thisValue, Pow(2, 64 - bits));
              MulStrict(thisValue, Pow(2, 64 - bits), base);
              MulMonotone(base, Pow(2, bits), Pow(2, 64 - bits));
            }
            thisValue := thisValue * base;
          } else {
            assert thisValue > 0xFFFF_FFFF by {
              if thisValue < Pow(2, 64 - bits) { DivModUnique(thisValue, Pow(2, 64 - bits), 0, thisValue); }
            }
            delayed := true;
          }
        }
        mask := mask / 2;
        MaskHalves(j);
        j := j - 1;
      }
    }

    static lemma MaskHalves(j: nat)
      requires j > 0
      ensures Mask(j) / 2 == Mask(j - 1)
    {
      if j > 1 { assert Pow(2, j - 1) == 2 * Pow(2, j - 2); }
    }

    /** A 16-bit base leaves at least 48 bits of room. */
    static lemma SmallBits(base: nat, bits: nat)
      requires 0 < base < 0x1_0000 && bits == BitSize(base)
      ensures bits <= 16 && Pow(2, 64 - bits) > 0xFFFF_FFFF
      ensures Pow(2, bits) * Pow(2, 64 - bits) == 0x1_0000_0000_0000_0000
    {
      hide Pow;
      BitSizeFacts(base);
      PowersOfTwo();
      if bits > 16 { PowMonotone(2, 16, bits - 1); }
      PowMonotone(2, 32, 64 - bits);
      PowAdd(2, bits, 64 - bits);
    }

    /** One step of the exponentiation: the prefix of the exponent gets one more bit. */
    method SquareAndMultiply(base: nat, bits: nat, ghost e: nat, bit: bool, ghost prefix: nat)
      requires Valid() && exponent == 0 && 0 < base < 0x1_0000 && base < Pow(2, bits)
      requires bits * e / 28 + 2 <= CAPACITY && 2 * prefix + (if bit then 1 else 0) <= e
      requires Value() == Pow(base, prefix)
      modifies this, bigits
      ensures Valid() && exponent == 0 && Value() == Pow(base, 2 * prefix + (if bit then 1 else 0))
    {
      hide Pow, Val, P;
      assert BigitLength() <= CAPACITY / 2 by {
        PowerRoom(base, bits, e, prefix);
        LengthFromValue(bits * prefix / 28 + 1);
      }
      Square();
      assert Value() == Pow(base, 2 * prefix) by { PowAdd(base, prefix, prefix); }
      SignificandOfPlain();
      if bit {
        assert Pow(base, 2 * prefix) * base == Pow(base, 2 * prefix + 1) by {
          PowAdd(base, 2 * prefix, 1);
          PowUnit(base);
        }
        PowerRoom(base, bits, e, 2 * prefix + 1);
        MultiplyByUInt32(base);
      }
    }

    /** The same exponentiation on the bignum, for the remaining bits. */
    method LargePower(base: nat, bits: nat, e: nat, maskIn: nat, ghost jIn: nat)
      requires Valid() && exponent == 0 && 0 < base < 0x1_0000 && base < Pow(2, bits)
      requires bits * e / 28 + 2 <= CAPACITY
      requires maskIn == Mask(jIn) && Pow(2, jIn) > 0 && e / Pow(2, jIn) <= e && Value() == Pow(base, e / Pow(2, jIn))
      modifies this, bigits
      ensures Valid() && exponent == 0 && Value() == Pow(base, e)
    {
      hide Pow, Val, P;
      var mask := maskIn;
      ghost var j := jIn;
      while mask != 0
        invariant Valid() && exponent == 0 && mask == Mask(j) && Pow(2, j) > 0 && e / Pow(2, j) <= e
        invariant Value() == Pow(base, e / Pow(2, j))
        decreases j
      {
        PrefixStep(e, j);
        SquareAndMultiply(base, bits, e, (e / mask) % 2 == 1, e / Pow(2, j));
        mask := mask / 2;
        MaskHalves(j);
        j := j - 1;
      }
      assert Pow(2, 0) == 1 by { PowUnit(2); }
      if j > 0 { PowPositive(2, j - 1); }
    }

    lemma SignificandOfPlain()
      requires exponent == 0
      ensures Significand() == Value()
    {
      PFacts(0);
    }

    static lemma PowerRoom(base: nat, bits: nat, e: nat, prefix: nat)
      requires base < Pow(2, bits) && prefix <= e && bits * e / 28 + 2 <= CAPACITY
      ensures Pow(base, prefix) < P(bits * prefix / 28 + 1) <= P(CAPACITY - 1) <= P(CAPACITY)
      ensures 2 * prefix <= e ==> 2 * (bits * prefix / 28 + 1) <= CAPACITY
    {
      hide Pow;
      PowerFits(base, bits, prefix);
      ghost var m, n := bits * prefix, bits * e;
      assert m <= n by { MulMonotone(prefix, e, bits); }
      BigitsForBits(m, n);
      if 2 * prefix <= e {
        assert 2 * m <= n by {
          MulMonotone(2 * prefix, e, bits);
          MulAssoc(bits, 2, prefix);
          MulAssoc(2, bits, prefix);
        }
      }
    }

    static lemma BigitsForBits(m: nat, n: nat)
      requires m <= n && n / 28 + 2 <= CAPACITY
      ensures P(m / 28 + 1) <= P(CAPACITY - 1) <= P(CAPACITY)
      ensures 2 * m <= n ==> 2 * (m / 28 + 1) <= CAPACITY
    {
      hide Pow;
      PowMonotone(0x1000_0000, m / 28 + 1, CAPACITY - 1);
      PowMonotone(0x1000_0000, CAPACITY - 1, CAPACITY);
    }

    /** Takes the factors of two off the base and counts the bits of the rest. */
    static method SplitBase(base: nat) returns (odd: nat, shifts: nat, bitSize: nat)
      requires base > 0
      ensures odd == OddPart(base) && shifts == Twos(base) && bitSize == BitSize(odd)
      ensures odd < Pow(2, bitSize) && odd * Pow(2, shifts) == base
    {
      odd, shifts := base, 0;
      while odd % 2 == 0
        invariant odd > 0 && odd <= base && OddPart(odd) == OddPart(base) && shifts + Twos(odd) == Twos(base)
        decreases odd
      {
        odd := odd / 2;
        shifts := shifts + 1;
      }
      bitSize := 0;
      var tmp := odd;
      while tmp != 0
        invariant tmp >= 0 && bitSize + BitSize(tmp) == BitSize(odd)
        decreases tmp
      {
        tmp := tmp / 2;
        bitSize := bitSize + 1;
      }
      BitSizeFacts(odd);
      OddPartFacts(base);
    }

    method AssignPowerUInt16(base: nat, e: nat)
      requires Valid() && 0 < base < 0x1_0000
      requires BitSize(OddPart(base)) * e / 28 + 2 <= CAPACITY
      modifies this, bigits
      ensures Valid() && Value() == Pow(base, e)
    {
      hide Pow, Val, P, OddPart, BitSize, Twos;
      if e == 0 {
        AssignUInt16(1);
        PowUnit(base);
        return;
      }
      Zero();
      var odd, shifts, bitSize := SplitBase(base);
      var mask, j := SecondHighestBit(e);
      var thisValue, delayed;
      thisValue, delayed, mask, j := SmallPower(odd, bitSize, e, mask, j);
      AssignUInt64(thisValue);
      SignificandOfPlain();
      if delayed {
        PowerRoom(odd, bitSize, e, e / Pow(2, j));
        MultiplyByUInt32(odd);
      }
      LargePower(odd, bitSize, e, mask, j);
      PowerRoom(odd, bitSize, e, e);
      LengthFromValue(CAPACITY - 1);
      ShiftLeft(shifts * e);
      TwosOfPower(base, odd, shifts, e);
    }

    static lemma TwosOfPower(base: nat, odd: nat, shifts: nat, e: nat)
      requires odd * Pow(2, shifts) == base
      ensures 0 <= shifts * e && Pow(odd, e) * Pow(2, shifts * e) == Pow(base, e)
    {
      hide Pow;
      MulNonneg(shifts, e);
      PowPow(2, shifts, e);
      PowMulBase(odd, Pow(2, shifts), e);
    }

    // ----- division -----

    /** One column of a subtraction of factor * other: the borrow may be as large as a bigit. */
    static method SubtractTimesChunk(factor: nat, bigit: nat, otherBigit: nat, borrow: nat)
      returns (bigit': nat, borrow': nat)
      requires factor < BASE && bigit < BASE && otherBigit < BASE && borrow <= BASE
      ensures bigit' < BASE && borrow' <= BASE
      ensures bigit' - borrow' * 0x1000_0000 == bigit - factor * otherBigit - borrow
    {
      var product := factor * otherBigit;
      assert 0 <= product <= 0xFFF_FFFF * 0xFFF_FFFF by {
        MulMonotone2(factor, 0xFFF_FFFF, otherBigit, 0xFFF_FFFF);
        MulNonneg(factor, otherBigit);
      }
      var remove := borrow + product;
      var exact: int := bigit - remove % 0x1000_0000;
      var difference := Wrap32(exact);
      BorrowOut(exact);
      bigit' := difference % 0x1000_0000;
      borrow' := difference / 0x8000_0000 + remove / 0x1000_0000;
    }

    method SubtractTimesColumns(other: Bignum, factor: nat, offset: nat) returns (borrow: nat)
      requires Shaped() && other.Shaped() && Apart(other) && offset + other.used <= CAPACITY && factor < BASE
      modifies bigits
      ensures AllBigits(bigits[..]) && borrow <= BASE
      ensures forall k :: offset + other.used <= k < CAPACITY ==> bigits[k] == old(bigits[k])
      ensures Columns(bigits[..], old(bigits[..]), -(factor as int), other.bigits[..], offset, offset + other.used,
                      other.used, -(borrow as int))
    {
      hide Columns, Val, P;
      borrow := 0;
      ghost var s, o, f := bigits[..], other.bigits[..], -(factor as int);
      ColumnsStart(s, f, o, offset);
      for i := 0 to other.used
        invariant AllBigits(bigits[..]) && borrow <= BASE
        invariant forall k :: offset + i <= k < CAPACITY ==> bigits[k] == s[k]
        invariant Columns(bigits[..], s, f, o, offset, offset + i, i, -(borrow as int))
      {
        ghost var t := bigits[..];
        var bigit, nextBorrow := SubtractTimesChunk(factor, bigits[i + offset], other.bigits[i], borrow);
        bigits[i + offset] := bigit;
        assert f * o[i] == -(factor * o[i]) by { NegateProduct(factor, o[i]); }
        ColumnsStep(t, bigits[..], s, f, o, offset, i, -(borrow as int), bigit, -(nextBorrow as int));
        borrow := nextBorrow;
      }
    }

    static lemma NegateProduct(a: int, b: int)
      ensures (-a) * b == -(a * b)
    {
    }

    /** What the columns leave behind, as numbers. */
    static lemma TimesDone(t: seq<nat>, s: seq<nat>, factor: nat, o: seq<nat>, high: nat, low: nat, pos: nat, n: nat)
      requires low <= high
      requires Columns(t, s, -(factor as int), o, high - low, pos, n, 0)
      requires forall k :: pos <= k < |t| ==> t[k] == s[k]
      requires forall k :: n <= k < |o| ==> o[k] == 0
      ensures Val(t) * P(low) == Val(s) * P(low) - factor * (Val(o) * P(high))
    {
      hide P, Val, Columns;
      ghost var f, vt, vs, vo := -(factor as int), Val(t), Val(s), Val(o);
      assert vt == vs + f * (P(high - low) * vo) by { ColumnsDone(t, s, f, o, high - low, pos, n); }
      assert vt * P(low) == vs * P(low) + f * (vo * P(high)) by { Combine(vs, f, vo, high, low); }
      assert f * (vo * P(high)) == -(factor * (vo * P(high))) by { NegateProduct(factor, vo * P(high)); }
    }

    /** The significands relative to the smaller exponent leave room for the subtraction. */
    static lemma TimesFits(s: nat, factor: nat, o: nat, high: nat, low: nat)
      requires low <= high && factor * (o * P(high)) <= s * P(low)
      ensures 0 <= s + (-(factor as int)) * (P(high - low) * o)
    {
      hide P;
      Combine(s, -(factor as int), o, high, low);
      NegateProduct(factor, o * P(high));
      PFacts(low);
      ghost var rest := s + (-(factor as int)) * (P(high - low) * o);
      if rest < 0 { MulMonotone(rest, -1, P(low)); }
    }

    /** The last column above the divisor's top bigit, if there is one. */
    method PayBorrow(from: nat, borrowIn: nat, ghost factor: nat, ghost s: seq<nat>, ghost o: seq<nat>,
                     ghost offset: nat, ghost n: nat) returns (clamped: bool)
      requires Shaped() && |s| == CAPACITY && borrowIn <= BASE && n <= |o|
      requires from == offset + n && from <= used <= from + 1
      requires forall k :: from <= k < CAPACITY ==> bigits[k] == s[k]
      requires forall k :: n <= k < |o| ==> o[k] == 0
      requires Columns(bigits[..], s, -(factor as int), o, offset, from, n, -(borrowIn as int))
      requires 0 <= Val(s) + (-(factor as int)) * (P(offset) * Val(o))
      modifies bigits
      ensures Shaped()
      ensures clamped ==> from < used && bigits[used - 1] == s[used - 1]
      ensures clamped ==> Columns(bigits[..], s, -(factor as int), o, offset, from, n, 0)
      ensures !clamped ==> Columns(bigits[..], s, -(factor as int), o, offset, used, n, 0)
      ensures forall k :: used <= k < CAPACITY ==> bigits[k] == s[k]
      ensures clamped ==> forall k :: from <= k < CAPACITY ==> bigits[k] == s[k]
    {
      hide Columns, Val, P;
      ghost var f := -(factor as int);
      var borrow: int := borrowIn;
      var i := from;
      if i == used {
        BorrowEnds(bigits[..], s, f, o, offset, used, n, -(borrow as int));
        return false;
      }
      while i < used
        modifies bigits
        invariant i == from || i == from + 2
        invariant i == from ==> borrow == borrowIn && bigits[..] == old(bigits[..])
        invariant i > from ==> Columns(bigits[..], s, f, o, offset, used, n, 0)
        invariant AllBigits(bigits[..])
        invariant forall k :: used <= k < CAPACITY ==> bigits[k] == s[k]
        decreases used - i
      {
        if borrow == 0 { return true; }
        ghost var t := bigits[..];
        var exact: int := bigits[i] - borrow;
        var difference := Wrap32(exact);
        BorrowOut(exact);
        bigits[i] := difference % 0x1000_0000;
        ghost var carry: int := -((difference / 0x8000_0000) as int);
        ColumnsCarry(t, bigits[..], s, f, o, offset, i, n, -(borrow as int), difference % 0x1000_0000, carry);
        BorrowEnds(bigits[..], s, f, o, offset, used, n, carry);
        borrow := difference / 0x8000_0000;
        i := i + 1;
        // The loop header advances once more.
        i := i + 1;
      }
      return false;
    }

    /** Small factors are handled by plain subtractions. */
    method SubtractFew(other: Bignum, factor: nat)
      requires Valid() && other.Valid() && Apart(other) && exponent <= other.exponent
      requires factor * other.Value() <= Value()
      modifies this, bigits
      ensures Valid() && Value() == old(Value()) - factor * other.Value()
      ensures exponent <= other.exponent && BigitLength() <= old(BigitLength())
    {
      hide Columns, Val, P;
      ghost var v, o := Value(), other.Value();
      for i := 0 to factor
        invariant Valid() && exponent <= other.exponent && Value() == v - i * o
        invariant BigitLength() <= old(BigitLength())
      {
        assert (i + 1) * o == i * o + o <= factor * o by { MulMonotone(i + 1, factor, o); MulDistrib(o, i, 1); }
        SubtractBignum(other);
      }
    }

    method SubtractMany(other: Bignum, factor: nat)
      requires Valid() && other.Valid() && Apart(other) && other.used > 0 && exponent <= other.exponent
      requires 0 < factor < BASE && factor * other.Value() <= Value()
      requires BigitLength() <= other.BigitLength() + 1
      modifies this, bigits
      ensures Valid() && Value() == old(Value()) - factor * other.Value()
      ensures exponent <= other.exponent && BigitLength() <= old(BigitLength())
    {
      hide Columns, Val, P;
      assert other.BigitLength() <= BigitLength() by { MulMonotone(1, factor, other.Value()); LongerThan(other); }
      var exponentDiff := other.exponent - exponent;
      ghost var s, o, e := bigits[..], other.bigits[..], exponent;
      TimesFits(Val(s), factor, Val(o), other.exponent, exponent);
      var borrow := SubtractTimesColumns(other, factor, exponentDiff);
      var clamped := PayBorrow(other.used + exponentDiff, borrow, factor, s, o, exponentDiff, other.used);
      ghost var pos := if clamped then other.used + exponentDiff else used;
      TimesDone(bigits[..], s, factor, o, other.exponent, e, pos, other.used);
      if clamped { return; }
      Clamp();
    }

    /**
     Takes factor * other away in place. The last loop of the source advances twice per round, so it
     is right only when at most one bigit lies above the divisor's top one.
     */
    method SubtractTimes(other: Bignum, factor: nat)
      requires Valid() && other.Valid() && Apart(other) && other.used > 0 && exponent <= other.exponent
      requires factor < BASE && factor * other.Value() <= Value()
      requires factor >= 3 ==> BigitLength() <= other.BigitLength() + 1
      modifies this, bigits
      ensures Valid() && Value() == old(Value()) - factor * other.Value()
      ensures exponent <= other.exponent && BigitLength() <= old(BigitLength())
    {
      if factor < 3 {
        SubtractFew(other, factor);
      } else {
        SubtractMany(other, factor);
      }
    }

    /** The top bigit brackets the number. */
    lemma TopBounds()
      requires Valid() && used > 0
      ensures bigits[used - 1] * P(BigitLength() - 1) <= Value() < (bigits[used - 1] + 1) * P(BigitLength() - 1)
      ensures used == 1 ==> Value() == bigits[used - 1] * P(BigitLength() - 1)
    {
      hide P, Val;
      ghost var top, e, m, low := bigits[used - 1], P(exponent), P(used - 1), Val(bigits[..][..used - 1]);
      assert Significand() == low + top * m by {
        ValTrim(bigits[..], used);
        ValStep(bigits[..], used - 1);
      }
      assert low < m by { ValBound(bigits[..][..used - 1]); }
      assert P(BigitLength() - 1) == m * e by { PAdd(used - 1, exponent); }
      PFacts(exponent);
      assert Value() == low * e + top * (m * e) by {
        MulDistrib(e, low, top * m);
        MulAssoc(top, m, e);
      }
      assert 0 <= low * e < m * e by { MulStrict(low, m, e); MulNonneg(low, e); }
      MulDistrib(m * e, top, 1);
      if used == 1 {
        assert bigits[..][..0] == [];
        assert low == 0 by { ValZero(bigits[..][..0]); }
      }
    }

    /** The divisor is so much smaller than its length allows that a long dividend gets shorter one bigit at a time. */
    static lemma LongStep(v: nat, a: nat, o: nat, t: nat, p: nat, single: bool)
      requires p > 0 && 0 < a <= t + a && t < BASE
      requires a * (0x1000_0000 * p) <= v
      requires t * p <= o < (t + 1) * p && (single ==> o == t * p)
      ensures a * o < v && 0x1000_0000 * p - o <= v - a * o
      ensures t < BASE - 1 || single ==> p <= v - a * o
    {
      ghost var w := 0x1000_0000 * p;
      assert o < w by { MulMonotone(t + 1, 0x1000_0000, p); }
      ghost var gap := w - o;
      assert a * gap == a * w - a * o by { MulDistrib(a, gap, o); }
      assert a * gap >= gap by { MulMonotone(1, a, gap); }
      if t < BASE - 1 {
        assert (t + 1) * p <= 0xFFF_FFFF * p by { MulMonotone(t + 1, 0xFFF_FFFF, p); }
      }
      if single {
        assert t * p <= 0xFFF_FFFF * p by { MulMonotone(t, 0xFFF_FFFF, p); }
      }
    }

    /** A quotient below 2^16 allows the dividend one more bigit than the divisor. */
    lemma QuotientLength(other: Bignum)
      requires Valid() && other.Valid() && other.used > 0 && other.Value() > 0 && Value() / other.Value() < 0x1_0000
      ensures BigitLength() <= other.BigitLength() + 1
    {
      hide P, Val;
      ghost var v, o, p := Value(), other.Value(), P(other.BigitLength());
      other.ValueBounds();
      assert v < 0x1_0000 * o by { DivModFacts(v, o); MulMonotone(v / o + 1, 0x1_0000, o); MulDistrib(o, v / o, 1); }
      assert 0x1_0000 * o <= 0x1_0000 * p;
      PFacts(other.BigitLength());
      LengthFromValue(other.BigitLength() + 1);
    }

    /** Removes one multiple of the divisor: the dividend's top bigit tells how much is safe. */
    method ShortenOnce(other: Bignum) returns (top: nat)
      requires Valid() && other.Valid() && Apart(other) && other.used > 0 && exponent <= other.exponent
      requires BigitLength() == other.BigitLength() + 1
      modifies this, bigits
      ensures Valid() && exponent <= other.exponent && used > 0
      ensures old(Value()) == top * other.Value() + Value() && Value() < old(Value())
      ensures BigitLength() <= other.BigitLength() + 1
      ensures P(other.BigitLength()) - other.Value() <= Value()
      ensures BigitLength() < other.BigitLength() ==> other.used > 1 && other.bigits[other.used - 1] == BASE - 1
    {
      hide P, Val;
      ghost var v, o, t, p := Value(), other.Value(), other.bigits[other.used - 1], P(other.BigitLength() - 1);
      top := bigits[used - 1];
      assert top * o < v && P(other.BigitLength()) - o <= v - top * o
        && (t < BASE - 1 || other.used == 1 ==> p <= v - top * o) by {
        TopBounds();
        other.TopBounds();
        PFacts(other.BigitLength() - 1);
        LongStep(v, top, o, t, p, other.used == 1);
      }
      assert 0 < o <= top * o by { other.SignificandBounds(); MulMonotone(1, top, o); }
      SubtractTimes(other, top);
      assert used > 0 by { SignificandBounds(); }
      if BigitLength() < other.BigitLength() { TooShort(p, other.BigitLength() - 1); }
    }

    /** What is left of v when multiples of o were removed can be shorter than o, which has n bigits. */
    static ghost predicate Overshoots(v: nat, o: nat, n: nat)
      requires o > 0 && n > 0
    {
      P(n) - o <= v % o < P(n - 1)
    }

    static lemma OvershootExactly(v: nat, o: nat, n: nat, rest: nat, count: nat)
      requires n > 0 && 0 < P(n - 1) <= o && v == count * o + rest && P(n) - o <= rest < P(n)
      ensures rest < P(n - 1) <==> Overshoots(v, o, n)
    {
      hide P;
      DivModFacts(rest, o);
      MulDistrib(o, count, rest / o);
      DivModUnique(v, o, count + rest / o, rest % o);
      if rest < o {
        DivModUnique(rest, o, 0, rest);
      } else {
        if rest / o < 1 { MulMonotone(rest / o, 0, o); }
        MulMonotone(1, rest / o, o);
      }
    }

    /**
     Removes multiples of a longer dividend's top bigit until it is no longer than the divisor. Whether it gets shorter
     than the divisor shows in the remainder.
     */
    method Shorten(other: Bignum) returns (result: nat)
      requires Valid() && other.Valid() && Apart(other) && other.used > 0 && exponent <= other.exponent
      requires other.Value() > 0 && Value() / other.Value() < 0x1_0000
      requires other.BigitLength() <= BigitLength()
      modifies this, bigits
      ensures Valid() && exponent <= other.exponent && used > 0
      ensures old(Value()) == result * other.Value() + Value()
      ensures BigitLength() <= other.BigitLength()
      ensures BigitLength() < other.BigitLength() ==> other.used > 1 && other.bigits[other.used - 1] == BASE - 1
      ensures BigitLength() < other.BigitLength() <==>
        old(BigitLength()) > other.BigitLength() && Overshoots(old(Value()), other.Value(), other.BigitLength())
    {
      hide P, Val, Overshoots;
      ghost var v, o, n := Value(), other.Value(), other.BigitLength();
      ghost var longer := BigitLength() > n;
      if longer { LongerIsAtLeast(other); }
      QuotientLength(other);
      result := 0;
      while BigitLength() > other.BigitLength()
        invariant Valid() && exponent <= other.exponent && used > 0
        invariant v == result * o + Value()
        invariant BigitLength() <= other.BigitLength() + 1
        invariant BigitLength() < other.BigitLength() ==> other.used > 1 && other.bigits[other.used - 1] == BASE - 1
        invariant longer ==> P(n) - o <= Value()
        invariant !longer ==> BigitLength() == n
        decreases Value()
      {
        var top := ShortenOnce(other);
        MulDistrib(o, result, top);
        result := result + top;
      }
      if longer { LengthInRest(other, v, result); }
    }

    lemma LongerIsAtLeast(other: Bignum)
      requires Valid() && other.Valid() && used > 0 && BigitLength() > other.BigitLength()
      ensures P(other.BigitLength()) <= Value()
    {
      hide P, Val;
      ValueBounds();
      other.ValueBounds();
      PMonotone(other.BigitLength(), BigitLength() - 1);
    }

    /** After the loop: being shorter than the divisor is being below its leading place. */
    lemma LengthInRest(other: Bignum, v: nat, count: nat)
      requires Valid() && other.Valid() && used > 0 && other.used > 0 && other.Value() > 0
        && BigitLength() <= other.BigitLength()
      requires v == count * other.Value() + Value() && P(other.BigitLength()) - other.Value() <= Value()
      ensures BigitLength() < other.BigitLength() <==> Overshoots(v, other.Value(), other.BigitLength())
    {
      hide P, Val, Overshoots;
      ghost var n := other.BigitLength();
      PFacts(n - 1);
      other.ValueBounds();
      ValueBounds();
      TooShort(P(n), n);
      OvershootExactly(v, other.Value(), n, Value(), count);
      if BigitLength() < n { TooShort(P(n - 1), n - 1); }
    }

    lemma TooShort(p: nat, n: nat)
      requires Valid() && p == P(n) && BigitLength() <= n
      ensures Value() < p
    {
      ValueBounds();
      PowMonotone(0x1000_0000, BigitLength(), n);
    }

    /** When both numbers have the same length and the divisor is one bigit, one division is enough. */
    method DivideTop(other: Bignum) returns (quotient: nat)
      requires Valid() && other.Valid() && Apart(other) && other.used == 1 && used > 0 && exponent <= other.exponent
      requires BigitLength() == other.BigitLength()
      modifies this, bigits
      ensures Valid() && old(Value()) == quotient * other.Value() + Value() && Value() < other.Value()
    {
      hide P, Val;
      ghost var v, o, p, s := Value(), other.Value(), P(other.BigitLength() - 1), bigits[..];
      var thisBigit, otherBigit := bigits[used - 1], other.bigits[other.used - 1];
      assert v < (thisBigit + 1) * p by { TopBounds(); }
      assert o == otherBigit * p by { other.TopBounds(); }
      var rest;
      quotient, rest := DivideChunk(thisBigit, otherBigit);
      bigits[used - 1] := rest;
      TopChange(s, bigits[..], used - 1, thisBigit, rest, exponent);
      DividedTop(v, o, p, thisBigit, otherBigit, quotient, rest);
      Clamp();
    }

    static method DivideChunk(thisBigit: nat, otherBigit: nat) returns (quotient: nat, rest: nat)
      requires otherBigit > 0
      ensures thisBigit == quotient * otherBigit + rest && rest < otherBigit && rest <= thisBigit
    {
      quotient := thisBigit / otherBigit;
      DivModFacts(thisBigit, otherBigit);
      MulAssoc(otherBigit, quotient, 1);
      MulNonneg(quotient, otherBigit);
      rest := thisBigit - otherBigit * quotient;
    }

    static lemma DividedTop(v: nat, o: nat, p: nat, thisBigit: nat, otherBigit: nat, quotient: nat, rest: nat)
      requires v < (thisBigit + 1) * p && o == otherBigit * p
      requires thisBigit == quotient * otherBigit + rest && rest < otherBigit
      ensures v == quotient * o + (v - (thisBigit - rest) * p)
      ensures v - (thisBigit - rest) * p < o
    {
      MulAssoc(quotient, otherBigit, p);
      MulDistrib(p, rest + 1, thisBigit - rest);
      MulMonotone(rest + 1, otherBigit, p);
    }

    static lemma TopChange(s: seq<nat>, t: seq<nat>, i: nat, x: nat, y: nat, e: nat)
      requires i < |s| && t == s[i := y] && s[i] == x
      ensures Val(t) * P(e) == Val(s) * P(e) - (x - y) * P(i + e)
    {
      hide P, Val;
      ValWrite(s, t, i, y);
      ValSplit(s, i + 1);
      ValSplit(t, i + 1);
      PAdd(i, e);
      ghost var p, q := P(i), P(e);
      assert Val(t) == Val(s) - (x - y) * p by { MulDistrib(p, x - y, y); }
      MulAssoc(x - y, p, q);
      MulDistrib(q, Val(s) - (x - y) * p, (x - y) * p);
    }

    /** Subtracts the divisor as long as it fits. */
    method SubtractWhileFits(other: Bignum) returns (count: nat)
      requires Valid() && other.Valid() && Apart(other) && other.Value() > 0 && exponent <= other.exponent
      modifies this, bigits
      ensures Valid() && old(Value()) == count * other.Value() + Value() && Value() < other.Value()
    {
      hide P, Val;
      ghost var v, o := Value(), other.Value();
      count := 0;
      var more := Compare(other, this);
      while more <= 0
        invariant Valid() && exponent <= other.exponent
        invariant v == count * o + Value()
        invariant more == Sign(o, Value())
        decreases Value()
      {
        MulDistrib(o, count, 1);
        SubtractBignum(other);
        count := count + 1;
        more := Compare(other, this);
      }
    }

    /** The quotient once the dividend is no longer than the divisor. */
    method DivideShort(other: Bignum) returns (quotient: nat)
      requires Valid() && other.Valid() && Apart(other) && other.used > 0 && used > 0 && exponent <= other.exponent
      requires other.Value() > 0 && BigitLength() <= other.BigitLength()
      requires BigitLength() < other.BigitLength() ==> other.used > 1 && other.bigits[other.used - 1] == BASE - 1
      modifies this, bigits
      ensures Valid() && old(Value()) == quotient * other.Value() + Value() && Value() < other.Value()
    {
      hide P, Val;
      ghost var v, o := Value(), other.Value();
      var thisBigit, otherBigit := bigits[used - 1], other.bigits[other.used - 1];
      if other.used == 1 {
        quotient := DivideTop(other);
        return;
      }
      var estimate := thisBigit / (otherBigit + 1);
      assert estimate * o <= v && estimate < BASE
        && (otherBigit * (estimate + 1) > thisBigit ==> v < (estimate + 1) * o) by {
        EstimateFits(other, thisBigit, otherBigit, estimate);
      }
      quotient := estimate;
      SubtractTimes(other, estimate);
      MulDistrib(o, estimate, 1);
      TestFits(thisBigit, otherBigit, estimate);
      if otherBigit * (estimate + 1) > thisBigit {
        // One multiple more of the top bigit alone is too large already.
        return;
      }
      var count := SubtractWhileFits(other);
      MulDistrib(o, estimate, count);
      quotient := quotient + count;
    }

    /** The product in that test stays in 32 bits. */
    static lemma TestFits(thisBigit: nat, otherBigit: nat, estimate: nat)
      requires thisBigit < BASE && otherBigit < BASE && estimate == thisBigit / (otherBigit + 1)
      ensures otherBigit * (estimate + 1) < 0x1_0000_0000
    {
      DivModFacts(thisBigit, otherBigit + 1);
      MulDistrib(estimate, otherBigit, 1);
      MulDistrib(otherBigit, estimate, 1);
    }

    /** Divides by another number, leaving the remainder; the quotient must fit in 16 bits. */
    method DivideModuloIntBignum(other: Bignum) returns (result: nat)
      requires Valid() && other.Valid() && Apart(other) && other.used > 0 && other.Value() > 0
      requires Value() / other.Value() < 0x1_0000
      requires exponent > other.exponent && BigitLength() >= other.BigitLength() ==>
        BigitLength() - other.exponent <= CAPACITY
      modifies this, bigits
      ensures Valid()
      ensures result == old(Value()) / other.Value() && Value() == old(Value()) % other.Value()
    {
      hide P, Val;
      ghost var v, o := Value(), other.Value();
      if BigitLength() < other.BigitLength() {
        ShorterIsLess(other);
        DivModUnique(v, o, 0, v);
        return 0;
      }
      Align(other);
      result := Shorten(other);
      var quotient := DivideShort(other);
      MulDistrib(o, result, quotient);
      result := result + quotient;
      DivModUnique(v, o, result, Value());
    }

    /** The estimate from the top bigits never takes too much, and the cheap test is right. */
    lemma EstimateFits(other: Bignum, thisBigit: nat, otherBigit: nat, estimate: nat)
      requires Valid() && other.Valid() && used > 0 && other.used > 0
      requires thisBigit == bigits[used - 1] && otherBigit == other.bigits[other.used - 1]
      requires estimate == thisBigit / (otherBigit + 1)
      requires BigitLength() <= other.BigitLength()
      requires BigitLength() < other.BigitLength() ==> otherBigit == BASE - 1
      ensures estimate < BASE && estimate * other.Value() <= Value()
      ensures otherBigit * (estimate + 1) > thisBigit ==> Value() < (estimate + 1) * other.Value()
    {
      hide P, Val;
      ghost var v, o, p, q := Value(), other.Value(), P(BigitLength() - 1), P(other.BigitLength() - 1);
      TopBounds();
      other.TopBounds();
      DivModFacts(thisBigit, otherBigit + 1);
      assert estimate < BASE by { MulMonotone(1, otherBigit + 1, estimate); }
      PFacts(BigitLength() - 1);
      if BigitLength() < other.BigitLength() {
        assert estimate == 0 by { DivModUnique(thisBigit, BASE, 0, thisBigit); }
        ShorterIsLess(other);
      } else {
        assert estimate * o <= v by {
          MulMonotone(o, (otherBigit + 1) * p, estimate);
          MulAssoc(estimate, otherBigit + 1, p);
          MulMonotone(estimate * (otherBigit + 1), thisBigit, p);
        }
        if otherBigit * (estimate + 1) > thisBigit {
          MulMonotone(thisBigit + 1, otherBigit * (estimate + 1), p);
          MulAssoc(estimate + 1, otherBigit, p);
          MulAssoc(otherBigit, estimate + 1, 1);
          MulMonotone(otherBigit * p, o, estimate + 1);
        }
      }
    }

    /** The division needs no bound on the divisor's top bigit: 2^28 divided by 2^13 meets all that it asks. */
    static lemma TopBigitNotNeeded(v: Bignum, o: Bignum)
      requires v.Valid() && o.Valid() && v.Value() == P(1) && o.Value() == 0x2000
      ensures v.BigitLength() > o.BigitLength() && v.Value() / o.Value() < 0x1_0000
      ensures 0 < o.used && o.bigits[o.used - 1] < 0x1000_0000 / 16
    {
      PFacts(0);
      v.LengthAtLeast(1);
      o.LengthFromValue(1);
      o.SignificandBounds();
      o.TopBounds();
    }

    /** 2^56 divided by 2^56 - 1: the dividend is longer, and what the loop leaves is one bigit against two. */
    static lemma ShorteningCanOvershoot(v: Bignum, o: Bignum)
      requires v.Valid() && o.Valid() && v.Value() == P(2) && o.Value() == P(2) - 1
      ensures v.BigitLength() > o.BigitLength() == 2 && Overshoots(v.Value(), o.Value(), o.BigitLength())
    {
      PFacts(0);
      PFacts(1);
      PFacts(2);
      v.LengthAtLeast(2);
      o.LengthAtLeast(1);
      v.LengthFromValue(3);
      o.LengthFromValue(2);
      DivModUnique(P(2), P(2) - 1, 1, 1);
    }
  }
}
