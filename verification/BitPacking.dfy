/**
 Integers of up to 57 bits packed at arbitrary bit positions, by reading and writing whole little-endian words.
 */
module BitPacking {
  import opened Powers
  import opened Bits

  type byte = x: nat | x < 256

  /** Bit k of memory, counting from the least significant bit of the first byte. */
  predicate MemoryBit(memory: seq<byte>, k: nat)
  {
    k / 8 < |memory| && Bit(memory[k / 8], k % 8)
  }

  // ----- bits of joined, shifted and masked numbers -----

  lemma {:induction false} BitJoin(low: nat, high: nat, s: nat, i: nat)
    requires low < Pow(2, s)
    ensures 0 <= Pow(2, s) * high
    ensures Bit(low + Pow(2, s) * high, i) <==> if i < s then Bit(low, i) else Bit(high, i - s)
    decreases s
  {
    MulNonneg(Pow(2, s), high);
    if s > 0 {
      var p := Pow(2, s - 1);
      assert Pow(2, s) * high == 2 * (p * high) by { MulAssoc(2, p, high); }
      MulNonneg(p, high);
      var x := low + 2 * (p * high);
      assert x / 2 == low / 2 + p * high && x % 2 == low % 2;
      if i > 0 { BitJoin(low / 2, high, s - 1, i - 1); }
    }
  }

  lemma BitOfShifted(x: nat, s: nat, i: nat)
    ensures 0 <= x * Pow(2, s) && (Bit(x * Pow(2, s), i) <==> i >= s && Bit(x, i - s))
  {
    PowPositive(2, s);
    BitJoin(0, x, s, i);
    BitZero(i);
    MulAssoc(x, Pow(2, s), 1);
  }

  lemma BitOfMasked(x: nat, length: nat, i: nat)
    ensures Pow(2, length) > 0 && (Bit(And(x, Pow(2, length) - 1), i) <==> i < length && Bit(x, i))
  {
    AndMask(x, length);
    var p := Pow(2, length);
    DivModFacts(x, p);
    MulAssoc(x / p, p, 1);
    BitJoin(x % p, x / p, length, i);
    BitJoin(x % p, 0, length, i);
    BitZero(if i < length then 0 else i - length);
  }

  /** Numbers with the same bits are the same. */
  lemma {:induction false} SameBits(x: nat, y: nat)
    requires forall i: nat :: Bit(x, i) <==> Bit(y, i)
    ensures x == y
    decreases x + y
  {
    if x == 0 {
      if y > 0 {
        var h := HighestBit(y);
        BitZero(h);
      }
    } else if y == 0 {
      var h := HighestBit(x);
      BitZero(h);
    } else {
      assert Bit(x, 0) <==> Bit(y, 0);
      forall i: nat ensures Bit(x / 2, i) <==> Bit(y / 2, i) {
        assert Bit(x, i + 1) <==> Bit(y, i + 1);
      }
      SameBits(x / 2, y / 2);
    }
  }

  // ----- words in memory -----

  /** The number that a run of bytes holds, least significant byte first. */
  function Word(bytes: seq<byte>): nat
  {
    if bytes == [] then 0 else bytes[0] + 256 * Word(bytes[1..])
  }

  function BytesOf(word: nat, n: nat): (bytes: seq<byte>)
    ensures |bytes| == n
  {
    if n == 0 then [] else [word % 256] + BytesOf(word / 256, n - 1)
  }

  lemma Byte()
    ensures Pow(2, 8) == 256
  {
    PowersOfTwo();
  }

  lemma {:induction false} BitOfWord(bytes: seq<byte>, i: nat)
    ensures Bit(Word(bytes), i) <==> MemoryBit(bytes, i)
  {
    if bytes == [] {
      BitZero(i);
    } else {
      Byte();
      BitJoin(bytes[0], Word(bytes[1..]), 8, i);
      if i >= 8 {
        BitOfWord(bytes[1..], i - 8);
        assert (i - 8) / 8 == i / 8 - 1 && (i - 8) % 8 == i % 8;
      }
    }
  }

  lemma {:induction false} BitOfBytes(word: nat, n: nat, i: nat)
    ensures MemoryBit(BytesOf(word, n), i) <==> i < 8 * n && Bit(word, i)
  {
    if n > 0 {
      Byte();
      BitJoin(word % 256, word / 256, 8, i);
      if i >= 8 {
        BitOfBytes(word / 256, n - 1, i - 8);
        assert (i - 8) / 8 == i / 8 - 1 && (i - 8) % 8 == i % 8;
      }
    }
  }

  // ----- fields -----

  /** The field of the given length at bit offset off holds value. */
  ghost predicate Holds(memory: seq<byte>, off: nat, length: nat, value: nat)
  {
    && (forall i: nat :: i < length ==> (Bit(value, i) <==> MemoryBit(memory, off + i)))
    && (forall i: nat :: i >= length ==> !Bit(value, i))
  }

  /** A field holds at most one value. */
  lemma HoldsOne(memory: seq<byte>, off: nat, length: nat, x: nat, y: nat)
    requires Holds(memory, off, length, x) && Holds(memory, off, length, y)
    ensures x == y
  {
    forall i: nat ensures Bit(x, i) <==> Bit(y, i) {
      if i < length { assert Bit(x, i) <==> MemoryBit(memory, off + i); }
    }
    SameBits(x, y);
  }

  /** The memory after writing value: every bit is what it was, or set in the value. */
  ghost predicate Written(before: seq<byte>, after: seq<byte>, off: nat, length: nat, value: nat)
  {
    |after| == |before| && forall k: nat ::
      MemoryBit(after, k) <==> MemoryBit(before, k) || (off <= k < off + length && Bit(value, k - off))
  }

  lemma SmallNumber(value: nat, length: nat, i: nat)
    requires value < Pow(2, length) && i >= length
    ensures !Bit(value, i)
  {
    BitJoin(value, 0, length, i);
    BitZero(i - length);
  }

  /** A bit of a run of bytes is a bit of memory. */
  lemma BitOfPart(memory: seq<byte>, at: nat, n: nat, i: nat)
    requires at + n <= |memory|
    ensures MemoryBit(memory[at..at + n], i) <==> i < 8 * n && MemoryBit(memory, 8 * at + i)
  {
    hide Bit;
    assert (8 * at + i) / 8 == at + i / 8 && (8 * at + i) % 8 == i % 8;
  }

  lemma ReadBit(memory: seq<byte>, at: nat, shift: nat, length: nat, n: nat, word: nat, i: nat)
    requires at + n <= |memory| && shift + length <= 8 * n && word == Word(memory[at..at + n])
    ensures Pow(2, shift) > 0 && Pow(2, length) > 0
    ensures Bit(And(word / Pow(2, shift), Pow(2, length) - 1), i)
      <==> i < length && MemoryBit(memory, 8 * at + shift + i)
  {
    hide Pow, And, Word, MemoryBit, Bit;
    PowPositive(2, shift);
    BitOfMasked(word / Pow(2, shift), length, i);
    BitShift(word, shift, i);
    BitOfWord(memory[at..at + n], i + shift);
    BitOfPart(memory, at, n, i + shift);
  }

  /** Reading through a word: the bits from the offset on, cut off by the mask. */
  lemma ReadThroughWord(memory: seq<byte>, off: nat, length: nat, n: nat, word: nat)
    requires off / 8 + n <= |memory| && off % 8 + length <= 8 * n
    requires word == Word(memory[off / 8..off / 8 + n])
    ensures Pow(2, off % 8) > 0 && Pow(2, length) > 0
    ensures Holds(memory, off, length, And(word / Pow(2, off % 8), Pow(2, length) - 1))
  {
    hide Pow, And, Word, MemoryBit, Bit;
    PowPositive(2, off % 8);
    PowPositive(2, length);
    var value := And(word / Pow(2, off % 8), Pow(2, length) - 1);
    assert 8 * (off / 8) + off % 8 == off;
    forall i: nat
      ensures Bit(value, i) <==> i < length && MemoryBit(memory, off + i)
    {
      ReadBit(memory, off / 8, off % 8, length, n, word, i);
    }
  }

  lemma WriteBit(memory: seq<byte>, after: seq<byte>, at: nat, shift: nat, length: nat, n: nat, value: nat, i: nat)
    requires at + n <= |memory| && shift + length <= 8 * n && value < Pow(2, length) && i < 8 * n
    requires 0 <= value * Pow(2, shift) && |after| == |memory|
    requires after[at..at + n] == BytesOf(Or(Word(memory[at..at + n]), value * Pow(2, shift)), n)
    ensures MemoryBit(after, 8 * at + i)
      <==> MemoryBit(memory, 8 * at + i) || (shift <= i < shift + length && Bit(value, i - shift))
  {
    hide Pow, Or, Word, BytesOf, Bit, MemoryBit;
    var w, v := Word(memory[at..at + n]), value * Pow(2, shift);
    BitOfPart(memory, at, n, i);
    BitOfPart(after, at, n, i);
    BitOfBytes(Or(w, v), n, i);
    BitOr(w, v, i);
    BitOfWord(memory[at..at + n], i);
    BitOfShifted(value, shift, i);
    if i >= shift + length { SmallNumber(value, length, i - shift); }
  }

  /** Writing through a word: the or with the shifted value, put back byte by byte. */
  lemma WriteThroughWord(memory: seq<byte>, after: seq<byte>, off: nat, length: nat, n: nat, value: nat)
    requires off / 8 + n <= |memory| && off % 8 + length <= 8 * n && value < Pow(2, length)
    requires 0 <= value * Pow(2, off % 8)
    requires after == memory[..off / 8]
      + BytesOf(Or(Word(memory[off / 8..off / 8 + n]), value * Pow(2, off % 8)), n) + memory[off / 8 + n..]
    ensures Written(memory, after, off, length, value)
  {
    hide Pow, Or, Word, BytesOf, Bit;
    var at, shift := off / 8, off % 8;
    assert 8 * at + shift == off;
    assert after[at..at + n] == BytesOf(Or(Word(memory[at..at + n]), value * Pow(2, shift)), n);
    forall k: nat
      ensures MemoryBit(after, k) <==> MemoryBit(memory, k) || (off <= k < off + length && Bit(value, k - off))
    {
      if 8 * at <= k < 8 * (at + n) {
        hide MemoryBit;
        WriteBit(memory, after, at, shift, length, n, value, k - 8 * at);
      } else {
        assert k / 8 < |memory| ==> after[k / 8] == memory[k / 8];
      }
    }
  }

  /** A shifted value stays inside the word that it is combined with. */
  lemma ShiftedFits(value: nat, length: nat, shift: nat, width: nat)
    requires value < Pow(2, length) && length + shift <= width
    ensures 0 <= value * Pow(2, shift) < Pow(2, width)
  {
    hide Pow;
    PowAdd(2, length, shift);
    PowPositive(2, shift);
    MulNonneg(value, Pow(2, shift));
    MulStrict(value, Pow(2, length), Pow(2, shift));
    PowMonotone(2, length + shift, width);
  }

  // ----- the operations -----

  method ReadOff(base: array<byte>, bitOff: nat, n: nat) returns (word: nat)
    requires bitOff / 8 + n <= base.Length
    ensures word == Word(base[..][bitOff / 8..bitOff / 8 + n])
  {
    var at := bitOff / 8;
    assert base[at..at + n] == base[..][at..at + n];
    word := Word(base[at..at + n]);
  }

  method WriteOff(base: array<byte>, bitOff: nat, n: nat, word: nat)
    requires bitOff / 8 + n <= base.Length
    modifies base
    ensures base[..] == old(base[..])[..bitOff / 8] + BytesOf(word, n) + old(base[..])[bitOff / 8 + n..]
  {
    hide BytesOf;
    ghost var b := base[..];
    var bytes, at := BytesOf(word, n), bitOff / 8;
    for i := 0 to n
      invariant forall k :: 0 <= k < base.Length ==> base[k] == if at <= k < at + i then bytes[k - at] else b[k]
    {
      base[at + i] := bytes[i];
    }
    assert base[..] == b[..at] + bytes + b[at + n..];
  }

  method ReadInt57(base: array<byte>, bitOff: nat, length: nat, mask: nat) returns (value: nat)
    requires length <= 57 && mask == Pow(2, length) - 1 && bitOff / 8 + 8 <= base.Length
    ensures Holds(base[..], bitOff, length, value)
  {
    hide Pow, And, Word, Holds;
    var word := ReadOff(base, bitOff, 8);
    ReadThroughWord(base[..], bitOff, length, 8, word);
    value := And(word / Pow(2, bitOff % 8), mask);
  }

  method WriteInt57(base: array<byte>, bitOff: nat, length: nat, value: nat)
    requires length <= 57 && value < Pow(2, length) && bitOff / 8 + 8 <= base.Length
    modifies base
    ensures Written(old(base[..]), base[..], bitOff, length, value)
  {
    var word := ReadOff(base, bitOff, 8);
    ShiftedFits(value, length, bitOff % 8, 64);
    WriteOff(base, bitOff, 8, Or(word, value * Pow(2, bitOff % 8)));
    WriteThroughWord(old(base[..]), base[..], bitOff, length, 8, value);
  }

  method ReadInt25(base: array<byte>, bitOff: nat, length: nat, mask: nat) returns (value: nat)
    requires length <= 25 && mask == Pow(2, length) - 1 && bitOff / 8 + 4 <= base.Length
    ensures Holds(base[..], bitOff, length, value)
  {
    hide Pow, And, Word, Holds;
    var word := ReadOff(base, bitOff, 4);
    ReadThroughWord(base[..], bitOff, length, 4, word);
    value := And(word / Pow(2, bitOff % 8), mask);
  }

  method WriteInt25(base: array<byte>, bitOff: nat, length: nat, value: nat)
    requires length <= 25 && value < Pow(2, length) && bitOff / 8 + 4 <= base.Length
    modifies base
    ensures Written(old(base[..]), base[..], bitOff, length, value)
  {
    var word := ReadOff(base, bitOff, 4);
    ShiftedFits(value, length, bitOff % 8, 32);
    WriteOff(base, bitOff, 4, Or(word, value * Pow(2, bitOff % 8)));
    WriteThroughWord(old(base[..]), base[..], bitOff, length, 4, value);
  }

  /** How often a number can be halved before nothing is left. */
  function BitLength(x: nat): nat
  {
    if x == 0 then 0 else 1 + BitLength(x / 2)
  }

  /** The bit length is the only number of bits that x fits in, but not in one less. */
  lemma {:induction false} BitLengthIsLeast(x: nat, bits: nat)
    ensures x < Pow(2, BitLength(x)) && (x > 0 ==> Pow(2, BitLength(x) - 1) <= x)
    ensures x < Pow(2, bits) && (bits > 0 ==> Pow(2, bits - 1) <= x) <==> bits == BitLength(x)
  {
    PowUnit(2);
    if x > 0 {
      BitLengthIsLeast(x / 2, if bits == 0 then 0 else bits - 1);
      if bits > 1 { PowNext(2, bits - 2); }
      if BitLength(x) > 1 { PowNext(2, BitLength(x) - 2); }
    }
  }

  /** The least number of bits that holds every number up to maxValue. */
  method RequiredBits(maxValue: nat) returns (bits: nat)
    ensures maxValue < Pow(2, bits)
    ensures bits > 0 ==> Pow(2, bits - 1) <= maxValue
    ensures bits == BitLength(maxValue)
  {
    hide Shifted, Pow;
    PowersOfTwo();
    BitLengthIsLeast(maxValue, 0);
    if maxValue == 0 { return 0; }
    bits := 1;
    var rest: nat := maxValue / 2;
    ShiftedOnce(maxValue);
    while rest != 0
      invariant bits > 0 && rest >= 0 && Shifted(maxValue, rest, bits) && Pow(2, bits - 1) <= maxValue
      decreases rest
    {
      ShiftedAgain(maxValue, rest, bits);
      rest := rest / 2;
      bits := bits + 1;
    }
    ShiftedOut(maxValue, bits);
    BitLengthIsLeast(maxValue, bits);
  }

  /** What is left after shifting out some bits. */
  ghost predicate Shifted(x: nat, rest: nat, bits: nat)
  {
    Pow(2, bits) > 0 && rest == x / Pow(2, bits)
  }

  lemma ShiftedOnce(x: nat)
    ensures Shifted(x, x / 2, 1)
  {
    PowersOfTwo();
  }

  lemma ShiftedAgain(x: nat, rest: nat, bits: nat)
    requires Shifted(x, rest, bits) && rest > 0
    ensures Shifted(x, rest / 2, bits + 1) && Pow(2, bits) <= x
  {
    var p := Pow(2, bits);
    PowPositive(2, bits + 1);
    assert Pow(2, bits + 1) == 2 * p;
    hide Pow;
    MulAssoc(p, 2, 1);
    DivDiv(x, p, 2);
    DivModFacts(x, p);
    MulMonotone(1, rest, p);
  }

  lemma ShiftedOut(x: nat, bits: nat)
    requires Shifted(x, 0, bits)
    ensures x < Pow(2, bits)
  {
    DivModFacts(x, Pow(2, bits));
  }

  datatype BitsMask = BitsMask(bits: nat, mask: nat)

  const WORD: nat := 0x1_0000_0000_0000_0000

  /**
   One less than one shifted left, in a 64-bit word. The language leaves a shift by 64 undefined; here the count is
   taken modulo 64, as the common processors do.
   */
  function LowMask(bits: nat): nat
  {
    PowPositive(2, bits % 64); (Pow(2, bits % 64) - 1) % WORD
  }

  lemma LowMaskFits(bits: nat)
    requires bits < 64
    ensures Pow(2, bits) > 0 && LowMask(bits) == Pow(2, bits) - 1
  {
    hide Pow;
    PowersOfTwo();
    PowPositive(2, bits);
    PowMonotone(2, bits, 64);
  }

  lemma KeptByMask(v: nat, bits: nat)
    requires v < Pow(2, bits)
    ensures And(v, Pow(2, bits) - 1) == v
  {
    AndMask(v, bits);
    DivModUnique(v, Pow(2, bits), 0, v);
  }

  lemma HalfOfWord()
    ensures Pow(2, 63) == WORD / 2 && Pow(2, 64) == WORD
  {
    PowersOfTwo();
    PowNext(2, 63);
  }

  /** The bits of a 64-bit maximum: 64 of them from the top bit on. */
  lemma MaximumBits(maxValue: nat)
    requires maxValue < WORD
    ensures BitLength(maxValue) <= 64 && (BitLength(maxValue) == 64 <==> maxValue >= WORD / 2)
  {
    hide Pow;
    HalfOfWord();
    BitLengthIsLeast(maxValue, 64);
    if BitLength(maxValue) > 64 { PowMonotone(2, 64, BitLength(maxValue) - 1); }
  }

  /** The mask for every value up to a maximum does that exactly for maxima without the top bit. */
  method FromMax(maxValue: nat) returns (m: BitsMask)
    requires maxValue < WORD
    ensures m.bits == BitLength(maxValue) <= 64
    ensures (forall v: nat :: v <= maxValue ==> And(v, m.mask) == v) <==> maxValue < WORD / 2
    ensures maxValue < WORD / 2 ==> maxValue < Pow(2, m.bits) && m.mask == Pow(2, m.bits) - 1
    ensures maxValue >= WORD / 2 ==> m.bits == 64 && m.mask == 0
  {
    hide Pow, LowMask, And;
    var bits := RequiredBits(maxValue);
    m := BitsMask(bits, LowMask(bits));
    MaximumBits(maxValue);
    if bits < 64 {
      LowMaskFits(bits);
      forall v: nat | v <= maxValue ensures And(v, m.mask) == v { KeptByMask(v, bits); }
    } else {
      NoMask(maxValue);
      assert And(maxValue, m.mask) != maxValue;
    }
  }

  lemma NoMask(x: nat)
    ensures LowMask(64) == 0 && And(x, LowMask(64)) == 0
  {
    PowUnit(2);
    AndMask(x, 0);
  }

  /** 2^63 needs all 64 bits, and the mask for it keeps none. */
  lemma TopBitIsLost()
    ensures BitLength(0x8000_0000_0000_0000) == 64 && And(0x8000_0000_0000_0000, LowMask(64)) == 0
  {
    hide Pow;
    HalfOfWord();
    BitLengthIsLeast(0x8000_0000_0000_0000, 64);
    NoMask(0x8000_0000_0000_0000);
  }

  // ----- many fields -----

  datatype Field = Field(off: nat, length: nat, value: nat)

  predicate Apart(f: Field, g: Field)
  {
    f.off + f.length <= g.off || g.off + g.length <= f.off
  }

  ghost predicate Layout(fields: seq<Field>, size: nat)
  {
    && (forall i :: 0 <= i < |fields| ==>
      fields[i].length <= 57 && fields[i].value < Pow(2, fields[i].length) && fields[i].off / 8 + 8 <= size)
    && (forall i, j :: 0 <= i < j < |fields| ==> Apart(fields[i], fields[j]))
  }

  ghost predicate Untouched(memory: seq<byte>, f: Field)
  {
    forall k: nat :: f.off <= k < f.off + f.length ==> !MemoryBit(memory, k)
  }

  lemma WriteHolds(before: seq<byte>, after: seq<byte>, f: Field)
    requires Written(before, after, f.off, f.length, f.value) && Untouched(before, f) && f.value < Pow(2, f.length)
    ensures Holds(after, f.off, f.length, f.value)
  {
    forall i: nat ensures i >= f.length ==> !Bit(f.value, i) {
      if i >= f.length { SmallNumber(f.value, f.length, i); }
    }
    forall i: nat | i < f.length ensures Bit(f.value, i) <==> MemoryBit(after, f.off + i) {
      assert MemoryBit(after, f.off + i) <==> MemoryBit(before, f.off + i) || Bit(f.value, f.off + i - f.off);
    }
  }

  lemma WriteKeeps(before: seq<byte>, after: seq<byte>, f: Field, g: Field)
    requires Written(before, after, f.off, f.length, f.value) && Apart(f, g)
    ensures Holds(before, g.off, g.length, g.value) ==> Holds(after, g.off, g.length, g.value)
    ensures Untouched(before, g) ==> Untouched(after, g)
  {
    forall k: nat | g.off <= k < g.off + g.length ensures MemoryBit(after, k) <==> MemoryBit(before, k) {
    }
  }

  /** Fields that do not overlap, written in any order into zeroed memory, all hold what was written. */
  method WriteFields(base: array<byte>, fields: seq<Field>)
    requires Layout(fields, base.Length)
    requires forall k :: 0 <= k < base.Length ==> base[k] == 0
    modifies base
    ensures forall i :: 0 <= i < |fields| ==> Holds(base[..], fields[i].off, fields[i].length, fields[i].value)
  {
    hide Holds, Written, Untouched, Pow, MemoryBit;
    forall i | 0 <= i < |fields| ensures Untouched(base[..], fields[i]) { ZeroUntouched(base[..], fields[i]); }
    for n := 0 to |fields|
      invariant forall i :: 0 <= i < n ==> Holds(base[..], fields[i].off, fields[i].length, fields[i].value)
      invariant forall i :: n <= i < |fields| ==> Untouched(base[..], fields[i])
    {
      ghost var before := base[..];
      var f := fields[n];
      WriteInt57(base, f.off, f.length, f.value);
      WriteHolds(before, base[..], f);
      forall i | 0 <= i < |fields| && i != n
        ensures i < n ==> Holds(base[..], fields[i].off, fields[i].length, fields[i].value)
        ensures i > n ==> Untouched(base[..], fields[i])
      {
        assert Apart(fields[n], fields[i]) by { if i < n { assert Apart(fields[i], fields[n]); } }
        WriteKeeps(before, base[..], f, fields[i]);
      }
    }
  }

  lemma ZeroUntouched(memory: seq<byte>, f: Field)
    requires forall k :: 0 <= k < |memory| ==> memory[k] == 0
    ensures Untouched(memory, f)
  {
    forall k: nat ensures !MemoryBit(memory, k) { BitZero(k % 8); }
  }

  /** Each field reads back as the value written, whichever order the fields were written in. */
  method WriteFieldsAndRead(base: array<byte>, fields: seq<Field>) returns (values: seq<nat>)
    requires Layout(fields, base.Length)
    requires forall k :: 0 <= k < base.Length ==> base[k] == 0
    modifies base
    ensures |values| == |fields| && forall i :: 0 <= i < |fields| ==> values[i] == fields[i].value
  {
    hide Holds, Pow;
    WriteFields(base, fields);
    values := [];
    ghost var written := base[..];
    for n := 0 to |fields|
      invariant base[..] == written
      invariant |values| == n && forall i :: 0 <= i < n ==> values[i] == fields[i].value
    {
      var f := fields[n];
      PowPositive(2, f.length);
      var value := ReadInt57(base, f.off, f.length, Pow(2, f.length) - 1);
      HoldsOne(base[..], f.off, f.length, value, f.value);
      values := values + [value];
    }
  }

  // ----- fields by their maxima -----

  datatype Bounded = Bounded(off: nat, maxValue: nat, value: nat)

  /** The field that a value with a known maximum takes. */
  function FieldOf(b: Bounded): Field
  {
    Field(b.off, BitLength(b.maxValue), b.value)
  }

  lemma ShortField(b: Bounded)
    requires b.value <= b.maxValue < Pow(2, 57)
    ensures BitLength(b.maxValue) <= 57 && b.value < Pow(2, BitLength(b.maxValue)) && b.maxValue < WORD / 2
  {
    hide Pow;
    HalfOfWord();
    PowMonotone(2, 57, 63);
    BitLengthIsLeast(b.maxValue, 0);
    if BitLength(b.maxValue) > 57 { PowMonotone(2, 57, BitLength(b.maxValue) - 1); }
  }

  /** Lengths and masks from the maxima are enough: every value reads back, whichever order the fields come in. */
  method PackByMaxima(base: array<byte>, items: seq<Bounded>) returns (values: seq<nat>)
    requires forall i :: 0 <= i < |items| ==>
      items[i].value <= items[i].maxValue < Pow(2, 57) && items[i].off / 8 + 8 <= base.Length
    requires forall i, j :: 0 <= i < j < |items| ==> Apart(FieldOf(items[i]), FieldOf(items[j]))
    requires forall k :: 0 <= k < base.Length ==> base[k] == 0
    modifies base
    ensures |values| == |items| && forall i :: 0 <= i < |items| ==> values[i] == items[i].value
  {
    hide Holds, Pow, And, BitLength, MemoryBit;
    var fields, masks := [], [];
    for n := 0 to |items|
      invariant |fields| == |masks| == n && unchanged(base)
      invariant forall i :: 0 <= i < n ==> fields[i] == FieldOf(items[i])
      invariant forall i :: 0 <= i < n ==>
        fields[i].length <= 57 && fields[i].value < Pow(2, fields[i].length) && masks[i] == Pow(2, fields[i].length) - 1
    {
      ShortField(items[n]);
      var m := FromMax(items[n].maxValue);
      fields := fields + [Field(items[n].off, m.bits, items[n].value)];
      masks := masks + [m.mask];
    }
    WriteFields(base, fields);
    values := [];
    ghost var written := base[..];
    for n := 0 to |fields|
      invariant base[..] == written
      invariant |values| == n && forall i :: 0 <= i < n ==> values[i] == items[i].value
    {
      var f := fields[n];
      var value := ReadInt57(base, f.off, f.length, masks[n]);
      HoldsOne(base[..], f.off, f.length, value, f.value);
      values := values + [value];
    }
  }

  /**
   The start-up check: the signs of the float encodings, then eight touching fields of 57 bits. It throws only if the
   sign bit is elsewhere.
   */
  method BitPackingSanity(negativeOne: bv32, one: bv32) returns (thrown: bool)
    ensures thrown <==> negativeOne ^ one != 0x8000_0000
    ensures negativeOne == 0xBF80_0000 && one == 0x3F80_0000 ==> !thrown
  {
    if negativeOne ^ one != 0x8000_0000 { return true; }
    PowersOfTwo();
    PowAdd(2, 57, 7);
    var test57 := 0x123456789abcdef;
    var mem := new byte[65](_ => 0);
    var fields := [];
    var b := 0;
    while b < 57 * 8
      invariant b == 57 * |fields| && b <= 57 * 8
      invariant forall i :: 0 <= i < |fields| ==> fields[i] == Field(57 * i, 57, test57)
    {
      fields := fields + [Field(b, 57, test57)];
      b := b + 57;
    }
    var values := WriteFieldsAndRead(mem, fields);
    thrown := exists i :: 0 <= i < |values| && values[i] != test57;
  }
}
