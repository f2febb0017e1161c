/**
 The two ways the probing table turns a hash into a bucket, and the rounding of bucket counts to powers of two.
 */
module ProbingMod {
  import opened Powers
  import opened Wrappers
  import opened Bits

  /** DivMod divides by the bucket count; Power2Mod keeps the bucket count less one as a mask. */
  datatype Mod = DivMod(buckets: nat) | Power2Mod(mask: nat)
  {
    ghost predicate Fits(n: nat)
    {
      n > 0 && if DivMod? then buckets == n else mask == n - 1 && IsPowerOfTwo(n)
    }

    function Ideal(hash: nat): nat
      requires DivMod? ==> buckets > 0
    {
      if DivMod? then hash % buckets else And(hash, mask)
    }

    function Next(i: nat, end: nat): nat
    {
      if DivMod? then (if i + 1 == end then 0 else i + 1) else And(i + 1, mask)
    }

    function Double(): Mod
    {
      if DivMod? then DivMod(buckets * 2) else Power2Mod(Or(mask * 2, 1))
    }

    /** Either form sends a hash to its remainder by the bucket count. */
    lemma IdealIsRemainder(n: nat, hash: nat)
      requires Fits(n)
      ensures Ideal(hash) == hash % n
    {
      if Power2Mod? {
        var k: nat :| n == Pow(2, k);
        AndMask(hash, k);
      }
    }

    /** Either form steps to the next bucket and from the last one back to the first. */
    lemma NextIsCyclic(n: nat, i: nat)
      requires Fits(n) && i < n
      ensures Next(i, n) == if i + 1 == n then 0 else i + 1
    {
      if Power2Mod? {
        var k: nat :| n == Pow(2, k);
        AndMask(i + 1, k);
        if i + 1 == n { DivModUnique(n, n, 1, 0); } else { DivModUnique(i + 1, n, 0, i + 1); }
      }
    }

    lemma DoubleFits(n: nat)
      requires Fits(n)
      ensures Double().Fits(2 * n)
    {
      if Power2Mod? {
        HalfOfPower(n);
        OrHalves(2 * mask, 1);
        OrZero(mask);
      }
    }
  }

  /** The Power2Mod constructor; None stands for the exception it throws. */
  function MakePower2(buckets: nat): Option<Mod>
  {
    if buckets == 0 || And(buckets - 1, buckets) != 0 then None else Some(Power2Mod(buckets - 1))
  }

  /** The constructor accepts exactly the powers of two, and what it builds fits them. */
  lemma MakePower2Accepts(buckets: nat)
    ensures MakePower2(buckets).Some? <==> IsPowerOfTwo(buckets)
    ensures MakePower2(buckets).Some? ==> MakePower2(buckets).value.Fits(buckets)
  {
    if buckets > 0 {
      PowerOfTwoTest(buckets);
    } else {
      forall k: nat ensures 0 != Pow(2, k) { PowPositive(2, k); }
    }
  }

  /** Bit i of x says whether any of the w bits of y from i upwards is set. */
  ghost predicate Smeared(x: nat, y: nat, w: nat)
  {
    forall i: nat :: Bit(x, i) <==> AnyBit(y, i, w)
  }

  ghost predicate AnyBit(y: nat, i: nat, w: nat)
  {
    exists j: nat :: i <= j < i + w && Bit(y, j)
  }

  lemma SmearDoubles(x: nat, y: nat, w: nat)
    requires Smeared(x, y, w)
    ensures Pow(2, w) > 0 && Smeared(Or(x, x / Pow(2, w)), y, 2 * w)
  {
    PowPositive(2, w);
    var z := x / Pow(2, w);
    forall i: nat
      ensures Bit(Or(x, z), i) <==> AnyBit(y, i, 2 * w)
    {
      BitOr(x, z, i);
      BitShift(x, w, i);
      assert Bit(x, i) <==> AnyBit(y, i, w);
      assert Bit(x, i + w) <==> AnyBit(y, i + w, w);
      AnyBitSplits(y, i, w);
    }
  }

  lemma AnyBitSplits(y: nat, i: nat, w: nat)
    ensures AnyBit(y, i, 2 * w) <==> AnyBit(y, i, w) || AnyBit(y, i + w, w)
  {
    if AnyBit(y, i, 2 * w) {
      var j: nat :| i <= j < i + 2 * w && Bit(y, j);
      assert j < i + w || i + w <= j < (i + w) + w;
    }
  }

  lemma SmearOnce(y: nat)
    ensures Smeared(y, y, 1)
  {
    forall i: nat ensures Bit(y, i) <==> AnyBit(y, i, 1) {
      if AnyBit(y, i, 1) { var j: nat :| i <= j < i + 1 && Bit(y, j); }
    }
  }

  /** Smearing over as many bits as the number has leaves ones from the top bit down. */
  lemma SmearedAll(x: nat, y: nat, w: nat) returns (k: nat)
    requires Smeared(x, y, w) && 0 < y < Pow(2, w)
    ensures k <= w && x == Pow(2, k) - 1
    ensures k > 0 && Pow(2, k - 1) <= y < Pow(2, k)
  {
    var h := HighestBit(y);
    k := h + 1;
    if h >= w { PowMonotone(2, w, h); }
    forall i: nat ensures Bit(x, i) <==> i < k {
      assert Bit(x, i) <==> AnyBit(y, i, w);
      if i <= h { assert i <= h < i + w && Bit(y, h); }
    }
    AllOnes(x, k);
  }

  const WORD: nat := 0x1_0000_0000_0000_0000

  /** What adding one to the smeared number gives, wrap-around included. */
  lemma RoundUp(from: nat, x: nat, y: nat)
    requires from < WORD && y == (from - 1) % WORD && Smeared(x, y, 64)
    ensures 1 <= from <= WORD / 2 ==> IsPowerOfTwo((x + 1) % WORD) && from <= (x + 1) % WORD < 2 * from
    ensures from == 0 || from > WORD / 2 ==> (x + 1) % WORD == 0
  {
    hide Bit, Smeared;
    PowersOfTwo();
    if from == 1 {
      NothingSmeared(x, 64);
      assert IsPowerOfTwo(1) by { OneIsPower(); }
    } else {
      var k := SmearedAll(x, y, 64);
      assert Pow(2, k) == 2 * Pow(2, k - 1);
      if k < 64 {
        PowMonotone(2, k, 63);
        assert Pow(2, 64) == 2 * Pow(2, 63);
        assert IsPowerOfTwo(Pow(2, k));
      }
    }
  }

  lemma NothingSmeared(x: nat, w: nat)
    requires Smeared(x, 0, w)
    ensures x == 0
  {
    if x > 0 {
      var h := HighestBit(x);
      assert AnyBit(0, h, w);
      forall j: nat ensures !Bit(0, j) { BitZero(j); }
    }
  }

  /**
   The least power of two that is at least from, when the word can hold it. For 0, and above 2^63, the sum at the
   end wraps around to 0.
   */
  method RoundBuckets(from: nat) returns (rounded: nat)
    requires from < WORD
    ensures 1 <= from <= WORD / 2 ==> IsPowerOfTwo(rounded) && from <= rounded < 2 * from
    ensures from == 0 || from > WORD / 2 ==> rounded == 0
  {
    hide Pow, Or, Bit;
    PowersOfTwo();
    assert Pow(2, 2) == 4 by { PowAdd(2, 1, 1); }
    var y := (from - 1) % WORD;
    var x := y;
    SmearOnce(y);
    SmearDoubles(x, y, 1);
    x := Or(x, x / 2);
    SmearDoubles(x, y, 2);
    x := Or(x, x / 4);
    SmearDoubles(x, y, 4);
    x := Or(x, x / 16);
    SmearDoubles(x, y, 8);
    x := Or(x, x / 256);
    SmearDoubles(x, y, 16);
    x := Or(x, x / 65536);
    SmearDoubles(x, y, 32);
    x := Or(x, x / 0x1_0000_0000);
    RoundUp(from, x, y);
    rounded := (x + 1) % WORD;
  }
}
