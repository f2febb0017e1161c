/**
 External merge sort: blocks are sorted one by one, passes of merging reduce their number until the rest can be
 merged lazily in the memory given for that, and the lazy merge delivers the sorted records.
 */
module Sorting {
  import opened Powers
  import opened Wrappers
  import opened Ordering
  import opened OffsetsLog
  import opened MergingReaders

  /** The buffer size the constructor settles on, None where it throws. */
  function Configure(bufferSize: nat, totalMemory: nat, entrySize: nat): (b: Option<nat>)
  {
    if entrySize == 0 then None
    else
      var rounded := bufferSize - RemainderOf(bufferSize, entrySize);
      if rounded == 0 || totalMemory < rounded * 4 then None else Some(rounded)
  }

  function RemainderOf(x: nat, d: nat): (r: nat)
    requires d > 0
    ensures r <= x && r == x % d
  {
    DivModFacts(x, d);
    MulNonneg(x / d, d);
    x % d
  }

  /** Accepted: a buffer that holds an entry, if its whole entries fit the memory four times. */
  predicate Acceptable(bufferSize: nat, totalMemory: nat, entrySize: nat)
  {
    0 < entrySize <= bufferSize && 4 * (bufferSize / entrySize * entrySize) <= totalMemory
  }

  /** The buffer size settled on is the largest multiple of the entry size that is not above the one asked for. */
  lemma ConfigureFits(bufferSize: nat, totalMemory: nat, entrySize: nat)
    ensures Configure(bufferSize, totalMemory, entrySize).Some? <==> Acceptable(bufferSize, totalMemory, entrySize)
    ensures Configure(bufferSize, totalMemory, entrySize).Some? ==>
      var b := Configure(bufferSize, totalMemory, entrySize).value;
      0 < entrySize <= b <= bufferSize < b + entrySize && b % entrySize == 0 && 4 * b <= totalMemory
  {
    if entrySize > 0 {
      DivModFacts(bufferSize, entrySize);
      var q := bufferSize / entrySize;
      DivModUnique(q * entrySize, entrySize, q, 0);
      if q == 0 { MulNonneg(q, entrySize); } else { MulMonotone(1, q, entrySize); }
    }
  }

  /** All records of the blocks, in order. */
  function Records<T>(blocks: seq<seq<T>>): seq<T>
  {
    if blocks == [] then [] else Records(blocks[..|blocks| - 1]) + blocks[|blocks| - 1]
  }

  /** What the library's sort promises. */
  ghost predicate Sorter<T(!new)>(sort: seq<T> -> seq<T>, less: (T, T) -> bool)
  {
    forall s :: Sorted(sort(s), less) && multiset(sort(s)) == multiset(s)
  }

  lemma MoreRecords<T(!new)>(blocks: seq<seq<T>>, i: nat, data: seq<T>, part: seq<T>)
    requires i < |blocks| && multiset(data) == multiset(Records(blocks[..i])) && multiset(part) == multiset(blocks[i])
    ensures multiset(data + part) == multiset(Records(blocks[..i + 1]))
  {
    assert blocks[..i + 1][..i] == blocks[..i];
  }

  /** A sorted block that is not empty is one more stripe of the file. */
  lemma BlockAppended<T(!new)>(data: seq<T>, sizes: seq<nat>, part: seq<T>, entrySize: nat, less: (T, T) -> bool)
    requires entrySize > 0 && Runs(data, sizes, entrySize, less) && Sorted(part, less)
    ensures 0 <= |part| * entrySize
    ensures Runs(data + part, if |part| * entrySize == 0 then sizes else sizes + [|part| * entrySize], entrySize, less)
  {
    if part == [] {
      assert data + part == data;
    } else {
      RunsSnoc(data, sizes, part, entrySize, less);
    }
  }

  /** The file is the blocks one after the other, each with its own records in order. */
  ghost predicate BlockByBlock<T(!new)>(data: seq<T>, blocks: seq<seq<T>>, less: (T, T) -> bool)
    decreases |blocks|
  {
    if blocks == [] then data == []
    else
      var last := blocks[|blocks| - 1];
      && |last| <= |data|
      && Sorted(data[|data| - |last|..], less) && multiset(data[|data| - |last|..]) == multiset(last)
      && BlockByBlock(data[..|data| - |last|], blocks[..|blocks| - 1], less)
  }

  /** What is logged for the blocks: the bytes of each that is not empty. */
  function BlockSizes<T>(blocks: seq<seq<T>>, entrySize: nat): seq<nat>
  {
    if blocks == [] then []
    else
      var last := blocks[|blocks| - 1];
      MulNonneg(|last|, entrySize);
      BlockSizes(blocks[..|blocks| - 1], entrySize) + if last == [] then [] else [|last| * entrySize]
  }

  lemma OneMoreBlock<T(!new)>(data: seq<T>, blocks: seq<seq<T>>, i: nat, part: seq<T>, entrySize: nat,
                              less: (T, T) -> bool)
    requires i < |blocks| && BlockByBlock(data, blocks[..i], less)
    requires Sorted(part, less) && multiset(part) == multiset(blocks[i]) && |part| == |blocks[i]|
    ensures BlockByBlock(data + part, blocks[..i + 1], less)
    ensures BlockSizes(blocks[..i + 1], entrySize)
         == BlockSizes(blocks[..i], entrySize) + if blocks[i] == [] then [] else [|blocks[i]| * entrySize]
  {
    assert blocks[..i + 1][..i] == blocks[..i];
    var all := data + part;
    assert all[|all| - |part|..] == part && all[..|all| - |part|] == data;
  }

  class Sort<T(!new, 0)> {
    const bufferSize: nat
    const totalMemory: nat
    const entrySize: nat
    const less: (T, T) -> bool
    var data: seq<T>
    var offsets: Offsets

    ghost predicate Configured()
    {
      && Order(less) && 0 < entrySize <= bufferSize && bufferSize % entrySize == 0 && 4 * bufferSize <= totalMemory
    }

    /** The file is made of the sorted stripes that the offsets are about to say. */
    ghost predicate Ready()
      reads this, offsets
    {
      && Configured() && offsets.Valid() && offsets.reading && offsets.outputSum == 0
      && Runs(data, offsets.sizes, entrySize, less)
    }

    constructor (bufferSize: nat, totalMemory: nat, entrySize: nat, less: (T, T) -> bool)
      requires Order(less) && Configure(bufferSize, totalMemory, entrySize).Some?
      ensures Configured() && this.less == less && this.entrySize == entrySize && this.totalMemory == totalMemory
      ensures this.bufferSize <= bufferSize < this.bufferSize + entrySize
      ensures data == [] && fresh(offsets) && offsets.Valid() && !offsets.reading && offsets.sizes == []
    {
      ConfigureFits(bufferSize, totalMemory, entrySize);
      this.bufferSize := Configure(bufferSize, totalMemory, entrySize).value;
      this.totalMemory, this.entrySize, this.less := totalMemory, entrySize, less;
      data := [];
      offsets := new Offsets();
    }

    /** The block sorter and the writer behind it: each block is logged, sorted and written. */
    method SortBlocks(blocks: seq<seq<T>>, sort: seq<T> -> seq<T>)
      requires Configured() && Sorter(sort, less)
      requires data == [] && offsets.Valid() && !offsets.reading && offsets.sizes == []
      modifies this`data, offsets
      ensures Ready() && multiset(data) == multiset(Records(blocks))
      ensures BlockByBlock(data, blocks, less) && offsets.sizes == BlockSizes(blocks, entrySize)
    {
      hide Offsets.Valid, Order, Sorted, Records, Runs, BlockByBlock, BlockSizes;
      NoBlocks(blocks, entrySize, less);
      for i := 0 to |blocks|
        invariant offsets.Valid() && !offsets.reading && Runs(data, offsets.sizes, entrySize, less)
        invariant BlockByBlock(data, blocks[..i], less) && offsets.sizes == BlockSizes(blocks[..i], entrySize)
        invariant multiset(data) == multiset(Records(blocks[..i]))
      {
        var sorted := sort(blocks[i]);
        assert |sorted| == |multiset(sorted)| == |multiset(blocks[i])| == |blocks[i]|;
        BlockAppended(data, offsets.sizes, sorted, entrySize, less);
        OneMoreBlock(data, blocks, i, sorted, entrySize, less);
        EmptyOrMore(|sorted|, entrySize);
        MoreRecords(blocks, i, data, sorted);
        offsets.Append(|blocks[i]| * entrySize);
        data := data + sorted;
      }
      assert blocks[..|blocks|] == blocks;
      offsets.FinishedAppending();
    }

    /** More stripes than can be merged lazily in the memory given, and more bytes than it holds. */
    ghost predicate TooMuch(sizes: seq<nat>, lazyMemory: nat)
      requires bufferSize > 0
    {
      |sizes| > Max(1, lazyMemory / bufferSize) && Sum(sizes) > lazyMemory
    }

    /** What one pass makes of the stripes: groups as large as the memory that two write buffers leave allows. */
    ghost predicate NextPass(sizes: seq<nat>, merged: seq<nat>)
    {
      2 * bufferSize <= totalMemory
      && Grouped(sizes, merged, bufferSize, Min(totalMemory - 2 * bufferSize, Sum(sizes)), entrySize)
    }

    /** The passes made: the stripes that each found, which were too much, and what became of them. */
    ghost predicate PassLog(passes: seq<seq<nat>>, first: seq<nat>, last: seq<nat>, lazyMemory: nat)
      requires bufferSize > 0
    {
      && (if passes == [] then last == first else passes[0] == first && NextPass(passes[|passes| - 1], last))
      && (forall k :: 0 <= k < |passes| ==> TooMuch(passes[k], lazyMemory))
      && forall k :: 0 < k < |passes| ==> NextPass(passes[k - 1], passes[k])
    }

    lemma OneMorePass(passes: seq<seq<nat>>, first: seq<nat>, last: seq<nat>, next: seq<nat>, lazyMemory: nat)
      requires Configured() && PassLog(passes, first, last, lazyMemory)
      requires TooMuch(last, lazyMemory) && NextPass(last, next)
      ensures PassLog(passes + [last], first, next, lazyMemory)
    {
      hide Sort.NextPass, Sort.TooMuch;
    }

    lemma NoPass(first: seq<nat>, lazyMemory: nat)
      requires Configured()
      ensures PassLog([], first, first, lazyMemory)
    {
    }

    /** Bytes in the file. */
    function Size(): nat
      reads this
    {
      MulNonneg(|data|, entrySize); |data| * entrySize
    }

    /**
     Merges until what is left can be merged lazily in the memory given, and returns how much memory that takes: no
     more than given, and just enough. Each pass at least halves the number of stripes, rounding up, and none is made
     once that will do; passes are the stripe sizes that each one found.
     */
    method Merge(lazyMemory: nat) returns (needed: nat, ghost passes: seq<seq<nat>>)
      requires Ready()
      modifies this, offsets
      ensures Ready() && multiset(data) == old(multiset(data))
      ensures offsets == old(offsets) || fresh(offsets)
      ensures |offsets.sizes| <= 1 ==> needed == 0
      ensures |offsets.sizes| > 1 ==> needed == Min(Size(), |offsets.sizes| * bufferSize)
      ensures PassLog(passes, old(offsets.sizes), offsets.sizes, lazyMemory)
      ensures passes == [] ==> data == old(data) && offsets == old(offsets)
      ensures |offsets.sizes| > 1 ==> needed <= lazyMemory && RoomForAll(offsets.sizes, bufferSize, needed)
      ensures |offsets.sizes| > 1 ==> RoomForAll(offsets.sizes, bufferSize, lazyMemory)
    {
      hide Offsets.Valid, Order, Sorted, Runs, RoomForAll, Sort.PassLog;
      ghost var first := offsets.sizes;
      NoPass(first, lazyMemory);
      passes := [];
      if offsets.RemainingBlocks() <= 1 { return 0, passes; }
      var lazyArity := Max(1, lazyMemory / bufferSize);
      RunsLength(data, offsets.sizes, entrySize, less);
      if !(offsets.RemainingBlocks() <= lazyArity || Size() <= lazyMemory) {
        passes := MergePasses(lazyMemory, lazyArity);
        RunsLength(data, offsets.sizes, entrySize, less);
      }
      if offsets.RemainingBlocks() <= 1 { return 0, passes; }
      LazyRoom(offsets.sizes, bufferSize, lazyMemory, lazyArity);
      MulNonneg(offsets.RemainingBlocks(), bufferSize);
      needed := Min(Size(), offsets.RemainingBlocks() * bufferSize);
    }

    /** The loop of passes, from one pair of files to the other and back. */
    method MergePasses(lazyMemory: nat, lazyArity: nat) returns (ghost passes: seq<seq<nat>>)
      requires Ready() && lazyArity == Max(1, lazyMemory / bufferSize) && |offsets.sizes| > 1
      modifies this, offsets
      ensures Ready() && multiset(data) == old(multiset(data))
      ensures offsets == old(offsets) || fresh(offsets)
      ensures |offsets.sizes| <= lazyArity || Size() <= lazyMemory
      ensures PassLog(passes, old(offsets.sizes), offsets.sizes, lazyMemory)
      ensures passes == [] ==> data == old(data) && offsets == old(offsets)
    {
      hide Offsets.Valid, Order, Sorted, Runs, RoomForAll, Sort.NextPass, Sort.PassLog;
      NoPass(offsets.sizes, lazyMemory);
      passes := [];
      var fileIn, fileOut: seq<T> := data, [];
      var offsetsIn := offsets;
      var offsetsOut := new Offsets();
      var size := Size();
      while offsetsIn.RemainingBlocks() > lazyArity && !(size <= lazyMemory)
        invariant Configured() && offsetsIn != offsetsOut && offsets == old(offsets)
        invariant offsetsIn in {old(offsets)} || fresh(offsetsIn)
        invariant offsetsOut in {old(offsets)} || fresh(offsetsOut)
        invariant offsetsIn.Valid() && offsetsIn.reading && offsetsIn.outputSum == 0
        invariant offsetsOut.Valid() && !offsetsOut.reading && offsetsOut.sizes == []
        invariant Runs(fileIn, offsetsIn.sizes, entrySize, less) && multiset(fileIn) == old(multiset(data))
        invariant size == |fileIn| * entrySize
        invariant PassLog(passes, old(offsets.sizes), offsetsIn.sizes, lazyMemory)
        invariant passes == [] ==> fileIn == old(data) && offsetsIn == old(offsets)
        decreases |offsetsIn.sizes|
      {
        RunsLength(fileIn, offsetsIn.sizes, entrySize, less);
        ghost var found := offsetsIn.sizes;
        fileOut, size := OnePass(fileIn, offsetsIn, offsetsOut, size);
        OneMorePass(passes, old(offsets.sizes), found, offsetsOut.sizes, lazyMemory);
        passes := passes + [found];
        fileIn, fileOut := fileOut, fileIn;
        offsetsIn, offsetsOut := offsetsOut, offsetsIn;
      }
      data, offsets := fileIn, offsetsIn;
    }

    /** One pass: reading memory is what two write buffers leave, or the size of the file if that is less. */
    method OnePass(fileIn: seq<T>, offsetsIn: Offsets, offsetsOut: Offsets, size: nat)
      returns (fileOut: seq<T>, newSize: nat)
      requires Configured() && offsetsIn != offsetsOut
      requires offsetsIn.Valid() && offsetsIn.reading && offsetsIn.outputSum == 0 && |offsetsIn.sizes| > 1
      requires offsetsOut.Valid() && !offsetsOut.reading && offsetsOut.sizes == []
      requires Runs(fileIn, offsetsIn.sizes, entrySize, less) && size == |fileIn| * entrySize
      modifies offsetsIn, offsetsOut
      ensures offsetsOut.Valid() && offsetsOut.reading && offsetsOut.outputSum == 0
      ensures offsetsIn.Valid() && !offsetsIn.reading && offsetsIn.sizes == []
      ensures Runs(fileOut, offsetsOut.sizes, entrySize, less) && multiset(fileOut) == multiset(fileIn)
      ensures newSize == |fileOut| * entrySize
      ensures NextPass(old(offsetsIn.sizes), offsetsOut.sizes)
      ensures 2 * |offsetsOut.sizes| <= old(|offsetsIn.sizes|) + 1
    {
      hide Offsets.Valid, Order, Sorted, Runs, Grouped;
      RunsLength(fileIn, offsetsIn.sizes, entrySize, less);
      var blockSize := bufferSize * 2 / (2 * entrySize) * entrySize;
      ChainBlock(bufferSize, entrySize);
      var readingMemory := totalMemory - 2 * bufferSize;
      if size < readingMemory { readingMemory := size; }
      var out, aborted, runs :=
        Run(fileIn, offsetsIn, offsetsOut, bufferSize, readingMemory, entrySize, blockSize, less, false);
      offsetsOut.FinishedAppending();
      offsetsIn.Reset();
      MulNonneg(|out|, entrySize);
      fileOut, newSize := out, |out| * entrySize;
    }

    /** The lazy merge at the end; all that is left goes into its one group. */
    method Output(lazyMemory: nat, blockSize: nat) returns (out: seq<T>, aborted: bool)
      requires Ready() && 0 < blockSize && blockSize % entrySize == 0
      modifies this, offsets
      ensures !aborted && Sorted(out, less) && multiset(out) == old(multiset(data))
    {
      hide Offsets.Valid, Order, Sorted, Runs, RoomForAll;
      var needed, passes := Merge(lazyMemory);
      ghost var runs;
      out, aborted, runs := Run(data, offsets, null, bufferSize, lazyMemory, entrySize, blockSize, less, true);
      OneRunSorted(out, runs, entrySize, less);
    }

    /** Merging with no memory for laziness leaves one sorted file. */
    method StealCompleted() returns (file: seq<T>)
      requires Ready()
      modifies this, offsets
      ensures Sorted(file, less) && multiset(file) == old(multiset(data))
    {
      hide Offsets.Valid, Order, Sorted;
      var needed, passes := Merge(0);
      RunsLength(data, offsets.sizes, entrySize, less);
      NoRoom(data, offsets.sizes, bufferSize, entrySize, less);
      OneRunSorted(data, offsets.sizes, entrySize, less);
      file := data;
    }
  }

  lemma EmptyOrMore(n: nat, entrySize: nat)
    requires entrySize > 0
    ensures n * entrySize == 0 <==> n == 0
  {
    if n > 0 { MulPositive(n, entrySize); } else { MulNonneg(0, entrySize); }
  }

  lemma NoBlocks<T(!new)>(blocks: seq<seq<T>>, entrySize: nat, less: (T, T) -> bool)
    requires entrySize > 0
    ensures Records(blocks[..0]) == [] && Runs<T>([], [], entrySize, less)
    ensures BlockByBlock([], blocks[..0], less) && BlockSizes(blocks[..0], entrySize) == []
  {
  }

  /** Few enough stripes for the lazy arity, or little enough data, gives the lazy merge its room. */
  lemma LazyRoom(sizes: seq<nat>, bufferSize: nat, lazyMemory: nat, lazyArity: nat)
    requires bufferSize > 0 && lazyArity == Max(1, lazyMemory / bufferSize) && |sizes| > 1
    requires |sizes| <= lazyArity || Sum(sizes) <= lazyMemory
    ensures 0 <= |sizes| * bufferSize && RoomForAll(sizes, bufferSize, lazyMemory)
    ensures Min(Sum(sizes), |sizes| * bufferSize) <= lazyMemory
    ensures RoomForAll(sizes, bufferSize, Min(Sum(sizes), |sizes| * bufferSize))
  {
    MulNonneg(|sizes|, bufferSize);
    if |sizes| <= lazyArity {
      DivModFacts(lazyMemory, bufferSize);
      MulMonotone(|sizes|, lazyMemory / bufferSize, bufferSize);
    }
  }

  /** Two blocks in twice the buffer: a block is a buffer. */
  lemma ChainBlock(bufferSize: nat, entrySize: nat)
    requires 0 < entrySize <= bufferSize && bufferSize % entrySize == 0
    ensures 0 < 2 * entrySize && bufferSize * 2 / (2 * entrySize) * entrySize == bufferSize
  {
    DivModFacts(bufferSize, entrySize);
    var q := bufferSize / entrySize;
    MulAssoc(q, 2, entrySize);
    MulAssoc(2, q, entrySize);
    DivModUnique(bufferSize * 2, 2 * entrySize, q, 0);
  }

  /** Without memory there is no room for two stripes. */
  lemma NoRoom<T(!new)>(data: seq<T>, sizes: seq<nat>, bufferSize: nat, entrySize: nat, less: (T, T) -> bool)
    requires entrySize > 0 && bufferSize > 0 && Runs(data, sizes, entrySize, less)
    ensures |sizes| > 1 ==> !RoomForAll(sizes, bufferSize, 0)
  {
    if |sizes| > 1 {
      MulPositive(|sizes|, bufferSize);
      SumHead(sizes);
    }
  }

  /** Sorting any blocks with any accepted configuration delivers the records sorted, each as often as it came in. */
  method BlockingSort<T(!new, 0)>(blocks: seq<seq<T>>, bufferSize: nat, totalMemory: nat, entrySize: nat,
                                  less: (T, T) -> bool, sort: seq<T> -> seq<T>, lazyMemory: nat, blockSize: nat)
    returns (result: Option<seq<T>>)
    requires Order(less) && Sorter(sort, less) && 0 < blockSize && (entrySize > 0 ==> blockSize % entrySize == 0)
    ensures result.Some? <==>
      0 < entrySize <= bufferSize && 4 * (bufferSize / entrySize * entrySize) <= totalMemory
    ensures result.Some? ==> Sorted(result.value, less) && multiset(result.value) == multiset(Records(blocks))
  {
    hide Order, Sorter, Sorted, Records;
    ConfigureFits(bufferSize, totalMemory, entrySize);
    if Configure(bufferSize, totalMemory, entrySize).None? { return None; }
    var sorter := new Sort(bufferSize, totalMemory, entrySize, less);
    sorter.SortBlocks(blocks, sort);
    var out, aborted := sorter.Output(lazyMemory, blockSize);
    result := Some(out);
  }
}
