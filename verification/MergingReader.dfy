/**
 One pass of merging: groups of sorted stripes, as many as the memory holds, become one sorted stripe each.
 Sizes and offsets are bytes; entries of entrySize bytes are the records.
 */
module MergingReaders {
  import opened Powers
  import opened Ordering
  import opened OffsetsLog
  import opened MergeQueues

  // ----- files of sorted stripes -----

  /** The file is a sequence of sorted stripes of the given sizes. */
  ghost predicate Runs<T(!new)>(data: seq<T>, sizes: seq<nat>, entrySize: nat, less: (T, T) -> bool)
    requires entrySize > 0
    decreases |sizes|
  {
    if sizes == [] then data == []
    else
      && sizes[0] > 0 && sizes[0] % entrySize == 0 && sizes[0] / entrySize <= |data|
      && Sorted(data[..sizes[0] / entrySize], less)
      && Runs(data[sizes[0] / entrySize..], sizes[1..], entrySize, less)
  }

  lemma {:induction false} RunsLength<T(!new)>(data: seq<T>, sizes: seq<nat>, entrySize: nat, less: (T, T) -> bool)
    requires entrySize > 0 && Runs(data, sizes, entrySize, less)
    ensures |data| * entrySize == Sum(sizes)
    decreases |sizes|
  {
    if sizes != [] {
      var n := sizes[0] / entrySize;
      RunsLength(data[n..], sizes[1..], entrySize, less);
      DivModFacts(sizes[0], entrySize);
      MulDistrib(entrySize, n, |data| - n);
    }
  }

  lemma {:induction false} RunsSnoc<T(!new)>(data: seq<T>, sizes: seq<nat>, more: seq<T>, entrySize: nat,
                                             less: (T, T) -> bool)
    requires entrySize > 0 && Runs(data, sizes, entrySize, less) && Sorted(more, less) && more != []
    ensures 0 < |more| * entrySize && Runs(data + more, sizes + [|more| * entrySize], entrySize, less)
    decreases |sizes|
  {
    var size := |more| * entrySize;
    MulPositive(|more|, entrySize);
    if sizes == [] {
      DivModUnique(size, entrySize, |more|, 0);
      assert data + more == more && sizes + [size] == [size];
      assert [size][1..] == [] && more[..|more|] == more && more[|more|..] == [];
    } else {
      var n := sizes[0] / entrySize;
      RunsSnoc(data[n..], sizes[1..], more, entrySize, less);
      assert (data + more)[..n] == data[..n] && (data + more)[n..] == data[n..] + more;
      assert (sizes + [size])[1..] == sizes[1..] + [size];
    }
  }

  /** A file of one stripe is sorted, and so is an empty one. */
  lemma OneRunSorted<T(!new)>(data: seq<T>, sizes: seq<nat>, entrySize: nat, less: (T, T) -> bool)
    requires entrySize > 0 && Runs(data, sizes, entrySize, less) && |sizes| <= 1
    ensures Sorted(data, less)
  {
    if sizes != [] {
      var n := sizes[0] / entrySize;
      assert sizes[1..] == [] && data[n..] == [];
      assert data[..n] == data;
    }
  }

  // ----- memory for one group -----

  /** Bytes of buffer for each stripe: more when few stripes remain, in whole entries. */
  function PerBuffer(bufferSize: nat, totalMemory: nat, remaining: nat, entrySize: nat): nat
    requires remaining > 0 && entrySize > 0
  {
    var most := Max(bufferSize, totalMemory / remaining);
    DivModFacts(most, entrySize);
    most - most % entrySize
  }

  lemma PerBufferBounds(bufferSize: nat, totalMemory: nat, remaining: nat, entrySize: nat)
    requires remaining > 0 && entrySize > 0 && bufferSize > 0 && bufferSize % entrySize == 0
    ensures var p := PerBuffer(bufferSize, totalMemory, remaining, entrySize);
      && p % entrySize == 0 && 0 < bufferSize <= p <= Max(bufferSize, totalMemory / remaining) < p + entrySize
      && p / entrySize > 0
      && totalMemory / remaining * remaining <= totalMemory
  {
    var most := Max(bufferSize, totalMemory / remaining);
    DivModFacts(totalMemory, remaining);
    RoundDown(most, bufferSize, entrySize);
  }

  /** Rounding down to whole entries stays at or above any whole number of entries. */
  lemma RoundDown(most: nat, low: nat, entrySize: nat)
    requires entrySize > 0 && 0 < low <= most && low % entrySize == 0
    ensures var p := most - most % entrySize;
      low <= p <= most < p + entrySize && p % entrySize == 0 && p / entrySize > 0
  {
    DivModFacts(most, entrySize);
    DivModFacts(low, entrySize);
    var q, b := most / entrySize, low / entrySize;
    DivModUnique(q * entrySize, entrySize, q, 0);
    DivMonotone(low, most, entrySize);
    MulMonotone(b, q, entrySize);
    if b <= 0 { MulNonneg(0, entrySize); }
  }

  lemma {:induction false} SumSplit(s: seq<nat>, n: nat)
    requires n <= |s|
    ensures Sum(s) == Sum(s[..n]) + Sum(s[n..])
  {
    if n > 0 {
      SumSplit(s[1..], n - 1);
      assert s[..n][1..] == s[1..][..n - 1] && s[1..][n - 1..] == s[n..];
    } else {
      assert s[0..] == s;
    }
  }

  /** The memory suffices for all remaining stripes at once. */
  predicate RoomForAll(sizes: seq<nat>, bufferSize: nat, totalMemory: nat)
  {
    Sum(sizes) <= totalMemory || |sizes| * bufferSize <= totalMemory
  }

  /** Memory for the buffers of these stripes; a stripe that fits its buffer takes no more than itself. */
  function Footprint(sizes: seq<nat>, perBuffer: nat): nat
  {
    if sizes == [] then 0
    else Footprint(sizes[..|sizes| - 1], perBuffer) + Min(perBuffer, sizes[|sizes| - 1])
  }

  lemma {:induction false} FootprintBounds(sizes: seq<nat>, perBuffer: nat)
    ensures Footprint(sizes, perBuffer) <= |sizes| * perBuffer && Footprint(sizes, perBuffer) <= Sum(sizes)
  {
    if sizes != [] {
      var n := |sizes| - 1;
      FootprintBounds(sizes[..n], perBuffer);
      SumSplit(sizes, n);
      assert sizes[n..] == [sizes[n]] && [sizes[n]][1..] == [];
      MulDistrib(perBuffer, n, 1);
    }
  }

  /** The first n stripes go into one group: their buffers fit the memory, and the next one's would not. */
  ghost predicate LargestGroup(sizes: seq<nat>, n: nat, bufferSize: nat, totalMemory: nat, entrySize: nat)
  {
    && 0 < n <= |sizes| && 0 < entrySize
    && var perBuffer := PerBuffer(bufferSize, totalMemory, |sizes|, entrySize);
       && Footprint(sizes[..n], perBuffer) <= totalMemory
       && (n < |sizes| ==> totalMemory < Footprint(sizes[..n + 1], perBuffer))
  }

  /** The runs are the stripes merged in groups, each as large as the memory allows. */
  ghost predicate Grouped(sizes: seq<nat>, runs: seq<nat>, bufferSize: nat, totalMemory: nat, entrySize: nat)
    decreases |runs|
  {
    if runs == [] then sizes == []
    else exists n: nat :: LargestGroup(sizes, n, bufferSize, totalMemory, entrySize)
                          && GroupedFrom(sizes, n, runs, bufferSize, totalMemory, entrySize)
  }

  ghost predicate GroupedFrom(sizes: seq<nat>, n: nat, runs: seq<nat>, bufferSize: nat, totalMemory: nat,
                              entrySize: nat)
    requires runs != []
    decreases |runs|, 0
  {
    n <= |sizes| && runs[0] == Sum(sizes[..n]) && Grouped(sizes[n..], runs[1..], bufferSize, totalMemory, entrySize)
  }

  /** Whatever the rest is merged to, these runs before it are right. */
  ghost predicate GroupedSoFar(sizes: seq<nat>, runs: seq<nat>, left: seq<nat>, bufferSize: nat, totalMemory: nat,
                               entrySize: nat)
  {
    forall rest: seq<nat> :: Grouped(left, rest, bufferSize, totalMemory, entrySize) ==>
      Grouped(sizes, runs + rest, bufferSize, totalMemory, entrySize)
  }

  lemma OneMoreGroup(sizes: seq<nat>, runs: seq<nat>, left: seq<nat>, n: nat, bufferSize: nat, totalMemory: nat,
                     entrySize: nat)
    requires GroupedSoFar(sizes, runs, left, bufferSize, totalMemory, entrySize)
    requires LargestGroup(left, n, bufferSize, totalMemory, entrySize)
    ensures GroupedSoFar(sizes, runs + [Sum(left[..n])], left[n..], bufferSize, totalMemory, entrySize)
  {
    hide Sum, LargestGroup;
    assert n <= |left| by { LargestWithin(left, n, bufferSize, totalMemory, entrySize); }
    var run := Sum(left[..n]);
    forall rest: seq<nat> | Grouped(left[n..], rest, bufferSize, totalMemory, entrySize)
      ensures Grouped(sizes, runs + [run] + rest, bufferSize, totalMemory, entrySize)
    {
      assert ([run] + rest)[1..] == rest;
      assert GroupedFrom(left, n, [run] + rest, bufferSize, totalMemory, entrySize);
      assert Grouped(left, [run] + rest, bufferSize, totalMemory, entrySize);
      assert runs + [run] + rest == runs + ([run] + rest);
    }
  }

  lemma LargestWithin(sizes: seq<nat>, n: nat, bufferSize: nat, totalMemory: nat, entrySize: nat)
    requires LargestGroup(sizes, n, bufferSize, totalMemory, entrySize)
    ensures 0 < n <= |sizes|
  {
  }

  lemma AllGrouped(sizes: seq<nat>, runs: seq<nat>, bufferSize: nat, totalMemory: nat, entrySize: nat)
    requires GroupedSoFar(sizes, runs, [], bufferSize, totalMemory, entrySize)
    ensures Grouped(sizes, runs, bufferSize, totalMemory, entrySize)
  {
    assert Grouped([], [], bufferSize, totalMemory, entrySize);
    assert runs + [] == runs;
  }

  /** When a group is closed early although the memory has room for two buffers, it has two stripes at least. */
  lemma GroupHasTwo(sizes: seq<nat>, n: nat, buf: nat, bufferSize: nat, totalMemory: nat, perBuffer: nat)
    requires 0 < |sizes| && n < |sizes| && buf <= n * perBuffer
    requires perBuffer <= Max(bufferSize, totalMemory / |sizes|) && totalMemory / |sizes| * |sizes| <= totalMemory
    requires buf + Min(perBuffer, sizes[n]) > totalMemory && 2 * bufferSize <= totalMemory
    ensures n >= 2
  {
    var share := totalMemory / |sizes|;
    if n < 2 {
      if |sizes| >= 2 { MulMonotone(2, |sizes|, share); } else { MulMonotone(1, |sizes|, share); }
      MulMonotone(n, 1, perBuffer);
    }
  }

  /** A group is never closed early when there is room for all. */
  lemma GroupTakesAll(sizes: seq<nat>, n: nat, buf: nat, bufferSize: nat, totalMemory: nat, perBuffer: nat)
    requires 0 < |sizes| && n < |sizes| && buf <= n * perBuffer && buf <= Sum(sizes[..n])
    requires perBuffer <= Max(bufferSize, totalMemory / |sizes|) && totalMemory / |sizes| * |sizes| <= totalMemory
    requires RoomForAll(sizes, bufferSize, totalMemory)
    ensures buf + Min(perBuffer, sizes[n]) <= totalMemory
  {
    hide Sum;
    if Sum(sizes) <= totalMemory {
      SumSplit(sizes, n);
      SumHead(sizes[n..]);
    } else {
      AllShares(|sizes|, n, buf, bufferSize, totalMemory, perBuffer, totalMemory / |sizes|);
    }
  }

  lemma SumHead(s: seq<nat>)
    requires s != []
    ensures Sum(s) >= s[0]
  {
  }

  lemma AllShares(count: nat, n: nat, buf: nat, bufferSize: nat, totalMemory: nat, perBuffer: nat, share: nat)
    requires n < count && buf <= n * perBuffer && perBuffer <= Max(bufferSize, share)
    requires share * count <= totalMemory && count * bufferSize <= totalMemory
    ensures buf + perBuffer <= totalMemory
  {
    var most := Max(bufferSize, share);
    assert count * most <= totalMemory by { MulAssoc(share, count, 1); }
    MulMonotone2(n + 1, count, perBuffer, most);
    MulDistrib(perBuffer, n, 1);
  }

  // ----- one group -----

  /** The part of the file that has been handed to queues so far, from one offset to another. */
  function Part<T>(input: seq<T>, from: nat, to: nat, entrySize: nat): seq<T>
    requires entrySize > 0 && from / entrySize <= to / entrySize <= |input|
  {
    input[from / entrySize..to / entrySize]
  }

  /** Where reading stands: the rest of the file is what the remaining sizes say. */
  ghost predicate At<T(!new)>(input: seq<T>, offset: nat, sizes: seq<nat>, entrySize: nat, less: (T, T) -> bool)
    requires entrySize > 0
  {
    offset % entrySize == 0 && offset / entrySize <= |input|
      && Runs(input[offset / entrySize..], sizes, entrySize, less)
  }

  lemma NextRun<T(!new)>(input: seq<T>, offset: nat, sizes: seq<nat>, entrySize: nat, less: (T, T) -> bool)
    requires entrySize > 0 && At(input, offset, sizes, entrySize, less) && sizes != []
    ensures var next := offset + sizes[0];
      && At(input, next, sizes[1..], entrySize, less)
      && sizes[0] / entrySize > 0 && offset / entrySize + sizes[0] / entrySize == next / entrySize <= |input|
      && Sorted(input[offset / entrySize..next / entrySize], less)
  {
    DivModFacts(offset, entrySize);
    DivModFacts(sizes[0], entrySize);
    var o, n := offset / entrySize, sizes[0] / entrySize;
    MulDistrib(entrySize, o, n);
    DivModUnique(offset + sizes[0], entrySize, o + n, 0);
    if n == 0 { MulNonneg(n, entrySize); }
    var rest := input[o..];
    assert rest[..n] == input[o..o + n] && rest[n..] == input[o + n..];
  }

  lemma WholeEntries(a: nat, b: nat, entrySize: nat)
    requires entrySize > 0 && a % entrySize == 0 && b % entrySize == 0
    ensures (a + b) % entrySize == 0 && (a + b) / entrySize == a / entrySize + b / entrySize
    ensures Min(a, b) % entrySize == 0 && Min(a, b) / entrySize == Min(a / entrySize, b / entrySize)
  {
    DivModFacts(a, entrySize);
    DivModFacts(b, entrySize);
    var x, y := a / entrySize, b / entrySize;
    MulDistrib(entrySize, x, y);
    DivModUnique(a + b, entrySize, x + y, 0);
    if x < y { MulStrict(x, y, entrySize); } else { MulMonotone(y, x, entrySize); }
  }

  lemma DivMonotone(a: nat, b: nat, d: nat)
    requires d > 0 && a <= b
    ensures a / d <= b / d
  {
    DivModFacts(a, d);
    DivModFacts(b, d);
    if b / d < a / d {
      MulMonotone(b / d + 1, a / d, d);
      MulDistrib(d, b / d, 1);
    }
  }

  lemma PartGrows<T(!new)>(input: seq<T>, from: nat, middle: nat, to: nat, r: T)
    requires from <= middle <= to <= |input|
    ensures multiset(input[from..to])[r] == multiset(input[from..middle])[r] + multiset(input[middle..to])[r]
  {
    assert input[from..to] == input[from..middle] + input[middle..to];
  }

  lemma AtStart<T(!new)>(input: seq<T>, offset: nat, sizes: seq<nat>, entrySize: nat, less: (T, T) -> bool)
    requires entrySize > 0 && At(input, offset, sizes, entrySize, less)
    ensures offset / entrySize <= |input|
  {
  }

  /** The stripes of the queue hold exactly the records of s. */
  ghost predicate Holds<T(!new)>(queue: MergeQueue<T>, s: seq<T>)
    requires queue.Valid()
    reads queue, queue.memory
  {
    forall r :: queue.Count(r) == multiset(s)[r]
  }

  lemma EmptyQueue<T(!new)>(queue: MergeQueue<T>, at: nat)
    requires queue.Valid() && queue.queue == [] && at <= |queue.input|
    ensures Below(queue.queue, 0) && Holds(queue, queue.input[at..at])
  {
    assert queue.input[at..at] == [];
  }

  /** The next stripe and its buffer, counted in entries. */
  lemma PushReady<T(!new)>(input: seq<T>, offset: nat, sizes: seq<nat>, buf: nat, perBuffer: nat, totalMemory: nat,
                           entrySize: nat, less: (T, T) -> bool)
    requires entrySize > 0 && At(input, offset, sizes, entrySize, less) && sizes != []
    requires buf % entrySize == 0 && perBuffer % entrySize == 0 && buf + Min(perBuffer, sizes[0]) <= totalMemory
    ensures var size, end := sizes[0], buf + Min(perBuffer, sizes[0]);
      && At(input, offset + size, sizes[1..], entrySize, less)
      && size / entrySize > 0 && offset / entrySize + size / entrySize == (offset + size) / entrySize <= |input|
      && Sorted(input[offset / entrySize..(offset + size) / entrySize], less)
      && end % entrySize == 0 && end / entrySize <= totalMemory / entrySize
      && end / entrySize == buf / entrySize + Min(perBuffer / entrySize, size / entrySize)
  {
    NextRun(input, offset, sizes, entrySize, less);
    assert sizes[0] % entrySize == 0;
    hide At, Runs, Sorted;
    WholeEntries(perBuffer, sizes[0], entrySize);
    WholeEntries(buf, Min(perBuffer, sizes[0]), entrySize);
    DivMonotone(buf + Min(perBuffer, sizes[0]), totalMemory, entrySize);
  }

  lemma OneMoreSize(sizes: seq<nat>, n: nat, perBuffer: nat)
    requires n < |sizes|
    ensures Footprint(sizes[..n + 1], perBuffer) == Footprint(sizes[..n], perBuffer) + Min(perBuffer, sizes[n])
    ensures Sum(sizes[..n + 1]) == Sum(sizes[..n]) + sizes[n] && sizes[n..][1..] == sizes[n + 1..]
  {
    SumSplit(sizes[..n + 1], n);
    assert sizes[..n + 1][..n] == sizes[..n] && sizes[..n + 1][n..] == [sizes[n]];
    assert Sum([sizes[n]]) == sizes[n] by { assert [sizes[n]][1..] == []; }
  }

  /** Hands the next stripe to the queue. */
  method PushNext<T(!new)>(queue: MergeQueue<T>, inOffsets: Offsets, buf: nat, perBuffer: nat, totalMemory: nat,
                           entrySize: nat, ghost from: nat) returns (newBuf: nat)
    requires entrySize > 0 && perBuffer > 0 && perBuffer % entrySize == 0 && buf % entrySize == 0
    requires queue.Valid() && queue.bufferSize == perBuffer / entrySize && Below(queue.queue, buf / entrySize)
    requires queue.memory.Length == totalMemory / entrySize
    requires inOffsets.Valid() && inOffsets.reading && inOffsets.sizes != []
    requires At(queue.input, inOffsets.outputSum, inOffsets.sizes, entrySize, queue.less)
    requires buf + Min(perBuffer, inOffsets.sizes[0]) <= totalMemory
    requires from / entrySize <= inOffsets.outputSum / entrySize <= |queue.input|
    requires Holds(queue, Part(queue.input, from, inOffsets.outputSum, entrySize))
    modifies queue, queue.memory, inOffsets
    ensures queue.Valid() && |queue.queue| == |old(queue.queue)| + 1
    ensures newBuf == buf + Min(perBuffer, old(inOffsets.sizes)[0]) && newBuf % entrySize == 0
    ensures Below(queue.queue, newBuf / entrySize)
    ensures inOffsets.outputSum == old(inOffsets.outputSum) + old(inOffsets.sizes)[0]
    ensures inOffsets.Valid() && inOffsets.reading && inOffsets.sizes == old(inOffsets.sizes)[1..]
    ensures At(queue.input, inOffsets.outputSum, inOffsets.sizes, entrySize, queue.less)
    ensures from / entrySize <= inOffsets.outputSum / entrySize <= |queue.input|
    ensures Holds(queue, Part(queue.input, from, inOffsets.outputSum, entrySize))
  {
    hide Offsets.Valid, MergeQueue.Valid, MergeQueue.Count, Below, Tally, Runs, Sorted, At, Stripes, Topmost;
    PushReady(queue.input, inOffsets.outputSum, inOffsets.sizes, buf, perBuffer, totalMemory, entrySize, queue.less);
    var offset := inOffsets.outputSum;
    var size := inOffsets.NextSize();
    ghost var bound := queue.Push(buf / entrySize, offset / entrySize, size / entrySize, buf / entrySize);
    newBuf := buf + Min(size, perBuffer);
    forall r: T ensures queue.Count(r) == multiset(Part(queue.input, from, offset + size, entrySize))[r] {
      PartGrows(queue.input, from / entrySize, offset / entrySize, (offset + size) / entrySize, r);
    }
  }

  /**
   Hands stripes to the queue while the memory has room for the next one's buffer. The buffers lie one after the
   other from the start of the memory.
   */
  method PopulateQueue<T(!new)>(queue: MergeQueue<T>, inOffsets: Offsets, perBuffer: nat, totalMemory: nat,
                                entrySize: nat)
    returns (buf: nat)
    requires entrySize > 0 && perBuffer > 0 && perBuffer % entrySize == 0
    requires queue.Valid() && queue.queue == [] && queue.bufferSize == perBuffer / entrySize
    requires queue.memory.Length == totalMemory / entrySize
    requires inOffsets.Valid() && inOffsets.reading
      && At(queue.input, inOffsets.outputSum, inOffsets.sizes, entrySize, queue.less)
    modifies queue, queue.memory, inOffsets
    ensures queue.Valid() && Below(queue.queue, buf / entrySize) && inOffsets.Valid() && inOffsets.reading
    ensures At(queue.input, inOffsets.outputSum, inOffsets.sizes, entrySize, queue.less)
    ensures |queue.queue| + |inOffsets.sizes| == old(|inOffsets.sizes|)
    ensures inOffsets.sizes == old(inOffsets.sizes)[|queue.queue|..]
    ensures buf == Footprint(old(inOffsets.sizes)[..|queue.queue|], perBuffer) <= totalMemory
    ensures inOffsets.outputSum == old(inOffsets.outputSum) + Sum(old(inOffsets.sizes)[..|queue.queue|])
    ensures inOffsets.sizes != [] ==> buf + Min(perBuffer, inOffsets.sizes[0]) > totalMemory
    ensures old(inOffsets.outputSum) / entrySize <= inOffsets.outputSum / entrySize <= |queue.input|
    ensures Holds(queue, Part(queue.input, old(inOffsets.outputSum), inOffsets.outputSum, entrySize))
  {
    hide Offsets.Valid, MergeQueue.Valid, Sum, Footprint, Sorted, At, Holds, Part, Below;
    ghost var from, sizes := inOffsets.outputSum, inOffsets.sizes;
    AtStart(queue.input, from, sizes, entrySize, queue.less);
    buf := 0;
    StartPart(queue, from, perBuffer, entrySize);
    assert sizes[..0] == [] && sizes[0..] == sizes;
    while inOffsets.RemainingBlocks() > 0 && buf + Min(perBuffer, inOffsets.PeekSize()) <= totalMemory
      invariant queue.Valid() && Below(queue.queue, buf / entrySize) && inOffsets.Valid() && inOffsets.reading
      invariant buf % entrySize == 0
      invariant At(queue.input, inOffsets.outputSum, inOffsets.sizes, entrySize, queue.less)
      invariant |queue.queue| + |inOffsets.sizes| == |sizes| && inOffsets.sizes == sizes[|queue.queue|..]
      invariant buf == Footprint(sizes[..|queue.queue|], perBuffer) <= totalMemory
      invariant inOffsets.outputSum == from + Sum(sizes[..|queue.queue|])
      invariant from / entrySize <= inOffsets.outputSum / entrySize <= |queue.input|
      invariant Holds(queue, Part(queue.input, from, inOffsets.outputSum, entrySize))
      decreases |inOffsets.sizes|
    {
      OneMoreSize(sizes, |queue.queue|, perBuffer);
      buf := PushNext(queue, inOffsets, buf, perBuffer, totalMemory, entrySize, from);
    }
  }

  lemma StartPart<T(!new)>(queue: MergeQueue<T>, from: nat, perBuffer: nat, entrySize: nat)
    requires entrySize > 0 && from / entrySize <= |queue.input| && queue.Valid() && queue.queue == []
    ensures Below(queue.queue, 0 / entrySize) && 0 % entrySize == 0
      && Holds(queue, Part(queue.input, from, from, entrySize))
    ensures Sum([]) == 0 && Footprint([], perBuffer) == 0
  {
    EmptyQueue(queue, from / entrySize);
    DivModUnique(0, entrySize, 0, 0);
  }

  lemma LeftNonnegative<T(!new)>(queue: MergeQueue<T>)
    requires queue.Valid()
    ensures Left(queue.queue) >= 0
  {
    StripesLeft(queue.queue, queue.bufferSize, queue.memory[..], queue.input, queue.less);
  }

  lemma {:induction false} StripesLeft<T(!new)>(q: seq<MergeQueues.Entry>, bufferSize: nat, m: seq<T>, input: seq<T>,
                                                less: (T, T) -> bool)
    requires Stripes(q, bufferSize, m, input, less)
    ensures Left(q) >= 0
  {
    if q != [] {
      TailStripes(q, bufferSize, m, input, less);
      StripesLeft(q[1..], bufferSize, m, input, less);
    }
  }

  lemma OrderOf<T(!new)>(queue: MergeQueue<T>)
    requires queue.Valid()
    ensures Order(queue.less)
  {
  }

  /** What has come out of the queue, with the slot still being filled, and what is left in it. */
  ghost predicate Merging<T(!new)>(queue: MergeQueue<T>, merged: seq<T>, whole: seq<T>)
    requires queue.Valid()
    reads queue, queue.memory
  {
    && Sorted(merged, queue.less)
    && (merged != [] && queue.queue != [] ==> LessEq(queue.less, merged[|merged| - 1], queue.Top()))
    && forall r :: multiset(merged)[r] + queue.Count(r) == multiset(whole)[r]
  }

  lemma SnocCount<T(!new)>(s: seq<T>, x: T, r: T)
    ensures multiset(s + [x])[r] == multiset(s)[r] + if r == x then 1 else 0
  {
  }

  /** Takes the top record of the queue into the stream's slot. */
  method NextRecord<T(!new)>(queue: MergeQueue<T>, ghost bound: nat, ghost merged: seq<T>, ghost whole: seq<T>)
    returns (slot: T)
    requires queue.Valid() && queue.queue != [] && Below(queue.queue, bound) && Merging(queue, merged, whole)
    modifies queue, queue.memory
    ensures queue.Valid() && Below(queue.queue, bound) && Merging(queue, merged + [slot], whole)
    ensures 0 <= Left(queue.queue) < Left(old(queue.queue))
  {
    hide MergeQueue.Valid, Sorted, Below, Left, LessEq;
    OrderOf(queue);
    slot := queue.Top();
    SortedSnoc(merged, slot, queue.less);
    queue.Pop(bound);
    LeftNonnegative(queue);
    forall r ensures multiset(merged + [slot])[r] + queue.Count(r) == multiset(whole)[r] { SnocCount(merged, slot, r); }
  }

  /** Empties the queue into the stream; records are never combined. */
  method MergeGroup<T(!new)>(queue: MergeQueue<T>, ghost bound: nat, ghost whole: seq<T>)
    returns (merged: seq<T>, written: nat)
    requires queue.Valid() && queue.queue != [] && Below(queue.queue, bound) && Holds(queue, whole)
    modifies queue, queue.memory
    ensures written == |merged| > 0 && Sorted(merged, queue.less) && multiset(merged) == multiset(whole)
  {
    NothingMerged(queue, whole);
    hide MergeQueue.Valid, Sorted, Below, Left, Merging;
    merged, written := [], 0;
    var slot := NextRecord(queue, bound, [], whole);
    while queue.queue != []
      invariant queue.Valid() && Below(queue.queue, bound) && written == |merged|
      invariant Merging(queue, merged + [slot], whole) && Left(queue.queue) >= 0
      decreases Left(queue.queue)
    {
      written := written + 1;
      merged := merged + [slot];
      slot := NextRecord(queue, bound, merged, whole);
    }
    written := written + 1;
    merged := merged + [slot];
    AllMerged(queue, merged, whole);
  }

  lemma NothingMerged<T(!new)>(queue: MergeQueue<T>, whole: seq<T>)
    requires queue.Valid() && Holds(queue, whole)
    ensures Merging(queue, [], whole)
  {
  }

  lemma AllMerged<T(!new)>(queue: MergeQueue<T>, merged: seq<T>, whole: seq<T>)
    requires queue.Valid() && queue.queue == [] && Merging(queue, merged, whole)
    ensures Sorted(merged, queue.less) && multiset(merged) == multiset(whole)
  {
  }

  // ----- one pass -----

  /**
   One group: fills the queue, checks what the source checks before it aborts, and merges. At least two stripes go
   into it unless only one was left, and all of them when the memory has room for all.
   */
  method RunGroup<T(!new)>(input: seq<T>, inOffsets: Offsets, buffer: array<T>, bufferSize: nat, totalMemory: nat,
                           entrySize: nat, less: (T, T) -> bool, assertOne: bool)
    returns (merged: seq<T>, written: nat, aborted: bool, ghost taken: nat)
    requires Order(less) && 0 < entrySize && 0 < bufferSize && bufferSize % entrySize == 0
    requires buffer.Length == totalMemory / entrySize
    requires inOffsets.Valid() && inOffsets.reading && inOffsets.sizes != []
    requires At(input, inOffsets.outputSum, inOffsets.sizes, entrySize, less)
    requires RoomForAll(inOffsets.sizes, bufferSize, totalMemory) || (!assertOne && 2 * bufferSize <= totalMemory)
    modifies inOffsets, buffer
    ensures !aborted && inOffsets.Valid() && inOffsets.reading
    ensures At(input, inOffsets.outputSum, inOffsets.sizes, entrySize, less)
    ensures LargestGroup(old(inOffsets.sizes), taken, bufferSize, totalMemory, entrySize)
    ensures taken <= |old(inOffsets.sizes)| && inOffsets.sizes == old(inOffsets.sizes)[taken..]
    ensures written * entrySize == Sum(old(inOffsets.sizes)[..taken])
    ensures |inOffsets.sizes| < old(|inOffsets.sizes|)
    ensures inOffsets.sizes == [] || |inOffsets.sizes| + 2 <= old(|inOffsets.sizes|)
    ensures old(RoomForAll(inOffsets.sizes, bufferSize, totalMemory)) ==> inOffsets.sizes == []
    ensures old(inOffsets.outputSum) / entrySize <= inOffsets.outputSum / entrySize <= |input|
    ensures written == |merged| > 0 && Sorted(merged, less)
    ensures multiset(merged) == multiset(Part(input, old(inOffsets.outputSum), inOffsets.outputSum, entrySize))
  {
    hide Offsets.Valid, MergeQueue.Valid, Sorted, At, Holds, Part, Below, Order, Sum, RoomForAll, PerBuffer,
      LargestGroup;
    merged, written := [], 0;
    ghost var from, sizes := inOffsets.outputSum, inOffsets.sizes;
    var queue, buf := OpenGroup(input, inOffsets, buffer, bufferSize, totalMemory, entrySize, less, assertOne);
    taken := |queue.queue|;
    if |queue.queue| < 2 && inOffsets.RemainingBlocks() > 0 { aborted := true; return; }
    if assertOne && inOffsets.RemainingBlocks() > 0 { aborted := true; return; }
    aborted := false;
    merged, written := MergeGroup(queue, buf / entrySize, Part(input, from, inOffsets.outputSum, entrySize));
    WrittenIs(input, from, sizes, inOffsets.outputSum, taken, merged, entrySize, less);
  }

  /** A merged group has as many bytes as its stripes. */
  lemma WrittenIs<T(!new)>(input: seq<T>, from: nat, sizes: seq<nat>, to: nat, n: nat, merged: seq<T>, entrySize: nat,
                           less: (T, T) -> bool)
    requires entrySize > 0 && n <= |sizes| && to == from + Sum(sizes[..n])
    requires At(input, from, sizes, entrySize, less) && At(input, to, sizes[n..], entrySize, less)
    requires from / entrySize <= to / entrySize <= |input|
    requires multiset(merged) == multiset(Part(input, from, to, entrySize))
    ensures |merged| * entrySize == Sum(sizes[..n])
  {
    hide Sum, Runs;
    DivModFacts(from, entrySize);
    DivModFacts(to, entrySize);
    assert |merged| == |multiset(merged)| == |Part(input, from, to, entrySize)| == to / entrySize - from / entrySize;
    MulDistrib(entrySize, to / entrySize, from / entrySize);
  }

  method OpenGroup<T(!new)>(input: seq<T>, inOffsets: Offsets, buffer: array<T>, bufferSize: nat, totalMemory: nat,
                            entrySize: nat, less: (T, T) -> bool, ghost assertOne: bool)
    returns (queue: MergeQueue<T>, buf: nat)
    requires Order(less) && 0 < entrySize && 0 < bufferSize && bufferSize % entrySize == 0
    requires buffer.Length == totalMemory / entrySize
    requires inOffsets.Valid() && inOffsets.reading && inOffsets.sizes != []
    requires At(input, inOffsets.outputSum, inOffsets.sizes, entrySize, less)
    requires RoomForAll(inOffsets.sizes, bufferSize, totalMemory) || (!assertOne && 2 * bufferSize <= totalMemory)
    modifies inOffsets, buffer
    ensures fresh(queue) && queue.memory == buffer && queue.input == input && queue.less == less
    ensures queue.Valid() && Below(queue.queue, buf / entrySize) && inOffsets.Valid() && inOffsets.reading
    ensures At(input, inOffsets.outputSum, inOffsets.sizes, entrySize, less)
    ensures LargestGroup(old(inOffsets.sizes), |queue.queue|, bufferSize, totalMemory, entrySize)
    ensures |queue.queue| <= |old(inOffsets.sizes)| && inOffsets.sizes == old(inOffsets.sizes)[|queue.queue|..]
    ensures inOffsets.outputSum == old(inOffsets.outputSum) + Sum(old(inOffsets.sizes)[..|queue.queue|])
    ensures |queue.queue| + |inOffsets.sizes| == old(|inOffsets.sizes|) && queue.queue != []
    ensures inOffsets.sizes != [] ==> |queue.queue| >= 2 && !assertOne
    ensures old(RoomForAll(inOffsets.sizes, bufferSize, totalMemory)) ==> inOffsets.sizes == []
    ensures old(inOffsets.outputSum) / entrySize <= inOffsets.outputSum / entrySize <= |input|
    ensures Holds(queue, Part(input, old(inOffsets.outputSum), inOffsets.outputSum, entrySize))
  {
    hide Offsets.Valid, MergeQueue.Valid, Sorted, At, Holds, Part, Below, Order, Sum, RoomForAll, PerBuffer,
      Min, Max, Footprint, LargestGroup;
    ghost var sizes := inOffsets.sizes;
    var perBuffer := PerBuffer(bufferSize, totalMemory, inOffsets.RemainingBlocks(), entrySize);
    PerBufferBounds(bufferSize, totalMemory, |sizes|, entrySize);
    queue := new MergeQueue(buffer, input, perBuffer / entrySize, less);
    buf := PopulateQueue(queue, inOffsets, perBuffer, totalMemory, entrySize);
    FootprintBounds(sizes[..|queue.queue|], perBuffer);
    GroupIsLargest(sizes, |queue.queue|, bufferSize, totalMemory, entrySize, perBuffer);
    GroupChecks(sizes, |queue.queue|, buf, bufferSize, totalMemory, perBuffer, inOffsets.sizes, assertOne);
  }

  lemma GroupIsLargest(sizes: seq<nat>, n: nat, bufferSize: nat, totalMemory: nat, entrySize: nat, perBuffer: nat)
    requires 0 < |sizes| && n <= |sizes| && 0 < entrySize
    requires perBuffer == PerBuffer(bufferSize, totalMemory, |sizes|, entrySize)
    requires Footprint(sizes[..n], perBuffer) <= totalMemory
    requires n < |sizes| ==> Footprint(sizes[..n], perBuffer) + Min(perBuffer, sizes[n]) > totalMemory
    ensures n > 0 ==> LargestGroup(sizes, n, bufferSize, totalMemory, entrySize)
  {
    if n < |sizes| { OneMoreSize(sizes, n, perBuffer); }
  }

  lemma GroupChecks(sizes: seq<nat>, n: nat, buf: nat, bufferSize: nat, totalMemory: nat, perBuffer: nat,
                    remaining: seq<nat>, assertOne: bool)
    requires 0 < |sizes| && n <= |sizes| && remaining == sizes[n..] && buf <= n * perBuffer && buf <= Sum(sizes[..n])
    requires perBuffer <= Max(bufferSize, totalMemory / |sizes|) && totalMemory / |sizes| * |sizes| <= totalMemory
    requires remaining != [] ==> buf + Min(perBuffer, remaining[0]) > totalMemory
    requires RoomForAll(sizes, bufferSize, totalMemory) || (!assertOne && 2 * bufferSize <= totalMemory)
    ensures RoomForAll(sizes, bufferSize, totalMemory) ==> n == |sizes|
    ensures n < |sizes| ==> n >= 2 && !assertOne
    ensures n > 0
  {
    hide Sum, RoomForAll;
    if n < |sizes| {
      assert remaining[0] == sizes[n];
      if RoomForAll(sizes, bufferSize, totalMemory) {
        GroupTakesAll(sizes, n, buf, bufferSize, totalMemory, perBuffer);
      } else {
        GroupHasTwo(sizes, n, buf, bufferSize, totalMemory, perBuffer);
      }
    }
  }

  /** Copies a single stripe through, block by block; no block is filled beyond its size. */
  method ReadSingle<T(!new)>(input: seq<T>, from: nat, size: nat, blockSize: nat, entrySize: nat) returns (out: seq<T>)
    requires 0 < entrySize && 0 < blockSize && blockSize % entrySize == 0 && from % entrySize == 0
    requires size % entrySize == 0 && (from + size) / entrySize <= |input|
    ensures from / entrySize <= (from + size) / entrySize && out == input[from / entrySize..(from + size) / entrySize]
  {
    var offset, end := from, from + size;
    out := [];
    WholeEntries(from, size, entrySize);
    while offset + blockSize < end
      invariant from <= offset <= end && offset % entrySize == 0
      invariant from / entrySize <= offset / entrySize <= end / entrySize
      invariant out == input[from / entrySize..offset / entrySize]
      decreases end - offset
    {
      WholeEntries(offset, blockSize, entrySize);
      DivMonotone(offset + blockSize, end, entrySize);
      out := out + input[offset / entrySize..(offset + blockSize) / entrySize];
      offset := offset + blockSize;
    }
    DivMonotone(offset, end, entrySize);
    assert end - offset <= blockSize;
    out := out + input[offset / entrySize..end / entrySize];
  }

  /** What one pass over the stripes has produced so far. */
  ghost predicate Produced<T(!new)>(out: seq<T>, runs: seq<nat>, input: seq<T>, offset: nat, entrySize: nat,
                                    less: (T, T) -> bool)
    requires entrySize > 0
  {
    && offset / entrySize <= |input| && Runs(out, runs, entrySize, less)
    && multiset(out) == multiset(input[..offset / entrySize])
  }

  lemma ProduceMore<T(!new)>(out: seq<T>, runs: seq<nat>, merged: seq<T>, input: seq<T>, from: nat, to: nat,
                             entrySize: nat, less: (T, T) -> bool)
    requires entrySize > 0 && Produced(out, runs, input, from, entrySize, less)
    requires from / entrySize <= to / entrySize <= |input| && merged != [] && Sorted(merged, less)
    requires multiset(merged) == multiset(Part(input, from, to, entrySize))
    ensures 0 < |merged| * entrySize
      && Produced(out + merged, runs + [|merged| * entrySize], input, to, entrySize, less)
  {
    RunsSnoc(out, runs, merged, entrySize, less);
    assert input[..to / entrySize] == input[..from / entrySize] + Part(input, from, to, entrySize);
  }

  lemma AllProduced<T(!new)>(out: seq<T>, runs: seq<nat>, input: seq<T>, offset: nat, entrySize: nat,
                             less: (T, T) -> bool)
    requires entrySize > 0 && Produced(out, runs, input, offset, entrySize, less)
      && At(input, offset, [], entrySize, less)
    ensures Runs(out, runs, entrySize, less) && multiset(out) == multiset(input)
  {
    assert input[offset / entrySize..] == [];
    assert input[..offset / entrySize] == input;
  }

  /**
   A pass of merging. The output holds the same records in at most half as many stripes, rounded up; it is a single
   stripe when one was asked for. Neither abort of the source is reached.
   */
  method Run<T(!new, 0)>(input: seq<T>, inOffsets: Offsets, outOffsets: Offsets?, bufferSize: nat, totalMemory: nat,
                         entrySize: nat, blockSize: nat, less: (T, T) -> bool, assertOne: bool)
    returns (out: seq<T>, aborted: bool, ghost runs: seq<nat>)
    requires Order(less) && 0 < entrySize && 0 < bufferSize && bufferSize % entrySize == 0
    requires 0 < blockSize && blockSize % entrySize == 0
    requires inOffsets.Valid() && inOffsets.reading && inOffsets.outputSum == 0
    requires Runs(input, inOffsets.sizes, entrySize, less)
    requires outOffsets != null ==>
      outOffsets != inOffsets && outOffsets.Valid() && !outOffsets.reading && outOffsets.sizes == []
    requires |inOffsets.sizes| <= 1 || RoomForAll(inOffsets.sizes, bufferSize, totalMemory)
      || (!assertOne && 2 * bufferSize <= totalMemory)
    modifies inOffsets, outOffsets
    ensures !aborted && inOffsets.Valid() && inOffsets.sizes == []
    ensures multiset(out) == multiset(input) && Runs(out, runs, entrySize, less)
      && 2 * |runs| <= old(|inOffsets.sizes|) + 1
    ensures if old(|inOffsets.sizes|) <= 1 then runs == old(inOffsets.sizes)
            else Grouped(old(inOffsets.sizes), runs, bufferSize, totalMemory, entrySize)
    ensures outOffsets != null ==> outOffsets.Valid() && !outOffsets.reading && outOffsets.sizes == runs
    ensures assertOne || old(RoomForAll(inOffsets.sizes, bufferSize, totalMemory)) ==> |runs| <= 1
  {
    hide Offsets.Valid, Sorted, At, Order, RoomForAll, Part, Runs, Produced, Sum,
      Grouped, GroupedSoFar, LargestGroup;
    aborted, out, runs := false, [], [];
    ghost var sizes := inOffsets.sizes;
    ghost var count, room := |inOffsets.sizes|, RoomForAll(inOffsets.sizes, bufferSize, totalMemory);
    PassStarts(input, inOffsets.sizes, entrySize, less);
    if inOffsets.RemainingBlocks() == 0 {
      AllProduced(out, runs, input, 0, entrySize, less);
      return;
    }
    if inOffsets.RemainingBlocks() == 1 {
      out, runs := RunSingle(input, inOffsets, outOffsets, entrySize, blockSize, less);
      return;
    }
    NoneGrouped(sizes, bufferSize, totalMemory, entrySize);
    var buffer := new T[totalMemory / entrySize];
    while inOffsets.RemainingBlocks() > 0
      invariant inOffsets.Valid() && inOffsets.reading
      invariant outOffsets != null ==> outOffsets.Valid() && !outOffsets.reading && outOffsets.sizes == runs
      invariant At(input, inOffsets.outputSum, inOffsets.sizes, entrySize, less)
      invariant Produced(out, runs, input, inOffsets.outputSum, entrySize, less)
      invariant GroupedSoFar(sizes, runs, inOffsets.sizes, bufferSize, totalMemory, entrySize)
      invariant inOffsets.sizes != [] ==> 2 * |runs| <= count - |inOffsets.sizes|
      invariant inOffsets.sizes == [] ==> 2 * |runs| <= count + 1
      invariant inOffsets.sizes == [] || (runs == [] && RoomForAll(inOffsets.sizes, bufferSize, totalMemory))
        || (!assertOne && !room && 2 * bufferSize <= totalMemory)
      invariant inOffsets.sizes == [] && (assertOne || room) ==> |runs| <= 1
      decreases |inOffsets.sizes|
    {
      ghost var from, left := inOffsets.outputSum, inOffsets.sizes;
      var merged, written, bug, taken :=
        RunGroup(input, inOffsets, buffer, bufferSize, totalMemory, entrySize, less, assertOne);
      OneMoreGroup(sizes, runs, left, taken, bufferSize, totalMemory, entrySize);
      if bug { aborted := true; return; }
      ProduceMore(out, runs, merged, input, from, inOffsets.outputSum, entrySize, less);
      out, runs := out + merged, runs + [written * entrySize];
      if outOffsets != null { outOffsets.Append(written * entrySize); }
    }
    AllProduced(out, runs, input, inOffsets.outputSum, entrySize, less);
    AllGrouped(sizes, runs, bufferSize, totalMemory, entrySize);
  }

  lemma NoneGrouped(sizes: seq<nat>, bufferSize: nat, totalMemory: nat, entrySize: nat)
    ensures GroupedSoFar(sizes, [], sizes, bufferSize, totalMemory, entrySize)
  {
    forall rest: seq<nat> | Grouped(sizes, rest, bufferSize, totalMemory, entrySize)
      ensures Grouped(sizes, [] + rest, bufferSize, totalMemory, entrySize)
    {
      assert [] + rest == rest;
    }
  }

  lemma PassStarts<T(!new)>(input: seq<T>, sizes: seq<nat>, entrySize: nat, less: (T, T) -> bool)
    requires entrySize > 0 && Runs(input, sizes, entrySize, less)
    ensures At(input, 0, sizes, entrySize, less) && Produced([], [], input, 0, entrySize, less)
  {
    DivModUnique(0, entrySize, 0, 0);
    assert input[0..] == input && input[..0] == [];
  }

  method RunSingle<T(!new)>(input: seq<T>, inOffsets: Offsets, outOffsets: Offsets?, entrySize: nat, blockSize: nat,
                            less: (T, T) -> bool) returns (out: seq<T>, ghost runs: seq<nat>)
    requires 0 < entrySize && 0 < blockSize && blockSize % entrySize == 0
    requires inOffsets.Valid() && inOffsets.reading && inOffsets.outputSum == 0 && |inOffsets.sizes| == 1
    requires At(input, 0, inOffsets.sizes, entrySize, less) && Runs(input, inOffsets.sizes, entrySize, less)
    requires outOffsets != null ==>
      outOffsets != inOffsets && outOffsets.Valid() && !outOffsets.reading && outOffsets.sizes == []
    modifies inOffsets, outOffsets
    ensures inOffsets.Valid() && inOffsets.sizes == [] && out == input && runs == old(inOffsets.sizes)
    ensures outOffsets != null ==> outOffsets.Valid() && !outOffsets.reading && outOffsets.sizes == runs
  {
    hide Offsets.Valid, Sorted;
    runs := inOffsets.sizes;
    NextRun(input, 0, runs, entrySize, less);
    WholeFile(input, runs, entrySize, less);
    var offset := inOffsets.outputSum;
    var amount := inOffsets.NextSize();
    out := ReadSingle(input, offset, amount, blockSize, entrySize);
    if outOffsets != null { outOffsets.Append(amount); }
  }

  lemma WholeFile<T(!new)>(input: seq<T>, sizes: seq<nat>, entrySize: nat, less: (T, T) -> bool)
    requires entrySize > 0 && Runs(input, sizes, entrySize, less) && |sizes| == 1
    ensures sizes[0] > 0 && sizes[0] % entrySize == 0 && sizes[0] / entrySize == |input| && sizes[1..] == []
      && 0 / entrySize == 0
    ensures input[0..|input|] == input && 0 % entrySize == 0
  {
    DivModUnique(0, entrySize, 0, 0);
    assert sizes[1..] == [];
  }
}
