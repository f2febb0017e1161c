/**
 The log of block sizes, run-length coded in a file that is first written and then read.
 */
module OffsetsLog {

  datatype Entry = Entry(length: nat, run: nat)

  function Repeat(x: nat, n: nat): (s: seq<nat>)
    ensures |s| == n && forall i :: 0 <= i < n ==> s[i] == x
  {
    if n == 0 then [] else [x] + Repeat(x, n - 1)
  }

  /** The sizes that a log stands for. */
  function Expand(log: seq<Entry>): seq<nat>
  {
    if log == [] then [] else Repeat(log[0].length, log[0].run) + Expand(log[1..])
  }

  lemma {:induction false} ExpandSnoc(log: seq<Entry>, e: Entry)
    ensures Expand(log + [e]) == Expand(log) + Repeat(e.length, e.run)
  {
    if log == [] {
      assert log + [e] == [e] && [e][1..] == [];
    } else {
      ExpandSnoc(log[1..], e);
      assert (log + [e])[1..] == log[1..] + [e];
    }
  }

  lemma RepeatSnoc(x: nat, n: nat)
    ensures Repeat(x, n + 1) == Repeat(x, n) + [x] == [x] + Repeat(x, n)
  {
  }

  function Sum(s: seq<nat>): nat
  {
    if s == [] then 0 else s[0] + Sum(s[1..])
  }

  class Offsets {
    var log: seq<Entry>
    var at: nat
    var cur: Entry
    var blockCount: nat
    var outputSum: nat
    /** Sizes are still being appended, or are being read back. */
    ghost var reading: bool
    /** The sizes appended so far, or the ones not read yet. */
    ghost var sizes: seq<nat>

    ghost predicate Valid()
      reads this
    {
      && at <= |log| && blockCount == |sizes|
      && (forall i :: 0 <= i < |sizes| ==> sizes[i] > 0)
      && (!reading ==> at == |log| && outputSum == 0 && sizes == Expand(log) + Repeat(cur.length, cur.run))
      && (!reading ==>
        (log == [] <==> cur.length == 0) && (log == [] ==> cur.run == 0)
          && (log != [] ==> log[0] == Entry(0, 0) && cur.run > 0))
      && (!reading ==> forall i :: 0 < i < |log| ==> log[i].length > 0 && log[i].run > 0)
      && (reading ==> sizes == Repeat(cur.length, cur.run) + Expand(log[at..]))
      && (reading ==> forall i :: at <= i < |log| ==> log[i].length > 0 && log[i].run > 0)
      && (reading && sizes != [] ==> cur.run > 0)
    }

    constructor ()
      ensures Valid() && !reading && sizes == []
    {
      log, at, cur, blockCount, outputSum := [], 0, Entry(0, 0), 0, 0;
      reading, sizes := false, [];
    }

    method Reset()
      modifies this
      ensures Valid() && !reading && sizes == []
    {
      log, at := [], 0;
      cur, blockCount, outputSum := Entry(0, 0), 0, 0;
      reading, sizes := false, [];
    }

    /** Records a size; nothing is recorded for zero. */
    method Append(length: nat)
      requires Valid() && !reading
      modifies this
      ensures Valid() && !reading && sizes == if length == 0 then old(sizes) else old(sizes) + [length]
    {
      if length == 0 { return; }
      blockCount := blockCount + 1;
      sizes := sizes + [length];
      if length == cur.length {
        RepeatSnoc(cur.length, cur.run);
        cur := cur.(run := cur.run + 1);
        return;
      }
      ExpandSnoc(log, cur);
      log, at := log + [cur], at + 1;
      cur := Entry(length, 1);
      RepeatSnoc(length, 0);
    }

    /** Turns to reading; the empty entry that starts the log is skipped. */
    method FinishedAppending()
      requires Valid() && !reading
      modifies this
      ensures Valid() && reading && sizes == old(sizes) && outputSum == 0
    {
      ExpandSnoc(log, cur);
      log := log + [cur];
      at := 1;
      assert log[1..] + [] == log[1..];
      cur := cur.(run := 0);
      SkipFirst(log);
      reading := true;
      if blockCount != 0 { ReadEntry(); }
    }

    /** Takes the next entry from the file once the current one is used up. */
    method ReadEntry()
      requires reading && at < |log| && cur.run == 0 && blockCount == |sizes|
      requires forall i :: 0 <= i < |sizes| ==> sizes[i] > 0
      requires sizes == Expand(log[at..])
      requires forall i :: at <= i < |log| ==> log[i].length > 0 && log[i].run > 0
      modifies this`cur, this`at
      ensures Valid()
    {
      cur := log[at];
      assert log[at..][1..] == log[at + 1..];
      at := at + 1;
    }

    /** The next size, in the order of appending; the sum of those handed out is the offset of the next. */
    method NextSize() returns (ret: nat)
      requires Valid() && reading && sizes != []
      modifies this
      ensures Valid() && reading && ret == old(sizes)[0] && sizes == old(sizes)[1..]
      ensures outputSum == old(outputSum) + ret
    {
      ret := cur.length;
      outputSum := outputSum + ret;
      RepeatSnoc(cur.length, cur.run - 1);
      cur := cur.(run := cur.run - 1);
      blockCount := blockCount - 1;
      sizes := sizes[1..];
      if cur.run == 0 && blockCount != 0 {
        NothingLeft(log, at);
        ReadEntry();
      }
    }

    function RemainingBlocks(): (n: nat)
      reads this
      requires Valid()
      ensures n == |sizes|
    {
      blockCount
    }

    function PeekSize(): (n: nat)
      reads this
      requires Valid() && reading && sizes != []
      ensures n == sizes[0]
    {
      cur.length
    }
  }

  lemma NothingLeft(log: seq<Entry>, at: nat)
    requires at <= |log|
    ensures Expand(log[at..]) != [] ==> at < |log|
  {
  }

  lemma SkipFirst(log: seq<Entry>)
    requires log != [] && log[0].run == 0
    ensures Expand(log) == Expand(log[1..])
  {
  }

  /** What was appended comes back in order, without the zeros. */
  method LogRoundTrip(lengths: seq<nat>) returns (back: seq<nat>)
    ensures back == NonZero(lengths)
  {
    hide Offsets.Valid, NonZero;
    var offsets := new Offsets();
    NonZeroSnoc([], 0);
    for i := 0 to |lengths|
      invariant offsets.Valid() && !offsets.reading && offsets.sizes == NonZero(lengths[..i])
    {
      offsets.Append(lengths[i]);
      assert lengths[..i + 1] == lengths[..i] + [lengths[i]];
      NonZeroSnoc(lengths[..i], lengths[i]);
    }
    assert lengths[..|lengths|] == lengths;
    offsets.FinishedAppending();
    back := ReadBack(offsets);
  }

  method ReadBack(offsets: Offsets) returns (back: seq<nat>)
    requires offsets.Valid() && offsets.reading
    modifies offsets
    ensures back == old(offsets.sizes)
  {
    hide Offsets.Valid;
    back := [];
    while offsets.RemainingBlocks() > 0
      invariant offsets.Valid() && offsets.reading && back + offsets.sizes == old(offsets.sizes)
      decreases offsets.RemainingBlocks()
    {
      ghost var sizes := offsets.sizes;
      var size := offsets.NextSize();
      assert sizes == [size] + offsets.sizes;
      back := back + [size];
    }
  }

  function NonZero(s: seq<nat>): seq<nat>
  {
    if s == [] then [] else (if s[0] == 0 then [] else [s[0]]) + NonZero(s[1..])
  }

  lemma {:induction false} NonZeroSnoc(s: seq<nat>, x: nat)
    ensures NonZero(s + [x]) == NonZero(s) + if x == 0 then [] else [x]
    ensures NonZero([]) == []
  {
    if s == [] {
      assert s + [x] == [x];
    } else {
      NonZeroSnoc(s[1..], x);
      assert (s + [x])[1..] == s[1..] + [x];
    }
  }
}
