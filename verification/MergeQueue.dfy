/**
 The priority queue of sorted stripes. Each stripe has a buffer in shared memory that is refilled from the file;
 sizes and positions count records.
 */
module MergeQueues {
  import opened Ordering

  /** A stripe: what is in its buffer from current on, and what still has to be read from offset on. */
  datatype Entry = Entry(current: nat, bufferEnd: nat, remaining: nat, offset: nat)

  /** The stripe's records that have not been taken. */
  ghost function Rest<T>(e: Entry, memory: seq<T>, input: seq<T>): seq<T>
    requires e.current <= e.bufferEnd <= |memory| && e.offset + e.remaining <= |input|
  {
    memory[e.current..e.bufferEnd] + input[e.offset..e.offset + e.remaining]
  }

  /** The lowest place of its buffer that a stripe may still touch. */
  function Low(e: Entry, bufferSize: nat): int
  {
    if e.remaining > 0 then e.bufferEnd - bufferSize else e.current
  }

  ghost predicate Fits(e: Entry, bufferSize: nat, memory: nat, input: nat)
  {
    e.current < e.bufferEnd <= memory && e.offset + e.remaining <= input && 0 <= Low(e, bufferSize) <= e.current
  }

  predicate Apart(e: Entry, f: Entry, bufferSize: nat)
  {
    e.bufferEnd <= Low(f, bufferSize) || f.bufferEnd <= Low(e, bufferSize)
  }

  /** Stripes sorted, in disjoint buffers. */
  ghost predicate Stripes<T(!new)>(q: seq<Entry>, bufferSize: nat, memory: seq<T>, input: seq<T>, less: (T, T) -> bool)
  {
    && (forall i :: 0 <= i < |q| ==> Fits(q[i], bufferSize, |memory|, |input|))
    && (forall i, j :: 0 <= i < j < |q| ==> Apart(q[i], q[j], bufferSize))
    && (forall i :: 0 <= i < |q| ==> Sorted(Rest(q[i], memory, input), less))
  }

  /** Stripe k has a record next that no other stripe's next one goes before. */
  predicate SmallestAt<T>(q: seq<Entry>, memory: seq<T>, k: nat, less: (T, T) -> bool)
  {
    k < |q| && forall i :: 0 <= i < |q| ==>
      q[k].current < |memory| && q[i].current < |memory| && LessEq(less, memory[q[k].current], memory[q[i].current])
  }

  ghost predicate Topmost<T(!new)>(q: seq<Entry>, memory: seq<T>, less: (T, T) -> bool)
  {
    q != [] ==> SmallestAt(q, memory, 0, less)
  }

  lemma SwapTop<T(!new)>(q: seq<Entry>, memory: seq<T>, k: nat, less: (T, T) -> bool)
    requires SmallestAt(q, memory, k, less)
    ensures SmallestAt(Swap(q, k), memory, 0, less)
  {
    var s := Swap(q, k);
    forall i | 0 <= i < |s|
      ensures s[0].current < |memory| && s[i].current < |memory|
        && LessEq(less, memory[s[0].current], memory[s[i].current])
    {
      var a := if i == 0 then k else if i == k then 0 else i;
      assert s[i] == q[a];
    }
  }

  ghost predicate Readable(q: seq<Entry>, memory: nat, input: nat)
  {
    forall i :: 0 <= i < |q| ==> q[i].current <= q[i].bufferEnd <= memory && q[i].offset + q[i].remaining <= input
  }

  /** No buffer reaches beyond the bound. */
  ghost predicate Below(q: seq<Entry>, bound: nat)
  {
    forall i :: 0 <= i < |q| ==> q[i].bufferEnd <= bound
  }

  /** How often a record occurs in all stripes together. */
  ghost function Tally<T>(q: seq<Entry>, memory: seq<T>, input: seq<T>, r: T): nat
    requires Readable(q, |memory|, |input|)
  {
    if q == [] then 0 else Tally(q[1..], memory, input, r) + multiset(Rest(q[0], memory, input))[r]
  }

  /** Records left in all stripes together. */
  ghost function Left(q: seq<Entry>): int
  {
    if q == [] then 0 else Left(q[1..]) + (q[0].bufferEnd - q[0].current) + q[0].remaining
  }

  lemma {:induction false} TallySnoc<T(!new)>(q: seq<Entry>, e: Entry, memory: seq<T>, input: seq<T>, r: T)
    requires Readable(q, |memory|, |input|)
    requires e.current <= e.bufferEnd <= |memory| && e.offset + e.remaining <= |input|
    ensures Tally(q + [e], memory, input, r) == Tally(q, memory, input, r) + multiset(Rest(e, memory, input))[r]
  {
    if q == [] {
      assert q + [e] == [e] && [e][1..] == [];
    } else {
      TallySnoc(q[1..], e, memory, input, r);
      assert (q + [e])[1..] == q[1..] + [e];
    }
  }

  lemma {:induction false} TallyUpdate<T(!new)>(q: seq<Entry>, k: nat, e: Entry, memory: seq<T>, input: seq<T>, r: T)
    requires Readable(q, |memory|, |input|)
    requires e.current <= e.bufferEnd <= |memory| && e.offset + e.remaining <= |input| && k < |q|
    ensures Tally(q[k := e], memory, input, r) + multiset(Rest(q[k], memory, input))[r]
         == Tally(q, memory, input, r) + multiset(Rest(e, memory, input))[r]
  {
    if k == 0 {
      assert q[0 := e][1..] == q[1..];
    } else {
      assert q[k := e][1..] == q[1..][k - 1 := e];
      TallyUpdate(q[1..], k - 1, e, memory, input, r);
    }
  }

  /** Exchanging two stripes changes nothing but their order. */
  lemma TallySwap<T(!new)>(q: seq<Entry>, k: nat, memory: seq<T>, input: seq<T>, r: T)
    requires Readable(q, |memory|, |input|)
    requires k < |q|
    ensures Readable(Swap(q, k), |memory|, |input|)
    ensures Tally(Swap(q, k), memory, input, r) == Tally(q, memory, input, r)
  {
    hide Tally, Rest, Left;
    var p := q[0 := q[k]];
    TallyUpdate(q, 0, q[k], memory, input, r);
    assert Readable(p, |memory|, |input|);
    TallyUpdate(p, k, q[0], memory, input, r);
    assert p[k] == q[k];
    assert Swap(q, k) == p[k := q[0]];
    assert Readable(Swap(q, k), |memory|, |input|);
  }

  function Swap(q: seq<Entry>, k: nat): (s: seq<Entry>)
    requires k < |q|
    ensures |s| == |q|
  {
    q[0 := q[k]][k := q[0]]
  }

  lemma SwapBelow(q: seq<Entry>, k: nat, bound: nat)
    requires k < |q| && Below(q, bound)
    ensures Below(Swap(q, k), bound)
  {
  }

  lemma {:induction false} LeftUpdate(q: seq<Entry>, k: nat, e: Entry)
    requires k < |q|
    ensures Left(q[k := e]) + (q[k].bufferEnd - q[k].current) + q[k].remaining
         == Left(q) + (e.bufferEnd - e.current) + e.remaining
  {
    if k == 0 {
      assert q[0 := e][1..] == q[1..];
    } else {
      assert q[k := e][1..] == q[1..][k - 1 := e];
      LeftUpdate(q[1..], k - 1, e);
    }
  }

  lemma {:induction false} LeftSnoc(q: seq<Entry>, e: Entry)
    ensures Left(q + [e]) == Left(q) + (e.bufferEnd - e.current) + e.remaining
  {
    if q == [] {
      assert q + [e] == [e] && [e][1..] == [];
    } else {
      LeftSnoc(q[1..], e);
      assert (q + [e])[1..] == q[1..] + [e];
    }
  }

  /** What arranging leaves alone. */
  lemma Arranged<T(!new)>(q: seq<Entry>, k: nat, memory: seq<T>, input: seq<T>, bound: nat)
    requires Readable(q, |memory|, |input|) && Below(q, bound) && k < |q|
    ensures Readable(Swap(q, k), |memory|, |input|) && Below(Swap(q, k), bound) && Left(Swap(q, k)) == Left(q)
    ensures forall r :: Tally(Swap(q, k), memory, input, r) == Tally(q, memory, input, r)
  {
    hide Tally, Left, Rest;
    LeftUpdate(q, 0, q[k]);
    LeftUpdate(q[0 := q[k]], k, q[0]);
    SwapBelow(q, k, bound);
    forall r: T ensures Tally(Swap(q, k), memory, input, r) == Tally(q, memory, input, r) {
      TallySwap(q, k, memory, input, r);
    }
  }

  /** The rest of the queue, and how it lies with respect to its first stripe. */
  lemma TailStripes<T(!new)>(q: seq<Entry>, bufferSize: nat, m: seq<T>, input: seq<T>, less: (T, T) -> bool)
    requires q != [] && Stripes(q, bufferSize, m, input, less)
    ensures Fits(q[0], bufferSize, |m|, |input|) && Sorted(Rest(q[0], m, input), less)
    ensures Stripes(q[1..], bufferSize, m, input, less)
    ensures forall i :: 0 <= i < |q| - 1 ==> Apart(q[0], q[1..][i], bufferSize)
  {
    var t := q[1..];
    forall i, j | 0 <= i < j < |t| ensures Apart(t[i], t[j], bufferSize) {
      assert Apart(q[i + 1], q[j + 1], bufferSize);
    }
    forall i | 0 <= i < |t|
      ensures Fits(t[i], bufferSize, |m|, |input|) && Sorted(Rest(t[i], m, input), less)
        && Apart(q[0], t[i], bufferSize)
    {
      assert t[i] == q[i + 1];
    }
  }

  /** No stripe's next record goes before v. */
  ghost predicate Above<T(!new)>(q: seq<Entry>, m: seq<T>, v: T, less: (T, T) -> bool)
  {
    forall i :: 0 <= i < |q| ==> q[i].current < |m| && LessEq(less, v, m[q[i].current])
  }

  lemma HeadsAbove<T(!new)>(q: seq<Entry>, m: seq<T>, input: seq<T>, bufferSize: nat, less: (T, T) -> bool)
    requires q != [] && Stripes(q, bufferSize, m, input, less) && Topmost(q, m, less)
    ensures Above(q[1..], m, m[q[0].current], less)
    ensures var s := Rest(q[0], m, input); s != [] && s[0] == m[q[0].current] && (|s| > 1 ==> LessEq(less, s[0], s[1]))
  {
    var t := q[1..];
    forall i | 0 <= i < |t| ensures t[i].current < |m| && LessEq(less, m[q[0].current], m[t[i].current]) {
      assert t[i] == q[i + 1];
    }
    assert Sorted(Rest(q[0], m, input), less);
  }

  lemma AboveFrame<T(!new)>(q: seq<Entry>, m: seq<T>, m': seq<T>, v: T, less: (T, T) -> bool)
    requires Above(q, m, v, less) && |m'| == |m|
    requires forall i :: 0 <= i < |q| ==> q[i].current < |m| && m'[q[i].current] == m[q[i].current]
    ensures Above(q, m', v, less)
  {
  }

  lemma AboveSnoc<T(!new)>(q: seq<Entry>, e: Entry, m: seq<T>, v: T, less: (T, T) -> bool)
    requires Above(q, m, v, less) && e.current < |m| && LessEq(less, v, m[e.current])
    ensures Above(q + [e], m, v, less)
  {
  }

  lemma SwapAbove<T(!new)>(q: seq<Entry>, m: seq<T>, k: nat, v: T, less: (T, T) -> bool)
    requires k < |q| && Above(q, m, v, less)
    ensures Swap(q, k)[0].current < |m| && LessEq(less, v, m[Swap(q, k)[0].current])
  {
    assert Swap(q, k)[0] == q[k];
  }

  /** Counting the records after the top one is taken: the stripe goes on, or is used up. */
  lemma CountTaken<T(!new)>(q: seq<Entry>, more: bool, next: Entry, m: seq<T>, m': seq<T>, input: seq<T>, r: T)
    requires q != [] && Readable(q, |m|, |input|) && |m'| == |m| && Readable(q[1..], |m'|, |input|)
    requires Rest(q[0], m, input) != []
    requires Tally(q[1..], m', input, r) == Tally(q[1..], m, input, r)
    requires more <==> |Rest(q[0], m, input)| > 1
    requires more ==> next.current <= next.bufferEnd <= |m'| && next.offset + next.remaining <= |input|
    requires more ==> Rest(next, m', input) == Rest(q[0], m, input)[1..]
    ensures Readable(q[1..] + (if more then [next] else []), |m'|, |input|)
    ensures Tally(q[1..] + (if more then [next] else []), m', input, r)
      + (if r == Rest(q[0], m, input)[0] then 1 else 0) == Tally(q, m, input, r)
  {
    hide Tally, Rest;
    var s, t := Rest(q[0], m, input), q[1..];
    var p := t + (if more then [next] else []);
    assert Readable(p, |m'|, |input|) && Tally(p, m', input, r) == Tally(t, m', input, r) + multiset(s[1..])[r] by {
      if more { TallySnoc(t, next, m', input, r); } else { assert p == t && s[1..] == []; }
    }
    TallyHead(q, m, input, r);
    HeadCount(s, r);
  }

  lemma TallyHead<T(!new)>(q: seq<Entry>, m: seq<T>, input: seq<T>, r: T)
    requires q != [] && Readable(q, |m|, |input|)
    ensures Tally(q, m, input, r) == Tally(q[1..], m, input, r) + multiset(Rest(q[0], m, input))[r]
  {
  }

  lemma HeadCount<T(!new)>(s: seq<T>, r: T)
    requires s != []
    ensures multiset(s)[r] == multiset(s[1..])[r] + if r == s[0] then 1 else 0
  {
    assert s == [s[0]] + s[1..];
  }

  lemma BelowTail(q: seq<Entry>, bound: nat)
    requires q != [] && Below(q, bound)
    ensures Below(q[1..], bound) && q[0].bufferEnd <= bound
    ensures forall e: Entry :: e.bufferEnd <= bound ==> Below(q[1..] + [e], bound)
  {
  }

  lemma ApartEither(q: seq<Entry>, a: nat, b: nat, bufferSize: nat)
    requires a < |q| && b < |q| && a != b
    requires forall i, j :: 0 <= i < j < |q| ==> Apart(q[i], q[j], bufferSize)
    ensures Apart(q[a], q[b], bufferSize)
  {
    if b < a { assert Apart(q[b], q[a], bufferSize); }
  }

  lemma SwapStripes<T(!new)>(q: seq<Entry>, k: nat, bufferSize: nat, memory: seq<T>, input: seq<T>,
                             less: (T, T) -> bool)
    requires k < |q| && Stripes(q, bufferSize, memory, input, less)
    ensures Stripes(Swap(q, k), bufferSize, memory, input, less)
  {
    var s := Swap(q, k);
    forall i, j | 0 <= i < j < |s| ensures Apart(s[i], s[j], bufferSize) {
      var a, b := if i == 0 then k else if i == k then 0 else i, if j == 0 then k else if j == k then 0 else j;
      assert s[i] == q[a] && s[j] == q[b] && a != b;
      ApartEither(q, a, b, bufferSize);
    }
    forall i | 0 <= i < |s|
      ensures Fits(s[i], bufferSize, |memory|, |input|) && Sorted(Rest(s[i], memory, input), less)
    {
      var a := if i == 0 then k else if i == k then 0 else i;
      assert s[i] == q[a];
    }
  }

  /** A stripe whose buffer is not touched keeps its records. */
  lemma RestFrame<T(!new)>(e: Entry, bufferSize: nat, m: seq<T>, m': seq<T>, input: seq<T>, from: int, to: int)
    requires |m'| == |m| && Fits(e, bufferSize, |m|, |input|)
    requires e.bufferEnd <= from || to <= Low(e, bufferSize)
    requires forall k :: 0 <= k < |m| && !(from <= k < to) ==> m'[k] == m[k]
    ensures Rest(e, m', input) == Rest(e, m, input) && m'[e.current] == m[e.current]
  {
    assert m'[e.current..e.bufferEnd] == m[e.current..e.bufferEnd];
  }

  /** Memory that only changes outside the stripes' buffers does not change the stripes. */
  lemma StripesFrame<T(!new)>(q: seq<Entry>, bufferSize: nat, m: seq<T>, m': seq<T>, input: seq<T>,
                              less: (T, T) -> bool, from: int, to: int)
    requires Stripes(q, bufferSize, m, input, less) && |m'| == |m|
    requires forall i :: 0 <= i < |q| ==> q[i].bufferEnd <= from || to <= Low(q[i], bufferSize)
    requires forall k :: 0 <= k < |m| && !(from <= k < to) ==> m'[k] == m[k]
    ensures Stripes(q, bufferSize, m', input, less)
    ensures forall i :: 0 <= i < |q| ==> m'[q[i].current] == m[q[i].current]
    ensures forall r :: Tally(q, m', input, r) == Tally(q, m, input, r)
  {
    forall i | 0 <= i < |q|
      ensures Rest(q[i], m', input) == Rest(q[i], m, input) && m'[q[i].current] == m[q[i].current]
    {
      RestFrame(q[i], bufferSize, m, m', input, from, to);
    }
    forall r ensures Tally(q, m', input, r) == Tally(q, m, input, r) { TallyFrame(q, m, m', input, r); }
  }

  lemma {:induction false} TallyFrame<T(!new)>(q: seq<Entry>, m: seq<T>, m': seq<T>, input: seq<T>, r: T)
    requires Readable(q, |m|, |input|) && |m'| == |m|
    requires forall i :: 0 <= i < |q| ==> Rest(q[i], m', input) == Rest(q[i], m, input)
    ensures Tally(q, m', input, r) == Tally(q, m, input, r)
  {
    if q != [] { TallyFrame(q[1..], m, m', input, r); }
  }

  lemma {:induction false} SmallestEntry<T(!new)>(q: seq<Entry>, m: seq<T>, less: (T, T) -> bool) returns (k: nat)
    requires Order(less) && q != [] && forall i :: 0 <= i < |q| ==> q[i].current < |m|
    ensures SmallestAt(q, m, k, less)
  {
    var n := |q| - 1;
    if n == 0 {
      k := 0;
      assert LessEq(less, m[q[0].current], m[q[0].current]);
    } else {
      k := SmallestEntry(q[..n], m, less);
      assert forall j :: 0 <= j < n ==> LessEq(less, m[q[k].current], m[q[..n][j].current]);
      if !LessEq(less, m[q[k].current], m[q[n].current]) {
        assert LessEq(less, m[q[n].current], m[q[k].current]) && LessEq(less, m[q[n].current], m[q[n].current]);
        k := n;
      }
    }
  }

  lemma StripesSnoc<T(!new)>(q: seq<Entry>, e: Entry, bufferSize: nat, m: seq<T>, input: seq<T>, less: (T, T) -> bool)
    requires Stripes(q, bufferSize, m, input, less)
    requires Fits(e, bufferSize, |m|, |input|) && Sorted(Rest(e, m, input), less)
    requires forall i :: 0 <= i < |q| ==> Apart(q[i], e, bufferSize)
    ensures Stripes(q + [e], bufferSize, m, input, less)
  {
    var s := q + [e];
    forall i | 0 <= i < |s|
      ensures Fits(s[i], bufferSize, |m|, |input|) && Sorted(Rest(s[i], m, input), less)
    {
      if i < |q| { assert s[i] == q[i]; }
    }
  }

  lemma StripesReadable<T(!new)>(q: seq<Entry>, bufferSize: nat, m: seq<T>, input: seq<T>, less: (T, T) -> bool)
    requires Stripes(q, bufferSize, m, input, less)
    ensures Readable(q, |m|, |input|) && forall i :: 0 <= i < |q| ==> Fits(q[i], bufferSize, |m|, |input|)
  {
  }

  /** Everything about the queue between taking a record and arranging again. */
  lemma Taken<T(!new)>(q: seq<Entry>, more: bool, next: Entry, m: seq<T>, m': seq<T>, input: seq<T>, bufferSize: nat,
                       less: (T, T) -> bool, bound: nat)
    requires q != [] && Stripes(q, bufferSize, m, input, less) && Topmost(q, m, less) && Below(q, bound)
    requires |m'| == |m| && forall k :: 0 <= k < |m| && !(Low(q[0], bufferSize) <= k < q[0].bufferEnd) ==> m'[k] == m[k]
    requires more <==> |Rest(q[0], m, input)| > 1
    requires more ==> Fits(next, bufferSize, |m'|, |input|) && Rest(next, m', input) == Rest(q[0], m, input)[1..]
    requires more ==> Low(q[0], bufferSize) <= Low(next, bufferSize) && next.bufferEnd <= q[0].bufferEnd
    requires (if more then next.bufferEnd - next.current + next.remaining else 0)
          == q[0].bufferEnd - q[0].current + q[0].remaining - 1
    ensures var p, v := q[1..] + (if more then [next] else []), m[q[0].current];
      && Stripes(p, bufferSize, m', input, less) && Readable(p, |m'|, |input|) && Below(p, bound)
      && Above(p, m', v, less) && Left(p) == Left(q) - 1
      && forall r :: Tally(p, m', input, r) + (if r == v then 1 else 0) == Tally(q, m, input, r)
  {
    hide Tally, Sorted, Order, SmallestAt, LessEq, Stripes, Rest, Above, Below, Readable, Topmost;
    StripesReadable(q, bufferSize, m, input, less);
    var t, v := q[1..], m[q[0].current];
    TailStripes(q, bufferSize, m, input, less);
    StripesReadable(t, bufferSize, m, input, less);
    HeadsAbove(q, m, input, bufferSize, less);
    BelowTail(q, bound);
    StripesFrame(t, bufferSize, m, m', input, less, Low(q[0], bufferSize), q[0].bufferEnd);
    AboveFrame(t, m, m', v, less);
    CountTaken(q, more, next, m, m', input, v);
    forall r: T ensures Tally(t + (if more then [next] else []), m', input, r) + (if r == v then 1 else 0)
      == Tally(q, m, input, r) {
      CountTaken(q, more, next, m, m', input, r);
    }
    if more {
      SortedRest(q[0], m, input, less);
      StripesSnoc(t, next, bufferSize, m', input, less);
      NextAbove(q[0], next, m, m', input, less);
      AboveSnoc(t, next, m', v, less);
      LeftSnoc(t, next);
      StripesReadable(t + [next], bufferSize, m', input, less);
    } else {
      assert t + [] == t;
    }
  }

  /** Everything about the queue after a stripe is added and before arranging. */
  lemma Added<T(!new)>(q: seq<Entry>, e: Entry, m: seq<T>, m': seq<T>, input: seq<T>, bufferSize: nat,
                       less: (T, T) -> bool, base: nat, bound: nat, newBound: nat)
    requires Stripes(q, bufferSize, m, input, less) && Below(q, bound) && bound <= base
    requires |m'| == |m| && forall k :: 0 <= k < |m| && !(base <= k < base + bufferSize) ==> m'[k] == m[k]
    requires Fits(e, bufferSize, |m'|, |input|) && Sorted(Rest(e, m', input), less)
    requires Low(e, bufferSize) == base && e.bufferEnd <= newBound && base <= newBound
    ensures Readable(q, |m|, |input|)
    ensures Stripes(q + [e], bufferSize, m', input, less) && Readable(q + [e], |m'|, |input|)
      && Below(q + [e], newBound)
    ensures Left(q + [e]) == Left(q) + (e.bufferEnd - e.current) + e.remaining
    ensures forall r :: Tally(q + [e], m', input, r) == Tally(q, m, input, r) + multiset(Rest(e, m', input))[r]
  {
    hide Tally, Sorted, Order, LessEq, Left, Rest;
    StripesReadable(q, bufferSize, m, input, less);
    StripesFrame(q, bufferSize, m, m', input, less, base, base + bufferSize);
    StripesSnoc(q, e, bufferSize, m', input, less);
    LeftSnoc(q, e);
    forall r: T ensures Tally(q + [e], m', input, r) == Tally(q, m, input, r) + multiset(Rest(e, m', input))[r] {
      TallySnoc(q, e, m', input, r);
    }
  }

  lemma SortedRest<T(!new)>(e: Entry, m: seq<T>, input: seq<T>, less: (T, T) -> bool)
    requires e.current <= e.bufferEnd <= |m| && e.offset + e.remaining <= |input|
    requires Sorted(Rest(e, m, input), less) && |Rest(e, m, input)| > 1
    ensures Sorted(Rest(e, m, input)[1..], less)
  {
  }

  lemma NextAbove<T(!new)>(e: Entry, next: Entry, m: seq<T>, m': seq<T>, input: seq<T>, less: (T, T) -> bool)
    requires e.current < e.bufferEnd <= |m| && e.offset + e.remaining <= |input|
    requires next.current < next.bufferEnd <= |m'| && next.offset + next.remaining <= |input|
    requires |Rest(e, m, input)| > 1 && Rest(next, m', input) == Rest(e, m, input)[1..]
    requires LessEq(less, Rest(e, m, input)[0], Rest(e, m, input)[1])
    ensures LessEq(less, m[e.current], m'[next.current])
  {
    assert Rest(next, m', input)[0] == m'[next.current];
  }

  class MergeQueue<T(!new)> {
    var queue: seq<Entry>
    const memory: array<T>
    const input: seq<T>
    const bufferSize: nat
    const less: (T, T) -> bool

    ghost predicate Valid()
      reads this, memory
    {
      && Order(less) && bufferSize > 0
      && Stripes(queue, bufferSize, memory[..], input, less) && Topmost(queue, memory[..], less)
    }

    ghost function Count(r: T): nat
      reads this, memory
      requires Valid()
    {
      Tally(queue, memory[..], input, r)
    }

    constructor (memory: array<T>, input: seq<T>, bufferSize: nat, less: (T, T) -> bool)
      requires Order(less) && bufferSize > 0
      ensures Valid() && queue == []
      ensures this.memory == memory && this.input == input && this.bufferSize == bufferSize && this.less == less
    {
      this.memory, this.input, this.bufferSize, this.less := memory, input, bufferSize, less;
      queue := [];
    }

    /** Fills the stripe's buffer with its next records, if it has any. */
    method Read(e: Entry) returns (ok: bool, filled: Entry)
      requires bufferSize > 0 && e.offset + e.remaining <= |input|
      requires e.remaining > 0 ==>
        bufferSize <= e.bufferEnd
          && e.bufferEnd - bufferSize + (if bufferSize < e.remaining then bufferSize else e.remaining) <= memory.Length
      modifies memory
      ensures ok <==> e.remaining > 0
      ensures !ok ==> memory[..] == old(memory[..])
      ensures ok ==> Fits(filled, bufferSize, memory.Length, |input|)
      ensures ok ==>
        Low(filled, bufferSize) == filled.current == e.bufferEnd - bufferSize && filled.bufferEnd <= e.bufferEnd
      ensures ok ==> filled.bufferEnd <= filled.current + e.remaining
      ensures ok ==> Rest(filled, memory[..], input) == input[e.offset..e.offset + e.remaining]
      ensures forall k :: 0 <= k < memory.Length && !(e.bufferEnd - bufferSize <= k < e.bufferEnd) ==>
        memory[k] == old(memory[k])
      ensures ok ==> filled.bufferEnd - filled.current + filled.remaining == e.remaining
    {
      if e.remaining == 0 { return false, e; }
      var current, bufferEnd := e.bufferEnd - bufferSize, e.bufferEnd;
      var amount := bufferSize;
      if !(bufferSize < e.remaining) {
        amount := e.remaining;
        bufferEnd := current + e.remaining;
      }
      for i := 0 to amount
        invariant forall k :: current <= k < current + i ==> memory[k] == input[e.offset + (k - current)]
        invariant forall k :: 0 <= k < memory.Length && !(current <= k < current + i) ==> memory[k] == old(memory[k])
      {
        memory[current + i] := input[e.offset + i];
      }
      ok, filled := true, Entry(current, bufferEnd, e.remaining - amount, e.offset + amount);
      assert memory[..][current..bufferEnd] == input[e.offset..e.offset + amount];
      assert input[e.offset..e.offset + e.remaining]
          == input[e.offset..e.offset + amount] + input[e.offset + amount..e.offset + e.remaining];
    }

    /** The heap: some stripe with a smallest record comes first; which one is not said. */
    method Arrange() returns (ghost k: nat)
      requires Order(less) && bufferSize > 0 && Stripes(queue, bufferSize, memory[..], input, less)
      modifies this`queue
      ensures Valid()
      ensures old(queue) == [] ==> queue == []
      ensures old(queue) != [] ==> k < |old(queue)| && queue == Swap(old(queue), k)
    {
      hide Tally, Left, Sorted, Order, SmallestAt, LessEq, Swap;
      k := 0;
      if queue == [] { return; }
      ghost var m := memory[..];
      ghost var least := SmallestEntry(queue, m, less);
      var i :| 0 <= i < |queue| && SmallestAt(queue, memory[..], i, less);
      SwapStripes(queue, i, bufferSize, m, input, less);
      SwapTop(queue, m, i, less);
      queue := Swap(queue, i);
      k := i;
    }

    method Push(base: nat, offset: nat, amount: nat, ghost bound: nat) returns (ghost newBound: nat)
      requires Valid() && 0 < amount && offset + amount <= |input| && Sorted(input[offset..offset + amount], less)
      requires Below(queue, bound) && bound <= base
      requires base + (if bufferSize < amount then bufferSize else amount) <= memory.Length
      modifies this`queue, memory
      ensures Valid() && |queue| == |old(queue)| + 1 && Left(queue) == Left(old(queue)) + amount
      ensures forall r :: Count(r) == old(Count(r)) + multiset(input[offset..offset + amount])[r]
      ensures newBound == base + (if bufferSize < amount then bufferSize else amount) && Below(queue, newBound)
    {
      hide Tally, Left, Sorted, Order, SmallestAt, LessEq, Swap, Stripes, Rest, Below, Readable;
      newBound := base + (if bufferSize < amount then bufferSize else amount);
      ghost var q, m := queue, memory[..];
      var ok, e := Read(Entry(base, base + bufferSize, amount, offset));
      Added(q, e, m, memory[..], input, bufferSize, less, base, bound, newBound);
      queue := queue + [e];
      ghost var p := queue;
      ghost var k := Arrange();
      Arranged(p, k, memory[..], input, newBound);
    }

    method Increment(e: Entry) returns (ok: bool, next: Entry)
      requires bufferSize > 0 && Fits(e, bufferSize, memory.Length, |input|)
      modifies memory
      ensures ok <==> |old(Rest(e, memory[..], input))| > 1
      ensures ok ==> Fits(next, bufferSize, memory.Length, |input|)
      ensures ok ==> Rest(next, memory[..], input) == old(Rest(e, memory[..], input))[1..]
      ensures ok ==> Low(e, bufferSize) <= Low(next, bufferSize) && next.bufferEnd <= e.bufferEnd
      ensures ok ==> next.bufferEnd - next.current + next.remaining == e.bufferEnd - e.current + e.remaining - 1
      ensures !ok ==> e.bufferEnd - e.current + e.remaining == 1
      ensures forall k :: 0 <= k < memory.Length && !(Low(e, bufferSize) <= k < e.bufferEnd) ==>
        memory[k] == old(memory[k])
    {
      ghost var m, f := memory[..], input[e.offset..e.offset + e.remaining];
      assert m[e.current..e.bufferEnd] == [m[e.current]] + m[e.current + 1..e.bufferEnd];
      next := e.(current := e.current + 1);
      assert Rest(e, m, input)[1..] == Rest(next, m, input);
      if next.current != next.bufferEnd { return true, next; }
      assert Rest(next, m, input) == f;
      ok, next := Read(next);
    }

    /** Takes the top record away. Every record that remains may go after it. */
    method Pop(ghost bound: nat)
      requires Valid() && queue != [] && Below(queue, bound)
      modifies this`queue, memory
      ensures Valid() && Below(queue, bound) && Left(queue) == Left(old(queue)) - 1
      ensures forall r :: Count(r) + (if r == old(Top()) then 1 else 0) == old(Count(r))
      ensures queue != [] ==> LessEq(less, old(Top()), Top())
    {
      hide Tally, Left, Sorted, Order, SmallestAt, LessEq, Swap, Stripes, Rest, Above, Below, Readable;
      ghost var q, m, v := queue, memory[..], Top();
      StripesReadable(q, bufferSize, m, input, less);
      var top := queue[0];
      queue := queue[1..];
      TailStripes(q, bufferSize, m, input, less);
      StripesReadable(queue, bufferSize, m, input, less);
      HeadsAbove(q, m, input, bufferSize, less);
      BelowTail(q, bound);
      var more, next := Increment(top);
      Taken(q, more, next, m, memory[..], input, bufferSize, less, bound);
      if more { queue := queue + [next]; } else { assert q[1..] + [] == q[1..]; }
      ghost var p := queue;
      assert p == q[1..] + (if more then [next] else []);
      ghost var k := Arrange();
      if p != [] {
        Arranged(p, k, memory[..], input, bound);
        SwapAbove(p, memory[..], k, v, less);
      }
    }

    function Top(): T
      reads this, memory
      requires Valid() && queue != []
    {
      memory[queue[0].current]
    }
  }
}
