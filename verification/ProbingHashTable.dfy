/**
 The linear probing hash table over memory that it is given, with doubling inside that memory.
 */
module ProbingHashTables {
  import opened Powers
  import opened ProbingMod
  import opened ProbingTable

  /** Slots passed by a probe from home to i in a table of n slots. */
  function Steps(home: int, i: int, n: int): int
  {
    if home <= i then i - home else i - home + n
  }

  /** A probe that has met no empty slot yet moves on without coming back to where it began. */
  lemma ProbeMovesOn<K(!new), V>(t: seq<Entry<K, V>>, invalid: K, home: nat, i: nat)
    requires home < |t| && i < |t| && HasEmpty(t, invalid)
    requires RunUpTo(t, invalid, home, i) && t[i].key != invalid
    ensures var next := if i + 1 == |t| then 0 else i + 1;
      && next != home && RunUpTo(t, invalid, home, next) && Steps(home, next, |t|) == Steps(home, i, |t|) + 1
      && (forall j :: 0 <= j < |t| ==> (Before(home, j, next) <==> Before(home, j, i) || j == i))
  {
    var e :| 0 <= e < |t| && t[e].key == invalid;
    assert !Before(home, e, i) && e != i;
  }

  class ProbingHashTable<K(==, !new), V(0)> {
    var table: array<Entry<K, V>>
    var buckets: nat
    const invalid: K
    const hash: K -> nat
    var mod: Mod
    var entries: nat

    ghost predicate Shaped()
      reads this
    {
      table.Length == buckets && mod.Fits(buckets)
    }

    /** The probing invariant holds and at least one bucket is free. */
    ghost predicate Valid()
      reads this, table
    {
      && Shaped() && Probed(table[..], invalid, hash)
      && |Stored(table[..], invalid)| <= entries && |Stored(table[..], invalid)| < buckets
    }

    ghost function Contents(): multiset<Entry<K, V>>
      reads this, table
    {
      Stored(table[..], invalid)
    }

    /** Memory comes from outside; the table is ready once Clear has run or when every slot is already empty. */
    constructor (start: array<Entry<K, V>>, invalid: K, hash: K -> nat, mod: Mod)
      requires mod.Fits(start.Length)
      ensures this.invalid == invalid && this.hash == hash && table == start && buckets == start.Length
      ensures Shaped() && this.mod == mod && entries == 0
      ensures (forall i :: 0 <= i < start.Length ==> start[i].key == invalid) ==> Valid() && Contents() == multiset{}
    {
      this.table, this.buckets, this.invalid, this.hash := start, start.Length, invalid, hash;
      this.mod, this.entries := mod, 0;
      new;
      if forall i :: 0 <= i < start.Length ==> start[i].key == invalid { StoredNothing(start[..], invalid); }
    }

    method Clear()
      requires Shaped()
      modifies this`entries, table
      ensures Valid() && Contents() == multiset{} && entries == 0
    {
      var blank: V := *;
      for i := 0 to buckets
        invariant forall j :: 0 <= j < i ==> table[j].key == invalid
      {
        table[i] := Entry(invalid, blank);
      }
      entries := 0;
      StoredNothing(table[..], invalid);
    }

    method Ideal(key: K) returns (i: nat)
      requires Shaped()
      ensures i == Home(hash, key, buckets)
    {
      mod.IdealIsRemainder(buckets, hash(key));
      i := mod.Ideal(hash(key));
    }

    /** The first free slot on the entry's probe takes the entry. */
    method UncheckedInsert(t: Entry<K, V>) returns (at: nat)
      requires Shaped() && HasEmpty(table[..], invalid)
      modifies table
      ensures at < buckets && old(table[at].key) == invalid
      ensures RunUpTo(old(table[..]), invalid, Home(hash, t.key, buckets), at)
      ensures table[..] == old(table[..])[at := t]
    {
      ghost var home := Home(hash, t.key, buckets);
      at := Ideal(t.key);
      while table[at].key != invalid
        invariant at < buckets && RunUpTo(table[..], invalid, home, at)
        invariant table[..] == old(table[..])
        decreases buckets - Steps(home, at, buckets)
      {
        ProbeMovesOn(table[..], invalid, home, at);
        mod.NextIsCyclic(buckets, at);
        at := mod.Next(at, buckets);
      }
      table[at] := t;
    }

    /** The table is a lower bound for entries, which counts failed insertions as well. */
    method Insert(t: Entry<K, V>) returns (thrown: bool, at: nat)
      requires Valid() && t.key != invalid
      modifies this`entries, table
      ensures Valid() && entries == old(entries) + 1
      ensures thrown <==> old(entries) + 1 >= buckets
      ensures thrown ==> table[..] == old(table[..])
      ensures !thrown ==> at < buckets && table[..] == old(table[..])[at := t]
      ensures Contents() == if thrown then old(Contents()) else old(Contents()) + multiset{t}
    {
      entries := entries + 1;
      if entries >= buckets { return true, 0; }
      hide Probed, Stored, RunUpTo, HasEmpty;
      thrown := false;
      RoomLeft(table[..], invalid);
      ghost var was := table[..];
      at := UncheckedInsert(t);
      StoreFresh(was, invalid, hash, at, t);
    }

    /** For the invalid key itself the answer is the first empty slot of its probe. */
    method FindOrInsert(t: Entry<K, V>) returns (found: bool, thrown: bool, at: nat)
      requires Valid()
      modifies this`entries, table
      ensures Valid()
      ensures found <==> t.key == invalid || HasKey(old(table[..]), t.key)
      ensures thrown <==> !found && old(entries) + 1 >= buckets
      ensures entries == if found then old(entries) else old(entries) + 1
      ensures at < buckets
      ensures found ==> table[at].key == t.key
      ensures found || thrown ==> table[..] == old(table[..])
      ensures !found && !thrown ==> table[..] == old(table[..])[at := t]
      ensures Contents() == if found || thrown then old(Contents()) else old(Contents()) + multiset{t}
    {
      hide Probed, Stored, RunUpTo, HasEmpty, Before, Home;
      ghost var was, home := table[..], Home(hash, t.key, buckets);
      RoomLeft(was, invalid);
      RunStart(was, invalid, home);
      thrown := false;
      at := Ideal(t.key);
      while true
        invariant at < buckets && RunUpTo(was, invalid, home, at)
        invariant forall j :: 0 <= j < buckets && Before(home, j, at) ==> was[j].key != t.key
        invariant table[..] == was && entries == old(entries) && !thrown
        decreases buckets - Steps(home, at, buckets)
      {
        var got := table[at].key;
        assert got == was[at].key;
        if got == t.key {
          assert got != invalid ==> HasKey(was, t.key);
          return true, thrown, at;
        }
        if got == invalid {
          MissMeansAbsent(was, invalid, hash, t.key, at);
          entries := entries + 1;
          if entries >= buckets { return false, true, at; }
          StoreFresh(was, invalid, hash, at, t);
          table[at] := t;
          assert table[..] == was[at := t];
          return false, false, at;
        }
        ProbeMovesOn(was, invalid, home, at);
        mod.NextIsCyclic(buckets, at);
        at := mod.Next(at, buckets);
      }
    }

    /** Lookup finds exactly the stored keys, and the invalid key at an empty slot. */
    method Find(key: K) returns (found: bool, out: nat)
      requires Valid()
      ensures found <==> key == invalid || HasKey(table[..], key)
      ensures found ==> out < buckets && table[out].key == key
    {
      out := Ideal(key);
      found, out := FindFromIdeal(key, out);
    }

    method FindFromIdeal(key: K, ideal: nat) returns (found: bool, i: nat)
      requires Valid() && ideal == Home(hash, key, buckets)
      ensures found <==> key == invalid || HasKey(table[..], key)
      ensures found ==> i < buckets && table[i].key == key
    {
      hide Probed, Stored, RunUpTo, HasEmpty, Before, Home;
      ghost var t := table[..];
      RoomLeft(t, invalid);
      RunStart(t, invalid, ideal);
      i := ideal;
      while true
        invariant i < buckets && RunUpTo(t, invalid, ideal, i)
        invariant forall j :: 0 <= j < buckets && Before(ideal, j, i) ==> t[j].key != key
        decreases buckets - Steps(ideal, i, buckets)
      {
        var got := table[i].key;
        assert got == t[i].key;
        if got == key { return true, i; }
        if got == invalid {
          MissMeansAbsent(t, invalid, hash, key, i);
          return false, i;
        }
        ProbeMovesOn(t, invalid, ideal, i);
        mod.NextIsCyclic(buckets, i);
        i := mod.Next(i, buckets);
      }
    }

    /**
     Doubling inside memory whose first half is the old table. The new half is cleared, or is known to be empty
     already. Contents and invariant survive although every entry may move.
     */
    method Double(newBase: array<Entry<K, V>>, clearNew: bool)
      requires Valid()
      requires newBase.Length == 2 * buckets && newBase[..buckets] == table[..]
      requires !clearNew ==> forall j :: buckets <= j < 2 * buckets ==> newBase[j].key == invalid
      modifies this`table, this`buckets, this`mod, newBase
      ensures Valid() && table == newBase && buckets == 2 * old(buckets) && mod == old(mod).Double()
      ensures Contents() == old(Contents())
    {
      hide Probed, Stored, RunUpTo, Before, Home, Rehashed;
      ghost var n, t := buckets, table[..];
      RoomLeft(t, invalid);
      var oldEnd := buckets;
      mod.DoubleFits(buckets);
      table, buckets, mod := newBase, buckets * 2, mod.Double();
      if clearNew { ClearNew(oldEnd); }
      GrownTable(t, table[..], invalid);
      var rolledOver, r := RollOver(oldEnd);
      NoWrapPast(t, table[..], invalid, hash, r);
      RehashLower(oldEnd);
      AllRehashed(table[..], invalid, hash, n);
      Reinsert(rolledOver);
    }

    method ClearNew(oldEnd: nat)
      requires Shaped() && oldEnd <= buckets
      modifies table
      ensures table[..oldEnd] == old(table[..oldEnd])
      ensures forall j :: oldEnd <= j < buckets ==> table[j].key == invalid
    {
      var blank: V := *;
      for i := oldEnd to buckets
        invariant forall j :: oldEnd <= j < i ==> table[j].key == invalid
        invariant table[..oldEnd] == old(table[..oldEnd])
      {
        table[i] := Entry(invalid, blank);
      }
    }

    /** Lifts the run of full slots at the start out of the table, up to the first empty slot r. */
    method RollOver(oldEnd: nat) returns (rolledOver: seq<Entry<K, V>>, ghost r: nat)
      requires Shaped() && oldEnd <= buckets && HasEmpty(table[..oldEnd], invalid)
      modifies table
      ensures r < oldEnd && old(table[r].key) == invalid
      ensures forall j :: 0 <= j < r ==> table[j].key == invalid
      ensures forall j :: r <= j < buckets ==> table[j] == old(table[j])
      ensures forall k :: 0 <= k < |rolledOver| ==> rolledOver[k].key != invalid
      ensures Stored(table[..], invalid) + multiset(rolledOver) == Stored(old(table[..]), invalid)
    {
      hide Stored;
      ghost var gap :| 0 <= gap < oldEnd && table[..oldEnd][gap].key == invalid;
      rolledOver := [];
      var i := 0;
      while i != oldEnd && table[i].key != invalid
        invariant i <= gap
        invariant forall j :: 0 <= j < i ==> table[j].key == invalid
        invariant forall j :: i <= j < buckets ==> table[j] == old(table[j])
        invariant forall k :: 0 <= k < |rolledOver| ==> rolledOver[k].key != invalid
        invariant Stored(table[..], invalid) + multiset(rolledOver) == Stored(old(table[..]), invalid)
      {
        ghost var was, lifted, e := table[..], rolledOver, table[i];
        rolledOver := rolledOver + [table[i]];
        table[i] := Entry(invalid, table[i].value);
        assert table[..] == was[i := Entry(invalid, e.value)];
        LiftOut(was, invalid, i, Entry(invalid, e.value));
        SumMove(Stored(table[..], invalid), Stored(was, invalid), multiset(lifted), e);
        i := i + 1;
      }
      r := i;
    }

    /** Rehashes slots 0 to oldEnd - 1 one after the other. No entry is put back into a slot still to come. */
    method RehashLower(oldEnd: nat)
      requires Shaped() && oldEnd > 0 && buckets == 2 * oldEnd
      requires forall j :: oldEnd <= j < buckets ==> table[j].key == invalid
      requires forall j :: 0 <= j < oldEnd && table[j].key != invalid ==> Home(hash, table[j].key, oldEnd) <= j
      modifies table
      ensures Rehashed(table[..], invalid, hash, oldEnd, oldEnd)
      ensures Stored(table[..], invalid) == Stored(old(table[..]), invalid)
    {
      hide Settled, RunUpTo, Stored;
      var i := 0;
      while i != oldEnd
        invariant i <= oldEnd
        invariant Rehashed(table[..], invalid, hash, oldEnd, i)
        invariant forall j :: i <= j < oldEnd ==> table[j] == old(table[j])
        invariant Stored(table[..], invalid) == Stored(old(table[..]), invalid)
      {
        ghost var was := table[..];
        if table[i].key != invalid {
          var temp := table[i];
          table[i] := Entry(invalid, table[i].value);
          ghost var hole := table[..];
          assert hole == was[i := hole[i]];
          var p := UncheckedInsert(temp);
          RehashSlot(was, invalid, hash, oldEnd, i, hole[i], p);
          MoveEntry(was, invalid, i, hole[i], p);
        } else {
          SkipSlot(was, invalid, hash, oldEnd, i);
        }
        i := i + 1;
      }
    }

    method Reinsert(rolledOver: seq<Entry<K, V>>)
      requires Shaped() && Probed(table[..], invalid, hash)
      requires forall k :: 0 <= k < |rolledOver| ==> rolledOver[k].key != invalid
      requires |Stored(table[..], invalid)| + |rolledOver| < buckets
      modifies table
      ensures Probed(table[..], invalid, hash)
      ensures Stored(table[..], invalid) == Stored(old(table[..]), invalid) + multiset(rolledOver)
    {
      hide Stored, Probed, RunUpTo;
      for i := 0 to |rolledOver|
        invariant Probed(table[..], invalid, hash)
        invariant Stored(table[..], invalid) == Stored(old(table[..]), invalid) + multiset(rolledOver[..i])
      {
        ghost var was := table[..];
        var e := rolledOver[i];
        RoomLeft(was, invalid);
        var at := UncheckedInsert(e);
        StoreFresh(was, invalid, hash, at, e);
        assert rolledOver[..i + 1] == rolledOver[..i] + [e];
        SumAssoc(Stored(old(table[..]), invalid), multiset(rolledOver[..i]), multiset{e});
      }
      assert rolledOver[..|rolledOver|] == rolledOver;
    }
  }
}
