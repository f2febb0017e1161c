/**
 The probing table that owns its memory and doubles it as it fills, as a finite map.
 */
module AutoProbings {
  import opened Powers
  import opened Bits
  import opened ProbingMod
  import opened ProbingTable
  import opened ProbingHashTables

  /** The table stores each binding of the map once and nothing else. */
  ghost predicate Represents<K(!new), V(!new)>(stored: multiset<Entry<K, V>>, contents: map<K, V>)
  {
    forall e :: stored[e] == if e.key in contents && contents[e.key] == e.value then 1 else 0
  }

  lemma {:induction false} SameSize<K(!new), V(!new)>(stored: multiset<Entry<K, V>>, contents: map<K, V>)
    requires Represents(stored, contents)
    ensures |stored| == |contents|
    decreases |contents|
  {
    if contents == map[] {
      assert stored == multiset{};
    } else {
      var k :| k in contents;
      var e, rest := Entry(k, contents[k]), contents - {k};
      assert contents == rest[k := contents[k]];
      assert |rest| == |contents| - 1;
      assert stored[e] == 1;
      SameSize(stored - multiset{e}, rest);
    }
  }

  /** A key is bound in the map exactly when some slot carries it. */
  lemma BoundMeansStored<K(!new), V(!new)>(t: seq<Entry<K, V>>, invalid: K, contents: map<K, V>, key: K)
    requires Represents(Stored(t, invalid), contents) && key != invalid
    ensures HasKey(t, key) <==> key in contents
    ensures forall i :: 0 <= i < |t| && t[i].key == key ==> key in contents && contents[key] == t[i].value
  {
    forall i | 0 <= i < |t| && t[i].key == key
      ensures key in contents && contents[key] == t[i].value
    {
      StoredHas(t, invalid, t[i]);
    }
    if key in contents {
      var e := Entry(key, contents[key]);
      StoredHas(t, invalid, e);
      assert e in t;
    }
  }

  /** Some stored entry has the key. */
  ghost predicate Carries<K(!new), V(!new)>(stored: multiset<Entry<K, V>>, key: K)
  {
    exists e :: e in stored && e.key == key
  }

  lemma SlotsCarry<K(!new), V(!new)>(t: seq<Entry<K, V>>, invalid: K, key: K)
    requires key != invalid
    ensures HasKey(t, key) <==> Carries(Stored(t, invalid), key)
  {
    if HasKey(t, key) {
      var i :| 0 <= i < |t| && t[i].key == key;
      StoredHas(t, invalid, t[i]);
    }
    if Carries(Stored(t, invalid), key) {
      var e :| e in Stored(t, invalid) && e.key == key;
      StoredHas(t, invalid, e);
    }
  }

  lemma NothingBound<K(!new), V(!new)>()
    ensures Represents<K, V>(multiset{}, map[])
  {
  }

  lemma BindFresh<K(!new), V(!new)>(stored: multiset<Entry<K, V>>, contents: map<K, V>, e: Entry<K, V>)
    requires Represents(stored, contents) && e.key !in contents
    ensures Represents(stored + multiset{e}, contents[e.key := e.value])
  {
  }

  /** The entry count that triggers doubling: nine tenths of the buckets as a double, at most all but one. */
  function Threshold(buckets: nat): (t: nat)
    requires buckets > 0
  {
    var portion := buckets * 8106479329266893 / 9007199254740992;
    Min(buckets - 1, portion)
  }

  /** The largest count that leaves a bucket empty and is at most that fraction of the buckets. */
  lemma ThresholdIsLargest(buckets: nat, count: nat)
    requires buckets > 0
    ensures count <= Threshold(buckets) <==>
      count <= buckets - 1 && 9007199254740992 * count <= 8106479329266893 * buckets
  {
  }

  /** Doubling raises the threshold by at least one. */
  lemma ThresholdGrows(buckets: nat)
    requires buckets > 0
    ensures Threshold(buckets) < buckets && Threshold(buckets) + 1 <= Threshold(2 * buckets)
  {
  }

  /** Moves memory to a larger block. Zero bytes read as an entry whose key is invalid. */
  method HugeRealloc<K(0, !new), V(0)>(to: nat, zeroNew: bool, mem: array<Entry<K, V>>, invalid: K)
    returns (moved: array<Entry<K, V>>)
    requires mem.Length <= to
    ensures fresh(moved) && moved.Length == to && moved[..mem.Length] == mem[..]
    ensures zeroNew ==> forall i :: mem.Length <= i < to ==> moved[i].key == invalid
  {
    moved := new Entry<K, V>[to];
    for i := 0 to mem.Length
      invariant moved[..i] == mem[..i]
    {
      moved[i] := mem[i];
    }
    if zeroNew {
      var blank: V := *;
      for i := mem.Length to to
        invariant moved[..mem.Length] == mem[..]
        invariant forall j :: mem.Length <= j < i ==> moved[j].key == invalid
      {
        moved[i] := Entry(invalid, blank);
      }
    }
  }

  class AutoProbing<K(==, 0, !new), V(0, !new)> {
    var memory: nat
    const backend: ProbingHashTable<K, V>
    var threshold: nat
    const keyIsRawZero: bool
    ghost var contents: map<K, V>

    /** The table is in order and its memory, modulus and threshold agree. */
    ghost predicate Ready()
      reads this, backend, backend.table
    {
      && backend.Valid() && backend.mod.Power2Mod?
      && threshold == Threshold(backend.buckets) && memory == backend.buckets
    }

    /** The count is right and under the threshold. A key may have been inserted more than once. */
    ghost predicate Sound()
      reads this, backend, backend.table
    {
      Ready() && backend.entries == |backend.Contents()| && backend.entries <= threshold
    }

    /** The table holds exactly the bindings of contents. */
    ghost predicate Valid()
      reads this, backend, backend.table
    {
      && Sound() && Represents(backend.Contents(), contents)
      && backend.entries == |contents| && backend.invalid !in contents
    }

    /** Here scaled is the initial size times 1.2, computed in single precision. */
    constructor (initialSize: nat, scaled: nat, invalid: K, hash: K -> nat, keyIsRawZero: bool)
      requires initialSize + 1 <= WORD / 2 && scaled <= WORD / 2
      ensures Valid() && contents == map[] && fresh(backend) && fresh(backend.table)
      ensures backend.invalid == invalid && backend.hash == hash && IsPowerOfTwo(backend.buckets)
      ensures Max(initialSize + 1, scaled) <= backend.buckets < 2 * Max(initialSize + 1, scaled)
    {
      hide Stored, Probed, Represents, IsPowerOfTwo, Threshold, And;
      NothingBound<K, V>();
      var want := if initialSize + 1 < scaled then scaled else initialSize + 1;
      var size := RoundBuckets(want);
      MakePower2Accepts(size);
      var none := new Entry<K, V>[0];
      var mem := HugeRealloc(size, keyIsRawZero, none, invalid);
      var table := new ProbingHashTable(mem, invalid, hash, MakePower2(size).value);
      memory, backend, this.keyIsRawZero := size, table, keyIsRawZero;
      threshold := Threshold(size);
      contents := map[];
      new;
      ThresholdGrows(size);
      if !keyIsRawZero { backend.Clear(); }
    }

    /** A table with room is left alone; one at its threshold doubles, once. */
    method DoubleIfNeeded()
      requires Ready() && backend.entries <= threshold + 1
      modifies this, backend, backend.table
      ensures Ready() && backend.entries == old(backend.entries) && contents == old(contents)
      ensures backend.Contents() == old(backend.Contents())
      ensures backend.entries <= threshold
      ensures old(backend.entries <= threshold) ==> backend.entries < threshold
      ensures backend.table == old(backend.table) || fresh(backend.table)
      ensures old(backend.entries < threshold) ==>
        && backend.table == old(backend.table) && backend.table[..] == old(backend.table[..])
        && backend.buckets == old(backend.buckets) && threshold == old(threshold)
      ensures old(backend.entries >= threshold) ==> backend.buckets == 2 * old(backend.buckets)
    {
      hide Stored, Probed, Represents, IsPowerOfTwo, Threshold;
      if backend.entries < threshold { return; }
      ThresholdGrows(backend.buckets);
      var mem := HugeRealloc(backend.buckets * 2, keyIsRawZero, backend.table, backend.invalid);
      memory := backend.buckets * 2;
      backend.Double(mem, !keyIsRawZero);
      threshold := Threshold(backend.buckets);
    }

    /**
     Stores the entry once more, whatever is there; the count goes up before the table makes room. A key that was not
     bound is bound afterwards.
     */
    method Insert(t: Entry<K, V>) returns (at: nat)
      requires Sound() && t.key != backend.invalid
      modifies this, backend, backend.table
      ensures Sound() && backend.Contents() == old(backend.Contents()) + multiset{t}
      ensures at < backend.buckets && backend.table[at] == t
      ensures old(Valid()) && t.key !in old(contents) ==> Valid() && contents == old(contents)[t.key := t.value]
      ensures backend.table == old(backend.table) || fresh(backend.table)
      ensures old(backend.entries + 1 < threshold) ==>
        && backend.table == old(backend.table) && backend.buckets == old(backend.buckets)
        && backend.table[..] == old(backend.table[..])[at := t]
      ensures old(backend.entries + 1 >= threshold) ==> backend.buckets == 2 * old(backend.buckets)
    {
      hide Stored, Probed, Represents, IsPowerOfTwo, Threshold;
      ghost var valid := Valid();
      backend.entries := backend.entries + 1;
      DoubleIfNeeded();
      ghost var was := backend.table[..];
      RoomLeft(was, backend.invalid);
      at := backend.UncheckedInsert(t);
      StoreFresh(was, backend.invalid, backend.hash, at, t);
      if valid && t.key !in contents {
        BindFresh(Stored(was, backend.invalid), contents, t);
        contents := contents[t.key := t.value];
        SameSize(backend.Contents(), contents);
      }
      ThresholdGrows(backend.buckets);
    }

    /** Finds a stored key or stores the entry. The size exception of the table below cannot occur. */
    method FindOrInsert(t: Entry<K, V>) returns (found: bool, at: nat)
      requires Sound() && t.key != backend.invalid
      modifies this, backend, backend.table
      ensures Sound() && backend.Contents() == old(backend.Contents()) + if found then multiset{} else multiset{t}
      ensures found <==> Carries(old(backend.Contents()), t.key)
      ensures at < backend.buckets && backend.table[at].key == t.key && (!found ==> backend.table[at] == t)
      ensures old(Valid()) ==>
        && Valid()
        && (found <==> t.key in old(contents))
        && contents == (if found then old(contents) else old(contents)[t.key := t.value])
        && backend.table[at] == Entry(t.key, contents[t.key])
      ensures backend.table == old(backend.table) || fresh(backend.table)
      ensures old(backend.entries < threshold) ==>
        && backend.table == old(backend.table) && backend.buckets == old(backend.buckets)
        && backend.table[..] == (if found then old(backend.table[..]) else old(backend.table[..])[at := t])
      ensures old(backend.entries >= threshold) ==> backend.buckets == 2 * old(backend.buckets)
    {
      hide Stored, Probed, Represents, IsPowerOfTwo, Threshold;
      ghost var valid := Valid();
      DoubleIfNeeded();
      ghost var was := backend.table[..];
      SlotsCarry(was, backend.invalid, t.key);
      if valid { BoundMeansStored(was, backend.invalid, contents, t.key); }
      ThresholdGrows(backend.buckets);
      var thrown;
      found, thrown, at := backend.FindOrInsert(t);
      assert !thrown;
      if !found && valid {
        BindFresh(Stored(was, backend.invalid), contents, t);
        contents := contents[t.key := t.value];
        SameSize(backend.Contents(), contents);
      }
    }

    /** Finds exactly the keys that are stored, one of its entries if there are several. */
    method Find(key: K) returns (found: bool, out: nat)
      requires Sound() && key != backend.invalid
      ensures found <==> Carries(backend.Contents(), key)
      ensures found ==> out < backend.buckets && backend.table[out].key == key
      ensures Valid() ==> (found <==> key in contents)
      ensures Valid() && found ==> backend.table[out] == Entry(key, contents[key])
    {
      SlotsCarry(backend.table[..], backend.invalid, key);
      if Valid() { BoundMeansStored(backend.table[..], backend.invalid, contents, key); }
      found, out := backend.Find(key);
    }

    method Size() returns (n: nat)
      requires Sound()
      ensures n == |backend.Contents()|
      ensures Valid() ==> n == |contents|
    {
      n := backend.entries;
    }

    method Clear()
      requires Sound()
      modifies this, backend, backend.table
      ensures Valid() && contents == map[] && backend.table == old(backend.table)
      ensures backend.buckets == old(backend.buckets) && threshold == old(threshold)
    {
      NothingBound<K, V>();
      backend.Clear();
      contents := map[];
    }
  }
}
