/**
 Linear probing seen on values: what a table holds, and what makes lookups in it succeed.
 A slot whose entry carries the invalid key is empty.
 */
module ProbingTable {
  import opened Powers

  datatype Entry<K, V> = Entry(key: K, value: V)

  /** What one slot contributes to the contents. */
  ghost function Real<K(!new), V>(e: Entry<K, V>, invalid: K): multiset<Entry<K, V>>
  {
    if e.key == invalid then multiset{} else multiset{e}
  }

  /** Everything stored in the table, with multiplicity. */
  ghost function Stored<K(!new), V>(t: seq<Entry<K, V>>, invalid: K): multiset<Entry<K, V>>
  {
    if t == [] then multiset{} else Stored(t[..|t| - 1], invalid) + Real(t[|t| - 1], invalid)
  }

  ghost predicate HasEmpty<K(!new), V>(t: seq<Entry<K, V>>, invalid: K)
  {
    exists i :: 0 <= i < |t| && t[i].key == invalid
  }

  ghost predicate HasKey<K(!new), V>(t: seq<Entry<K, V>>, key: K)
  {
    exists i :: 0 <= i < |t| && t[i].key == key
  }

  /** Is slot i met before slot j by a probe that starts at slot a and wraps at the end? */
  predicate Before(a: int, i: int, j: int)
  {
    if a <= j then a <= i < j else a <= i || i < j
  }

  /** Slots from a up to j, in probing order, are all in use. */
  ghost predicate RunUpTo<K(!new), V>(t: seq<Entry<K, V>>, invalid: K, a: int, j: int)
  {
    forall i :: 0 <= i < |t| && Before(a, i, j) ==> t[i].key != invalid
  }

  function Home<K(!new)>(hash: K -> nat, key: K, n: nat): (h: nat)
    requires n > 0
    ensures h < n
  {
    hash(key) % n
  }

  /** The linear probing invariant: no empty slot between an entry's first choice and its slot. */
  ghost predicate Probed<K(!new), V>(t: seq<Entry<K, V>>, invalid: K, hash: K -> nat)
  {
    forall j :: 0 <= j < |t| && t[j].key != invalid ==> RunUpTo(t, invalid, Home(hash, t[j].key, |t|), j)
  }

  lemma SumAssoc<T>(a: multiset<T>, b: multiset<T>, c: multiset<T>)
    ensures (a + b) + c == a + (b + c)
  {
  }

  lemma StoredSnoc<K(!new), V>(t: seq<Entry<K, V>>, e: Entry<K, V>, invalid: K)
    ensures Stored(t + [e], invalid) == Stored(t, invalid) + Real(e, invalid)
  {
    var u := t + [e];
    assert u[..|u| - 1] == t && u[|u| - 1] == e;
  }

  lemma SumMove<T>(a: multiset<T>, b: multiset<T>, m: multiset<T>, x: T)
    requires a + multiset{x} == b
    ensures a + (m + multiset{x}) == b + m
  {
  }

  lemma {:induction false} StoredAppend<K(!new), V>(s: seq<Entry<K, V>>, t: seq<Entry<K, V>>, invalid: K)
    ensures Stored(s + t, invalid) == Stored(s, invalid) + Stored(t, invalid)
  {
    if t == [] {
      assert s + t == s;
    } else {
      var f, e := t[..|t| - 1], t[|t| - 1];
      assert t == f + [e] && s + t == (s + f) + [e];
      StoredAppend(s, f, invalid);
      hide Stored, Real;
      StoredSnoc(s + f, e, invalid);
      StoredSnoc(f, e, invalid);
      SumAssoc(Stored(s, invalid), Stored(f, invalid), Real(e, invalid));
    }
  }

  lemma StoredOne<K(!new), V>(e: Entry<K, V>, invalid: K)
    ensures Stored([e], invalid) == Real(e, invalid)
  {
    assert [e][..0] == [];
    assert Stored([e][..0], invalid) == multiset{};
  }

  lemma StoredUpdate<K(!new), V>(t: seq<Entry<K, V>>, invalid: K, i: nat, e: Entry<K, V>)
    requires i < |t|
    ensures Stored(t[i := e], invalid) + Real(t[i], invalid) == Stored(t, invalid) + Real(e, invalid)
  {
    assert t == t[..i] + ([t[i]] + t[i + 1..]);
    assert t[i := e] == t[..i] + ([e] + t[i + 1..]);
    StoredAppend(t[..i], [t[i]] + t[i + 1..], invalid);
    StoredAppend(t[..i], [e] + t[i + 1..], invalid);
    StoredAppend([t[i]], t[i + 1..], invalid);
    StoredAppend([e], t[i + 1..], invalid);
    StoredOne(t[i], invalid);
    StoredOne(e, invalid);
  }

  lemma {:induction false} StoredNothing<K(!new), V>(t: seq<Entry<K, V>>, invalid: K)
    requires forall i :: 0 <= i < |t| ==> t[i].key == invalid
    ensures Stored(t, invalid) == multiset{}
  {
    if t != [] { StoredNothing(t[..|t| - 1], invalid); }
  }

  lemma {:induction false} StoredHas<K(!new), V>(t: seq<Entry<K, V>>, invalid: K, e: Entry<K, V>)
    ensures e in Stored(t, invalid) <==> e.key != invalid && e in t
  {
    if t != [] {
      StoredHas(t[..|t| - 1], invalid, e);
      assert t == t[..|t| - 1] + [t[|t| - 1]];
    }
  }

  /** A table has an empty slot exactly when it stores fewer entries than it has slots. */
  lemma {:induction false} RoomLeft<K(!new), V>(t: seq<Entry<K, V>>, invalid: K)
    ensures |Stored(t, invalid)| <= |t|
    ensures |Stored(t, invalid)| < |t| <==> HasEmpty(t, invalid)
  {
    if t != [] {
      var s := t[..|t| - 1];
      RoomLeft(s, invalid);
      if HasEmpty(s, invalid) {
        var i :| 0 <= i < |s| && s[i].key == invalid;
        assert t[i].key == invalid;
      }
      if t[|t| - 1].key != invalid && HasEmpty(t, invalid) {
        var i :| 0 <= i < |t| && t[i].key == invalid;
        assert s[i].key == invalid;
      }
    }
  }

  /** Taking the first free slot on an entry's probe keeps every other entry reachable too. */
  lemma InsertKeepsProbed<K(!new), V>(t: seq<Entry<K, V>>, invalid: K, hash: K -> nat, p: nat, e: Entry<K, V>)
    requires p < |t| && t[p].key == invalid && e.key != invalid
    requires Probed(t, invalid, hash)
    requires RunUpTo(t, invalid, Home(hash, e.key, |t|), p)
    ensures Probed(t[p := e], invalid, hash)
  {
    var u := t[p := e];
    forall j | 0 <= j < |u| && u[j].key != invalid
      ensures RunUpTo(u, invalid, Home(hash, u[j].key, |u|), j)
    {
      assert RunUpTo(t, invalid, Home(hash, u[j].key, |u|), j);
    }
  }

  /** The whole effect of storing an entry in the first free slot on its probe. */
  lemma StoreFresh<K(!new), V>(t: seq<Entry<K, V>>, invalid: K, hash: K -> nat, p: nat, e: Entry<K, V>)
    requires p < |t| && t[p].key == invalid && e.key != invalid
    requires Probed(t, invalid, hash)
    requires RunUpTo(t, invalid, Home(hash, e.key, |t|), p)
    ensures Probed(t[p := e], invalid, hash)
    ensures Stored(t[p := e], invalid) == Stored(t, invalid) + multiset{e}
    ensures |Stored(t[p := e], invalid)| == |Stored(t, invalid)| + 1
  {
    InsertKeepsProbed(t, invalid, hash, p, e);
    StoredUpdate(t, invalid, p, e);
    hide Stored;
    assert Real(t[p], invalid) == multiset{} && Real(e, invalid) == multiset{e};
  }

  /** The whole effect of emptying a slot in use. */
  lemma LiftOut<K(!new), V>(t: seq<Entry<K, V>>, invalid: K, p: nat, hole: Entry<K, V>)
    requires p < |t| && t[p].key != invalid && hole.key == invalid
    ensures Stored(t[p := hole], invalid) + multiset{t[p]} == Stored(t, invalid)
  {
    StoredUpdate(t, invalid, p, hole);
  }

  /** Emptying a slot and storing its entry in another empty one. */
  lemma MoveEntry<K(!new), V>(t: seq<Entry<K, V>>, invalid: K, i: nat, hole: Entry<K, V>, p: nat)
    requires i < |t| && p < |t| && t[i].key != invalid && hole.key == invalid
    requires t[i := hole][p].key == invalid
    ensures Stored(t[i := hole][p := t[i]], invalid) == Stored(t, invalid)
  {
    LiftOut(t, invalid, i, hole);
    var u := t[i := hole];
    StoredUpdate(u, invalid, p, t[i]);
    hide Stored;
    assert Real(u[p], invalid) == multiset{} && Real(t[i], invalid) == multiset{t[i]};
  }

  lemma RunStart<K(!new), V>(t: seq<Entry<K, V>>, invalid: K, a: nat)
    ensures RunUpTo(t, invalid, a, a) && forall j :: !Before(a, j, a)
  {
  }

  /** From any start, of two slots one comes first. */
  lemma CyclicOrder(a: int, i: int, j: int)
    ensures i == j || Before(a, i, j) || Before(a, j, i)
  {
  }

  /** An empty slot that ends a probe proves the key is not stored anywhere. */
  lemma MissMeansAbsent<K(!new), V>(t: seq<Entry<K, V>>, invalid: K, hash: K -> nat, key: K, p: nat)
    requires p < |t| && t[p].key == invalid && key != invalid
    requires Probed(t, invalid, hash)
    requires forall i :: 0 <= i < |t| && Before(Home(hash, key, |t|), i, p) ==> t[i].key != key
    ensures !HasKey(t, key)
  {
    var h := Home(hash, key, |t|);
    forall j | 0 <= j < |t| ensures t[j].key != key {
      CyclicOrder(h, p, j);
      if t[j].key != invalid {
        assert RunUpTo(t, invalid, Home(hash, t[j].key, |t|), j);
      }
    }
  }

  /** A residue modulo 2n is the residue modulo n, or n more. */
  lemma HomeDoubles<K(!new)>(hash: K -> nat, key: K, n: nat)
    requires n > 0
    ensures Home(hash, key, 2 * n) == Home(hash, key, n) || Home(hash, key, 2 * n) == Home(hash, key, n) + n
  {
    var x := hash(key);
    DivModFacts(x, 2 * n);
    var q, r := x / (2 * n), x % (2 * n);
    MulAssoc(q, 2, n);
    MulAssoc(2, q, n);
    assert x == q * (2 * n) + r;
    if r < n {
      DivModUnique(x, n, 2 * q, r);
    } else {
      MulDistrib(2 * q, 1, n);
      DivModUnique(x, n, 2 * q + 1, r - n);
    }
  }

  /** Growing a table by empty slots leaves its contents. */
  lemma GrownTable<K(!new), V>(t: seq<Entry<K, V>>, u: seq<Entry<K, V>>, invalid: K)
    requires |t| <= |u| && u[..|t|] == t
    requires forall j :: |t| <= j < |u| ==> u[j].key == invalid
    ensures Stored(u, invalid) == Stored(t, invalid)
  {
    assert u == t + u[|t|..];
    StoredNothing(u[|t|..], invalid);
    StoredAppend(t, u[|t|..], invalid);
  }

  /**
   Once the first run of full slots is lifted out, up to the empty slot r, no remaining entry sits before its
   first choice.
   */
  lemma NoWrapPast<K(!new), V>(t: seq<Entry<K, V>>, u: seq<Entry<K, V>>, invalid: K, hash: K -> nat, r: nat)
    requires r < |t| <= |u| && t[r].key == invalid
    requires Probed(t, invalid, hash)
    requires forall j :: 0 <= j < r ==> u[j].key == invalid
    requires forall j :: r <= j < |t| ==> u[j] == t[j]
    ensures forall j :: 0 <= j < |t| && u[j].key != invalid ==> Home(hash, u[j].key, |t|) <= j
  {
    forall j | 0 <= j < |t| && u[j].key != invalid
      ensures Home(hash, u[j].key, |t|) <= j
    {
      var h := Home(hash, t[j].key, |t|);
      assert RunUpTo(t, invalid, h, j);
      assert !Before(h, r, j);
    }
  }

  /**
   The state inside doubling, before slot i is rehashed: entries below slot i and in the new half from n on are
   where the doubled table wants them, slots i to n - 1 have not been touched.
   */
  ghost predicate Rehashed<K(!new), V>(t: seq<Entry<K, V>>, invalid: K, hash: K -> nat, n: nat, i: nat)
  {
    && |t| == 2 * n && n > 0
    && (forall j :: 0 <= j < i && j < n && t[j].key != invalid ==> Settled(t, invalid, hash, n, 0, j))
    && (forall j :: n <= j < 2 * n && t[j].key != invalid ==> Settled(t, invalid, hash, n, n, j))
    && (forall j :: n + i <= j < 2 * n ==> t[j].key == invalid)
  }

  ghost predicate Settled<K(!new), V>(t: seq<Entry<K, V>>, invalid: K, hash: K -> nat, n: nat, low: int, j: int)
    requires |t| == 2 * n && n > 0 && 0 <= j < 2 * n
  {
    var h := Home(hash, t[j].key, 2 * n);
    low <= h <= j && RunUpTo(t, invalid, h, j)
  }

  /** Moving the entry of slot i to the first free slot from its new first choice, with slot i free. */
  lemma RehashSlot<K(!new), V>(t: seq<Entry<K, V>>, invalid: K, hash: K -> nat, n: nat, i: nat,
                               hole: Entry<K, V>, p: nat)
    requires i < n && Rehashed(t, invalid, hash, n, i) && t[i].key != invalid
    requires hole.key == invalid && p < 2 * n
    requires Home(hash, t[i].key, n) <= i
    requires t[i := hole][p].key == invalid
    requires RunUpTo(t[i := hole], invalid, Home(hash, t[i].key, 2 * n), p)
    ensures p <= i || n <= p <= n + i
    ensures Rehashed(t[i := hole][p := t[i]], invalid, hash, n, i + 1)
  {
    var e, u := t[i], t[i := hole];
    var h := Home(hash, e.key, 2 * n);
    HomeDoubles(hash, e.key, n);
    assert h <= i || n <= h <= n + i;
    assert u[i].key == invalid && u[n + i].key == invalid;
    assert !Before(h, i, p) && !Before(h, n + i, p);
    var v := u[p := e];
    forall j | 0 <= j < 2 * n && (j <= i || n <= j) && v[j].key != invalid
      ensures Settled(v, invalid, hash, n, if j < n then 0 else n, j)
    {
      var g := Home(hash, v[j].key, 2 * n);
      if j == p {
        assert RunUpTo(v, invalid, g, j);
      } else {
        assert Settled(t, invalid, hash, n, if j < n then 0 else n, j);
        assert RunUpTo(v, invalid, g, j);
      }
    }
  }

  lemma SkipSlot<K(!new), V>(t: seq<Entry<K, V>>, invalid: K, hash: K -> nat, n: nat, i: nat)
    requires i < n && Rehashed(t, invalid, hash, n, i) && t[i].key == invalid
    ensures Rehashed(t, invalid, hash, n, i + 1)
  {
  }

  lemma AllRehashed<K(!new), V>(t: seq<Entry<K, V>>, invalid: K, hash: K -> nat, n: nat)
    requires Rehashed(t, invalid, hash, n, n)
    ensures Probed(t, invalid, hash)
  {
    forall j | 0 <= j < |t| && t[j].key != invalid
      ensures RunUpTo(t, invalid, Home(hash, t[j].key, |t|), j)
    {
      assert Settled(t, invalid, hash, n, if j < n then 0 else n, j);
    }
  }
}
