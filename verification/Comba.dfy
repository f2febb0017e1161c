/**
 Column-wise (Comba) multiplication: the sum of the columns of a product of two bigit sequences,
 each at its weight, is the product of the two numbers.
 */
module Comba {
  import opened Powers
  import opened Bigits

  /** The bigit of b at k, or 0 outside b. */
  function At(b: seq<nat>, k: int): nat
  {
    if 0 <= k < |b| then b[k] else 0
  }

  /** Column k of the product: the sum of a[j] * b[k - j]. */
  ghost function Column(a: seq<nat>, b: seq<nat>, k: int): nat
  {
    if a == [] then 0 else Column(a[..|a| - 1], b, k) + a[|a| - 1] * At(b, k - (|a| - 1))
  }

  /** The first n columns, each at its weight. */
  ghost function Total(a: seq<nat>, b: seq<nat>, n: nat): nat
  {
    if n == 0 then 0 else Total(a, b, n - 1) + Column(a, b, n - 1) * P(n - 1)
  }

  lemma ColumnStep(a: seq<nat>, b: seq<nat>, k: int, j: nat)
    requires j < |a|
    ensures Column(a[..j + 1], b, k) == Column(a[..j], b, k) + a[j] * At(b, k - j)
  {
    assert a[..j + 1][..j] == a[..j];
  }

  lemma ColumnNothing(a: seq<nat>, k: int)
    ensures Column(a[..0], a, k) == 0
  {
  }

  /** Entries of a whose partner lies below b add nothing. */
  lemma {:induction false} ColumnTail(a: seq<nat>, b: seq<nat>, k: int, j: nat)
    requires j <= |a| && k < j
    ensures Column(a, b, k) == Column(a[..j], b, k)
  {
    if j == |a| {
      assert a[..j] == a;
    } else {
      var n := |a| - 1;
      ColumnTail(a[..n], b, k, j);
      assert a[..n][..j] == a[..j];
    }
  }

  /** Entries of a whose partner lies above b add nothing. */
  lemma {:induction false} ColumnHead(a: seq<nat>, b: seq<nat>, k: int)
    requires |b| + |a| <= k + 1
    ensures Column(a, b, k) == 0
  {
    if a != [] { ColumnHead(a[..|a| - 1], b, k); }
  }

  lemma {:induction false} ColumnBound(a: seq<nat>, b: seq<nat>, k: int)
    requires AllBigits(a) && AllBigits(b)
    ensures Column(a, b, k) <= |a| * 0xFF_FFFF_E000_0001
  {
    if a != [] {
      var n := |a| - 1;
      ColumnBound(a[..n], b, k);
      MulMonotone2(a[n], 0xFFF_FFFF, At(b, k - n), 0xFFF_FFFF);
    }
  }

  /** What one entry x at position m of the first factor adds to the first n columns. */
  ghost function Row(x: nat, b: seq<nat>, m: nat, n: nat): nat
  {
    if n == 0 then 0 else Row(x, b, m, n - 1) + x * At(b, n - 1 - m) * P(n - 1)
  }

  lemma {:induction false} TotalSnoc(a: seq<nat>, x: nat, b: seq<nat>, n: nat)
    ensures Total(a + [x], b, n) == Total(a, b, n) + Row(x, b, |a|, n)
  {
    if n > 0 {
      TotalSnoc(a, x, b, n - 1);
      assert (a + [x])[..|a|] == a;
      MulDistrib(P(n - 1), Column(a, b, n - 1), x * At(b, n - 1 - |a|));
    }
  }

  lemma {:induction false} RowValue(x: nat, b: seq<nat>, m: nat, n: nat)
    ensures n <= m ==> Row(x, b, m, n) == 0
    ensures m <= n <= m + |b| ==> Row(x, b, m, n) == x * (P(m) * Val(b[..n - m]))
    ensures n >= m + |b| ==> Row(x, b, m, n) == x * (P(m) * Val(b))
  {
    if n > 0 {
      RowValue(x, b, m, n - 1);
      if m < n <= m + |b| {
        var j := n - 1 - m;
        ValStep(b, j);
        PAdd(m, j);
        MulDistrib(P(m), Val(b[..j]), b[j] * P(j));
        MulDistrib(x, P(m) * Val(b[..j]), P(m) * (b[j] * P(j)));
        MulAssoc(x, b[j], P(m) * P(j));
        MulAssoc(b[j], P(m), P(j));
        MulAssoc(P(m), b[j], P(j));
        if j == |b| - 1 { assert b[..n - m] == b; }
      } else if n == m {
        assert b[..0] == [];
      }
    } else if m == 0 {
      assert b[..0] == [];
    }
    if n == m + |b| { assert b[..n - m] == b; }
  }

  lemma {:induction false} TotalIsProduct(a: seq<nat>, b: seq<nat>, n: nat)
    requires n >= |a| + |b|
    ensures Total(a, b, n) == Val(a) * Val(b)
  {
    if a == [] {
      TotalOfNothing(b, n);
    } else {
      var m := |a| - 1;
      var x := a[m];
      assert a == a[..m] + [x];
      TotalIsProduct(a[..m], b, n);
      TotalSnoc(a[..m], x, b, n);
      RowValue(x, b, m, n);
      MulAssoc(x, P(m), Val(b));
      MulDistrib(Val(b), Val(a[..m]), x * P(m));
    }
  }

  lemma {:induction false} TotalOfNothing(b: seq<nat>, n: nat)
    ensures Total([], b, n) == 0
  {
    if n > 0 { TotalOfNothing(b, n - 1); }
  }
}
