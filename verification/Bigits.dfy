/**
 Little-endian sequences of base-2^28 digits ("bigits") and the natural numbers they stand for.
 */
module Bigits {
  import opened Powers

  /** One more than the largest bigit; a bigit holds 28 bits. */
  const BASE: nat := 0x1000_0000

  /** The weight of the bigit at index n. */
  function P(n: nat): nat
  {
    Pow(0x1000_0000, n)
  }

  predicate AllBigits(s: seq<nat>)
  {
    forall k :: 0 <= k < |s| ==> s[k] < BASE
  }

  /** The number a bigit sequence stands for, least significant bigit first. */
  ghost function Val(s: seq<nat>): nat
  {
    if s == [] then 0 else Val(s[..|s| - 1]) + s[|s| - 1] * P(|s| - 1)
  }

  function Zeros(n: nat): (r: seq<nat>)
    ensures |r| == n && forall k :: 0 <= k < n ==> r[k] == 0
  {
    seq(n, _ => 0)
  }

  lemma PMonotone(a: nat, b: nat)
    requires a <= b
    ensures P(a) <= P(b)
  {
    PowMonotone(0x1000_0000, a, b);
  }

  lemma PFacts(n: nat)
    ensures P(n) > 0
    ensures P(0) == 1 && P(n + 1) == 0x1000_0000 * P(n)
  {
    PowPositive(0x1000_0000, n);
  }

  lemma PAdd(m: nat, n: nat)
    ensures P(m + n) == P(m) * P(n)
  {
    PowAdd(0x1000_0000, m, n);
  }

  lemma {:induction false} ValBound(s: seq<nat>)
    requires AllBigits(s)
    ensures Val(s) < P(|s|)
  {
    if s != [] {
      var n := |s| - 1;
      ValBound(s[..n]);
      PFacts(n);
      MulMonotone(s[n], 0xFFF_FFFF, P(n));
    }
  }

  lemma ValSnoc(s: seq<nat>, x: nat)
    ensures Val(s + [x]) == Val(s) + x * P(|s|)
  {
    assert (s + [x])[..|s|] == s;
  }

  lemma ValStep(s: seq<nat>, i: nat)
    requires i < |s|
    ensures Val(s[..i + 1]) == Val(s[..i]) + s[i] * P(i)
  {
    assert s[..i + 1] == s[..i] + [s[i]];
    ValSnoc(s[..i], s[i]);
  }

  /** Writing the bigit just above a finished prefix. */
  lemma ValWrite(s: seq<nat>, t: seq<nat>, i: nat, x: nat)
    requires i < |s| && t == s[i := x]
    ensures Val(t[..i + 1]) == Val(s[..i]) + x * P(i)
    ensures Val(s[..i + 1]) == Val(s[..i]) + s[i] * P(i)
    ensures t[i + 1..] == s[i + 1..]
  {
    ValStep(t, i);
    ValStep(s, i);
    assert t[..i] == s[..i];
  }

  lemma {:induction false} ValAppend(a: seq<nat>, b: seq<nat>)
    ensures Val(a + b) == Val(a) + P(|a|) * Val(b)
  {
    if b == [] {
      assert a + b == a;
    } else {
      var n := |b| - 1;
      ValAppend(a, b[..n]);
      assert a + b == (a + b[..n]) + [b[n]];
      ValSnoc(a + b[..n], b[n]);
      calc {
        b[n] * P(|a| + n);
        { PAdd(|a|, n); }
        b[n] * (P(|a|) * P(n));
        { MulAssoc(b[n], P(|a|), P(n)); MulAssoc(P(|a|), b[n], P(n)); }
        P(|a|) * (b[n] * P(n));
      }
      MulDistrib(P(|a|), Val(b[..n]), b[n] * P(n));
    }
  }

  lemma ValSplit(s: seq<nat>, i: nat)
    requires i <= |s|
    ensures Val(s) == Val(s[..i]) + P(i) * Val(s[i..])
  {
    assert s == s[..i] + s[i..];
    ValAppend(s[..i], s[i..]);
  }

  lemma {:induction false} ValZero(s: seq<nat>)
    requires forall k :: 0 <= k < |s| ==> s[k] == 0
    ensures Val(s) == 0
  {
    if s != [] { ValZero(s[..|s| - 1]); }
  }

  /** High zeros do not count. */
  lemma ValTrim(s: seq<nat>, i: nat)
    requires i <= |s| && forall k :: i <= k < |s| ==> s[k] == 0
    ensures Val(s) == Val(s[..i])
  {
    ValSplit(s, i);
    ValZero(s[i..]);
  }

  /** Low zeros scale by the base. */
  lemma ValLowZeros(s: seq<nat>, i: nat)
    requires i <= |s| && forall k :: 0 <= k < i ==> s[k] == 0
    ensures Val(s) == P(i) * Val(s[i..])
  {
    ValSplit(s, i);
    ValZero(s[..i]);
  }

  /** A nonzero bigit bounds the value from below. */
  lemma ValAtLeast(s: seq<nat>, i: nat)
    requires i < |s|
    ensures s[i] * P(i) <= Val(s)
    ensures s[i] > 0 ==> P(i) <= Val(s)
  {
    ValStep(s, i);
    PFacts(i);
    var below, above := Val(s[..i + 1]), P(i + 1) * Val(s[i + 1..]);
    assert above >= 0 by { MulNonneg(P(i + 1), Val(s[i + 1..])); }
    assert Val(s) == below + above by { ValSplit(s, i + 1); }
    if s[i] > 0 { MulMonotone(1, s[i], P(i)); }
  }

  /** The highest differing bigit decides. */
  lemma ValCompare(a: seq<nat>, b: seq<nat>, i: nat)
    requires |a| == |b| && i < |a| && AllBigits(a) && AllBigits(b)
    requires a[i + 1..] == b[i + 1..] && a[i] < b[i]
    ensures Val(a) < Val(b)
  {
    ValSplit(a, i + 1);
    ValSplit(b, i + 1);
    ValStep(a, i);
    ValStep(b, i);
    ValBound(a[..i]);
    PFacts(i);
    MulMonotone(a[i] + 1, b[i], P(i));
    MulDistrib(P(i), a[i], 1);
  }

  // ----- one pass over the columns, with a signed carry -----

  /**
   t holds the low `pos` bigits of a + factor * o * BASE^offset, where the first n bigits of o
   have been used, and `carry` is what is still due at `pos`.
   */
  ghost predicate Columns(t: seq<nat>, a: seq<nat>, factor: int, o: seq<nat>, offset: nat, pos: nat, n: nat, carry: int)
  {
    && pos <= |t| == |a|
    && n <= |o|
    && Val(t[..pos]) + carry * P(pos) == Val(a[..pos]) + factor * (P(offset) * Val(o[..n]))
  }

  lemma ColumnsStart(t: seq<nat>, factor: int, o: seq<nat>, offset: nat)
    requires offset <= |t|
    ensures Columns(t, t, factor, o, offset, offset, 0, 0)
  {
    assert o[..0] == [];
  }

  lemma ColumnsStep(t: seq<nat>, t': seq<nat>, a: seq<nat>, factor: int, o: seq<nat>, offset: nat, n: nat,
                    carry: int, bigit: nat, carry': int)
    requires Columns(t, a, factor, o, offset, offset + n, n, carry)
    requires offset + n < |t| && n < |o|
    requires t' == t[offset + n := bigit]
    requires bigit + carry' * 0x1000_0000 == a[offset + n] + factor * o[n] + carry
    ensures Columns(t', a, factor, o, offset, offset + n + 1, n + 1, carry')
  {
    var pos := offset + n;
    var p := P(pos);
    ValWrite(t, t', pos, bigit);
    ValStep(a, pos);
    ValStep(o, n);
    PFacts(pos);
    assert (factor * o[n]) * p == factor * (P(offset) * (o[n] * P(n))) by {
      PAdd(offset, n);
      MulAssoc(factor, o[n], p);
      MulAssoc(o[n], P(offset), P(n));
      MulAssoc(P(offset), o[n], P(n));
    }
    assert bigit * p + carry' * P(pos + 1) == a[pos] * p + (factor * o[n]) * p + carry * p by {
      MulAssoc(carry', 0x1000_0000, p);
      MulDistrib(p, bigit, carry' * 0x1000_0000);
      MulDistrib(p, a[pos] + factor * o[n], carry);
      MulDistrib(p, a[pos], factor * o[n]);
    }
    MulDistrib(P(offset), Val(o[..n]), o[n] * P(n));
    MulDistrib(factor, P(offset) * Val(o[..n]), P(offset) * (o[n] * P(n)));
  }

  /** The same step above the operand's last bigit. */
  lemma ColumnsCarry(t: seq<nat>, t': seq<nat>, a: seq<nat>, factor: int, o: seq<nat>, offset: nat, pos: nat, n: nat,
                     carry: int, bigit: nat, carry': int)
    requires Columns(t, a, factor, o, offset, pos, n, carry)
    requires pos < |t|
    requires t' == t[pos := bigit]
    requires bigit + carry' * 0x1000_0000 == a[pos] + carry
    ensures Columns(t', a, factor, o, offset, pos + 1, n, carry')
  {
    var p := P(pos);
    ValWrite(t, t', pos, bigit);
    ValStep(a, pos);
    PFacts(pos);
    MulAssoc(carry', 0x1000_0000, p);
    MulDistrib(p, bigit, carry' * 0x1000_0000);
    MulDistrib(p, a[pos], carry);
  }

  lemma ColumnsDone(t: seq<nat>, a: seq<nat>, factor: int, o: seq<nat>, offset: nat, pos: nat, n: nat)
    requires Columns(t, a, factor, o, offset, pos, n, 0)
    requires forall k :: pos <= k < |t| ==> t[k] == a[k]
    requires forall k :: n <= k < |o| ==> o[k] == 0
    ensures Val(t) == Val(a) + factor * (P(offset) * Val(o))
  {
    assert t[pos..] == a[pos..];
    ValSplit(t, pos);
    ValSplit(a, pos);
    ValTrim(o, n);
  }
}
