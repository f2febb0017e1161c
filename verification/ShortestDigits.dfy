/**
 What the shortest decimal between two boundaries is, for a value given as a ratio of integers.
 The value is n / d, the boundaries are (n - minus) / d and (n + plus) / d.
 */
module ShortestDigits {
  import opened Powers

  function Distance(a: int, b: int): nat
  {
    if a <= b then b - a else a - b
  }

  /** x / 10^k lies between the boundaries: on them too if `even`, strictly inside otherwise. */
  ghost predicate Inside(x: int, k: nat, n: int, d: int, minus: int, plus: int, even: bool)
  {
    var s := Pow(10, k);
    if even then (n - minus) * s <= x * d <= (n + plus) * s
    else (n - minus) * s < x * d < (n + plus) * s
  }

  /** No decimal with k places lies between the boundaries. */
  ghost predicate NoneInside(k: nat, n: int, d: int, minus: int, plus: int, even: bool)
  {
    forall x: int :: !Inside(x, k, n, d, minus, plus, even)
  }

  /**
   Among the decimals with k places between the boundaries, x is the closest to the value; a tie goes to an even x.
   */
  ghost predicate Nearest(x: int, k: nat, n: int, d: int, minus: int, plus: int, even: bool)
  {
    forall y: int :: Inside(y, k, n, d, minus, plus, even) && y != x ==>
      var s := Pow(10, k);
      && Distance(x * d, n * s) <= Distance(y * d, n * s)
      && (Distance(x * d, n * s) == Distance(y * d, n * s) ==> x % 2 == 0)
  }

  /** x with k places is between the boundaries, fewer places cannot be, and no other choice of k places is closer. */
  ghost predicate IsShortest(x: int, k: nat, n: int, d: int, minus: int, plus: int, even: bool)
  {
    && Inside(x, k, n, d, minus, plus, even)
    && (forall j: nat :: j < k ==> NoneInside(j, n, d, minus, plus, even))
    && Nearest(x, k, n, d, minus, plus, even)
  }

  /** The state right after a digit: x is the value cut to k places and r what is left of it. */
  ghost predicate Cut(x: int, r: int, k: nat, n: int, d: int)
  {
    n * Pow(10, k) == x * d + r && 0 <= r < d
  }

  predicate RoomBelow(r: int, minusK: int, even: bool)
  {
    if even then r <= minusK else r < minusK
  }

  predicate RoomAbove(r: int, plusK: int, d: int, even: bool)
  {
    if even then r + plusK >= d else r + plusK > d
  }

  /** The two tests of the generator decide whether the cut value and its successor are inside. */
  lemma RoomMeansInside(x: int, r: int, k: nat, n: int, d: int, minus: int, plus: int, even: bool)
    requires Cut(x, r, k, n, d) && d > 0 && minus > 0 && plus > 0
    ensures Inside(x, k, n, d, minus, plus, even) <==> RoomBelow(r, minus * Pow(10, k), even)
    ensures Inside(x + 1, k, n, d, minus, plus, even) <==> RoomAbove(r, plus * Pow(10, k), d, even)
  {
    var s := Pow(10, k);
    PowPositive(10, k);
    MulPositive(minus, s);
    MulPositive(plus, s);
    MulDistrib(s, n - minus, minus);
    MulDistrib(s, n, plus);
    MulDistrib(d, x, 1);
  }

  /** Below the cut value everything is farther out, above its successor too. */
  lemma Outside(x: int, r: int, k: nat, n: int, d: int, minus: int, plus: int, even: bool, y: int)
    requires Cut(x, r, k, n, d) && d > 0 && minus > 0 && plus > 0
    requires Inside(y, k, n, d, minus, plus, even)
    ensures y <= x ==> Inside(x, k, n, d, minus, plus, even)
    ensures y > x ==> Inside(x + 1, k, n, d, minus, plus, even)
  {
    var s := Pow(10, k);
    PowPositive(10, k);
    MulPositive(minus, s);
    MulPositive(plus, s);
    MulDistrib(s, n - minus, minus);
    MulDistrib(s, n, plus);
    MulDistrib(d, x, 1);
    if y <= x { MulMonotone(y, x, d); } else { MulMonotone(x + 1, y, d); }
  }

  lemma NoRoomMeansNone(x: int, r: int, k: nat, n: int, d: int, minus: int, plus: int, even: bool)
    requires Cut(x, r, k, n, d) && d > 0 && minus > 0 && plus > 0
    requires !RoomBelow(r, minus * Pow(10, k), even) && !RoomAbove(r, plus * Pow(10, k), d, even)
    ensures NoneInside(k, n, d, minus, plus, even)
  {
    forall y: int ensures !Inside(y, k, n, d, minus, plus, even) {
      RoomMeansInside(x, r, k, n, d, minus, plus, even);
      if Inside(y, k, n, d, minus, plus, even) {
        Outside(x, r, k, n, d, minus, plus, even, y);
      }
    }
  }

  /** How the generator rounds once it may stop. */
  function Rounded(x: int, r: int, d: int, below: bool, above: bool): int
  {
    if below && above then
      if 2 * r < d then x else if 2 * r > d then x + 1 else if x % 2 == 0 then x else x + 1
    else if below then x
    else x + 1
  }

  lemma RoundedIsInside(x: int, r: int, k: nat, n: int, d: int, minus: int, plus: int, even: bool, below: bool,
                        above: bool)
    requires Cut(x, r, k, n, d) && d > 0 && minus > 0 && plus > 0
    requires below == RoomBelow(r, minus * Pow(10, k), even) && above == RoomAbove(r, plus * Pow(10, k), d, even)
    requires below || above
    ensures Inside(Rounded(x, r, d, below, above), k, n, d, minus, plus, even)
  {
    RoomMeansInside(x, r, k, n, d, minus, plus, even);
  }

  lemma RoundedIsNearest(x: int, r: int, k: nat, n: int, d: int, minus: int, plus: int, even: bool, below: bool,
                         above: bool)
    requires Cut(x, r, k, n, d) && d > 0 && minus > 0 && plus > 0
    requires below == RoomBelow(r, minus * Pow(10, k), even) && above == RoomAbove(r, plus * Pow(10, k), d, even)
    requires below || above
    ensures Nearest(Rounded(x, r, d, below, above), k, n, d, minus, plus, even)
  {
    hide Inside, RoomBelow, RoomAbove, Distance, Cut;
    var z := Rounded(x, r, d, below, above);
    var v := n * Pow(10, k);
    RoomMeansInside(x, r, k, n, d, minus, plus, even);
    forall y: int | Inside(y, k, n, d, minus, plus, even) && y != z
      ensures Distance(z * d, v) <= Distance(y * d, v)
      ensures Distance(z * d, v) == Distance(y * d, v) ==> z % 2 == 0
    {
      Outside(x, r, k, n, d, minus, plus, even, y);
      CutDistances(x, r, k, n, d, y);
    }
  }

  lemma CutDistances(x: int, r: int, k: nat, n: int, d: int, y: int)
    requires Cut(x, r, k, n, d)
    ensures var v := n * Pow(10, k);
            && 0 <= r < d
            && Distance(x * d, v) == r && Distance((x + 1) * d, v) == d - r
            && (y < x ==> Distance(y * d, v) >= r + d)
            && (y > x + 1 ==> Distance(y * d, v) >= 2 * d - r)
  {
    Distances(x, r, d, n * Pow(10, k), y);
  }

  /** How far the candidates are from the value. */
  lemma Distances(x: int, r: int, d: int, v: int, y: int)
    requires v == x * d + r && 0 <= r < d
    ensures Distance(x * d, v) == r && Distance((x + 1) * d, v) == d - r
    ensures y < x ==> Distance(y * d, v) >= r + d
    ensures y > x + 1 ==> Distance(y * d, v) >= 2 * d - r
  {
    MulDistrib(d, x, 1);
    if y < x { MulMonotone(y + 1, x, d); MulDistrib(d, y, 1); }
    if y > x + 1 { MulMonotone(x + 2, y, d); MulDistrib(d, x, 2); }
  }

  /** The generator cannot be in a state that rounds a 9 up. */
  lemma NineStays(previousR: int, r: int, d: int, plusK: int, even: bool)
    requires d > 0
    requires previousR == 9 * d + r
    requires if even then previousR + plusK < 10 * d else previousR + plusK <= 10 * d
    ensures !RoomAbove(r, plusK, d, even)
  {
  }
}
