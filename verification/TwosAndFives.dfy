/**
 When an odd number times a power of two is a power of ten: the twos must agree, and the odd part is a power of five.
 Numerator and denominator of such a number differ unless it is one.
 */
module TwosAndFives {
  import opened Powers
  import opened BignumDtoa

  lemma {:induction false} PowersOfTwoBy5(k: nat)
    ensures Pow(2, k) % 5 != 0
  {
    if k > 0 { PowersOfTwoBy5(k - 1); }
  }

  lemma EvenFactor(x: int, y: int)
    ensures (2 * x) * y % 2 == 0
  {
    MulAssoc(2, x, y);
  }

  lemma FiveFactor(x: int, y: int)
    ensures x * (5 * y) % 5 == 0
  {
    MulAssoc(5, y, x);
    MulAssoc(x, 5 * y, 1);
    MulAssoc(5, y * x, 1);
  }

  lemma TenHasFactor(k: nat)
    requires k > 0
    ensures Pow(10, k) == 5 * (2 * Pow(10, k - 1))
  {
  }

  lemma LeftIsFives(f: nat, a: nat, b: nat)
    requires b > 0
    ensures Scaled(f, a, b) == (f * Pow(2, a)) * (5 * (2 * Pow(10, b - 1)))
  {
    TenHasFactor(b);
    hide Pow;
    MulAssoc(f, Pow(2, a), Pow(10, b));
  }

  lemma RightIsTwos(c: nat, p: int)
    requires p <= 0
    ensures Scaled(1, c, Up(p)) == Pow(2, c)
  {
    assert Pow(10, 0) == 1;
  }

  lemma PlainTwos(f: nat, a: nat)
    ensures Scaled(f, a, 0) == f * Pow(2, a)
  {
    assert Pow(10, 0) == 1;
  }

  lemma TwosAndFives(c: nat, p: nat)
    ensures Scaled(1, c, p) == Pow(2, c + p) * Pow(5, p)
  {
    hide Pow;
    PowMulBase(2, 5, p);
    PowAdd(2, c, p);
    MulAssoc(Pow(2, c), Pow(2, p), Pow(5, p));
  }

  lemma OddAgainstEven(f: nat, c: nat, p: nat)
    requires f % 2 == 1 && c > 0
    ensures Scaled(f, 0, 0) != Scaled(1, c, p)
  {
    PlainTwos(f, 0);
    TwosAndFives(c, p);
    assert Pow(2, 0) == 1 && Pow(2, c + p) == 2 * Pow(2, c + p - 1);
    hide Pow;
    EvenFactor(Pow(2, c + p - 1), Pow(5, p));
  }

  lemma OddAgainstPower(f: nat, e: nat, p: nat)
    requires f % 2 == 1 && e < p
    ensures Scaled(f, e, 0) != Scaled(1, 0, p)
  {
    PlainTwos(f, e);
    TwosAndFives(0, p);
    PowAdd(2, e, p - e);
    PowPositive(2, e);
    assert Pow(2, p - e) == 2 * Pow(2, p - e - 1);
    hide Pow, Scaled;
    EvenFactor(Pow(2, p - e - 1), Pow(5, p));
    CommonTwos(f, Pow(2, e), Pow(2, p - e), Pow(5, p));
  }

  lemma CommonTwos(f: int, t: int, u: int, w: int)
    requires t > 0
    ensures f * t == (t * u) * w <==> f == u * w
  {
    MulAssoc(t, u, w);
    MulAssoc(u * w, t, 1);
    if f < u * w { MulStrict(f, u * w, t); }
    if f > u * w { MulStrict(u * w, f, t); }
  }

  lemma EvenAgainstFive(f: nat, e: nat, p: nat)
    requires e > p
    ensures Scaled(f, e, 0) != Scaled(1, 0, p)
  {
    PlainTwos(f, e);
    TwosAndFives(0, p);
    PowAdd(2, p, e - p);
    PowPositive(2, p);
    PowersOfFiveAreOdd(p);
    assert Pow(2, e - p) == 2 * Pow(2, e - p - 1);
    hide Pow, Scaled;
    var t, u, w := Pow(2, p), Pow(2, e - p), Pow(5, p);
    EvenFactor(Pow(2, e - p - 1), f);
    MulAssoc(f, t, u);
    MulAssoc(f, u, t);
    MulAssoc(t, u, 1);
    MulAssoc(f, u, 1);
    MulAssoc(t, w, 1);
    if f * u < w { MulStrict(f * u, w, t); }
    if f * u > w { MulStrict(w, f * u, t); }
  }

  lemma SameTwos(f: nat, e: nat)
    ensures Scaled(f, e, 0) == Scaled(1, 0, e) <==> f == Pow(5, e)
  {
    PlainTwos(f, e);
    TwosAndFives(0, e);
    PowPositive(2, e);
    hide Pow, Scaled;
    CommonTwos(f, Pow(2, e), 1, Pow(5, e));
  }

  /** In integers: g * 2^a is 10^p only if p is not negative, a is p, and g is a power of five. */
  lemma OddIsPowerOfFive(g: nat, a: int, p: int)
    requires g % 2 == 1
    ensures Scaled(g, Up(a), Up(-p)) == Scaled(1, Up(-a), Up(p)) <==> p >= 0 && a == p && g == Pow(5, p)
  {
    if p < 0 {
      PowersOfTwoBy5(Up(-a));
      TenHasFactor(-p);
      FiveFactor(g * Pow(2, Up(a)), 2 * Pow(10, -p - 1));
      LeftIsFives(g, Up(a), -p);
      RightIsTwos(Up(-a), p);
    } else if a < 0 {
      OddAgainstEven(g, -a, p);
    } else if a < p {
      OddAgainstPower(g, a, p);
    } else if a > p {
      EvenAgainstFive(g, a, p);
    } else {
      SameTwos(g, a);
    }
  }

  /** Powers of five leave a remainder of one when divided by four. */
  lemma {:induction false} FivesModFour(p: nat)
    ensures Pow(5, p) % 4 == 1
  {
    if p > 0 {
      FivesModFour(p - 1);
      FiveTimes(Pow(5, p - 1));
    }
  }

  lemma FiveTimes(x: nat)
    requires x % 4 == 1
    ensures 5 * x % 4 == 1
  {
  }
}
