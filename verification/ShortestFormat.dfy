/**
  The shortest-digit branch of the fallback float formatter, from the bits of a
  number on: its digits read back to the number, are the nearest ones of their
  length, and are the shortest ones but for a boundary that is overlooked.
 */
module ShortestFormat {
  import opened Basics
  import opened Bits
  import opened BigIntegers
  import opened BinaryNumbers
  import opened FixedDigits
  import opened FallbackFormat
  import opened ShortestDigits

  /** What lies between the midpoints to both neighbours; the midpoints belong to it if the significand is even. */
  function Around(v: Fp, closer: bool, exp10: int): Interval
  {
    var c := Pow(2, Shift(closer));
    Interval(c * Over(v, exp10), Unit(v, exp10), (if closer then 2 else 1) * Unit(v, exp10), c * Under(v, exp10),
             v.f % 2 == 0)
  }

  /** The numerator is stored with a larger exponent than the denominator. */
  predicate Above(v: Fp, exp10: int)
  {
    v.e >= 0 && exp10 >= 0 && v.e / 32 > exp10 / 32
  }

  // ---- the set-up ----

  lemma UnitTimes(v: Fp, exp10: int)
    ensures Over(v, exp10) == v.f * Unit(v, exp10) && Unit(v, exp10) > 0
  {
    var a, b := Pow(2, Positive(v.e)), Pow(10, Positive(-exp10));
    MulAssoc(v.f, a, b);
    MulMono(1, a, b);
  }

  lemma AroundIsUsable(v: Fp, closer: bool, exp10: int)
    requires v.f > 0 && BelowTen(v, exp10) && (closer ==> v.f >= 10)
    ensures Usable(Around(v, closer, exp10))
  {
    var c, u := Pow(2, Shift(closer)), Unit(v, exp10);
    UnitTimes(v, exp10);
    MulMono(1, v.f, u);
    ScaleLess(c, Over(v, exp10), Under(v, exp10));
    assert c == (if closer then 4 else 2) by { assert Pow(2, 1) == 2 && Pow(2, 2) == 4; }
    if closer {
      MulMono(10, v.f, u);
    }
  }

  lemma {:induction false} TensBelowTwos(a: nat, b: nat)
    requires Pow(10, a) < Pow(2, b)
    ensures a < b
  {
    if a >= b {
      PowMono(10, b, a);
      TwosBelowTens(b);
    }
  }

  lemma {:induction false} TwosBelowTens(b: nat)
    ensures Pow(2, b) <= Pow(10, b)
  {
    if b > 0 {
      TwosBelowTens(b - 1);
    }
  }

  /** A fraction is not stored with the larger exponent. */
  lemma FractionsAreNotAbove(v: Fp, exp10: int)
    requires v.f > 0 && v.e < 0 && exp10 < 0 && BelowTen(v, exp10)
    ensures -exp10 <= -v.e
  {
    var p := Pow(10, -exp10 - 1);
    assert Over(v, exp10) == v.f * (10 * p);
    assert Under(v, exp10) == Pow(2, -v.e);
    MulMono(1, v.f, 10 * p);
    TensBelowTwos(-exp10 - 1, -v.e);
  }

  lemma AboveByExponents(num: BigInt, den: BigInt, lower: BigInt, v: Fp, exp10: int, shift: nat)
    requires v.f > 0 && BelowTen(v, exp10) && Exponents(num, den, lower, v, exp10, shift)
    ensures lower.exp > den.exp <==> Above(v, exp10)
  {
    if v.e < 0 && exp10 < 0 {
      FractionsAreNotAbove(v, exp10);
    }
  }

  lemma AboveNeverTies(v: Fp, closer: bool, exp10: int)
    requires 0 < v.f < W64 && Above(v, exp10)
    ensures NeverTies(Around(v, closer, exp10).n, Around(v, closer, exp10).w)
  {
    NeverMissed(v, exp10, Shift(closer));
  }

  lemma GoingAtFirst(num: BigInt, den: BigInt, lower: BigInt, upper: BigInt, v: Fp, closer: bool, exp10: int)
    requires 0 < v.f < W64 && (closer ==> v.f >= 10) && BelowTen(v, exp10) && {num, den} !! {lower, upper}
    requires SetFor(num, den, v, exp10, Shift(closer)) && BoundariesFor(lower, upper, v, closer, exp10)
    requires Exponents(num, den, lower, v, exp10, Shift(closer))
    ensures Going(num, den, lower, upper, Around(v, closer, exp10), [])
    ensures lower.exp > den.exp <==> Above(v, exp10)
  {
    AroundIsUsable(v, closer, exp10);
    BelowTenScales(num, den, v, exp10, Shift(closer));
    AboveByExponents(num, den, lower, v, exp10, Shift(closer));
    if Above(v, exp10) {
      AboveNeverTies(v, closer, exp10);
    }
    assert num in {num, den} && den in {num, den} && lower in {lower, upper} && upper in {lower, upper};
  }

  /** The digits of f * 2^e, and the exponent of the last one. */
  method ShortestOf(v: Fp, closer: bool, exp10: int) returns (buf: seq<nat>, newExp10: int)
    requires v.f > 0 && (closer ==> v.f >= 10) && v.f * Pow(2, Shift(closer)) < W64
    requires -0x4000_0000 < exp10 < 0x4000_0000 && BelowTen(v, exp10)
    ensures Result(Around(v, closer, exp10), Above(v, exp10), buf) && newExp10 == exp10 - (|buf| - 1)
  {
    if v.e >= 0 {
      IntegersHaveDigits(v, exp10);
    }
    var num, den, lower, upper := SetUp(v, closer, exp10);
    MulMono(1, Pow(2, Shift(closer)), v.f);
    GoingAtFirst(num, den, lower, upper, v, closer, exp10);
    buf := Shortest(num, den, lower, upper, v.f % 2 == 0, Around(v, closer, exp10));
    newExp10 := exp10 - (|buf| - 1);
  }

  // ---- the nearest digits ----

  lemma {:induction false} FourTwos(j: nat)
    ensures Pow(2, 4 * j) % 5 == 1
  {
    if j > 0 {
      FourTwos(j - 1);
      PowSum(2, 4, 4 * (j - 1));
      SixteenTimes(Pow(2, 4 * (j - 1)));
    }
  }

  lemma SixteenTimes(x: nat)
    ensures Pow(2, 4) * x % 5 == x % 5
  {
    assert Pow(2, 4) == 16;
  }

  /** Four times the least significand, less one, is no multiple of five in either format. */
  lemma LeastSignificand(size: nat)
    requires size % 4 == 0 || size % 4 == 3
    ensures (4 * Pow(2, size) - 1) % 5 != 0
  {
    var j := size / 4;
    FourTwos(j);
    if size % 4 == 3 {
      PowSum(2, 4 * j, 3);
      assert Pow(2, 3) == 8;
    }
  }

  lemma NoFive(a: nat, b: nat)
    requires a % 5 != 0 && b % 5 != 0
    ensures (a * b) % 5 != 0
  {
    var r, t := a % 5, b % 5;
    var m := a / 5 * b + r * (b / 5);
    FiveParts(a / 5, r, b / 5, t);
    SmallProduct(r, t);
    DivModUnique(a * b, 5, m + r * t / 5, r * t % 5);
  }

  lemma SmallProduct(r: nat, t: nat)
    requires 0 < r < 5 && 0 < t < 5
    ensures r * t % 5 != 0
  {
    if r == 1 || r == 2 {
      assert r * t == if r == 1 then t else 2 * t;
    } else {
      assert r * t == if r == 3 then 3 * t else 4 * t;
    }
  }

  lemma FiveParts(q: nat, r: nat, s: nat, t: nat)
    ensures (5 * q + r) * (5 * s + t) == 5 * (q * (5 * s + t) + r * s) + r * t
  {
    var b := 5 * s + t;
    MulDistribute(5 * q, r, b);
    MulAssoc(5, q, b);
    MulOut(5, r, s);
    MulDistribute(5 * s, t, r);
  }

  /** A unit is never exactly a power of ten, up to further tens. */
  lemma UnitIsNoPower(v: Fp, exp10: int, k: nat)
    requires Above(v, exp10)
    ensures Scaled(Unit(v, exp10), k) != Under(v, exp10)
  {
    ScaledIsProduct(Unit(v, exp10), k);
    assert Unit(v, exp10) == Pow(2, v.e) && Under(v, exp10) == Pow(10, exp10);
    if Pow(2, v.e) * Pow(10, k) == Pow(10, exp10) {
      TieIsSmall(1, v.e, k, exp10);
    }
  }

  /** Below a power of two the midpoint is not a multiple of ten. */
  lemma MidpointIsNoMultiple(n: nat, k: nat, x: nat, y: nat)
    requires n % 5 != 0 && k < x
    ensures y * (4 * Pow(10, x)) != n * Pow(10, k)
  {
    var p, q := Pow(10, k), Pow(10, x - k - 1);
    PowSum(10, k, x - k);
    assert Pow(10, x) == p * (10 * q);
    NoMultiple(n, p, q, y);
  }

  lemma NoMultiple(n: nat, p: nat, q: nat, y: nat)
    requires n % 5 != 0 && p > 0
    ensures y * (4 * (p * (10 * q))) != n * p
  {
    var m := 8 * (y * q);
    TensOut(y, p, q);
    if p * (5 * m) == p * n {
      CancelFactor(p, 5 * m, n);
    }
  }

  lemma TensOut(y: nat, p: nat, q: nat)
    ensures y * (4 * (p * (10 * q))) == p * (5 * (8 * (y * q)))
  {
    MulOut(10, p, q);
    MulOut(40, y, p * q);
    MulOut(p, y, q);
    MulOut(40, p, y * q);
  }

  /** Digits are never generated down to the units of a number of more than 32 bits. */
  lemma StopsEarlier(a: nat, k: nat, x: nat)
    requires a >= 40 && k > 0 && x > 0 && a * Pow(10, k - 1) < 4 * Pow(10, x)
    ensures k < x
  {
    if k >= x {
      PowMono(10, x - 1, k - 1);
      MulMono(40, a, Pow(10, k - 1));
    }
  }

  lemma AboveIsLarge(v: Fp, exp10: int)
    requires v.f > 0 && Above(v, exp10) && BelowTen(v, exp10)
    ensures Pow(2, v.e) >= W32 && exp10 > 0
  {
    Pow2Is32();
    PowMono(2, 32, v.e);
    assert Over(v, exp10) == v.f * Pow(2, v.e) && Under(v, exp10) == Pow(10, exp10);
    MulMono(1, v.f, Pow(2, v.e));
  }

  /** The lower end of a power of two is not hit as long as digits are generated. */
  lemma NoWholeLowerEnd(v: Fp, exp10: int, k: nat, y: nat)
    requires v.f > 0 && (4 * v.f - 1) % 5 != 0 && Above(v, exp10) && BelowTen(v, exp10)
    requires k > 0 ==> Scaled(Unit(v, exp10), k - 1) < 4 * Under(v, exp10)
    ensures Prod(y, 4 * Under(v, exp10)) != Scaled(4 * Over(v, exp10), k) - Scaled(Unit(v, exp10), k)
  {
    var a := Pow(2, v.e);
    AboveIsLarge(v, exp10);
    assert Over(v, exp10) == v.f * a && Under(v, exp10) == Pow(10, exp10) && Unit(v, exp10) == a;
    if k > 0 {
      ScaledIsProduct(a, k - 1);
      StopsEarlier(a, k, exp10);
    }
    PowerOfTwoHasNoFive(v.e);
    NoProductBelow(v.f, a, k, exp10, y);
  }

  lemma NoProductBelow(f: nat, a: nat, k: nat, x: nat, y: nat)
    requires f > 0 && (4 * f - 1) % 5 != 0 && a % 5 != 0 && k < x
    ensures Prod(y, 4 * Pow(10, x)) != Scaled(4 * (f * a), k) - Scaled(a, k)
  {
    NoFive(4 * f - 1, a);
    MidpointIsNoMultiple((4 * f - 1) * a, k, x, y);
    ProdIsProduct(y, 4 * Pow(10, x));
    ScaledIsProduct(4 * (f * a), k);
    ScaledIsProduct(a, k);
    LessOne(f, a, Pow(10, k));
  }

  lemma LessOne(f: nat, a: nat, p: nat)
    requires f > 0
    ensures 4 * (f * a) * p - a * p == (4 * f - 1) * a * p
  {
    assert (4 * f - 1) * a == 4 * (f * a) - a;
    MulDistribute(4 * (f * a) - a, a, p);
  }

  /** A number that is closer to its predecessor has the least significand. */
  lemma CloserMeans(kind: Binary, fraction: nat, biased: nat)
    requires kind.Valid() && fraction < Pow(2, kind.Size()) && Assign(kind, fraction, biased).1
    requires kind.Size() >= 4 && (kind.Size() % 4 == 0 || kind.Size() % 4 == 3)
    ensures var f := Assign(kind, fraction, biased).0.f; f >= 10 && (4 * f - 1) % 5 != 0
  {
    LeastSignificand(kind.Size());
    PowMono(2, 4, kind.Size());
    assert Pow(2, 4) == 16;
  }

  /** The choice that could be wrong, at a lower end that is hit, does not come up. */
  lemma EndIsNotHit(v: Fp, closer: bool, exp10: int, k: nat)
    requires v.f > 0 && Above(v, exp10) && BelowTen(v, exp10) && (closer ==> (4 * v.f - 1) % 5 != 0)
    requires k > 0 ==> Scaled(Around(v, closer, exp10).lo, k - 1) < Around(v, closer, exp10).w
    ensures var z := Around(v, closer, exp10);
            var f := Finer(z, k);
            !(WholeLowerEnd(f) && (z.up != z.lo || 2 * f.lo == f.w))
  {
    var z := Around(v, closer, exp10);
    assert Pow(2, 1) == 2 && Pow(2, 2) == 4;
    UnitIsNoPower(v, exp10, k);
    if closer {
      forall y: nat ensures Prod(y, z.w) != Scaled(z.n, k) - Scaled(z.lo, k) {
        NoWholeLowerEnd(v, exp10, k, y);
      }
    }
  }

  /** Of all numbers of that many digits that stand for the number, the digits are the nearest one. */
  lemma NearestAlways(kind: Binary, fraction: nat, biased: nat, exp10: int, buf: seq<nat>)
    requires kind.Valid() && fraction < Pow(2, kind.Size()) && (fraction > 0 || biased > 0)
    requires kind.Size() >= 4 && (kind.Size() % 4 == 0 || kind.Size() % 4 == 3)
    requires var (v, closer) := Assign(kind, fraction, biased);
             BelowTen(v, exp10) && Result(Around(v, closer, exp10), Above(v, exp10), buf)
    ensures var (v, closer) := Assign(kind, fraction, biased);
            Nearest(Finer(Around(v, closer, exp10), |buf| - 1), Decimal(buf))
  {
    var (v, closer) := Assign(kind, fraction, biased);
    if Above(v, exp10) {
      if closer {
        CloserMeans(kind, fraction, biased);
      }
      EndIsNotHit(v, closer, exp10, |buf| - 1);
    }
  }

  // ---- the numbers that the bits stand for ----

  /** The least positive number of a format. */
  function Least(kind: Binary): Fp
    requires kind.Valid()
  {
    Fp(1, Lowest(kind))
  }

  /** Around m, with u and w to the units: down to half the last place, or a quarter of it, and up to half of it. */
  function Midpoints(m: nat, place: nat, u: nat, w: nat, closer: bool, even: bool): Interval
  {
    if closer then Interval(4 * (m * u), place * u, 2 * (place * u), 4 * w, even)
    else Interval(2 * (m * u), place * u, place * u, 2 * w, even)
  }

  /**
    What lies between the midpoints of a number and both its neighbours, from
    the value of its bits.
   */
  function Range(kind: Binary, fraction: nat, biased: nat, exp10: int): Interval
    requires kind.Valid() && fraction < Pow(2, kind.Size())
  {
    var (v, closer) := Assign(kind, fraction, biased);
    Midpoints(Magnitude(kind, fraction, biased), LastPlace(biased), Unit(Least(kind), exp10),
              Under(Least(kind), exp10), closer, v.f % 2 == 0)
  }

  /** The interval that the formatter works with is that one, up to a factor. */
  lemma RangeIs(kind: Binary, fraction: nat, biased: nat, exp10: int) returns (c: nat)
    requires kind.Valid() && fraction < Pow(2, kind.Size())
    ensures var (v, closer) := Assign(kind, fraction, biased);
            c > 0 && Range(kind, fraction, biased, exp10) == Times(c, Around(v, closer, exp10))
  {
    var (v, closer) := Assign(kind, fraction, biased);
    var n := Number(kind, fraction, biased);
    AssignIs(kind, fraction, biased);
    c := SpreadScales(v, n, exp10);
    UnitTimes(n, exp10);
    assert Pow(2, 1) == 2 && Pow(2, 2) == 4;
    MulOut(2, c, Over(v, exp10));
    MulOut(4, c, Over(v, exp10));
    MulOut(2, c, Under(v, exp10));
    MulOut(4, c, Under(v, exp10));
    MulOut(2, c, Unit(v, exp10));
  }

  // ---- reading back ----

  /** One unit of Magnitude, in the units of y * 10^(exp10 - k) * Under. */
  function Grain(kind: Binary, exp10: int, k: nat): nat
    requires kind.Valid()
  {
    Unit(Least(kind), exp10) * Pow(10, k)
  }

  /** How far a number of the format is from y * 10^(exp10 - k). */
  function Away(kind: Binary, exp10: int, k: nat, y: nat, magnitude: nat): nat
    requires kind.Valid()
  {
    Distance(y * Under(Least(kind), exp10), Grain(kind, exp10, k), magnitude)
  }

  /** h lies between the midpoints around m, with a to the unit. */
  ghost predicate Between(m: nat, place: nat, a: nat, h: nat, closer: bool, closed: bool)
  {
    var c, u := if closer then 4 else 2, if closer then 2 else 1;
    if closed then c * (m * a) - place * a <= c * h <= c * (m * a) + u * (place * a)
    else c * (m * a) - place * a < c * h < c * (m * a) + u * (place * a)
  }

  lemma HeldIsBetween(kind: Binary, fraction: nat, biased: nat, exp10: int, k: nat, y: nat)
    requires kind.Valid() && fraction < Pow(2, kind.Size())
    ensures var (v, closer) := Assign(kind, fraction, biased);
            Holds(Finer(Range(kind, fraction, biased, exp10), k), y) <==>
            Between(Magnitude(kind, fraction, biased), LastPlace(biased), Grain(kind, exp10, k),
                    y * Under(Least(kind), exp10), closer, v.f % 2 == 0)
  {
    var closer := Assign(kind, fraction, biased).1;
    var c, z, u := if closer then 4 else 2, Range(kind, fraction, biased, exp10), Unit(Least(kind), exp10);
    ScaledIsProduct(z.n, k);
    ScaledIsProduct(z.lo, k);
    ScaledIsProduct(z.up, k);
    ProdIsProduct(y, z.w);
    HeldProducts(c, Magnitude(kind, fraction, biased), LastPlace(biased), u, Pow(10, k), y, Under(Least(kind), exp10));
  }

  lemma HeldProducts(c: nat, m: nat, place: nat, u: nat, p: nat, y: nat, w: nat)
    ensures c * (m * u) * p == c * (m * (u * p)) && place * u * p == place * (u * p)
    ensures 2 * (place * u) * p == 2 * (place * (u * p)) && y * (c * w) == c * (y * w)
  {
    MulAssoc(c, m * u, p);
    MulAssoc(m, u, p);
    MulAssoc(place, u, p);
    MulAssoc(2, place * u, p);
    MulOut(c, y, w);
  }

  /** Between the midpoints, no other number is nearer, and at a midpoint the significand is even. */
  lemma MidpointsDecide(m: nat, place: nat, a: nat, h: nat, closer: bool, closed: bool, m': nat)
    requires Between(m, place, a, h, closer, closed) && a > 0 && place > 0
    requires m' >= m + place || (if closer then 2 * m' + place <= 2 * m else m' + place <= m)
    ensures Distance(h, a, m) < Distance(h, a, m') || (Distance(h, a, m) == Distance(h, a, m') && closed)
  {
    ProdIsProduct(m, a);
    ProdIsProduct(m', a);
    MulMono(1, place, a);
    OthersScale(m, place, m', closer, a);
    MidpointsOrder(m * a, place * a, h, closer, closed, m' * a);
  }

  /** The same with all products named. */
  lemma MidpointsOrder(x: nat, p: nat, h: nat, closer: bool, closed: bool, x': nat)
    requires p > 0
    requires var c, u := if closer then 4 else 2, if closer then 2 else 1;
             if closed then c * x - p <= c * h <= c * x + u * p else c * x - p < c * h < c * x + u * p
    requires x' >= x + p || (if closer then 2 * x' + p <= 2 * x else x' + p <= x)
    ensures var d, d' := if h < x then x - h else h - x, if h < x' then x' - h else h - x';
            d < d' || (d == d' && closed)
  {
  }

  lemma OthersScale(n: nat, place: nat, m: nat, closer: bool, a: nat)
    requires m >= n + place || (if closer then 2 * m + place <= 2 * n else m + place <= n)
    ensures || m * a >= n * a + place * a
            || (if closer then 2 * (m * a) + place * a <= 2 * (n * a) else m * a + place * a <= n * a)
  {
    if m >= n + place {
      MulMono(n + place, m, a);
      MulDistribute(n, place, a);
    } else if closer {
      MulMono(2 * m + place, 2 * n, a);
      MulDistribute(2 * m, place, a);
      MulAssoc(2, m, a);
      MulAssoc(2, n, a);
    } else {
      MulMono(m + place, n, a);
      MulDistribute(m, place, a);
    }
  }

  /** Outside of them, one of the two neighbours is nearer, or as near beside an odd significand. */
  lemma NeighbourDecides(m: nat, place: nat, a: nat, h: nat, closer: bool, closed: bool, below: nat)
    requires !Between(m, place, a, h, closer, closed) && a > 0 && place > 0
    requires if closer then 2 * below + place == 2 * m else below + place == m
    ensures var d := Distance(h, a, m);
            || Distance(h, a, m + place) < d || Distance(h, a, below) < d
            || (!closed && (Distance(h, a, m + place) == d || Distance(h, a, below) == d))
  {
    ProdIsProduct(m, a);
    ProdIsProduct(m + place, a);
    ProdIsProduct(below, a);
    MulDistribute(m, place, a);
    MulMono(1, place, a);
    if closer {
      MulDistribute(2 * below, place, a);
      MulAssoc(2, below, a);
      MulAssoc(2, m, a);
    } else {
      MulDistribute(below, place, a);
    }
    NeighboursOrder(m * a, place * a, h, closer, closed, below * a);
  }

  lemma NeighboursOrder(x: nat, p: nat, h: nat, closer: bool, closed: bool, x': nat)
    requires p > 0
    requires var c, u := if closer then 4 else 2, if closer then 2 else 1;
             if closed then !(c * x - p <= c * h <= c * x + u * p) else !(c * x - p < c * h < c * x + u * p)
    requires if closer then 2 * x' + p == 2 * x else x' + p == x
    ensures var d, above := if h < x then x - h else h - x, if h < x + p then x + p - h else h - (x + p);
            var below := if h < x' then x' - h else h - x';
            above < d || below < d || (!closed && (above == d || below == d))
  {
  }

  lemma GrainIsPositive(kind: Binary, exp10: int, k: nat)
    requires kind.Valid()
    ensures Grain(kind, exp10, k) > 0
  {
    UnitTimes(Least(kind), exp10);
    MulMono(1, Unit(Least(kind), exp10), Pow(10, k));
  }

  /** This number is as near to y * 10^(exp10 - k) as that one, which wins a tie only if this significand is odd. */
  ghost predicate Beats(kind: Binary, fraction: nat, biased: nat, exp10: int, k: nat, y: nat, fraction': nat, biased': nat)
    requires kind.Valid() && fraction < Pow(2, kind.Size())
  {
    var d := Away(kind, exp10, k, y, Magnitude(kind, fraction, biased));
    var d' := Away(kind, exp10, k, y, Magnitude(kind, fraction', biased'));
    d < d' || (d == d' && Assign(kind, fraction, biased).0.f % 2 == 0)
  }

  /** Read to the nearest number of the format, ties to even, the decimal y * 10^(exp10 - k) gives this number. */
  ghost predicate ReadsAs(kind: Binary, fraction: nat, biased: nat, exp10: int, k: nat, y: nat)
    requires kind.Valid() && fraction < Pow(2, kind.Size())
  {
    forall fraction': nat, biased': nat :: fraction' < Pow(2, kind.Size()) && (fraction' != fraction || biased' != biased)
      ==> Beats(kind, fraction, biased, exp10, k, y, fraction', biased')
  }

  lemma HeldBeats(kind: Binary, fraction: nat, biased: nat, exp10: int, k: nat, y: nat, fraction': nat, biased': nat)
    requires kind.Valid() && fraction < Pow(2, kind.Size()) && fraction' < Pow(2, kind.Size())
    requires fraction' != fraction || biased' != biased
    requires Holds(Finer(Range(kind, fraction, biased, exp10), k), y)
    ensures Beats(kind, fraction, biased, exp10, k, y, fraction', biased')
  {
    var (v, closer) := Assign(kind, fraction, biased);
    HeldIsBetween(kind, fraction, biased, exp10, k, y);
    GrainIsPositive(kind, exp10, k);
    Neighbours(kind, fraction, biased, fraction', biased');
    MidpointsDecide(Magnitude(kind, fraction, biased), LastPlace(biased), Grain(kind, exp10, k),
                    y * Under(Least(kind), exp10), closer, v.f % 2 == 0, Magnitude(kind, fraction', biased'));
  }

  lemma NotHeldLoses(kind: Binary, fraction: nat, biased: nat, exp10: int, k: nat, y: nat)
    returns (fraction': nat, biased': nat)
    requires kind.Valid() && fraction < Pow(2, kind.Size()) && (fraction > 0 || biased > 0)
    requires !Holds(Finer(Range(kind, fraction, biased, exp10), k), y)
    ensures fraction' < Pow(2, kind.Size()) && (fraction' != fraction || biased' != biased)
    ensures !Beats(kind, fraction, biased, exp10, k, y, fraction', biased')
  {
    var (v, closer) := Assign(kind, fraction, biased);
    HeldIsBetween(kind, fraction, biased, exp10, k, y);
    GrainIsPositive(kind, exp10, k);
    var f, b := Successor(kind, fraction, biased);
    fraction', biased' := Predecessor(kind, fraction, biased);
    NeighbourDecides(Magnitude(kind, fraction, biased), LastPlace(biased), Grain(kind, exp10, k),
                     y * Under(Least(kind), exp10), closer, v.f % 2 == 0, Magnitude(kind, fraction', biased'));
    if Beats(kind, fraction, biased, exp10, k, y, fraction', biased') {
      fraction', biased' := f, b;
    }
  }

  /** What lies between the midpoints is exactly what reads back to the number. */
  lemma ReadsBackIff(kind: Binary, fraction: nat, biased: nat, exp10: int, k: nat, y: nat)
    requires kind.Valid() && fraction < Pow(2, kind.Size()) && (fraction > 0 || biased > 0)
    ensures Holds(Finer(Range(kind, fraction, biased, exp10), k), y) <==> ReadsAs(kind, fraction, biased, exp10, k, y)
  {
    if Holds(Finer(Range(kind, fraction, biased, exp10), k), y) {
      forall fraction': nat, biased': nat | fraction' < Pow(2, kind.Size()) && (fraction' != fraction || biased' != biased)
        ensures Beats(kind, fraction, biased, exp10, k, y, fraction', biased')
      {
        HeldBeats(kind, fraction, biased, exp10, k, y, fraction', biased');
      }
    } else {
      var f, b := NotHeldLoses(kind, fraction, biased, exp10, k, y);
    }
  }

  // ---- an overlooked boundary ----

  /** The number 35840000000000002147483648, which is what 3584 * 10^22 reads as, just at its lower midpoint. */
  const MISSED := Fp(8344650268554688, 32)
  const MISSED_RANGE := Interval(71680000000000004294967296, 4294967296, 4294967296, 20000000000000000000000000, true)

  lemma TenTo25()
    ensures Pow(10, 25) == 10000000000000000000000000
  {
    assert Pow(10, 5) == 100000;
    PowSum(10, 5, 5);
    PowSum(10, 10, 10);
    PowSum(10, 20, 5);
  }

  lemma MissedRangeIs()
    ensures Around(MISSED, false, 25) == MISSED_RANGE && BelowTen(MISSED, 25) && Above(MISSED, 25)
  {
    TenTo25();
    Pow2Is32();
    assert Pow(2, 1) == 2;
    assert Over(MISSED, 25) == 8344650268554688 * W32 * Pow(10, 0);
    assert Unit(MISSED, 25) == W32 * Pow(10, 0);
    assert Under(MISSED, 25) == Pow(2, 0) * Pow(10, 25);
  }

  /** After three digits there is nothing, after four there is the lower end. */
  lemma MissedRangeHolds()
    ensures LowerEndFirst(MISSED_RANGE)
  {
    var z := MISSED_RANGE;
    var w := z.w;
    ProdIsProduct(358, w);
    ProdIsProduct(3584, w);
    ScaledIsProduct(z.n, 2);
    ScaledIsProduct(z.n, 3);
    ScaledIsProduct(z.lo, 2);
    ScaledIsProduct(z.lo, 3);
    assert Pow(10, 2) == 100 && Pow(10, 3) == 1000;
    Sides(Finer(z, 2), 358, 8000000000000429496729600);
    NeitherSide(Finer(z, 2), 358, 8000000000000429496729600);
    EmptyCoarser(z, 2);
    Sides(Finer(z, 3), 3584, 4294967296000);
    NeitherSide(Finer(z, 3), 3584, 4294967296000);
    assert LowerEndAt(z, 3);
  }

  lemma TwoTo52()
    ensures Pow(2, 52) == 4503599627370496
  {
    assert Pow(2, 4) == 16;
    Pow2Is32();
    PowSum(2, 4, 16);
    PowSum(2, 32, 20);
    PowSum(2, 8, 8);
    PowSum(2, 4, 4);
  }

  /** A number whose four shortest digits are overlooked: the condition that breaks the promise is met. */
  lemma OverlookedBoundary()
    ensures 3841050641184192 < Pow(2, 52)
    ensures Assign(BINARY64, 3841050641184192, 1107) == (MISSED, false)
    ensures BelowTen(MISSED, 25) && Above(MISSED, 25) && MISSED.f % 2 == 0
    ensures LowerEndFirst(Range(BINARY64, 3841050641184192, 1107, 25))
  {
    TwoTo52();
    FormatsAre();
    MissedRangeIs();
    MissedRangeHolds();
    var c := RangeIs(BINARY64, 3841050641184192, 1107, 25);
    ShortestTimes(c, MISSED_RANGE, 0);
  }

  // ---- a first digit of ten ----

  /** The number that 10^23 reads as, which is 8388608 below it: 10^23 is just its upper midpoint. */
  const BELOW_1E23 := Fp(5960464477539062, 24)

  lemma TenTo22()
    ensures Pow(10, 22) == 10000000000000000000000 && Pow(2, 24) == 16777216
  {
    assert Pow(10, 2) == 100 && Pow(10, 5) == 100000 && Pow(2, 4) == 16;
    PowSum(10, 5, 5);
    PowSum(10, 10, 10);
    PowSum(10, 20, 2);
    PowSum(2, 4, 4);
    PowSum(2, 8, 8);
    PowSum(2, 16, 8);
  }

  /** With an exponent of 22 that number is below ten, and is written as a single digit of ten. */
  lemma TenAsOneDigit()
    ensures 1456864850168566 < Pow(2, 52)
    ensures Assign(BINARY64, 1456864850168566, 1099) == (BELOW_1E23, false)
    ensures BelowTen(BELOW_1E23, 22) && ReachesTen(Range(BINARY64, 1456864850168566, 1099, 22))
  {
    TwoTo52();
    TenTo22();
    FormatsAre();
    assert Pow(2, 1) == 2;
    assert Over(BELOW_1E23, 22) == 5960464477539062 * Pow(2, 24) * Pow(10, 0);
    assert Unit(BELOW_1E23, 22) == Pow(2, 24) * Pow(10, 0);
    assert Under(BELOW_1E23, 22) == Pow(2, 0) * Pow(10, 22);
    ProdTen(Around(BELOW_1E23, false, 22).w);
    assert ReachesTen(Around(BELOW_1E23, false, 22));
    var c := RangeIs(BINARY64, 1456864850168566, 1099, 22);
    ReachesTenTimes(c, Around(BELOW_1E23, false, 22));
  }

  // ---- the whole branch ----

  /** What was shown of the formatter's interval, for the value of the bits. */
  lemma ResultTimes(c: nat, z: Interval, above: bool, buf: seq<nat>)
    requires c > 0 && Result(z, above, buf) && Nearest(Finer(z, |buf| - 1), Decimal(buf))
    ensures var t := Times(c, z);
            && Holds(Finer(t, |buf| - 1), Decimal(buf)) && Nearest(Finer(t, |buf| - 1), Decimal(buf))
            && (if ReachesTen(t) then buf == [10] else AreDigits(buf))
            && (NothingShorter(t, |buf| - 1) <==> !(above && z.closed && LowerEndFirst(t)))
  {
    var k := |buf| - 1;
    TimesFiner(c, z, k);
    HoldsTimes(c, Finer(z, k), Decimal(buf));
    NearestTimes(c, Finer(z, k), Decimal(buf));
    ReachesTenTimes(c, z);
    ShortestTimes(c, z, k);
  }

  /** Every positive finite number is one that the branch can be given. */
  lemma CanBeGiven(kind: Binary, fraction: nat, biased: nat, exp10: int)
    requires kind == BINARY32 || kind == BINARY64
    requires fraction < Pow(2, kind.Size()) && (fraction > 0 || biased > 0)
    requires BelowTen(Number(kind, fraction, biased), exp10)
    ensures var (v, closer) := Assign(kind, fraction, biased);
            v.f > 0 && (closer ==> v.f >= 10) && v.f * Pow(2, Shift(closer)) < W64 && BelowTen(v, exp10)
  {
    var (v, closer) := Assign(kind, fraction, biased);
    AssignIs(kind, fraction, biased);
    BelowTenSpread(v, Number(kind, fraction, biased), exp10);
    SignificandFits(v.f, kind.Size() + 1, Shift(closer));
    if closer {
      CloserMeans(kind, fraction, biased);
    }
  }

  /**
    The shortest-digit branch of the formatter, for the number that the bits of a
    positive finite number stand for. What is written reads back to the number
    and is the nearest one of its length that does. It is made of digits unless
    the number reaches ten times the power that its first digit is for, and
    nothing shorter reads back unless a lower midpoint is overlooked.
   */
  method FallbackShortest(binary32: bool, fraction: nat, biased: nat, exp10: int) returns (buf: seq<nat>, newExp10: int)
    requires fraction < Pow(2, Kind(binary32).Size()) && (fraction > 0 || biased > 0)
    requires -0x4000_0000 < exp10 < 0x4000_0000 && BelowTen(Number(Kind(binary32), fraction, biased), exp10)
    ensures buf != [] && newExp10 == exp10 - (|buf| - 1)
    ensures ReadsAs(Kind(binary32), fraction, biased, exp10, |buf| - 1, Decimal(buf))
    ensures var v := Assign(Kind(binary32), fraction, biased).0;
            var z := Range(Kind(binary32), fraction, biased, exp10);
            && Nearest(Finer(z, |buf| - 1), Decimal(buf))
            && (if ReachesTen(z) then buf == [10] else AreDigits(buf))
            && (NothingShorter(z, |buf| - 1) <==> !(Above(v, exp10) && v.f % 2 == 0 && LowerEndFirst(z)))
  {
    var kind := Kind(binary32);
    var (v, closer) := Assign(kind, fraction, biased);
    CanBeGiven(kind, fraction, biased, exp10);
    buf, newExp10 := ShortestOf(v, closer, exp10);
    NearestAlways(kind, fraction, biased, exp10, buf);
    ghost var c := RangeIs(kind, fraction, biased, exp10);
    ResultTimes(c, Around(v, closer, exp10), Above(v, exp10), buf);
    ReadsBackIff(kind, fraction, biased, exp10, |buf| - 1, Decimal(buf));
  }
}
