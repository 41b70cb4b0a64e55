/**
  Durations: counts of a rational period, compared and rounded across units.
 */
module Durations {
  import opened Basics
  import opened Bits
  import opened Ratios

  /** A period is a positive ratio in lowest terms. */
  ghost predicate Period(p: Ratio)
  {
    Lowest(p) && p.num > 0
  }

  function Lcm(a: int, b: int): int
  {
    (a / Gcd(a, b)) * b
  }

  /** The coarsest unit that both periods are multiples of. */
  function Common(p: Ratio, q: Ratio): Ratio
    requires Lcm(p.den, q.den) != 0
  {
    Reduced(Gcd(p.num, q.num), Lcm(p.den, q.den))
  }

  /** Division that drops the fraction, as machine division does. */
  function Truncated(a: int, b: int): int
    requires b > 0
  {
    if a >= 0 then a / b else -((-a) / b)
  }

  /** A count times a factor, in one of four forms. */
  function Carried(count: int, factor: Ratio): int
    requires factor.den > 0
  {
    if factor.den == 1 then
      if factor.num == 1 then count else count * factor.num
    else
      if factor.num == 1 then Truncated(count, factor.den) else Truncated(count * factor.num, factor.den)
  }

  /** A count converted from one period to another. */
  function Cast(count: int, p: Ratio, to: Ratio): int
    requires to.num != 0 && Divide(p, to).Some? && Divide(p, to).value.den > 0
  {
    Carried(count, Divide(p, to).value)
  }

  // ---- conversion ----

  lemma {:induction false} SameQuotient(a: int, d: int, b: int, y: int)
    requires d > 0 && y > 0 && a * y == b * d
    ensures a / d == b / y
  {
    var q, r := a / d, a % d;
    assert a == q * d + r;
    assert d * (b - q * y) == r * y;
    Sandwich(d, b - q * y, r, y);
    DivModUnique(b, y, q, b - q * y);
  }

  lemma Sandwich(d: int, x: int, r: int, y: int)
    requires d > 0 && y > 0 && 0 <= r < d && d * x == r * y
    ensures 0 <= x < y
  {
    assert x < 0 ==> d * x < 0;
    assert r * y >= 0;
    assert x >= y ==> d * x >= d * y;
    assert r * y < d * y;
  }

  /** Truncation depends on the value of a fraction only. */
  lemma SameTruncation(a: int, d: int, b: int, y: int)
    requires d > 0 && y > 0 && a * y == b * d
    ensures Truncated(a, d) == Truncated(b, y)
  {
    assert a >= 0 <==> a * y >= 0;
    assert b >= 0 <==> b * d >= 0;
    if a >= 0 {
      SameQuotient(a, d, b, y);
    } else {
      assert (-a) * y == (-b) * d;
      SameQuotient(-a, d, -b, y);
    }
  }

  /** The count in units of p, over the size of the target unit, as integers x and y. */
  function Over(count: int, p: Ratio, to: Ratio): int
  {
    count * (p.num * to.den)
  }

  function Under(p: Ratio, to: Ratio): int
  {
    to.num * p.den
  }

  lemma UnderPositive(p: Ratio, to: Ratio)
    requires Period(p) && Period(to)
    ensures Under(p, to) > 0 && p.num * to.den > 0
  {
  }

  lemma TruncatedOne(a: int)
    ensures Truncated(a, 1) == a
  {
  }

  /** Every branch of the conversion truncates the exact quotient. */
  lemma CastTruncates(count: int, p: Ratio, to: Ratio)
    requires Period(p) && Period(to) && Divide(p, to).Some?
    ensures Divide(p, to).value.den > 0 && Under(p, to) > 0
    ensures Cast(count, p, to) == Truncated(Over(count, p, to), Under(p, to))
  {
    var c := Divide(p, to).value;
    QuotientIsLowest(p, to);
    UnderPositive(p, to);
    assert p.den * to.num == Under(p, to);
    Scaled(count, c.num, Under(p, to), p.num * to.den, c.den);
    SameTruncation(count * c.num, c.den, Over(count, p, to), Under(p, to));
    TruncatedOne(count * c.num);
  }

  lemma Scaled(k: int, a: int, b: int, c: int, d: int)
    requires a * b == c * d
    ensures (k * a) * b == (k * c) * d
  {
    assert (k * a) * b == k * (a * b) && (k * c) * d == k * (c * d);
  }

  // ---- common units ----

  /** Converting to a unit that divides the period multiplies the count. */
  lemma CastToUnit(count: int, p: Ratio, unit: Ratio, k: int)
    requires Period(p) && Period(unit) && Divide(p, unit).Some?
    requires k * (unit.num * p.den) == p.num * unit.den
    ensures Divide(p, unit).value == Ratio(k, 1) && Cast(count, p, unit) == count * k
  {
    var c := Divide(p, unit).value;
    QuotientIsLowest(p, unit);
    UnderPositive(p, unit);
    assert c.num * (p.den * unit.num) == (p.num * unit.den) * c.den;
    WholeRatio(c, k, unit.num * p.den);
  }

  /** A ratio in lowest terms that is a whole number. */
  lemma WholeRatio(c: Ratio, k: int, y: int)
    requires Lowest(c) && y != 0 && c.num * y == k * y * c.den
    ensures c == Ratio(k, 1)
  {
    MulAssoc(k, y, c.den);
    MulOut(k, y, c.den);
    MulAssoc(y, k, c.den);
    CancelFactor(y, c.num, k * c.den);
    DividesMultiple(c.den, k);
    DividesMultiple(c.den, 1);
    CoprimeMeans(c.num, c.den, c.den);
  }

  /** How many common units a period is: p is a times g over b' times h, q is a' times g over b times h. */
  function UnitsLeft(p: Ratio, q: Ratio): int
  {
    (p.num / Gcd(p.num, q.num)) * (q.den / Gcd(p.den, q.den))
  }

  function UnitsRight(p: Ratio, q: Ratio): int
  {
    (q.num / Gcd(p.num, q.num)) * (p.den / Gcd(p.den, q.den))
  }

  lemma UnitsOf(a: int, b: int, n: int, d: int, l: int, g: int, cd: int)
    requires l == b * d && n * l == g * cd
    ensures (a * b) * (n * d) == (a * g) * cd
  {
    assert (a * b) * (n * d) == a * (n * (b * d));
    assert (a * g) * cd == a * (g * cd);
  }

  lemma PositiveReduced(n: int, d: int)
    requires n > 0 && d > 0
    ensures Reduced(n, d).num > 0
  {
    var x, y := GcdIs(n, d);
    PositiveQuotient(n, Gcd(n, d));
  }

  /** Both periods are whole multiples of the common one. */
  lemma CommonIs(p: Ratio, q: Ratio)
    requires Period(p) && Period(q)
    ensures Lcm(p.den, q.den) > 0 && Period(Common(p, q))
    ensures UnitsLeft(p, q) * (Common(p, q).num * p.den) == p.num * Common(p, q).den
    ensures UnitsRight(p, q) * (Common(p, q).num * q.den) == q.num * Common(p, q).den
  {
    var g, h, l := Gcd(p.num, q.num), Gcd(p.den, q.den), Lcm(p.den, q.den);
    Cancelled(p.num, q.num);
    Cancelled(p.den, q.den);
    var a, a', b', b := p.num / g, q.num / g, p.den / h, q.den / h;
    LcmIs(b', b, h);
    var x, y := GcdIs(p.den, q.den);
    PositiveQuotient(p.den, h);
    assert l > 0;
    var c := Common(p, q);
    ReducedIsLowest(g, l);
    PositiveReduced(g, l);
    UnitsOf(a, b, c.num, p.den, l, g, c.den);
    UnitsOf(a', b', c.num, q.den, l, g, c.den);
  }

  lemma LcmIs(b': int, b: int, h: int)
    ensures b' * (b * h) == b * (b' * h)
  {
    assert b' * (b * h) == b * (b' * h);
  }

  lemma UnitsAreCoprime(p: Ratio, q: Ratio)
    requires Period(p) && Period(q)
    ensures Coprime(UnitsLeft(p, q), UnitsRight(p, q))
  {
    var g, h := Gcd(p.num, q.num), Gcd(p.den, q.den);
    Cancelled(p.num, q.num);
    Cancelled(p.den, q.den);
    var a, a', b', b := p.num / g, q.num / g, p.den / h, q.den / h;
    CoprimeFactor(a, b', g, h);
    CoprimeSwap(q.num, q.den);
    CoprimeFactor(b, a', h, g);
    CoprimeSwap(b', b);
    CoprimeProducts(a, b', b, a');
  }

  /** Two units are in the same proportion as the numbers of them that make up one period. */
  lemma Proportion(p: Ratio, c: Ratio, n: int, u: Ratio, k: int)
    requires p.den > 0 && n * (c.num * p.den) == p.num * c.den && k * (u.num * p.den) == p.num * u.den
    ensures n * (c.num * u.den) == k * (u.num * c.den)
  {
    assert p.den * (n * (c.num * u.den)) == n * (c.num * p.den) * u.den;
    assert p.den * (k * (u.num * c.den)) == k * (u.num * p.den) * c.den;
    assert p.num * c.den * u.den == p.num * u.den * c.den;
    CancelFactor(p.den, n * (c.num * u.den), k * (u.num * c.den));
  }

  /** The common period is the coarsest one: it is a multiple of every unit that both periods are multiples of. */
  lemma CommonIsCoarsest(p: Ratio, q: Ratio, u: Ratio, k: int, l: int) returns (m: int)
    requires Period(p) && Period(q) && Lcm(p.den, q.den) != 0
    requires k * (u.num * p.den) == p.num * u.den && l * (u.num * q.den) == q.num * u.den
    ensures m * (u.num * Common(p, q).den) == Common(p, q).num * u.den
  {
    var c := Common(p, q);
    var left, right := UnitsLeft(p, q), UnitsRight(p, q);
    CommonIs(p, q);
    Proportion(p, c, left, u, k);
    Proportion(q, c, right, u, l);
    UnitsAreCoprime(p, q);
    var x, y :| Combination(x, left, y, right) == 1;
    m := x * k + y * l;
    Combined(x, left, y, right, k, l, c.num * u.den, u.num * c.den);
  }

  lemma Combined(x: int, a: int, y: int, b: int, k: int, l: int, s: int, t: int)
    requires a * s == k * t && b * s == l * t && x * a + y * b == 1
    ensures (x * k + y * l) * t == s
  {
    assert (x * k + y * l) * t == x * (k * t) + y * (l * t);
    assert (x * a + y * b) * s == x * (a * s) + y * (b * s);
  }

  /** In common units the two counts are in proportion to their exact values. */
  lemma UnitsAreExact(p: Ratio, q: Ratio) returns (e: int)
    requires Period(p) && Period(q)
    ensures e > 0 && p.num * q.den == UnitsLeft(p, q) * e && Under(p, q) == UnitsRight(p, q) * e
    ensures UnitsRight(p, q) > 0
  {
    var g, h := Gcd(p.num, q.num), Gcd(p.den, q.den);
    Cancelled(p.num, q.num);
    Cancelled(p.den, q.den);
    FourFactors(p.num / g, g, q.den / h, h);
    FourFactors(q.num / g, g, p.den / h, h);
    UnderPositive(p, q);
    e := g * h;
    PositiveFactor(UnitsRight(p, q), e);
  }

  lemma FourFactors(a: int, g: int, b: int, h: int)
    ensures (a * g) * (b * h) == (a * b) * (g * h)
  {
  }

  // ---- comparison ----

  /** The conversions that a comparison of these periods compiles to do not overflow. */
  ghost predicate Comparable(p: Ratio, q: Ratio)
  {
    && Period(p) && Period(q) && Lcm(p.den, q.den) > 0 && Period(Common(p, q))
    && Divide(p, Common(p, q)).Some? && Divide(q, Common(p, q)).Some?
    && Divide(p, Common(p, q)).value.den > 0 && Divide(q, Common(p, q)).value.den > 0
  }

  /** Comparison after converting both counts to the common period. */
  predicate Less(c: int, p: Ratio, d: int, q: Ratio)
    requires Comparable(p, q)
  {
    Cast(c, p, Common(p, q)) < Cast(d, q, Common(p, q))
  }

  lemma InUnits(c: int, p: Ratio, d: int, q: Ratio)
    requires Comparable(p, q)
    ensures Cast(c, p, Common(p, q)) == c * UnitsLeft(p, q)
    ensures Cast(d, q, Common(p, q)) == d * UnitsRight(p, q)
  {
    CommonIs(p, q);
    CastToUnit(c, p, Common(p, q), UnitsLeft(p, q));
    CastToUnit(d, q, Common(p, q), UnitsRight(p, q));
  }

  /** Counts compare in units as they do in multiples of units. */
  lemma OrderScales(c: int, k: int, d: int, l: int, e: int)
    requires e > 0
    ensures c * k < d * l <==> c * (k * e) < d * (l * e)
    ensures c * k == d * l <==> c * (k * e) == d * (l * e)
  {
    var x, y := c * k, d * l;
    assert c * (k * e) == x * e && d * (l * e) == y * e;
    assert y * e - x * e == (y - x) * e;
    assert y > x ==> (y - x) * e > 0;
    assert y < x ==> (y - x) * e < 0;
  }

  /** Cross-unit comparison is exact, for all counts and periods. */
  lemma LessIsExact(c: int, p: Ratio, d: int, q: Ratio)
    requires Comparable(p, q)
    ensures Less(c, p, d, q) <==> Over(c, p, q) < d * Under(p, q)
  {
    InUnits(c, p, d, q);
    var e := UnitsAreExact(p, q);
    OrderScales(c, UnitsLeft(p, q), d, UnitsRight(p, q), e);
  }

  // ---- rounding ----

  /** All conversions that rounding from p to a target unit needs. */
  ghost predicate Convertible(p: Ratio, to: Ratio)
  {
    Comparable(p, to) && Comparable(to, p) && Divide(p, to).Some? && Divide(p, to).value.den > 0
  }

  function Floor(c: int, p: Ratio, to: Ratio): int
    requires Convertible(p, to)
  {
    var casted := Cast(c, p, to);
    if Less(c, p, casted, to) then casted - 1 else casted
  }

  function Ceil(c: int, p: Ratio, to: Ratio): int
    requires Convertible(p, to)
  {
    var casted := Cast(c, p, to);
    if Less(casted, to, c, p) then casted + 1 else casted
  }

  /** Truncation is off by less than one, towards zero. */
  lemma TruncatedBounds(x: int, y: int)
    requires y > 0
    ensures var t := Truncated(x, y);
            if x >= 0 then t * y <= x < (t + 1) * y else (t - 1) * y < x <= t * y
  {
    if x >= 0 {
      assert x == (x / y) * y + x % y;
    } else {
      assert -x == ((-x) / y) * y + (-x) % y;
    }
  }

  lemma Neighbours(t: int, y: int)
    ensures (t + 1) * y == t * y + y && (t - 1) * y == t * y - y
  {
  }

  /** The greatest count of the target unit that is not above the duration. */
  lemma FloorIs(c: int, p: Ratio, to: Ratio)
    requires Convertible(p, to)
    ensures var r := Floor(c, p, to);
            r * Under(p, to) <= Over(c, p, to) < (r + 1) * Under(p, to)
  {
    var t, x, y := Cast(c, p, to), Over(c, p, to), Under(p, to);
    CastTruncates(c, p, to);
    TruncatedBounds(x, y);
    LessIsExact(c, p, t, to);
    Neighbours(t, y);
    Neighbours(t - 1, y);
  }

  /** The least count of the target unit that is not below the duration. */
  lemma CeilIs(c: int, p: Ratio, to: Ratio)
    requires Convertible(p, to)
    ensures var r := Ceil(c, p, to);
            (r - 1) * Under(p, to) < Over(c, p, to) <= r * Under(p, to)
  {
    var t, x, y := Cast(c, p, to), Over(c, p, to), Under(p, to);
    CastTruncates(c, p, to);
    TruncatedBounds(x, y);
    LessIsExact(t, to, c, p);
    assert Over(t, to, p) == t * y && c * Under(to, p) == x;
    Neighbours(t, y);
    Neighbours(t + 1, y);
  }

  lemma GcdDivides(d: nat, a: int, b: int)
    requires Divides(d, a) && Divides(d, b) && (a != 0 || b != 0)
    ensures Divides(d, Gcd(a, b))
  {
    var x, y := GcdIs(a, b);
    DividesCombination(d, x, a, y, b);
  }

  lemma GcdSymmetric(a: int, b: int)
    requires a > 0 && b > 0
    ensures Gcd(a, b) == Gcd(b, a)
  {
    var x, y := GcdIs(a, b);
    var u, v := GcdIs(b, a);
    GcdDivides(Gcd(a, b), b, a);
    GcdDivides(Gcd(b, a), a, b);
    MutualDivisors(Gcd(a, b), Gcd(b, a));
  }

  /** The common period does not depend on the order, so both distances below are in one unit. */
  lemma CommonIsSymmetric(p: Ratio, q: Ratio)
    requires Period(p) && Period(q)
    ensures Lcm(p.den, q.den) > 0 && Lcm(q.den, p.den) > 0 && Common(p, q) == Common(q, p)
  {
    CommonIs(p, q);
    CommonIs(q, p);
    GcdSymmetric(p.num, q.num);
    GcdSymmetric(p.den, q.den);
    Cancelled(p.den, q.den);
    var h := Gcd(p.den, q.den);
    LcmIs(p.den / h, q.den / h, h);
  }

  predicate IsEven(n: int)
  {
    n % 2 == 0
  }

  function Round(c: int, p: Ratio, to: Ratio): int
    requires Convertible(p, to)
  {
    var floored := Floor(c, p, to);
    var ceiled := floored + 1;
    var unit := Common(p, to);
    var floorAdjustment := Cast(c, p, unit) - Cast(floored, to, unit);
    var ceilAdjustment := Cast(ceiled, to, unit) - Cast(c, p, unit);
    if floorAdjustment < ceilAdjustment || (floorAdjustment == ceilAdjustment && IsEven(floored))
    then floored else ceiled
  }

  /** The distance of a count of the target unit from the duration, in exact terms. */
  function Distance(n: int, c: int, p: Ratio, to: Ratio): nat
  {
    Abs(n * Under(p, to) - Over(c, p, to))
  }

  lemma FarCounts(n: int, r: int, x: int, y: int)
    requires y > 0 && r * y <= x < (r + 1) * y
    ensures n < r ==> Abs(n * y - x) >= x - r * y + y
    ensures n > r + 1 ==> Abs(n * y - x) >= (r + 1) * y - x + y
  {
    if n < r {
      MulAtLeast(r - n, y);
      assert (r - n) * y == r * y - n * y;
    } else if n > r + 1 {
      MulAtLeast(n - r - 1, y);
      assert (n - r - 1) * y == n * y - (r + 1) * y;
    }
  }

  /** The nearest count of the target unit, and of two that are equally near the even one. */
  lemma RoundIs(c: int, p: Ratio, to: Ratio, n: int)
    requires Convertible(p, to)
    ensures var r := Round(c, p, to);
            && Distance(r, c, p, to) <= Distance(n, c, p, to)
            && (n != r && Distance(r, c, p, to) == Distance(n, c, p, to) ==> IsEven(r))
  {
    var f := Floor(c, p, to);
    FloorIs(c, p, to);
    UnderPositive(p, to);
    Adjustments(c, p, to, f);
    Nearest(f, Over(c, p, to), Under(p, to), n, Round(c, p, to));
  }

  lemma Nearest(f: int, x: int, y: int, n: int, r: int)
    requires y > 0 && f * y <= x < (f + 1) * y
    requires var below, above := x - f * y, (f + 1) * y - x;
             r == if below < above || (below == above && IsEven(f)) then f else f + 1
    ensures Abs(r * y - x) <= Abs(n * y - x)
    ensures n != r && Abs(r * y - x) == Abs(n * y - x) ==> IsEven(r)
  {
    FarCounts(n, f, x, y);
  }

  /** The two distances compare in common units as they do exactly. */
  lemma Adjustments(c: int, p: Ratio, to: Ratio, f: int)
    requires Comparable(p, to)
    ensures var unit := Common(p, to);
            var below := Cast(c, p, unit) - Cast(f, to, unit);
            var above := Cast(f + 1, to, unit) - Cast(c, p, unit);
            var x, y := Over(c, p, to), Under(p, to);
            && (below < above <==> x - f * y < (f + 1) * y - x)
            && (below == above <==> x - f * y == (f + 1) * y - x)
  {
    var e := UnitsAreExact(p, to);
    var k, l := UnitsLeft(p, to), UnitsRight(p, to);
    InUnits(c, p, f, to);
    InUnits(c, p, f + 1, to);
    OrderScales(2 * c, k, f + (f + 1), l, e);
    Doubled(c, k, k * e);
    Doubled(f, l, l * e);
  }

  lemma Doubled(c: int, k: int, m: int)
    ensures (2 * c) * k == 2 * (c * k) && (2 * c) * m == 2 * (c * m)
    ensures (c + (c + 1)) * k == c * k + (c + 1) * k && (c + (c + 1)) * m == c * m + (c + 1) * m
  {
  }

  // ---- seconds and minutes ----

  const SECOND := Ratio(1, 1)
  const MINUTE := Ratio(60, 1)

  lemma GcdsOf60()
    ensures Gcd(1, 60) == 1 && Gcd(60, 1) == 1 && Gcd(1, 1) == 1
  {
    assert Euclid(1, 0) == 1 && Euclid(60, 1) == Euclid(1, 0) && Euclid(1, 60) == Euclid(60, 1);
    assert Euclid(1, 1) == Euclid(1, 0);
  }

  lemma MinutePeriods()
    ensures Period(SECOND) && Period(MINUTE)
  {
    WholePeriod(SECOND);
    WholePeriod(MINUTE);
  }

  lemma WholePeriod(p: Ratio)
    requires p.num > 0 && p.den == 1
    ensures Period(p)
  {
    assert Combination(0, p.num, 1, p.den) == 1;
  }

  lemma MinuteCommons()
    ensures Lcm(1, 1) == 1 && Common(SECOND, MINUTE) == SECOND && Common(MINUTE, SECOND) == SECOND
  {
    GcdsOf60();
  }

  lemma MinuteQuotients()
    ensures Divide(SECOND, SECOND) == Some(Ratio(1, 1))
    ensures Divide(MINUTE, SECOND) == Some(Ratio(60, 1))
    ensures Divide(SECOND, MINUTE) == Some(Ratio(1, 60))
  {
    GcdsOf60();
    assert Reduced(1, 1) == Ratio(1, 1) && Reduced(1, 60) == Ratio(1, 60);
  }

  /** Seconds convert to minutes: the conditions of the theorems above can be met. */
  lemma SecondsConvert()
    ensures Convertible(SECOND, MINUTE)
  {
    MinutePeriods();
    MinuteCommons();
    MinuteQuotients();
  }

  /** A second before zero is in minute -1, and 90 seconds round to 2 minutes, the even neighbour. */
  lemma SecondsRound()
    ensures Convertible(SECOND, MINUTE)
    ensures Floor(-1, SECOND, MINUTE) == -1 && Round(90, SECOND, MINUTE) == 2
  {
    SecondsConvert();
    FloorIs(-1, SECOND, MINUTE);
    RoundIs(90, SECOND, MINUTE, 1);
    RoundIs(90, SECOND, MINUTE, 2);
  }
}
