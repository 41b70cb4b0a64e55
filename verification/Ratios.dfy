/**
  Compile-time rational numbers: lowest terms, cross-cancelled products, and
  comparison through 128-bit products.
 */
module Ratios {
  import opened Basics
  import opened Bits

  const MAX: int := 0x7FFF_FFFF_FFFF_FFFF

  function Abs(n: int): nat
  {
    if n < 0 then -n else n
  }

  // ---- greatest common divisors ----

  function Euclid(a: nat, b: nat): (g: nat)
    ensures a > 0 || b > 0 ==> g > 0
    decreases b
  {
    if b == 0 then a else Euclid(b, a % b)
  }

  /** The greatest common divisor of the absolute values, and 1 for two zeros. */
  function Gcd(a: int, b: int): (g: nat)
    ensures g > 0
  {
    if a == 0 && b == 0 then 1 else Euclid(Abs(a), Abs(b))
  }

  predicate Divides(d: nat, n: int)
  {
    d > 0 && n % d == 0
  }

  function Combination(x: int, a: int, y: int, b: int): int
  {
    x * a + y * b
  }

  lemma MultipleIs(d: nat, n: int)
    requires Divides(d, n)
    ensures n == (n / d) * d
  {
  }

  lemma DividesMultiple(d: nat, k: int)
    requires d > 0
    ensures Divides(d, k * d)
  {
    DivModUnique(k * d, d, k, 0);
  }

  /** A common divisor divides every combination. */
  lemma DividesCombination(d: nat, x: int, a: int, y: int, b: int)
    requires Divides(d, a) && Divides(d, b)
    ensures Divides(d, Combination(x, a, y, b))
  {
    var k, l := a / d, b / d;
    MultipleIs(d, a);
    MultipleIs(d, b);
    Factor(x, k, y, l, d);
    DividesMultiple(d, x * k + y * l);
  }

  lemma Factor(x: int, k: int, y: int, l: int, d: int)
    ensures x * (k * d) + y * (l * d) == (x * k + y * l) * d
  {
    assert x * (k * d) == x * k * d && y * (l * d) == y * l * d;
  }

  /** Euclid's algorithm computes a common divisor that is a combination of both numbers. */
  lemma {:induction false} EuclidIs(a: nat, b: nat) returns (x: int, y: int)
    requires a > 0 || b > 0
    ensures Divides(Euclid(a, b), a) && Divides(Euclid(a, b), b)
    ensures Combination(x, a, y, b) == Euclid(a, b)
    decreases b
  {
    if b == 0 {
      x, y := 1, 0;
      DividesMultiple(a, 1);
      DividesMultiple(a, 0);
    } else {
      var q, r := a / b, a % b;
      var u, v := EuclidIs(b, r);
      x, y := v, u - v * q;
      assert a == q * b + r;
      DividesCombination(Euclid(b, r), q, b, 1, r);
      Rearrange(u, b, v, r, q);
    }
  }

  lemma Rearrange(u: int, b: int, v: int, r: int, q: int)
    ensures v * (q * b + r) + (u - v * q) * b == u * b + v * r
  {
    assert v * (q * b + r) == v * q * b + v * r;
  }

  /** The same for the absolute values of any two numbers. */
  lemma GcdIs(a: int, b: int) returns (x: int, y: int)
    ensures Divides(Gcd(a, b), a) && Divides(Gcd(a, b), b)
    ensures a != 0 || b != 0 ==> Combination(x, a, y, b) == Gcd(a, b)
  {
    x, y := 0, 0;
    if a != 0 || b != 0 {
      x, y := EuclidIs(Abs(a), Abs(b));
      DividesAbs(Gcd(a, b), a);
      DividesAbs(Gcd(a, b), b);
      x, y := if a < 0 then -x else x, if b < 0 then -y else y;
    }
  }

  lemma DividesAbs(d: nat, n: int)
    requires Divides(d, Abs(n))
    ensures Divides(d, n)
  {
    if n < 0 {
      var q := -n / d;
      MultipleIs(d, -n);
      MulOut(-1, d, q);
      DividesMultiple(d, -q);
    }
  }

  // ---- numbers without a common divisor ----

  ghost predicate Coprime(a: int, b: int)
  {
    exists x, y :: Combination(x, a, y, b) == 1
  }

  /** Coprime numbers have no common divisor but 1, and a greatest common divisor of 1. */
  lemma CoprimeMeans(a: int, b: int, d: nat)
    requires Coprime(a, b) && Divides(d, a) && Divides(d, b)
    ensures d == 1
  {
    var x, y :| Combination(x, a, y, b) == 1;
    DividesCombination(d, x, a, y, b);
  }

  lemma CoprimeIsGcd(a: int, b: int)
    requires a != 0 || b != 0
    ensures Coprime(a, b) <==> Gcd(a, b) == 1
  {
    var x, y := GcdIs(a, b);
    if Coprime(a, b) {
      CoprimeMeans(a, b, Gcd(a, b));
    }
  }

  lemma CoprimeSwap(a: int, b: int)
    requires Coprime(a, b)
    ensures Coprime(b, a)
  {
    var x, y :| Combination(x, a, y, b) == 1;
    assert Combination(y, b, x, a) == 1;
  }

  /** What is coprime to two numbers is coprime to their product. */
  lemma CoprimeProduct(a: int, b: int, c: int)
    requires Coprime(a, b) && Coprime(a, c)
    ensures Coprime(a, b * c)
  {
    var x, y :| Combination(x, a, y, b) == 1;
    var u, v :| Combination(u, a, v, c) == 1;
    ProductOfOnes(a, b, c, x, y, u, v);
    assert Combination(x * u * a + x * v * c + y * u * b, a, y * v, b * c) == 1;
  }

  lemma ProductOfOnes(a: int, b: int, c: int, x: int, y: int, u: int, v: int)
    ensures (x * a + y * b) * (u * a + v * c) == (x * u * a + x * v * c + y * u * b) * a + (y * v) * (b * c)
  {
    var p, q := u * a, v * c;
    assert (x * a + y * b) * (p + q) == x * a * p + x * a * q + y * b * p + y * b * q;
    assert x * a * (u * a) == x * u * a * a;
    assert x * a * (v * c) == x * v * c * a;
    assert y * b * (u * a) == y * u * b * a;
    assert y * b * (v * c) == (y * v) * (b * c);
  }

  /** Factors of coprime numbers are coprime. */
  lemma CoprimeFactor(a: int, b: int, k: int, l: int)
    requires Coprime(a * k, b * l)
    ensures Coprime(a, b)
  {
    var x, y :| Combination(x, a * k, y, b * l) == 1;
    assert x * (a * k) == (x * k) * a && y * (b * l) == (y * l) * b;
    assert Combination(x * k, a, y * l, b) == 1;
  }

  /** Dividing two numbers by their greatest common divisor leaves coprime numbers. */
  lemma Cancelled(a: int, b: int)
    requires a != 0 || b != 0
    ensures Coprime(a / Gcd(a, b), b / Gcd(a, b))
    ensures a == (a / Gcd(a, b)) * Gcd(a, b) && b == (b / Gcd(a, b)) * Gcd(a, b)
  {
    var x, y := GcdIs(a, b);
    var g := Gcd(a, b);
    MultipleIs(g, a);
    MultipleIs(g, b);
    Factor(x, a / g, y, b / g, g);
    OneTimes(Combination(x, a / g, y, b / g), g);
  }

  lemma OneTimes(n: int, d: int)
    requires d > 0 && n * d == d
    ensures n == 1
  {
    assert (n - 1) * d == 0;
  }

  // ---- ratios ----

  datatype Ratio = Ratio(num: int, den: int)

  /** A positive denominator and no common divisor. */
  ghost predicate Lowest(r: Ratio)
  {
    r.den > 0 && Coprime(r.num, r.den)
  }

  /** Two ratios are the same number. */
  predicate SameValue(n1: int, d1: int, n2: int, d2: int)
  {
    n1 * d2 == n2 * d1
  }

  function Sign(n: int): int
  {
    if n < 0 then -1 else 1
  }

  /** The ratio n to d, reduced, with the sign in the numerator. */
  function Reduced(n: int, d: int): Ratio
    requires d != 0
  {
    Ratio(Sign(n) * Sign(d) * (Abs(n) / Gcd(n, d)), Abs(d) / Gcd(n, d))
  }

  lemma AbsDiv(n: int, g: nat)
    requires Divides(g, n)
    ensures Abs(n) / g == Abs(n / g) && Sign(n) * Abs(n / g) == n / g
  {
    MultipleIs(g, n);
    if n >= 0 {
      DivModUnique(n, g, n / g, 0);
      assert n / g >= 0;
    } else {
      var k := n / g;
      assert -n == (-k) * g;
      DivModUnique(-n, g, -k, 0);
      NegativeQuotient(k, g);
    }
  }

  lemma NegativeQuotient(k: int, g: nat)
    requires g > 0 && k * g < 0
    ensures k < 0
  {
    assert k >= 0 ==> k * g >= 0;
  }

  lemma ReducedIsLowest(n: int, d: int)
    requires d != 0
    ensures Lowest(Reduced(n, d))
    ensures SameValue(Reduced(n, d).num, Reduced(n, d).den, n, d)
  {
    var g := Gcd(n, d);
    var x, y := GcdIs(n, d);
    var k, l := n / g, d / g;
    AbsDiv(n, g);
    AbsDiv(d, g);
    Cancelled(n, d);
    CoprimeSigned(k, l, Sign(d));
    SameSigned(k, l, Sign(d), g);
  }

  lemma CoprimeSigned(k: int, l: int, s: int)
    requires Coprime(k, l) && (s == 1 || s == -1)
    ensures Coprime(s * k, s * l)
  {
    var u, v :| Combination(u, k, v, l) == 1;
    assert Combination(s * u, s * k, s * v, s * l) == 1;
  }

  lemma SameSigned(k: int, l: int, s: int, g: int)
    ensures SameValue(s * k, s * l, k * g, l * g)
  {
    assert s * k * (l * g) == k * g * (s * l);
  }

  // ---- products ----

  /** The product, unless it overflows. */
  function SafeMultiply(a: int, b: int): Option<int>
  {
    if Abs(a) <= MAX / (if b == 0 then 1 else Abs(b)) then Some(a * b) else None
  }

  /** The guard, a division, is exact: it refuses precisely the products that do not fit. */
  lemma SafeMultiplyIff(a: int, b: int)
    requires Abs(a) <= MAX
    ensures SafeMultiply(a, b).Some? <==> Abs(a * b) <= MAX
  {
    AbsProduct(a, b);
    if b != 0 {
      var d, q := Abs(b), MAX / Abs(b);
      assert MAX == q * d + MAX % d;
      if Abs(a) <= q {
        MulMono(Abs(a), q, d);
      } else {
        MulMono(q + 1, Abs(a), d);
        assert (q + 1) * d == q * d + d;
      }
    }
  }

  lemma AbsProduct(a: int, b: int)
    ensures Abs(a * b) == Abs(a) * Abs(b)
  {
    if a < 0 && b < 0 {
      assert (-a) * (-b) == a * b && a * b >= 0;
    } else if a < 0 {
      assert (-a) * b == -(a * b);
      assert (-a) * b >= 0;
    } else if b < 0 {
      assert a * (-b) == -(a * b);
      assert a * (-b) >= 0;
    } else {
      assert a * b >= 0;
    }
  }

  /** The product with common factors cancelled crosswise beforehand, in unbounded numbers. */
  function Crossed(r: Ratio, s: Ratio): Ratio
  {
    var gx, gy := Gcd(r.num, s.den), Gcd(s.num, r.den);
    Ratio((r.num / gx) * (s.num / gy), (r.den / gy) * (s.den / gx))
  }

  /** The same product, or nothing if it overflows. */
  function Multiply(r: Ratio, s: Ratio): Option<Ratio>
  {
    var gx, gy := Gcd(r.num, s.den), Gcd(s.num, r.den);
    var num, den := SafeMultiply(r.num / gx, s.num / gy), SafeMultiply(r.den / gy, s.den / gx);
    if num.Some? && den.Some? then Some(Ratio(num.value, den.value)) else None
  }

  lemma CoprimeProducts(a: int, b: int, c: int, e: int)
    requires Coprime(a, b) && Coprime(a, e) && Coprime(c, b) && Coprime(c, e)
    ensures Coprime(a * c, e * b)
  {
    CoprimeProduct(a, e, b);
    CoprimeProduct(c, e, b);
    CoprimeSwap(a, e * b);
    CoprimeSwap(c, e * b);
    CoprimeProduct(e * b, a, c);
    CoprimeSwap(e * b, a * c);
  }

  lemma CrossValue(a: int, b: int, c: int, e: int, x: int, y: int)
    ensures SameValue(a * c, e * b, (a * x) * (c * y), (e * y) * (b * x))
  {
    assert (e * y) * (b * x) == (e * b) * (x * y);
    assert (a * x) * (c * y) == (a * c) * (x * y);
    assert (a * c) * ((e * b) * (x * y)) == ((a * c) * (x * y)) * (e * b);
  }

  lemma PositiveQuotient(d: int, g: nat)
    requires d > 0 && Divides(g, d)
    ensures d / g > 0
  {
    MultipleIs(g, d);
    PositiveFactor(d / g, g);
  }

  lemma PositiveFactor(k: int, g: nat)
    requires k * g > 0
    ensures k > 0
  {
    assert k <= 0 ==> k * g <= 0;
  }

  /** The cross-cancelled product of ratios in lowest terms is the product, and in lowest terms without reducing it. */
  lemma ProductIsLowest(r: Ratio, s: Ratio)
    requires Lowest(r) && Lowest(s) && Multiply(r, s).Some?
    ensures var p := Multiply(r, s).value;
            Lowest(p) && SameValue(p.num, p.den, r.num * s.num, r.den * s.den)
  {
    CrossedIsLowest(r, s);
  }

  lemma CrossedIsLowest(r: Ratio, s: Ratio)
    requires Lowest(r) && Lowest(s)
    ensures var p := Crossed(r, s);
            Lowest(p) && SameValue(p.num, p.den, r.num * s.num, r.den * s.den)
  {
    var gx, gy := Gcd(r.num, s.den), Gcd(s.num, r.den);
    var a, b, c, e := r.num / gx, s.den / gx, s.num / gy, r.den / gy;
    Cancelled(r.num, s.den);
    Cancelled(s.num, r.den);
    CoprimeFactor(a, e, gx, gy);
    CoprimeFactor(c, b, gy, gx);
    CoprimeProducts(a, b, c, e);
    CrossValue(a, b, c, e, gx, gy);
    var x, y := GcdIs(r.num, s.den);
    var u, v := GcdIs(s.num, r.den);
    PositiveQuotient(r.den, gy);
    PositiveQuotient(s.den, gx);
    assert e * b > 0;
  }

  /** Lowest terms are unique. */
  lemma LowestUnique(p: Ratio, q: Ratio)
    requires Lowest(p) && Lowest(q) && SameValue(p.num, p.den, q.num, q.den)
    ensures p == q
  {
    DenominatorDivides(p, q);
    DenominatorDivides(q, p);
    MutualDivisors(p.den, q.den);
    CancelFactor(p.den, p.num, q.num);
  }

  lemma DenominatorDivides(p: Ratio, q: Ratio)
    requires Lowest(p) && Lowest(q) && SameValue(p.num, p.den, q.num, q.den)
    ensures Divides(p.den, q.den)
  {
    var x, y :| Combination(x, p.num, y, p.den) == 1;
    assert q.den == (x * q.num + y * q.den) * p.den by { Substituted(x, y, p, q); }
    DividesMultiple(p.den, x * q.num + y * q.den);
  }

  lemma Substituted(x: int, y: int, p: Ratio, q: Ratio)
    requires Combination(x, p.num, y, p.den) == 1 && SameValue(p.num, p.den, q.num, q.den)
    ensures q.den == (x * q.num + y * q.den) * p.den
  {
    assert q.den == q.den * (x * p.num + y * p.den);
    assert q.den * (x * p.num) == x * (p.num * q.den);
    assert q.den * (y * p.den) == (y * q.den) * p.den;
    assert x * (q.num * p.den) == (x * q.num) * p.den;
  }

  lemma MutualDivisors(d: nat, e: nat)
    requires Divides(d, e) && Divides(e, d)
    ensures d == e
  {
    DivisorIsSmaller(d, e);
    DivisorIsSmaller(e, d);
  }

  lemma DivisorIsSmaller(d: nat, n: nat)
    requires Divides(d, n) && n > 0
    ensures d <= n
  {
    MultipleIs(d, n);
    PositiveFactor(n / d, d);
    MulAtLeast(n / d, d);
  }

  /** A ratio that 64-bit numbers can hold. */
  predicate Fits(r: Ratio)
  {
    Abs(r.num) <= MAX && Abs(r.den) <= MAX
  }

  /** Multiplication gives the product in lowest terms exactly if that fits, whatever it is computed from. */
  lemma MultiplyIs(r: Ratio, s: Ratio, p: Ratio)
    requires Lowest(r) && Lowest(s) && Fits(r) && Fits(s)
    requires Lowest(p) && SameValue(p.num, p.den, r.num * s.num, r.den * s.den)
    ensures Multiply(r, s) == if Fits(p) then Some(p) else None
  {
    var c := Crossed(r, s);
    CrossedIsLowest(r, s);
    assert r.den * s.den > 0;
    SameTransitive(p, c, r.num * s.num, r.den * s.den);
    LowestUnique(p, c);
    var gx, gy := Gcd(r.num, s.den), Gcd(s.num, r.den);
    QuotientIsSmaller(r.num, s.den);
    QuotientIsSmaller(s.num, r.den);
    SafeMultiplyIff(r.num / gx, s.num / gy);
    SafeMultiplyIff(r.den / gy, s.den / gx);
  }

  lemma SameTransitive(p: Ratio, q: Ratio, n: int, d: int)
    requires d != 0 && SameValue(p.num, p.den, n, d) && SameValue(q.num, q.den, n, d)
    ensures SameValue(p.num, p.den, q.num, q.den)
  {
    assert (p.num * q.den) * d == (p.num * d) * q.den == (n * p.den) * q.den;
    assert (q.num * p.den) * d == (q.num * d) * p.den == (n * q.den) * p.den;
    CancelFactor(d, p.num * q.den, q.num * p.den);
  }

  lemma QuotientIsSmaller(a: int, b: int)
    requires b > 0
    ensures Abs(a / Gcd(a, b)) <= Abs(a) && Abs(b / Gcd(a, b)) <= Abs(b)
  {
    var g := Gcd(a, b);
    var x, y := GcdIs(a, b);
    MultipleIs(g, a);
    MultipleIs(g, b);
    SmallerFactor(a / g, g);
    SmallerFactor(b / g, g);
  }

  lemma SmallerFactor(k: int, g: nat)
    requires g > 0
    ensures Abs(k) <= Abs(k * g)
  {
    AbsProduct(k, g);
    MulMono(1, g, Abs(k));
  }

  /** Division multiplies by the reduced inverse. */
  function Divide(r: Ratio, s: Ratio): Option<Ratio>
    requires s.num != 0
  {
    Multiply(r, Reduced(s.den, s.num))
  }

  lemma QuotientIsLowest(r: Ratio, s: Ratio)
    requires Lowest(r) && Lowest(s) && s.num != 0 && Divide(r, s).Some?
    ensures var p := Divide(r, s).value;
            Lowest(p) && SameValue(p.num, p.den, r.num * s.den, r.den * s.num)
  {
    var t := Reduced(s.den, s.num);
    ReducedIsLowest(s.den, s.num);
    ProductIsLowest(r, t);
    var p := Divide(r, s).value;
    SubstituteFactor(p.num, p.den, r.num, r.den, t.num, t.den, s.den, s.num);
  }

  /** Replacing a factor t by an equal ratio u. */
  lemma SubstituteFactor(n: int, d: int, rn: int, rd: int, tn: int, td: int, un: int, ud: int)
    requires SameValue(n, d, rn * tn, rd * td) && SameValue(tn, td, un, ud) && td != 0
    ensures SameValue(n, d, rn * un, rd * ud)
  {
    assert n * (rd * td) * ud == rn * tn * d * ud;
    assert rn * tn * d * ud == (rn * d) * (tn * ud);
    assert (rn * d) * (un * td) == td * (rn * un * d);
    assert n * (rd * td) * ud == td * (n * (rd * ud));
    CancelFactor(td, n * (rd * ud), rn * un * d);
  }

  // ---- comparison ----

  datatype Wide = Wide(upper: nat, lower: nat)

  function WideValue(w: Wide): nat
  {
    w.upper * W64 + w.lower
  }

  predicate WideLess(v: Wide, w: Wide)
  {
    if v.upper != w.upper then v.upper < w.upper else v.lower < w.lower
  }

  lemma WideLessIff(v: Wide, w: Wide)
    requires v.lower < W64 && w.lower < W64
    ensures WideLess(v, w) <==> WideValue(v) < WideValue(w)
  {
  }

  /** The product of two halves and what is carried into it fits a word. */
  lemma HalvesFit(a: nat, b: nat, c: nat)
    requires a < W32 && b < W32 && c < W32
    ensures a * b + c < W64 && a * b <= (W32 - 1) * (W32 - 1)
  {
    MulMono(a, W32 - 1, b);
    assert a * b <= (W32 - 1) * b;
    assert (W32 - 1) * b <= (W32 - 1) * (W32 - 1);
  }

  /** The schoolbook product of two-digit numbers in base 2^32. */
  lemma Schoolbook(ah: nat, al: nat, bh: nat, bl: nat)
    ensures (ah * W32 + al) * (bh * W32 + bl) == (ah * bh) * W64 + (ah * bl + al * bh) * W32 + al * bl
  {
    var x, y := ah * W32, bh * W32;
    assert (x + al) * (y + bl) == x * y + x * bl + al * y + al * bl;
    assert x * y == (ah * bh) * (W32 * W32);
    assert x * bl == (ah * bl) * W32 && al * y == (al * bh) * W32;
  }

  lemma Halve(t: nat)
    ensures t == (t / W32) * W32 + t % W32 && t % W32 < W32
    ensures t < W64 ==> t / W32 < W32
  {
  }

  /** The two words assembled from the four partial products, given those as p = al*bl, and so on. */
  lemma Assemble(p: nat, q: nat, r: nat, hh: nat) returns (tmp: nat, tmp': nat)
    ensures tmp == q + p / W32 && tmp' == r + tmp % W32
    ensures (hh + tmp / W32 + tmp' / W32) * W64 + ((tmp' % W32) * W32 + p % W32) == hh * W64 + (r + q) * W32 + p
    ensures (tmp' % W32) * W32 + p % W32 < W64
  {
    tmp := q + p / W32;
    tmp' := r + tmp % W32;
    Halve(p);
    Halve(tmp);
    Halve(tmp');
  }

  /** Two 64-bit factors give their exact product in two words; no intermediate sum overflows. */
  method MultiplyWide(a: nat, b: nat) returns (w: Wide)
    requires a < W64 && b < W64
    ensures w.upper < W64 && w.lower < W64 && WideValue(w) == a * b
  {
    var al, ah, bl, bh := a % W32, a / W32, b % W32, b / W32;
    Halve(a);
    Halve(b);
    Schoolbook(ah, al, bh, bl);
    HalvesFit(al, bl, 0);
    ghost var t, t' := Assemble(al * bl, al * bh, ah * bl, ah * bh);
    var tmp := al * bl;
    var lower32 := tmp % W32;
    var carry := tmp / W32;
    HalvesFit(al, bh, carry);
    tmp := al * bh + carry;
    var midLower, midUpper := tmp % W32, tmp / W32;
    HalvesFit(ah, bl, midLower);
    tmp := ah * bl + midLower;
    carry := tmp / W32;
    w := Wide(ah * bh + midUpper + carry, (tmp * W32) % W64 + lower32);
    ShiftWraps(tmp);
    UpperFits(w, a, b);
  }

  /** Shifting left by 32 bits drops the upper half. */
  lemma ShiftWraps(t: nat)
    ensures (t * W32) % W64 == (t % W32) * W32
  {
    Halve(t);
    assert t * W32 == (t / W32) * W64 + (t % W32) * W32;
    DivModUnique(t * W32, W64, t / W32, (t % W32) * W32);
  }

  lemma UpperFits(w: Wide, a: nat, b: nat)
    requires a < W64 && b < W64 && WideValue(w) == a * b
    ensures w.upper < W64
  {
    MulMono(a, W64, b);
    assert W64 * b < W64 * W64;
  }

  /** For positive denominators and numerators above the least 64-bit number, the comparison is exact. */
  method IsRatioLess(n1: int, d1: int, n2: int, d2: int) returns (less: bool)
    requires -MAX <= n1 <= MAX && -MAX <= n2 <= MAX && 0 < d1 <= MAX && 0 < d2 <= MAX
    ensures less <==> n1 * d2 < n2 * d1
  {
    if n1 >= 0 && n2 >= 0 {
      var v := MultiplyWide(n1, d2);
      var w := MultiplyWide(n2, d1);
      WideLessIff(v, w);
      return WideLess(v, w);
    }
    if n1 < 0 && n2 < 0 {
      var v := MultiplyWide(-n2, d1);
      var w := MultiplyWide(-n1, d2);
      WideLessIff(v, w);
      assert (-n2) * d1 == -(n2 * d1) && (-n1) * d2 == -(n1 * d2);
      return WideLess(v, w);
    }
    SignsDecide(n1, d2);
    SignsDecide(n2, d1);
    return n1 < n2;
  }

  lemma SignsDecide(n: int, d: int)
    requires d > 0
    ensures n < 0 <==> n * d < 0
  {
  }
}
