/**
  The fallback float formatter from the bits of a number on: the numerator and
  the denominator that it sets up, and the fixed number of digits it generates
  from them. The one tie that digit generation would miss never comes up.
 */
module FallbackFormat {
  import opened Basics
  import opened BinaryNumbers
  import opened BigNum
  import opened BigIntegers
  import opened FixedDigits

  // ---- the significand ----

  lemma SignificandFits(f: nat, size: nat, shift: nat)
    requires f < Pow(2, size) && size + shift <= 64
    ensures f * Pow(2, shift) < W64
  {
    MulMono(f, Pow(2, size) - 1, Pow(2, shift));
    MulDistribute(Pow(2, size) - 1, 1, Pow(2, shift));
    PowSum(2, size, shift);
    PowMono(2, size + shift, 64);
    Pow2Is32();
    PowSum(2, 32, 32);
  }

  // ---- the quotient that the digits are taken from ----

  function Positive(x: int): nat {
    if x > 0 then x else 0
  }

  /** f * 2^e / 10^exp10 is Over / Under. */
  function Over(v: Fp, exp10: int): nat
  {
    v.f * Pow(2, Positive(v.e)) * Pow(10, Positive(-exp10))
  }

  function Under(v: Fp, exp10: int): nat
  {
    Pow(2, Positive(-v.e)) * Pow(10, Positive(exp10))
  }

  /** What the caller knows of the number: it is below 10^(exp10 + 1). */
  ghost predicate BelowTen(v: Fp, exp10: int)
  {
    Over(v, exp10) < 10 * Under(v, exp10)
  }

  /** One unit in the last place of f, in the units of Over. */
  function Unit(v: Fp, exp10: int): nat
  {
    Pow(2, Positive(v.e)) * Pow(10, Positive(-exp10))
  }

  /** The same number with a lower exponent. */
  ghost predicate Spread(v: Fp, n: Fp)
  {
    n.e <= v.e && n.f == v.f * Pow(2, v.e - n.e)
  }

  /** It is the same quotient, up to a factor. */
  lemma SpreadScales(v: Fp, n: Fp, exp10: int) returns (c: nat)
    requires Spread(v, n)
    ensures c > 0 && Over(n, exp10) == c * Over(v, exp10) && Under(n, exp10) == c * Under(v, exp10)
    ensures Pow(2, v.e - n.e) * Unit(n, exp10) == c * Unit(v, exp10)
  {
    var d := v.e - n.e;
    var k := d + Positive(n.e) - Positive(v.e);
    c := Pow(2, k);
    PowSum(2, d, Positive(n.e));
    PowSum(2, k, Positive(v.e));
    PowSum(2, k, Positive(-v.e));
    var x, y, z := Pow(2, d), Pow(2, Positive(n.e)), Pow(2, Positive(v.e));
    var ten := Pow(10, Positive(-exp10));
    assert x * y == c * z;
    SpreadProducts(v.f, x, y, c, z, ten);
    MulAssoc(c, Pow(2, Positive(-v.e)), Pow(10, Positive(exp10)));
  }

  lemma SpreadProducts(f: nat, x: nat, y: nat, c: nat, z: nat, ten: nat)
    requires x * y == c * z
    ensures f * x * y * ten == c * (f * z * ten) && x * (y * ten) == c * (z * ten)
  {
    MulAssoc(f, x, y);
    MulOut(c, f, z);
    MulAssoc(c, f * z, ten);
    MulAssoc(x, y, ten);
    MulAssoc(c, z, ten);
  }

  /** In both formats the number one is one. */
  lemma OneIsOne(kind: Binary)
    requires kind.Valid() && kind.Bias() > 0
    ensures Over(Number(kind, 0, kind.Bias()), 0) == Under(Number(kind, 0, kind.Bias()), 0) > 0
  {
    OneAndLeast(kind);
    assert Pow(10, 0) == 1 && Pow(2, 0) == 1;
  }

  lemma BelowTenSpread(v: Fp, n: Fp, exp10: int)
    requires Spread(v, n)
    ensures BelowTen(v, exp10) <==> BelowTen(n, exp10)
  {
    var c := SpreadScales(v, n, exp10);
    var a, b := Over(v, exp10), Under(v, exp10);
    MulOut(10, c, b);
    if a < 10 * b {
      MulMono(a + 1, 10 * b, c);
      MulDistribute(a, 1, c);
    } else {
      MulMono(10 * b, a, c);
    }
  }

  lemma IntegersHaveDigits(v: Fp, exp10: int)
    requires v.f > 0 && v.e >= 0 && BelowTen(v, exp10)
    ensures exp10 >= 0
  {
    if exp10 < 0 {
      var n := v.f * Pow(2, v.e);
      assert Over(v, exp10) == n * (10 * Pow(10, -exp10 - 1));
      MulMono(1, n, 10 * Pow(10, -exp10 - 1));
    }
  }

  // ---- no tie is missed ----

  lemma {:induction false} PowerOfFiveIsOdd(k: nat)
    ensures Pow(5, k) % 2 == 1
  {
    if k > 0 {
      PowerOfFiveIsOdd(k - 1);
    }
  }

  lemma {:induction false} PowerOfTwoHasNoFive(k: nat)
    ensures Pow(2, k) % 5 != 0
  {
    if k > 0 {
      PowerOfTwoHasNoFive(k - 1);
    }
  }

  /** f * 2^e needs a five in f for every two, to be a product of fives and tens. */
  lemma {:induction false} FiveForEveryTwo(f: nat, e: nat, i: nat, x: nat)
    requires f * Pow(2, e) == Pow(5, i) * Pow(10, x)
    ensures Pow(5, i + e) <= f
    decreases e
  {
    if e == 0 {
      MulMono(1, Pow(10, x), Pow(5, i));
    } else if x == 0 {
      DropTwo(f, Pow(2, e - 1), Pow(5, i), 0);
      PowerOfFiveIsOdd(i);
    } else {
      FiveForTwo(f, Pow(2, e - 1), Pow(5, i), Pow(10, x - 1));
      assert 5 * Pow(5, i) == Pow(5, i + 1);
      FiveForEveryTwo(f, e - 1, i + 1, x - 1);
    }
  }

  lemma FiveForTwo(f: nat, p: nat, five: nat, ten: nat)
    requires f * (2 * p) == five * (10 * ten)
    ensures f * p == 5 * five * ten
  {
    DropTwo(f, p, five, ten);
  }

  lemma DropTwo(f: nat, p: nat, five: nat, ten: nat)
    ensures f * (2 * p) == 2 * (f * p) && five * (10 * ten) == 2 * (5 * five * ten)
  {
    MulAssoc(five, 10, ten);
    MulAssoc(5 * five, 2, ten);
  }

  lemma LargePower()
    ensures Pow(5, 32) >= W64
  {
    assert Pow(5, 8) == 390625 by { assert Pow(5, 4) == 625; }
    PowSum(5, 8, 8);
    PowSum(5, 16, 16);
  }

  /** A whole number that is ten to a power, up to further tens, has a small binary exponent. */
  lemma {:induction false} TieIsSmall(f: nat, e: nat, j: nat, x: nat)
    requires 0 < f < W64 && f * Pow(2, e) * Pow(10, j) == Pow(10, x)
    ensures e < 32
  {
    if j == 0 {
      FiveForEveryTwo(f, e, 0, x);
      LargePower();
      if e >= 32 {
        PowMono(5, 32, e);
      }
    } else {
      var n := f * Pow(2, e);
      assert n * (10 * Pow(10, j - 1)) == 10 * (n * Pow(10, j - 1));
      TieIsSmall(f, e, j - 1, x - 1);
    }
  }

  lemma FiveDivides(f: nat, p: nat, q: nat)
    ensures f * (10 * p) * q % 5 == 0
  {
    var n := f * p * q;
    assert f * (10 * p) == 10 * (f * p);
    MulAssoc(10, f * p, q);
    assert 10 * n % 5 == 0;
  }

  /** A positive power of ten times anything is not a power of two. */
  lemma NoTieBelowOne(f: nat, k: nat, j: nat, x: nat)
    requires k > 0
    ensures f * Pow(10, k) * Pow(10, j) != Pow(2, x)
  {
    PowerOfTwoHasNoFive(x);
    FiveDivides(f, Pow(10, k - 1), Pow(10, j));
  }

  /** Only a whole number of 32 bits and more starts with an exponent, and then there is no tie. */
  lemma NoTie(v: Fp, exp10: int, j: nat)
    requires 0 < v.f < W64 && (v.e >= 0 ==> exp10 >= 0) && (v.e >= 32 || (v.e < 0 && exp10 < 0))
    ensures Over(v, exp10) * Pow(10, j) != Under(v, exp10)
  {
    if v.e >= 0 {
      if Over(v, exp10) * Pow(10, j) == Under(v, exp10) {
        TieIsSmall(v.f, v.e, j, exp10);
      }
    } else {
      NoTieBelowOne(v.f, -exp10, j, -v.e);
    }
  }

  lemma ScaledNoTie(c: nat, n: nat, w: nat, j: nat)
    requires c > 0 && n * Pow(10, j) != w
    ensures !TieAt(c * n, c * w, j)
  {
    ScaledIsProduct(c * n, j);
    MulAssoc(c, n, Pow(10, j));
    if TieAt(c * n, c * w, j) {
      CancelFactor(c, n * Pow(10, j), w);
    }
  }

  // ---- numerator and denominator ----

  function Shift(closer: bool): nat {
    if closer then 2 else 1
  }

  /** Numerator and denominator hold the quotient, with the same factor on both sides. */
  ghost predicate SetFor(num: BigInt, den: BigInt, v: Fp, exp10: int, shift: nat)
    reads num, den
  {
    && num != den && num.Valid() && den.Valid()
    && num.Value() == Pow(2, shift) * Over(v, exp10) && den.Value() == Pow(2, shift) * Under(v, exp10)
  }

  lemma WholeValues(v: Fp, exp10: int, shift: nat)
    requires v.e >= 0 && exp10 >= 0
    ensures Pow(2, v.e) * (v.f * Pow(2, shift)) == Pow(2, shift) * Over(v, exp10)
    ensures Pow(2, shift) * Pow(10, exp10) == Pow(2, shift) * Under(v, exp10)
  {
    var n := v.f * Pow(2, v.e);
    assert Over(v, exp10) == n && Under(v, exp10) == Pow(10, exp10);
    MulReverse(Pow(2, v.e), v.f, Pow(2, shift));
  }

  lemma MulReverse(a: nat, b: nat, c: nat)
    ensures a * (b * c) == c * (b * a)
  {}

  lemma SmallValues(v: Fp, exp10: int, shift: nat)
    requires v.e < 0 && exp10 < 0
    ensures v.f * Pow(2, shift) * Pow(10, -exp10) == Pow(2, shift) * Over(v, exp10)
    ensures Pow(2, shift - v.e) == Pow(2, shift) * Under(v, exp10)
  {
    assert Over(v, exp10) == v.f * Pow(10, -exp10) && Under(v, exp10) == Pow(2, -v.e);
    PowSum(2, shift, -v.e);
    assert v.f * Pow(2, shift) * Pow(10, -exp10) == Pow(2, shift) * (v.f * Pow(10, -exp10));
  }

  lemma MixedValues(v: Fp, exp10: int, shift: nat)
    requires v.e < 0 && exp10 >= 0
    ensures v.f * Pow(2, shift) == Pow(2, shift) * Over(v, exp10)
    ensures Pow(2, shift - v.e) * Pow(10, exp10) == Pow(2, shift) * Under(v, exp10)
  {
    assert Over(v, exp10) == v.f;
    PowSum(2, shift, -v.e);
    MulAssoc(Pow(2, shift), Pow(2, -v.e), Pow(10, exp10));
  }

  /** Half the distances to the neighbours of the number, in the units of the numerator. */
  ghost predicate BoundariesFor(lower: BigInt, upper: BigInt, v: Fp, closer: bool, exp10: int)
    reads lower, upper
  {
    && lower.Valid() && upper.Valid() && (lower == upper <==> !closer)
    && lower.Value() == Unit(v, exp10) && upper.Value() == (if closer then 2 else 1) * Unit(v, exp10)
  }

  /** The exponents that numerator and denominator are stored with. */
  ghost predicate Exponents(num: BigInt, den: BigInt, lower: BigInt, v: Fp, exp10: int, shift: nat)
    reads num, den, lower
  {
    && lower.exp == num.exp
    && num.exp == (if v.e >= 0 then v.e / 32 else if exp10 < 0 then -exp10 / 32 else 0)
    && (v.e >= 0 ==> exp10 >= 0 && den.exp == exp10 / 32)
    && (v.e < 0 && exp10 < 0 ==> den.exp == (shift - v.e) / 32)
  }

  /** A whole number: all of it in the numerator. */
  method SetUpWhole(v: Fp, closer: bool, exp10: int) returns (num: BigInt, den: BigInt, lower: BigInt, upper: BigInt)
    requires v.f > 0 && v.f * Pow(2, Shift(closer)) < W64 && v.e >= 0 && 0 <= exp10 < 0x4000_0000
    ensures fresh(num) && fresh(den) && fresh(lower) && fresh(upper) && {num, den} !! {lower, upper}
    ensures SetFor(num, den, v, exp10, Shift(closer)) && BoundariesFor(lower, upper, v, closer, exp10)
    ensures Exponents(num, den, lower, v, exp10, Shift(closer))
  {
    num := new BigInt();
    den := new BigInt();
    var shift := Shift(closer);
    WholeValues(v, exp10, shift);
    num.AssignWord(v.f * Pow(2, shift));
    num.ShiftLeft(v.e);
    den.AssignPow10(exp10);
    den.ShiftLeft(shift);
    lower, upper := WholeBoundaries(v, closer, exp10);
  }

  method WholeBoundaries(v: Fp, closer: bool, exp10: int) returns (lower: BigInt, upper: BigInt)
    requires v.e >= 0 && exp10 >= 0
    ensures fresh(lower) && fresh(upper) && BoundariesFor(lower, upper, v, closer, exp10) && lower.exp == v.e / 32
  {
    lower := new BigInt();
    lower.AssignWord(1);
    lower.ShiftLeft(v.e);
    upper := lower;
    if Shift(closer) != 1 {
      upper := new BigInt();
      upper.AssignWord(1);
      upper.ShiftLeft(v.e + 1);
    }
  }

  /** A fraction and a negative exponent: the power of ten goes into the numerator. */
  method SetUpSmall(v: Fp, closer: bool, exp10: int) returns (num: BigInt, den: BigInt, lower: BigInt, upper: BigInt)
    requires v.f > 0 && v.f * Pow(2, Shift(closer)) < W64 && v.e < 0 && -0x4000_0000 < exp10 < 0
    ensures fresh(num) && fresh(den) && fresh(lower) && fresh(upper) && {num, den} !! {lower, upper}
    ensures SetFor(num, den, v, exp10, Shift(closer)) && BoundariesFor(lower, upper, v, closer, exp10)
    ensures Exponents(num, den, lower, v, exp10, Shift(closer))
  {
    num := new BigInt();
    den := new BigInt();
    var shift := Shift(closer);
    SmallValues(v, exp10, shift);
    num.AssignPow10(-exp10);
    lower, upper := SmallBoundaries(num, v, closer, exp10);
    num.MultiplyWide(v.f * Pow(2, shift));
    den.AssignWord(1);
    den.ShiftLeft(shift - v.e);
  }

  method SmallBoundaries(ten: BigInt, v: Fp, closer: bool, exp10: int) returns (lower: BigInt, upper: BigInt)
    requires ten.Valid() && v.e < 0 && exp10 < 0 && ten.Value() == Pow(10, -exp10)
    ensures fresh(lower) && fresh(upper) && BoundariesFor(lower, upper, v, closer, exp10) && lower.exp == ten.exp
  {
    lower := new BigInt();
    lower.Assign(ten);
    upper := lower;
    if Shift(closer) != 1 {
      upper := new BigInt();
      upper.Assign(ten);
      upper.ShiftLeft(1);
    }
  }

  /** A fraction and no negative exponent: both powers go into the denominator. */
  method SetUpMixed(v: Fp, closer: bool, exp10: int) returns (num: BigInt, den: BigInt, lower: BigInt, upper: BigInt)
    requires v.f > 0 && v.f * Pow(2, Shift(closer)) < W64 && v.e < 0 && 0 <= exp10 < 0x4000_0000
    ensures fresh(num) && fresh(den) && fresh(lower) && fresh(upper) && {num, den} !! {lower, upper}
    ensures SetFor(num, den, v, exp10, Shift(closer)) && BoundariesFor(lower, upper, v, closer, exp10)
    ensures Exponents(num, den, lower, v, exp10, Shift(closer))
  {
    num := new BigInt();
    den := new BigInt();
    lower := new BigInt();
    upper := lower;
    var shift := Shift(closer);
    MixedValues(v, exp10, shift);
    num.AssignWord(v.f * Pow(2, shift));
    den.AssignPow10(exp10);
    den.ShiftLeft(shift - v.e);
    lower.AssignWord(1);
    if shift != 1 {
      upper := new BigInt();
      upper.AssignWord(2);
    }
  }

  /** Set up the quotient of the number by 10^exp10 and its boundaries, in one of three ways. */
  method SetUp(v: Fp, closer: bool, exp10: int) returns (num: BigInt, den: BigInt, lower: BigInt, upper: BigInt)
    requires v.f > 0 && v.f * Pow(2, Shift(closer)) < W64
    requires -0x4000_0000 < exp10 < 0x4000_0000 && (v.e >= 0 ==> exp10 >= 0)
    ensures fresh(num) && fresh(den) && fresh(lower) && fresh(upper) && {num, den} !! {lower, upper}
    ensures SetFor(num, den, v, exp10, Shift(closer)) && BoundariesFor(lower, upper, v, closer, exp10)
    ensures Exponents(num, den, lower, v, exp10, Shift(closer))
  {
    if v.e >= 0 {
      num, den, lower, upper := SetUpWhole(v, closer, exp10);
    } else if exp10 < 0 {
      num, den, lower, upper := SetUpSmall(v, closer, exp10);
    } else {
      num, den, lower, upper := SetUpMixed(v, closer, exp10);
    }
  }

  /** A number below ten times another one has at most one bigit more. */
  lemma OneBigitMore(num: BigInt, den: BigInt)
    requires num.Valid() && den.Valid() && 0 < num.Value() < 10 * den.Value()
    ensures num.NumBigits() <= den.NumBigits() + 1
  {
    if num.NumBigits() > den.NumBigits() + 1 {
      num.ValueRange();
      den.ValueRange();
      ShiftedGrows(den.NumBigits() + 1, num.NumBigits() - 1);
    }
  }

  lemma BelowTenScales(num: BigInt, den: BigInt, v: Fp, exp10: int, shift: nat)
    requires SetFor(num, den, v, exp10, shift) && v.f > 0 && BelowTen(v, exp10)
    ensures Ready(num, den) && num.Value() < 10 * den.Value()
  {
    MulPositive(v.f, Pow(2, Positive(v.e)), Pow(10, Positive(-exp10)));
    ScaleLess(Pow(2, shift), Over(v, exp10), Under(v, exp10));
    OneBigitMore(num, den);
  }

  lemma MulPositive(a: nat, b: nat, c: nat)
    requires a > 0 && b > 0 && c > 0
    ensures a * b * c > 0
  {
    MulMono(1, a, b);
    MulMono(1, a * b, c);
  }

  lemma ScaleLess(c: nat, n: nat, w: nat)
    requires c > 0 && 0 < n < 10 * w
    ensures 0 < c * n < 10 * (c * w) && c * w > 0
  {
    assert 10 * (c * w) - c * n == c * (10 * w - n);
    MulMono(1, c, 10 * w - n);
    MulMono(1, c, n);
  }

  /** A common factor of numerator and denominator does not change the rounded quotient. */
  lemma RoundedScales(c: nat, n: nat, w: nat, x: nat)
    requires c > 0 && Rounded(c * n, c * w, x)
    ensures Rounded(n, w, x)
  {
    var f: nat, r: nat :| Quotient(c * n, c * w, f, r) && x == if RoundsUp(r, c * w, f) then f + 1 else f;
    ProdIsProduct(f, c * w);
    ProdIsProduct(f, w);
    var r' := n - f * w;
    RestScales(c, n, w, f);
    SmallRest(c, r', w);
    assert Quotient(n, w, f, r');
  }

  lemma RoundedScalesUp(c: nat, n: nat, w: nat, x: nat)
    requires c > 0 && Rounded(n, w, x)
    ensures Rounded(c * n, c * w, x)
  {
    var f: nat, r: nat :| Quotient(n, w, f, r) && x == if RoundsUp(r, w, f) then f + 1 else f;
    ProdIsProduct(f, c * w);
    ProdIsProduct(f, w);
    RestScales(c, n, w, f);
    SmallRest(c, r, w);
    assert Quotient(c * n, c * w, f, c * r);
  }

  lemma RestScales(c: nat, n: nat, w: nat, f: nat)
    ensures c * n - f * (c * w) == c * (n - f * w)
  {
    assert f * (c * w) == c * (f * w);
  }

  lemma SmallRest(c: nat, r: int, w: nat)
    requires c > 0 && (0 <= c * r < c * w || 0 <= r < w)
    ensures 0 <= r < w && 0 <= c * r < c * w
    ensures (2 * (c * r) > c * w <==> 2 * r > w) && (2 * (c * r) == c * w <==> 2 * r == w)
  {
    assert 2 * (c * r) - c * w == c * (2 * r - w);
    assert c * w - c * r == c * (w - r);
  }

  // ---- the digits ----

  /**
    The digits, and the exponent of the last one, are the number rounded to the
    nearest, ties to even: to a multiple of 10^(exp10 + 1) if no digit is asked for.
   */
  ghost predicate Formats(v: Fp, exp10: int, numDigits: nat, buf: seq<nat>, newExp10: int)
  {
    && AreDigits(buf)
    && if numDigits == 0 then
         |buf| == 1 && newExp10 == exp10 + 1 && Rounded(Over(v, exp10), 10 * Under(v, exp10), Decimal(buf))
       else
         var bump := newExp10 - (exp10 - (numDigits - 1));
         && |buf| == numDigits && (bump == 0 || (bump == 1 && OneAndZeros(buf)))
         && Rounded(Over(v, exp10) * Pow(10, numDigits - 1), Under(v, exp10), Decimal(buf) * Pow(10, bump))
  }

  /** No tie that digit generation would miss comes up in a quotient that was set up. */
  lemma NeverMissed(v: Fp, exp10: int, shift: nat)
    requires 0 < v.f < W64 && (v.e >= 0 ==> exp10 >= 0) && (v.e >= 32 || (v.e < 0 && exp10 < 0))
    ensures NeverTies(Pow(2, shift) * Over(v, exp10), Pow(2, shift) * Under(v, exp10))
  {
    forall j: nat ensures !TieAt(Pow(2, shift) * Over(v, exp10), Pow(2, shift) * Under(v, exp10), j) {
      NoTie(v, exp10, j);
      ScaledNoTie(Pow(2, shift), Over(v, exp10), Under(v, exp10), j);
    }
  }

  /** The digits of f * 2^e: for every number, they are the rounded ones. */
  method FormatNumber(v: Fp, closer: bool, numDigits: nat, exp10: int) returns (buf: seq<nat>, newExp10: int)
    requires v.f > 0 && v.f * Pow(2, Shift(closer)) < W64
    requires -0x4000_0000 < exp10 < 0x4000_0000 && BelowTen(v, exp10)
    ensures Formats(v, exp10, numDigits, buf, newExp10)
  {
    ghost var c, n, w := Pow(2, Shift(closer)), Over(v, exp10), Under(v, exp10);
    if v.e >= 0 {
      IntegersHaveDigits(v, exp10);
    }
    var num, den, _, _ := SetUp(v, closer, exp10);
    BelowTenScales(num, den, v, exp10, Shift(closer));
    if num.exp > den.exp {
      MulMono(1, c, v.f);
      NeverMissed(v, exp10, Shift(closer));
    }
    buf, newExp10 := FormatFixed(num, den, numDigits, exp10);
    if numDigits == 0 {
      MulOut(10, c, w);
      RoundedScales(c, n, 10 * w, Decimal(buf));
    } else {
      ghost var p, x := Pow(10, numDigits - 1), Decimal(buf) * Pow(10, newExp10 - (exp10 - (numDigits - 1)));
      MulAssoc(c, n, p);
      RoundedScales(c, n * p, w, x);
    }
  }

  lemma FormatsSpread(v: Fp, n: Fp, exp10: int, numDigits: nat, buf: seq<nat>, newExp10: int)
    requires Spread(v, n) && Formats(v, exp10, numDigits, buf, newExp10)
    ensures Formats(n, exp10, numDigits, buf, newExp10)
  {
    var c := SpreadScales(v, n, exp10);
    var a, b := Over(v, exp10), Under(v, exp10);
    if numDigits == 0 {
      MulOut(10, c, b);
      RoundedScalesUp(c, a, 10 * b, Decimal(buf));
    } else {
      var p, x := Pow(10, numDigits - 1), Decimal(buf) * Pow(10, newExp10 - (exp10 - (numDigits - 1)));
      MulAssoc(c, a, p);
      RoundedScalesUp(c, a * p, b, x);
    }
  }

  function Kind(binary32: bool): (kind: Binary)
    ensures kind.Valid()
  {
    if binary32 then BINARY32 else BINARY64
  }

  /**
    The fixed-digit branch of the formatter: the digits of the number that the
    bits stand for, for every positive finite number.
   */
  method FallbackFixed(binary32: bool, fraction: nat, biased: nat, numDigits: nat, exp10: int)
    returns (buf: seq<nat>, newExp10: int)
    requires fraction < Pow(2, Kind(binary32).Size()) && (fraction > 0 || biased > 0)
    requires -0x4000_0000 < exp10 < 0x4000_0000 && BelowTen(Number(Kind(binary32), fraction, biased), exp10)
    ensures Formats(Number(Kind(binary32), fraction, biased), exp10, numDigits, buf, newExp10)
  {
    var kind := Kind(binary32);
    var (v, closer) := Assign(kind, fraction, biased);
    ghost var n := Number(kind, fraction, biased);
    AssignIs(kind, fraction, biased);
    BelowTenSpread(v, n, exp10);
    SignificandFits(v.f, kind.Size() + 1, Shift(closer));
    buf, newExp10 := FormatNumber(v, closer, numDigits, exp10);
    FormatsSpread(v, n, exp10, numDigits, buf, newExp10);
  }
}
