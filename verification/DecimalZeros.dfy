/**
  Divisibility by powers of five with a multiplication by the modular inverse,
  and the removal of trailing decimal zeros that is built on it.
 */
module DecimalZeros {
  import opened Basics
  import opened Bits

  // ---- the test ----

  /** What a table entry for the divisor d must hold, in words below w. */
  predicate IsInverse(w: nat, d: nat, inverse: nat, most: nat)
  {
    w > 1 && d > 0 && (d * inverse) % w == 1 && most == (w - 1) / d
  }

  lemma ModTimes(a: int, b: int, w: nat)
    requires w > 0
    ensures ((a % w) * b) % w == (a * b) % w
  {
    var q, r := a / w, a % w;
    assert a == q * w + r;
    assert a * b == r * b + (q * b) * w;
    var y := (r * b) % w;
    assert r * b == ((r * b) / w) * w + y;
    DivModUnique(a * b, w, (r * b) / w + q * b, y);
  }

  lemma AtMostQuotient(w: nat, d: nat, k: nat)
    requires w > 0 && d > 0
    ensures k * d < w <==> k <= (w - 1) / d
    ensures k * d < w ==> k < w
  {
    var q, r := (w - 1) / d, (w - 1) % d;
    assert w - 1 == q * d + r;
    if k > q {
      MulAtLeast(k - q, d);
      assert (k - q) * d == k * d - q * d;
    } else {
      assert (q - k) * d == q * d - k * d;
      assert (q - k) * d >= 0;
    }
    if k > 0 {
      MulAtLeast(d, k);
    }
  }

  /** Divisible: the product with the inverse is the quotient. */
  lemma InverseDivides(w: nat, d: nat, inverse: nat, most: nat, k: nat)
    requires IsInverse(w, d, inverse, most) && k * d < w
    ensures (k * d * inverse) % w == k <= most
  {
    AtMostQuotient(w, d, k);
    assert k * d * inverse == (d * inverse) * k;
    ModTimes(d * inverse, k, w);
    DivModUnique(k, w, 0, k);
  }

  /** The product with the inverse is small enough exactly for the multiples of d, and then is the quotient. */
  lemma InverseTest(w: nat, d: nat, inverse: nat, most: nat, x: nat)
    requires IsInverse(w, d, inverse, most) && x < w
    ensures (x * inverse) % w <= most <==> x % d == 0
    ensures x % d == 0 ==> (x * inverse) % w == x / d
  {
    if x % d == 0 {
      assert x == (x / d) * d;
      InverseDivides(w, d, inverse, most, x / d);
    } else {
      var y := (x * inverse) % w;
      if y <= most {
        SmallProductDivides(w, d, inverse, most, x);
      }
    }
  }

  lemma SmallProductDivides(w: nat, d: nat, inverse: nat, most: nat, x: nat)
    requires IsInverse(w, d, inverse, most) && x < w && (x * inverse) % w <= most
    ensures x % d == 0
  {
    var y := (x * inverse) % w;
    AtMostQuotient(w, d, y);
    ModTimes(x * inverse, d, w);
    assert x * inverse * d == (d * inverse) * x;
    ModTimes(d * inverse, x, w);
    DivModUnique(x, w, 0, x);
    DivModUnique(y * d, w, 0, y * d);
    DivModUnique(x, d, y, 0);
  }

  // ---- the tables ----

  /** The inverse of a power of five, and the greatest quotient, in 32 bits. */
  function Entry32(exp: nat): (nat, nat)
    requires exp <= 10
  {
    match exp
    case 0 => (0x00000001, 0xffffffff)
    case 1 => (0xcccccccd, 0x33333333)
    case 2 => (0xc28f5c29, 0x0a3d70a3)
    case 3 => (0x26e978d5, 0x020c49ba)
    case 4 => (0x3afb7e91, 0x0068db8b)
    case 5 => (0x0bcbe61d, 0x0014f8b5)
    case 6 => (0x68c26139, 0x000431bd)
    case 7 => (0xae8d46a5, 0x0000d6bf)
    case 8 => (0x22e90e21, 0x00002af3)
    case 9 => (0x3a2e9c6d, 0x00000897)
    case _ => (0x3ed61f49, 0x000001b7)
  }

  /** The inverse of a power of five, and the greatest quotient, in 64 bits. */
  function Entry64(exp: nat): (nat, nat)
    requires exp <= 23
  {
    match exp
    case 0 => (0x0000000000000001, 0xffffffffffffffff)
    case 1 => (0xcccccccccccccccd, 0x3333333333333333)
    case 2 => (0x8f5c28f5c28f5c29, 0x0a3d70a3d70a3d70)
    case 3 => (0x1cac083126e978d5, 0x020c49ba5e353f7c)
    case 4 => (0xd288ce703afb7e91, 0x0068db8bac710cb2)
    case 5 => (0x5d4e8fb00bcbe61d, 0x0014f8b588e368f0)
    case 6 => (0x790fb65668c26139, 0x000431bde82d7b63)
    case 7 => (0xe5032477ae8d46a5, 0x0000d6bf94d5e57a)
    case 8 => (0xc767074b22e90e21, 0x00002af31dc46118)
    case 9 => (0x8e47ce423a2e9c6d, 0x0000089705f4136b)
    case 10 => (0x4fa7f60d3ed61f49, 0x000001b7cdfd9d7b)
    case 11 => (0x0fee64690c913975, 0x00000057f5ff85e5)
    case 12 => (0x3662e0e1cf503eb1, 0x000000119799812d)
    case 13 => (0xa47a2cf9f6433fbd, 0x0000000384b84d09)
    case 14 => (0x54186f653140a659, 0x00000000b424dc35)
    case 15 => (0x7738164770402145, 0x0000000024075f3d)
    case 16 => (0xe4a4d1417cd9a041, 0x000000000734aca5)
    case 17 => (0xc75429d9e5c5200d, 0x000000000170ef54)
    case 18 => (0xc1773b91fac10669, 0x000000000049c977)
    case 19 => (0x26b172506559ce15, 0x00000000000ec1e4)
    case 20 => (0xd489e3a9addec2d1, 0x000000000002f394)
    case 21 => (0x90e860bb892c8d5d, 0x000000000000971d)
    case 22 => (0x502e79bf1b6f4f79, 0x0000000000001e39)
    case _ => (0xdcd618596be30fe5, 0x000000000000060b)
  }

  /** Each entry is the one before it divided by five. */
  lemma NextEntry32(exp: nat)
    requires exp < 10
    ensures (5 * Entry32(exp + 1).0) % W32 == Entry32(exp).0 && Entry32(exp + 1).1 == Entry32(exp).1 / 5
  {
  }

  lemma NextEntry64(exp: nat)
    requires exp < 23
    ensures (5 * Entry64(exp + 1).0) % W64 == Entry64(exp).0 && Entry64(exp + 1).1 == Entry64(exp).1 / 5
  {
  }

  lemma DivDiv(n: nat, d: nat)
    requires d > 0
    ensures n / d / 5 == n / (5 * d)
  {
    var q, r := n / d, n % d;
    var q', r' := q / 5, q % 5;
    assert n == q * d + r && q == 5 * q' + r';
    assert q * d == q' * (5 * d) + r' * d;
    assert r' * d <= 4 * d;
    DivModUnique(n, 5 * d, q', r' * d + r);
  }

  lemma InverseStep(w: nat, d: nat, inverse: nat, most: nat, inverse': nat)
    requires IsInverse(w, d, inverse, most) && (5 * inverse') % w == inverse
    ensures IsInverse(w, 5 * d, inverse', most / 5)
  {
    DivDiv(w - 1, d);
    ModTimes(5 * inverse', d, w);
    assert (5 * inverse') * d == (5 * d) * inverse' && inverse * d == d * inverse;
  }

  lemma {:induction false} TableIsRight32(exp: nat)
    requires exp <= 10
    ensures IsInverse(W32, Pow(5, exp), Entry32(exp).0, Entry32(exp).1)
  {
    if exp > 0 {
      TableIsRight32(exp - 1);
      NextEntry32(exp - 1);
      InverseStep(W32, Pow(5, exp - 1), Entry32(exp - 1).0, Entry32(exp - 1).1, Entry32(exp).0);
    }
  }

  lemma {:induction false} TableIsRight64(exp: nat)
    requires exp <= 23
    ensures IsInverse(W64, Pow(5, exp), Entry64(exp).0, Entry64(exp).1)
  {
    if exp > 0 {
      TableIsRight64(exp - 1);
      NextEntry64(exp - 1);
      InverseStep(W64, Pow(5, exp - 1), Entry64(exp - 1).0, Entry64(exp - 1).1, Entry64(exp).0);
    }
  }

  predicate DivisibleByPowerOf5In32(x: nat, exp: nat)
    requires exp <= 10
  {
    (x * Entry32(exp).0) % W32 <= Entry32(exp).1
  }

  predicate DivisibleByPowerOf5In64(x: nat, exp: nat)
    requires exp <= 23
  {
    (x * Entry64(exp).0) % W64 <= Entry64(exp).1
  }

  /** The multiplication test decides divisibility for every word and every entry of both tables. */
  lemma DivisibleIff32(x: nat, exp: nat)
    requires x < W32 && exp <= 10
    ensures DivisibleByPowerOf5In32(x, exp) <==> x % Pow(5, exp) == 0
  {
    TableIsRight32(exp);
    InverseTest(W32, Pow(5, exp), Entry32(exp).0, Entry32(exp).1, x);
  }

  lemma DivisibleIff64(x: nat, exp: nat)
    requires x < W64 && exp <= 23
    ensures DivisibleByPowerOf5In64(x, exp) <==> x % Pow(5, exp) == 0
  {
    TableIsRight64(exp);
    InverseTest(W64, Pow(5, exp), Entry64(exp).0, Entry64(exp).1, x);
  }

  // ---- trailing zeros ----

  const INVERSE_1: nat := 0xcccccccd
  const MOST_1: nat := 0x33333333
  const INVERSE_8: nat := 0xc767074b22e90e21
  const MOST_8: nat := 0x00002af31dc46118
  const MAX_TRAILING_ZEROS: nat := 16
  const TEN8: nat := 100_000_000
  const FIVE8: nat := 390_625

  /** One 32-bit multiplication by the inverse of five, which divides exactly if it can. */
  function Fifth(x: nat): (y: nat)
    ensures y < W32
  {
    (x * INVERSE_1) % W32
  }

  lemma FifthDivides(x: nat)
    requires x < W32
    ensures Fifth(x) <= MOST_1 <==> x % 5 == 0
    ensures x % 5 == 0 ==> Fifth(x) == x / 5
  {
    assert IsInverse(W32, 5, INVERSE_1, MOST_1);
    InverseTest(W32, 5, INVERSE_1, MOST_1, x);
  }

  /** Multiplying by five adds no factor of two. */
  lemma {:induction false} TwosOfFive(a: nat)
    requires a > 0
    ensures TrailingZeros(5 * a) == TrailingZeros(a)
  {
    if a % 2 == 0 {
      TwosOfFive(a / 2);
      assert 5 * a / 2 == 5 * (a / 2);
    }
  }

  /** Shifting out trailing zero bits loses nothing. */
  lemma {:induction false} ShiftOut(a: nat, k: nat)
    requires a > 0 && k <= TrailingZeros(a)
    ensures a == Shr(a, k) * Pow(2, k) && Shr(a, k) > 0
    ensures TrailingZeros(Shr(a, k)) == TrailingZeros(a) - k
  {
    if k > 0 {
      ShiftOut(a / 2, k - 1);
      MulAssoc(2, Shr(a, k), Pow(2, k - 1));
      MulAssoc(Shr(a, k), 2, Pow(2, k - 1));
    }
  }

  /**
    Dividing by 5^k and shifting by k divides by 10^k; another zero is left
    exactly if there is both another factor of two and another factor of five.
   */
  lemma Strip(n: nat, q: nat, k: nat)
    requires q > 0 && n > 0 && n == q * Pow(5, k) && TrailingZeros(q) == TrailingZeros(n) >= k
    ensures n == Shr(q, k) * Pow(10, k)
    ensures Shr(q, k) % 10 == 0 <==> TrailingZeros(n) > k && q % 5 == 0
  {
    ShiftOut(q, k);
    TenIsTwoTimesFive(k);
    MulAssoc(Shr(q, k), Pow(2, k), Pow(5, k));
    FivesOfTwo(Shr(q, k), k);
    Tenfold(Shr(q, k));
  }

  lemma Tenfold(m: nat)
    requires m > 0
    ensures m % 10 == 0 <==> TrailingZeros(m) > 0 && m % 5 == 0
  {
    TwoAndFive(m);
  }

  lemma TwoAndFive(m: nat)
    ensures m % 10 == 0 <==> m % 2 == 0 && m % 5 == 0
  {
    var q, r := m / 10, m % 10;
    assert m == 10 * q + r;
    DivModUnique(m, 2, 5 * q + r / 2, r % 2);
    DivModUnique(m, 5, 2 * q + r / 5, r % 5);
  }

  lemma {:induction false} FivesOfTwo(m: nat, k: nat)
    ensures (m * Pow(2, k)) % 5 == 0 <==> m % 5 == 0
  {
    if k > 0 {
      FivesOfTwo(m, k - 1);
      MulAssoc(2, m, Pow(2, k - 1));
      MulAssoc(m, 2, Pow(2, k - 1));
      TwiceByFive(m * Pow(2, k - 1));
    }
  }

  lemma TwiceByFive(x: nat)
    ensures (2 * x) % 5 == 0 <==> x % 5 == 0
  {
  }

  /** The result of removing zeros: s of them, and no other unless s is the most that are looked for. */
  ghost predicate Removed(n: nat, m: nat, s: nat, most: nat)
  {
    n == m * Pow(10, s) && s <= most && (s < most ==> m % 10 != 0)
  }

  // ---- multiples of 10^8 ----

  /** The loop that divides by five while it can, up to t zeros in all. */
  ghost predicate Dividing(n: nat, quotient: nat, s: nat, t: nat)
  {
    && 8 <= s <= t <= MAX_TRAILING_ZEROS && 0 < quotient < W32
    && n == quotient * Pow(5, s - 8) && n > 0
    && TrailingZeros(quotient) == TrailingZeros(n)
  }

  lemma DividingStep(n: nat, quotient: nat, s: nat, t: nat)
    requires Dividing(n, quotient, s, t) && s < t && quotient % 5 == 0
    ensures Dividing(n, quotient / 5, s + 1, t)
  {
    var q := quotient / 5;
    assert quotient == 5 * q;
    TwosOfFive(q);
    MulAssoc(q, 5, Pow(5, s - 8));
  }

  /** n0 is 10^8 times n, and t is the number of factors of two in n0, or the most that are looked for. */
  lemma DividingDone(n0: nat, n: nat, quotient: nat, s: nat, t: nat)
    requires Dividing(n, quotient, s, t) && (s == t || quotient % 5 != 0)
    requires n0 == n * Pow(10, 8) && t == Min(8 + TrailingZeros(n), MAX_TRAILING_ZEROS)
    ensures Removed(n0, Shr(quotient, s - 8), s, MAX_TRAILING_ZEROS)
  {
    Strip(n, quotient, s - 8);
    PowSum(10, s - 8, 8);
    MulAssoc(Shr(quotient, s - 8), Pow(10, s - 8), Pow(10, 8));
  }

  method DivideByFives(start: nat, t: nat) returns (quotient: nat, s: nat)
    requires 8 <= t <= MAX_TRAILING_ZEROS && 0 < start < W32
    ensures Dividing(start, quotient, s, t) && (s == t || quotient % 5 != 0)
  {
    quotient, s := start, 8;
    while s < t
      invariant Dividing(start, quotient, s, t)
    {
      FifthDivides(quotient);
      if Fifth(quotient) > MOST_1 {
        break;
      }
      DividingStep(start, quotient, s, t);
      quotient := Fifth(quotient);
      s := s + 1;
    }
  }

  lemma {:induction false} TwosOfPow5(c: nat, k: nat)
    requires c > 0
    ensures c * Pow(5, k) > 0 && TrailingZeros(c * Pow(5, k)) == TrailingZeros(c)
  {
    if k > 0 {
      TwosOfPow5(c, k - 1);
      MulOut(5, c, Pow(5, k - 1));
      TwosOfFive(c * Pow(5, k - 1));
    }
  }

  lemma Powers8()
    ensures Pow(5, 8) == FIVE8 && Pow(2, 8) == 256 && Pow(10, 8) == TEN8
  {
    assert Pow(5, 4) == 625 && Pow(2, 4) == 16 && Pow(10, 4) == 10_000;
  }

  /** A word with eight factors of two that passes the test for 5^8 is 10^8 times what the shift leaves. */
  lemma Multiple(n: nat, candidate: nat)
    requires 0 < n < TEN8 * W32 && TrailingZeros(n) >= 8
    requires candidate == (n * INVERSE_8) % W64 <= MOST_8
    ensures 0 < Shr(candidate, 8) < W32 && n == Shr(candidate, 8) * Pow(10, 8)
    ensures TrailingZeros(Shr(candidate, 8)) == TrailingZeros(n) - 8
  {
    Powers8();
    TestFor8(n);
    assert n == candidate * Pow(5, 8);
    TwosOfPow5(candidate, 8);
    ShiftOut(candidate, 8);
    Strip(n, candidate, 8);
  }

  lemma TestFor8(n: nat)
    requires n < W64
    ensures (n * INVERSE_8) % W64 <= MOST_8 <==> n % FIVE8 == 0
    ensures n % FIVE8 == 0 ==> (n * INVERSE_8) % W64 == n / FIVE8
  {
    Powers8();
    TableIsRight64(8);
    InverseTest(W64, FIVE8, INVERSE_8, MOST_8, n);
  }

  // ---- other numbers ----

  /** Adding a multiple of 2^k does not change the trailing zero bits below k. */
  lemma {:induction false} AddMultiple(r: nat, c: nat, k: nat)
    requires r > 0
    ensures TrailingZeros(r) < k ==> TrailingZeros(r + c * Pow(2, k)) == TrailingZeros(r)
    ensures TrailingZeros(r) >= k ==> TrailingZeros(r + c * Pow(2, k)) >= k
  {
    if k > 0 {
      var h := c * Pow(2, k - 1);
      assert c * Pow(2, k) == 2 * h;
      if r % 2 == 0 {
        AddMultiple(r / 2, c, k - 1);
        assert (r + 2 * h) / 2 == r / 2 + h;
      }
    }
  }

  /** The remainder after k divisions by five, with enough factors of two left to shift by k. */
  ghost predicate Reducing(r: nat, rest: nat, k: nat)
  {
    r > 0 && 0 < rest < W32 && r == rest * Pow(5, k) && TrailingZeros(rest) == TrailingZeros(r) >= k
  }

  lemma ReducingStep(r: nat, rest: nat, k: nat)
    requires Reducing(r, rest, k) && TrailingZeros(r) > k && rest % 5 == 0
    ensures Reducing(r, rest / 5, k + 1)
  {
    var q := rest / 5;
    assert rest == 5 * q;
    TwosOfFive(q);
    MulAssoc(q, 5, Pow(5, k));
  }

  lemma ReducingDone(n: nat, quotient: nat, r: nat, rest: nat, k: nat, m: nat)
    requires Reducing(r, rest, k) && k < 8 && n == quotient * TEN8 + r
    requires TrailingZeros(r) == k || rest % 5 != 0
    requires m == Shr(rest, k) + quotient * Pow(10, 8 - k)
    ensures Removed(n, m, k, MAX_TRAILING_ZEROS)
  {
    Powers8();
    Strip(r, rest, k);
    PowSum(10, 8 - k, k);
    Combine(n, quotient, r, Shr(rest, k), Pow(10, 8 - k), Pow(10, k), Pow(10, 7 - k), m);
  }

  /** Dividing the low digits r by lo, and the whole number with them. */
  lemma Combine(n: nat, q: nat, r: nat, x: nat, hi: nat, lo: nat, p: nat, m: nat)
    requires n == q * (hi * lo) + r && r == x * lo && hi == 10 * p && m == x + q * hi
    ensures n == m * lo && m % 10 == x % 10
  {
    Recombine(x, q, hi, lo);
    LastDigit(x, q, p);
  }

  lemma Recombine(m: nat, q: nat, hi: nat, lo: nat)
    ensures q * (hi * lo) + m * lo == (m + q * hi) * lo
  {
    MulAssoc(q, hi, lo);
  }

  lemma LastDigit(m: nat, q: nat, p: nat)
    ensures (m + q * (10 * p)) % 10 == m % 10
  {
    assert q * (10 * p) == 10 * (q * p);
  }

  /** The seven unrolled steps on the remainder: divide by five until that or the factors of two run out. */
  method ReduceRemainder(r: nat, t: nat) returns (rest: nat, s: nat)
    requires 0 < r < TEN8
    requires t < 8 ==> t == TrailingZeros(r)
    requires t >= 8 ==> TrailingZeros(r) >= 8 && r % FIVE8 != 0
    ensures Reducing(r, rest, s) && s < 8 && (TrailingZeros(r) == s || rest % 5 != 0)
  {
    rest, s := r, 0;
    while s < 7
      invariant 0 <= s <= 7 && Reducing(r, rest, s) && s <= t
    {
      FifthDivides(rest);
      if t == s || Fifth(rest) > MOST_1 {
        return;
      }
      ReducingStep(r, rest, s);
      rest := Fifth(rest);
      s := s + 1;
    }
    NoEighth(r, rest);
  }

  lemma NoEighth(r: nat, rest: nat)
    requires r == rest * Pow(5, 7)
    ensures rest % 5 == 0 ==> r % FIVE8 == 0
  {
    if rest % 5 == 0 {
      var q := rest / 5;
      assert rest == q * 5;
      MulAssoc(q, 5, Pow(5, 7));
      Powers8();
      DivModUnique(r, FIVE8, q, 0);
    }
  }

  /** Split off the low eight digits in 32-bit arithmetic, which wraps around but not in the difference. */
  method SplitLow(n: nat) returns (quotient: nat, remainder: nat)
    requires n < TEN8 * W32
    ensures n == quotient * TEN8 + remainder && remainder < TEN8
  {
    quotient := (n / TEN8) % W32;
    var product := (TEN8 * quotient) % W32;
    remainder := (n - product) % W32;
    var x := TEN8 * quotient;
    DivModUnique(n - product, W32, x / W32, n % TEN8);
  }

  /** The low eight digits have the same zeros, unless the number is a multiple of 10^8. */
  lemma LowDigits(n: nat, q: nat, r: nat)
    requires n > 0 && n == q * TEN8 + r && r < TEN8
    requires TrailingZeros(n) >= 8 ==> n % FIVE8 != 0
    ensures r > 0
    ensures TrailingZeros(n) < 8 ==> TrailingZeros(r) == TrailingZeros(n)
    ensures TrailingZeros(n) >= 8 ==> TrailingZeros(r) >= 8 && r % FIVE8 != 0
  {
    TensAreBoth(q);
    SameMod(r, q * 256, FIVE8);
    LowTwos(n, q * FIVE8, r);
  }

  lemma TensAreBoth(q: nat)
    ensures q * TEN8 == (q * FIVE8) * Pow(2, 8) == (q * 256) * FIVE8
  {
    Powers8();
  }

  lemma LowTwos(n: nat, c: nat, r: nat)
    requires n > 0 && n == c * Pow(2, 8) + r
    ensures r == 0 ==> TrailingZeros(n) >= 8
    ensures r > 0 && TrailingZeros(n) < 8 ==> TrailingZeros(r) == TrailingZeros(n)
    ensures r > 0 && TrailingZeros(n) >= 8 ==> TrailingZeros(r) >= 8
  {
    if r == 0 {
      TrailingZerosScale(c, 8);
    } else {
      AddMultiple(r, c, 8);
    }
  }

  lemma SameMod(r: nat, q: nat, d: nat)
    requires d > 0
    ensures (q * d + r) % d == r % d
  {
    var k := r / d;
    assert r == k * d + r % d;
    assert (q + k) * d == q * d + k * d;
    DivModUnique(q * d + r, d, q + k, r % d);
  }

  /** The reduced low digits below the high ones. */
  method JoinDigits(ghost n: nat, quotient: nat, ghost r: nat, rest: nat, s: nat) returns (m: nat)
    requires Reducing(r, rest, s) && s < 8 && n == quotient * TEN8 + r
    requires TrailingZeros(r) == s || rest % 5 != 0
    ensures Removed(n, m, s, MAX_TRAILING_ZEROS)
  {
    m := Shr(rest, s) + quotient * Pow(10, 8 - s);
    ReducingDone(n, quotient, r, rest, s, m);
  }

  /** A number that is no multiple of 10^8 has all its zeros in its low eight digits. */
  method RemoveFromRemainder(n: nat, t: nat) returns (m: nat, s: nat)
    requires 0 < n < TEN8 * W32 && t == Min(TrailingZeros(n), MAX_TRAILING_ZEROS)
    requires t >= 8 ==> n % FIVE8 != 0
    ensures Removed(n, m, s, MAX_TRAILING_ZEROS)
  {
    var quotient, remainder := SplitLow(n);
    LowDigits(n, quotient, remainder);
    var rest, zeros := ReduceRemainder(remainder, t);
    m := JoinDigits(n, quotient, remainder, rest, zeros);
    s := zeros;
  }

  /** Every number below 10^8 * 2^32 loses exactly its trailing zeros, up to sixteen of them. */
  method RemoveTrailingZeros(n: nat) returns (m: nat, s: nat)
    requires 0 < n < TEN8 * W32
    ensures Removed(n, m, s, MAX_TRAILING_ZEROS)
  {
    var t := Min(TrailingZeros(n), MAX_TRAILING_ZEROS);
    if t >= 8 {
      TestFor8(n);
      var candidate := (n * INVERSE_8) % W64;
      if candidate <= MOST_8 {
        Multiple(n, candidate);
        var quotient, zeros := DivideByFives(Shr(candidate, 8) % W32, t);
        DividingDone(n, Shr(candidate, 8), quotient, zeros, t);
        return Shr(quotient, zeros - 8), zeros;
      }
    }
    m, s := RemoveFromRemainder(n, t);
  }

  // ---- 32-bit numbers ----

  const INVERSE_2: nat := 0xc28f5c29
  const MOST_2: nat := 0x0a3d70a3
  const MAX_TRAILING_ZEROS_32: nat := 7

  /** One 32-bit multiplication by the inverse of twenty-five. */
  function TwentyFifth(x: nat): (y: nat)
    ensures y < W32
  {
    (x * INVERSE_2) % W32
  }

  lemma TwentyFifthDivides(x: nat)
    requires x < W32
    ensures TwentyFifth(x) <= MOST_2 <==> x % 25 == 0
    ensures x % 25 == 0 ==> TwentyFifth(x) == x / 25
  {
    assert IsInverse(W32, 25, INVERSE_2, MOST_2);
    InverseTest(W32, 25, INVERSE_2, MOST_2, x);
  }

  lemma ReducingTwice(n: nat, rest: nat, k: nat)
    requires Reducing(n, rest, k) && TrailingZeros(n) > k + 1 && rest % 25 == 0
    ensures Reducing(n, rest / 25, k + 2)
  {
    var q := rest / 25;
    DivModUnique(rest, 5, 5 * q, 0);
    DivModUnique(5 * q, 5, q, 0);
    ReducingStep(n, rest, k);
    ReducingStep(n, rest / 5, k + 1);
  }

  lemma ReducedWord(n: nat, rest: nat, s: nat, t: nat)
    requires Reducing(n, rest, s) && s <= t == Min(TrailingZeros(n), MAX_TRAILING_ZEROS_32)
    requires s == t || rest % 5 != 0
    ensures Removed(n, Shr(rest, s), s, MAX_TRAILING_ZEROS_32)
  {
    Strip(n, rest, s);
  }

  lemma FiveOfTwentyFive(x: nat)
    ensures x % 5 == 0 && x % 25 != 0 ==> x / 5 % 5 != 0
  {
    var q := x / 5 / 5;
    if x % 5 == 0 && x / 5 % 5 == 0 {
      DivModUnique(x, 25, q, 0);
    }
  }

  method DivideByTwentyFives(n: nat, t: nat) returns (rest: nat, s: nat)
    requires 0 < n < W32 && t <= TrailingZeros(n)
    ensures s <= t && Reducing(n, rest, s) && (s + 1 >= t || rest % 25 != 0)
  {
    rest, s := n, 0;
    while s + 1 < t
      invariant s <= t && Reducing(n, rest, s)
    {
      TwentyFifthDivides(rest);
      if TwentyFifth(rest) > MOST_2 {
        break;
      }
      ReducingTwice(n, rest, s);
      rest := TwentyFifth(rest);
      s := s + 2;
    }
  }

  /** Two zeros at a time, then one: every 32-bit number loses exactly its trailing zeros, up to seven of them. */
  method RemoveTrailingZeros32(n: nat) returns (m: nat, s: nat)
    requires 0 < n < W32
    ensures Removed(n, m, s, MAX_TRAILING_ZEROS_32)
  {
    var t := Min(TrailingZeros(n), MAX_TRAILING_ZEROS_32);
    var rest, zeros := DivideByTwentyFives(n, t);
    s := zeros;
    FifthDivides(rest);
    if s < t && Fifth(rest) <= MOST_1 {
      ReducingStep(n, rest, s);
      FiveOfTwentyFive(rest);
      rest := Fifth(rest);
      s := s + 1;
    }
    ReducedWord(n, rest, s, t);
    m := Shr(rest, s);
  }
}
