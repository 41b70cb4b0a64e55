/**
  The exact integer arithmetic of the decimal formatter: a number is a buffer of
  32-bit bigits and an exponent, and stands for its bigits times 2^(32 exp).
 */
module BigIntegers {
  import opened Basics
  import opened Bits
  import opened BigNum

  /** Values of a bigint: never an empty buffer, and no zero on top of a longer one. */
  ghost predicate Trimmed(bs: seq<bigit>)
  {
    bs != [] && (|bs| > 1 ==> bs[|bs| - 1] != 0)
  }

  /** What a 64-bit word keeps of a number. */
  function Word(n: nat): (w: nat)
    ensures w < W64 && (n < W64 ==> w == n)
  {
    n % W64
  }

  lemma MulSplit(c: int, x: int, y: int)
    ensures c * (x + W32 * y) == c * x + W32 * (c * y)
  {}

  lemma MulDistribute(a: int, b: int, c: int)
    ensures (a + b) * c == a * c + b * c
  {}

  lemma MulLess(a: nat, b: nat, x: nat, y: nat)
    requires a < x && b < y
    ensures a * b <= (x - 1) * (y - 1)
  {
    MulMono(a, x - 1, b);
    MulMono(b, y - 1, x - 1);
  }

  lemma TopByValue(bs: seq<bigit>)
    requires bs != [] && Val(bs) >= Shifted(1, |bs| - 1)
    ensures bs[|bs| - 1] != 0
  {
    if bs[|bs| - 1] == 0 {
      ValDropTop(bs);
      ValBound(bs[..|bs| - 1]);
    }
  }

  // ---- multiplication column by column ----

  /** Columns below i are done; carry and the columns from i on make up the rest of the product. */
  ghost predicate Multiplying(from: seq<bigit>, bs: seq<bigit>, i: nat, value: nat, carry: nat)
  {
    && i <= |from| == |bs| && bs[i..] == from[i..]
    && carry < value
    && Val(bs[..i]) + Shifted(carry + Prod(value, Val(from[i..])), i) == Prod(value, Val(from))
  }

  lemma MultiplyStarts(from: seq<bigit>, value: nat)
    requires value > 0
    ensures Multiplying(from, from, 0, value, 0)
  {
    assert from[0..] == from && from[..0] == [];
  }

  /** One column: the new bigit and the next carry make up the bigit's product and the old carry. */
  lemma MultiplyStep(from: seq<bigit>, bs: seq<bigit>, i: nat, value: nat, carry: nat, digit: bigit, next: nat)
    requires Multiplying(from, bs, i, value, carry) && i < |bs|
    requires digit + W32 * next == Prod(value, bs[i]) + carry && next < value
    ensures Multiplying(from, bs[i := digit], i + 1, value, next)
  {
    assert bs[i] == bs[i..][0] == from[i];
    var bs', rest := bs[i := digit], Val(from[i + 1..]);
    assert from[i..][1..] == from[i + 1..];
    ProdSplit(value, from[i], rest);
    ShiftedCarry(digit, next + Prod(value, rest), i);
    assert bs'[..i] == bs[..i];
    assert bs'[i + 1..] == bs[i..][1..];
    ValPrefix(bs', i);
  }

  lemma MultiplyDone(from: seq<bigit>, bs: seq<bigit>, value: nat, carry: nat)
    requires Multiplying(from, bs, |from|, value, carry)
    ensures Val(bs) + Shifted(carry, |bs|) == Prod(value, Val(from))
  {
    assert bs[..|from|] == bs && from[|from|..] == [];
    ProdZero(value);
  }

  /** A product of a trimmed number is trimmed: its top bigit is the last carry or is not zero. */
  lemma ProductTrimmed(from: seq<bigit>, bs: seq<bigit>, value: nat)
    requires Trimmed(from) && |bs| == |from| && value > 0 && Val(bs) == Prod(value, Val(from))
    ensures Trimmed(bs)
  {
    if |bs| > 1 {
      ValAtLeast(from);
      TopByValue(bs);
    }
  }

  lemma {:induction false} ShiftedProd(c: nat, v: nat, e: nat)
    ensures Shifted(Prod(c, v), e) == c * Shifted(v, e)
  {
    ProdIsProduct(c, v);
    ShiftedTimes(c, v, e);
  }

  // ---- subtraction bigit by bigit ----

  /** Positions below k + j are done, up to a borrow from position k + j. */
  ghost predicate Subtracting(from: seq<bigit>, sub: seq<bigit>, k: nat, bs: seq<bigit>, j: nat, borrow: int)
  {
    && j <= |sub| && k + j <= |from| == |bs| && bs[k + j..] == from[k + j..] && 0 <= borrow <= 1
    && Val(bs[..k + j]) - Shifted(borrow, k + j) == Val(from[..k + j]) - Shifted(Val(sub[..j]), k)
  }

  lemma SubtractStarts(from: seq<bigit>, sub: seq<bigit>, k: nat)
    requires k <= |from|
    ensures Subtracting(from, sub, k, from, 0, 0)
  {
    assert sub[..0] == [];
    ShiftedZero(k);
  }

  lemma SubtractStep(from: seq<bigit>, sub: seq<bigit>, k: nat, bs: seq<bigit>, j: nat, borrow: int,
                     digit: bigit, next: int)
    requires Subtracting(from, sub, k, bs, j, borrow) && j < |sub| && k + j < |from|
    requires digit - W32 * next == bs[k + j] - sub[j] - borrow && 0 <= next <= 1
    ensures Subtracting(from, sub, k, bs[k + j := digit], j + 1, next)
  {
    var i, bs' := k + j, bs[k + j := digit];
    assert bs[i] == bs[i..][0] == from[i];
    assert bs'[..i] == bs[..i];
    assert bs'[i + 1..] == bs[i..][1..];
    ValPrefix(bs', i);
    ValPrefix(from, i);
    ValPrefix(sub, j);
    ShiftedAdd(Val(sub[..j]), Shifted(sub[j], j), k);
    ShiftedTwice(sub[j], j, k);
    BorrowAt(digit, next, from[i], sub[j], borrow, i);
  }

  lemma BorrowAt(digit: int, next: int, b: int, s: int, borrow: int, i: nat)
    requires digit - W32 * next == b - s - borrow
    ensures Shifted(digit, i) - Shifted(next, i + 1) == Shifted(b, i) - Shifted(s, i) - Shifted(borrow, i)
  {
    ShiftedCarry(b - s - borrow, next, i);
    ShiftedAdd(b - s, borrow, i);
    ShiftedAdd(b, s, i);
  }

  /** After all bigits: what is still to be taken from the position above, and when. */
  lemma SubtractDone(from: seq<bigit>, sub: seq<bigit>, k: nat, bs: seq<bigit>, borrow: int)
    requires Subtracting(from, sub, k, bs, |sub|, borrow)
    ensures Val(bs) - Shifted(borrow, k + |sub|) == Val(from) - Shifted(Val(sub), k)
    ensures borrow == 1 <==> Val(from[..k + |sub|]) < Shifted(Val(sub), k)
  {
    var i := k + |sub|;
    assert sub[..|sub|] == sub;
    ValSplit(bs, i);
    ValSplit(from, i);
    ValBound(bs[..i]);
    ShiftedZero(i);
  }

  /** Changing one bigit changes the value by that much at its position. */
  lemma ValUpdate(bs: seq<bigit>, i: nat, d: bigit)
    requires i < |bs|
    ensures Val(bs[i := d]) == Val(bs) + Shifted(d - bs[i], i)
  {
    var bs' := bs[i := d];
    ValSplit(bs, i);
    ValSplit(bs', i);
    assert bs'[..i] == bs[..i] && bs'[i..][1..] == bs[i..][1..];
    var hi := Val(bs[i..][1..]);
    ShiftedCarry(bs[i], hi, i);
    ShiftedCarry(d, hi, i);
    ShiftedAdd(d, bs[i], i);
  }

  // ---- the two-word accumulator ----

  /** A 128-bit sum held in two 64-bit words. */
  datatype Accumulator = Accumulator(lower: nat, upper: nat)
  {
    ghost function Value(): nat {
      lower + W64 * upper
    }

    ghost predicate Valid() {
      lower < W64 && upper < W64
    }

    /** Add a word: a sum below the addend tells that the lower word wrapped around. */
    function Plus(n: nat): (a: Accumulator)
      requires n < W64
      ensures Valid() && Value() + n < W64 * W64 ==> a.Valid() && a.Value() == Value() + n
    {
      var low := Word(lower + n);
      Accumulator(low, if low < n then Word(upper + 1) else upper)
    }

    /** Shift right by 32 bits; the two shifted parts of the new lower word have no bit in common. */
    function ShiftRight32(): (a: Accumulator)
      ensures Valid() ==> a.Valid() && a.Value() == Value() / W32
    {
      Accumulator(upper % W32 * W32 + lower / W32, upper / W32)
    }
  }

  /** The terms of column k from index i on. */
  ghost function ColFrom(n: seq<bigit>, k: nat, i: nat): nat
    requires i <= |n|
  {
    if i <= k then Col(n[i..], n, k - i) else 0
  }

  lemma ColFromStep(n: seq<bigit>, k: nat, i: nat)
    requires i < |n| && i <= k
    ensures ColFrom(n, k, i) == Prod(n[i], Get(n, k - i)) + ColFrom(n, k, i + 1)
  {
    assert n[i..][1..] == n[i + 1..];
  }

  lemma {:induction false} ColFromSkip(n: seq<bigit>, k: nat, i: nat)
    requires i <= |n| && i + |n| <= k + 1
    ensures ColFrom(n, k, i) == ColFrom(n, k, 0)
  {
    if i > 0 {
      ColFromSkip(n, k, i - 1);
      ColFromStep(n, k, i - 1);
      ProdZero(n[i - 1]);
    }
  }

  /** The bigits of the square that are done, the running sum, and the columns that are still to come. */
  ghost predicate Squaring(bs: seq<bigit>, sum: nat, rest: nat, square: nat)
  {
    Val(bs) + Shifted(sum + rest, |bs|) == square
  }

  lemma CarryBound(total: nat, len: nat)
    requires total <= W32 * len + (W32 - 1) * (W32 - 1) * len
    ensures total / W32 <= W32 * len
  {
    assert total <= W32 * (W32 * len);
  }

  lemma SquareStep(bs: seq<bigit>, sum: nat, rest: nat, square: nat, col: nat, rest': nat, digit: bigit, next: nat)
    requires Squaring(bs, sum, rest, square) && rest == col + W32 * rest'
    requires digit + W32 * next == sum + col
    ensures Squaring(bs + [digit], next, rest', square)
  {
    ValAppend(bs, digit);
    ShiftedCarry(digit, next + rest', |bs|);
  }

  lemma SquareOfPower(n: nat)
    ensures Shifted(1, n) * Shifted(1, n) == Shifted(1, 2 * n)
  {
    ShiftedTimes(Shifted(1, n), 1, n);
    ShiftedTwice(1, n, n);
  }

  lemma SquareLess(v: nat, m: nat)
    requires v < m
    ensures v * v < m * m
  {
    MulLess(v, v, m, m);
    MulDistribute(m - 1, 1, m);
    MulDistribute(m - 1, 1, m - 1);
  }

  lemma SquareBound(n: seq<bigit>)
    ensures Prod(Val(n), Val(n)) < Shifted(1, 2 * |n|)
  {
    ValBound(n);
    ProdIsProduct(Val(n), Val(n));
    SquareLess(Val(n), Shifted(1, |n|));
    SquareOfPower(|n|);
  }

  lemma SquareDone(n: seq<bigit>, bs: seq<bigit>, sum: nat)
    requires Squaring(bs, sum, 0, Prod(Val(n), Val(n))) && |bs| == 2 * |n|
    ensures Val(bs) == Prod(Val(n), Val(n))
  {
    SquareBound(n);
    ShiftedOrder(1, sum, 2 * |n|);
    ShiftedZero(2 * |n|);
  }

  class BigInt {
    var bigits: seq<bigit>
    var exp: nat

    ghost predicate Valid()
      reads this
    {
      Trimmed(bigits)
    }

    ghost function Value(): (v: nat)
      reads this
    {
      ShiftedOrder(0, Val(bigits), exp);
      ShiftedZero(exp);
      Shifted(Val(bigits), exp)
    }

    function NumBigits(): nat
      reads this
    {
      |bigits| + exp
    }

    /** A new number has no bigits at all: it is not valid before something is assigned to it. */
    constructor ()
      ensures bigits == [] && exp == 0
    {
      bigits, exp := [], 0;
    }

    /** Set to a 64-bit number, one bigit after the other. */
    method AssignWord(n: nat)
      requires n < W64
      modifies this
      ensures Valid() && Value() == n && exp == 0
      ensures |bigits| == if n < W32 then 1 else 2
    {
      bigits, exp := [n % W32], 0;
      var rest := n / W32;
      ValAppend([], n % W32);
      assert [] + [n % W32] == [n % W32];
      if rest != 0 {
        ValAppend([n % W32], rest);
        bigits := bigits + [rest % W32];
      }
    }

    /** Set to another number, as it is stored. */
    method Assign(other: BigInt)
      requires other != this
      modifies this
      ensures bigits == other.bigits && exp == other.exp
    {
      bigits, exp := other.bigits, other.exp;
    }

    /** One column of a multiplication by a 32-bit number. */
    static method SmallColumn(b: bigit, value: nat, carry: nat) returns (digit: bigit, next: nat)
      requires carry < value < W32
      ensures digit + W32 * next == Prod(value, b) + carry && next < value
    {
      ProdIsProduct(value, b);
      MulMono(b, W32 - 1, value);
      var result := Word(b * value + carry);
      digit, next := result % W32, result / W32;
    }

    /** One column of a multiplication by a 64-bit number, in two half products. */
    static method WideColumn(b: bigit, value: nat, carry: nat) returns (digit: bigit, next: nat)
      requires carry < value < W64
      ensures digit + W32 * next == Prod(value, b) + carry && next < value
    {
      var low, high := HalfProducts(b, value);
      WideSum(low, high, value, carry);
      var result := Word(low + carry % W32);
      next := Word(high + result / W32 + carry / W32);
      digit := result % W32;
    }

    static lemma WideSum(low: nat, high: nat, value: nat, carry: nat)
      requires low <= (W32 - 1) * (W32 - 1) && high <= (W32 - 1) * (W32 - 1)
      requires low + W32 * high <= (W32 - 1) * value && carry < value < W64
      ensures var result := low + carry % W32;
              var next := high + result / W32 + carry / W32;
              result < W64 && result % W32 + W32 * next == low + W32 * high + carry && next < value
    {
      var result := low + carry % W32;
      var next := high + result / W32 + carry / W32;
      assert result % W32 + W32 * (result / W32) == result;
      assert carry % W32 + W32 * (carry / W32) == carry;
    }

    static method HalfProducts(b: bigit, value: nat) returns (low: nat, high: nat)
      requires value < W64
      ensures low <= (W32 - 1) * (W32 - 1) && high <= (W32 - 1) * (W32 - 1)
      ensures Prod(value, b) == low + W32 * high <= (W32 - 1) * value
    {
      var lower, upper := value % W32, value / W32;
      low, high := b * lower, b * upper;
      ProdIsProduct(value, b);
      MulSplit(b, lower, upper);
      MulLess(b, lower, W32, W32);
      MulLess(b, upper, W32, W32);
      MulMono(b, W32 - 1, value);
    }

    /** Multiply by a 32-bit number. */
    method MultiplySmall(value: nat)
      requires Valid() && 0 < value < W32
      modifies this`bigits
      ensures Valid() && Value() == value * old(Value())
      ensures |old(bigits)| <= |bigits| <= |old(bigits)| + 1
    {
      ghost var from := bigits;
      var carry: nat := 0;
      var i := 0;
      MultiplyStarts(from, value);
      while i < |bigits|
        invariant Multiplying(from, bigits, i, value, carry)
      {
        var digit, next := SmallColumn(bigits[i], value, carry);
        MultiplyStep(from, bigits, i, value, carry, digit, next);
        bigits, carry := bigits[i := digit], next;
        i := i + 1;
      }
      MultiplyDone(from, bigits, value, carry);
      if carry != 0 {
        ValAppend(bigits, carry);
        bigits := bigits + [carry];
      } else {
        ShiftedZero(|bigits|);
        ProductTrimmed(from, bigits, value);
      }
      ShiftedProd(value, Val(from), exp);
    }

    /** Multiply the columns by a 64-bit number, with a 64-bit carry. */
    method MultiplyColumns(value: nat) returns (carry: nat)
      requires Valid() && 0 < value < W64
      modifies this`bigits
      ensures carry < value && |bigits| == |old(bigits)|
      ensures Val(bigits) + Shifted(carry, |bigits|) == Prod(value, Val(old(bigits)))
    {
      ghost var from := bigits;
      carry := 0;
      var i := 0;
      MultiplyStarts(from, value);
      while i < |bigits|
        invariant Multiplying(from, bigits, i, value, carry)
      {
        var digit, next := WideColumn(bigits[i], value, carry);
        MultiplyStep(from, bigits, i, value, carry, digit, next);
        bigits, carry := bigits[i := digit], next;
        i := i + 1;
      }
      MultiplyDone(from, bigits, value, carry);
    }

    /** Multiply by a 64-bit number. */
    method MultiplyWide(value: nat)
      requires Valid() && 0 < value < W64
      modifies this`bigits
      ensures Valid() && Value() == value * old(Value())
      ensures |old(bigits)| <= |bigits| <= |old(bigits)| + 2
    {
      ghost var from, product := bigits, Prod(value, Val(bigits));
      ShiftedProd(value, Val(bigits), exp);
      var carry := MultiplyColumns(value);
      if carry == 0 {
        ShiftedZero(|bigits|);
        ProductTrimmed(from, bigits, value);
      }
      ghost var n := |bigits|;
      while carry != 0
        invariant n <= |bigits| <= n + 2 && (carry == 0 ==> Trimmed(bigits)) && 0 <= carry < W64
        invariant |bigits| == n + 1 ==> carry < W32
        invariant |bigits| == n + 2 ==> carry == 0
        invariant Val(bigits) + Shifted(carry, |bigits|) == product
        decreases carry
      {
        ValAppend(bigits, carry % W32);
        ShiftedCarry(carry % W32, carry / W32, |bigits|);
        bigits := bigits + [carry % W32];
        carry := carry / W32;
      }
      ShiftedZero(|bigits|);
    }

    /** The bits of a bigit that a shift by fewer than 32 bits keeps, and those that it moves out. */
    static method ShiftParts(b: bigit, s: nat) returns (low: nat, high: nat)
      requires s < 32
      ensures low + W32 * high == Prod(Pow(2, s), b) && high < Pow(2, s) && low + Pow(2, s) <= W32
    {
      low, high := b * Pow(2, s) % W32, Shr(b, 32 - s);
      ShiftSplit(b, s);
    }

    static lemma ShiftSplit(b: bigit, s: nat)
      requires s < 32
      ensures b * Pow(2, s) % W32 + W32 * Shr(b, 32 - s) == Prod(Pow(2, s), b)
      ensures Shr(b, 32 - s) < Pow(2, s) && b * Pow(2, s) % W32 + Pow(2, s) <= W32
    {
      ShrIsQuotient(b, 32 - s);
      PowSum(2, s, 32 - s);
      Pow2Is32();
      ProdIsProduct(Pow(2, s), b);
      SplitProduct(b, Pow(2, s), Pow(2, 32 - s));
    }

    /** One column of a shift. */
    static method ShiftColumn(b: bigit, s: nat, carry: nat) returns (digit: bigit, next: nat)
      requires s < 32 && carry < Pow(2, s)
      ensures digit + W32 * next == Prod(Pow(2, s), b) + carry && next < Pow(2, s)
    {
      var low, high := ShiftParts(b, s);
      digit, next := low + carry, high;
    }

    static lemma SplitProduct(b: bigit, p: nat, q: nat)
      requires p > 0 && q > 0 && p * q == W32
      ensures b / q < p && b * p % W32 + p <= W32 && b * p % W32 + W32 * (b / q) == b * p
    {
      var c, r := b / q, b % q;
      assert b == c * q + r;
      MulDistribute(c * q, r, p);
      MulAssoc(c, q, p);
      assert b * p == c * W32 + r * p;
      MulMono(r, q - 1, p);
      MulDistribute(q - 1, 1, p);
      DivModUnique(b * p, W32, c, r * p);
      if c >= p {
        MulMono(p, c, q);
      }
    }

    /** Shift left by any number of bits: whole bigits go into the exponent. */
    method ShiftLeft(shift: nat)
      requires Valid()
      modifies this
      ensures Valid() && Value() == Pow(2, shift) * old(Value())
      ensures exp == old(exp) + shift / 32 && |old(bigits)| <= |bigits| <= |old(bigits)| + 1
    {
      var s := shift % 32;
      ghost var from, e := bigits, shift / 32;
      ShiftByBits(Val(bigits), exp, shift);
      exp := exp + shift / 32;
      if s == 0 {
        ProdIsProduct(1, Val(from));
        return;
      }
      var carry: nat := 0;
      var i := 0;
      MultiplyStarts(from, Pow(2, s));
      while i < |bigits|
        invariant Multiplying(from, bigits, i, Pow(2, s), carry) && exp == old(exp) + shift / 32
      {
        var digit, next := ShiftColumn(bigits[i], s, carry);
        MultiplyStep(from, bigits, i, Pow(2, s), carry, digit, next);
        bigits, carry := bigits[i := digit], next;
        i := i + 1;
      }
      MultiplyDone(from, bigits, Pow(2, s), carry);
      if carry != 0 {
        Pow2Is32();
        PowMono(2, s, 32);
        ValAppend(bigits, carry);
        bigits := bigits + [carry];
      } else {
        ShiftedZero(|bigits|);
        ProductTrimmed(from, bigits, Pow(2, s));
      }
    }

    /** Shifting by bits is shifting by whole bigits after multiplying by the rest. */
    static lemma ShiftByBits(v: nat, exp: nat, shift: nat)
      ensures Shifted(Prod(Pow(2, shift % 32), v), exp + shift / 32) == Pow(2, shift) * Shifted(v, exp)
    {
      var s, e := shift % 32, shift / 32;
      ShiftedProd(Pow(2, s), v, exp + e);
      ShiftedTwice(v, exp, e);
      ShiftedIsPow2(Shifted(v, exp), e);
      PowSum(2, s, 32 * e);
      MulAssoc(Pow(2, s), Pow(2, 32 * e), Shifted(v, exp));
    }

    /** A carry into a column of len bigits, and count of its terms. */
    static ghost predicate Bounded(sum: Accumulator, count: nat, len: nat)
    {
      sum.Value() <= W32 * len + (W32 - 1) * (W32 - 1) * count
    }

    /** One more term: the sum stays far below 128 bits. */
    static method AddTerm(sum: Accumulator, a: bigit, b: bigit, ghost count: nat, ghost len: nat)
      returns (next: Accumulator)
      requires sum.Valid() && count < len < 0x4000_0000 && Bounded(sum, count, len)
      ensures next.Valid() && next.Value() == sum.Value() + Prod(a, b) && Bounded(next, count + 1, len)
    {
      ProdIsProduct(a, b);
      MulLess(a, b, W32, W32);
      var term := a * b;
      next := sum.Plus(term);
    }

    /** Add the terms of column k from index first on. */
    static method AddTerms(n: seq<bigit>, k: nat, first: nat, start: Accumulator) returns (sum: Accumulator)
      requires |n| < 0x4000_0000 && first <= |n| && first <= k + 1 && k - first < |n|
      requires start.Valid() && start.Value() <= W32 * |n|
      ensures sum.Valid() && sum.Value() == start.Value() + ColFrom(n, k, first) && Bounded(sum, |n|, |n|)
    {
      sum := start;
      var i, j := first, k - first;
      while j >= 0 && i < |n|
        invariant 0 <= i <= |n| && i + j == k && -1 <= j < |n| && sum.Valid()
        invariant sum.Value() + ColFrom(n, k, i) == start.Value() + ColFrom(n, k, first)
        invariant Bounded(sum, i, |n|)
        decreases j + 1
      {
        ColFromStep(n, k, i);
        sum := AddTerm(sum, n[i], n[j], i, |n|);
        i, j := i + 1, j - 1;
      }
    }

    /** Add column k to the sum: from its first term in the lower half, from its last possible one above. */
    static method AddColumn(n: seq<bigit>, k: nat, start: Accumulator) returns (sum: Accumulator)
      requires |n| < 0x4000_0000 && k < 2 * |n| && start.Valid() && start.Value() <= W32 * |n|
      ensures sum.Valid() && sum.Value() == start.Value() + Col(n, n, k) && Bounded(sum, |n|, |n|)
    {
      var first := if k < |n| then 0 else k - |n| + 1;
      if k >= |n| {
        ColFromSkip(n, k, first);
      }
      assert n[0..] == n;
      sum := AddTerms(n, k, first, start);
    }

    /** Square: column sums in the accumulator, one bigit of the result per column. */
    method Square()
      requires Valid() && |bigits| < 0x4000_0000
      modifies this
      ensures Valid() && Value() == old(Value()) * old(Value())
      ensures exp == 2 * old(exp)
    {
      var n := bigits;
      var sum := Accumulator(0, 0);
      bigits := [];
      ghost var square, rest := Prod(Val(n), Val(n)), Cols(n, n, 0, 2 * |n|);
      ProductByColumns(n, n, 2 * |n|);
      while |bigits| < 2 * |n|
        invariant exp == old(exp) && |bigits| <= 2 * |n| && sum.Valid() && sum.Value() <= W32 * |n|
        invariant rest == Cols(n, n, |bigits|, 2 * |n|) && Squaring(bigits, sum.Value(), rest, square)
        decreases 2 * |n| - |bigits|
      {
        ghost var col, rest' := Col(n, n, |bigits|), Cols(n, n, |bigits| + 1, 2 * |n|);
        var total := AddColumn(n, |bigits|, sum);
        CarryBound(total.Value(), |n|);
        SquareStep(bigits, sum.Value(), rest, square, col, rest', total.lower % W32, total.ShiftRight32().Value());
        bigits := bigits + [total.lower % W32];
        sum, rest := total.ShiftRight32(), rest';
      }
      SquareDone(n, bigits, sum.Value());
      RemoveLeadingZeros();
      SquareValue(Val(n), exp);
      exp := exp * 2;
    }

    static lemma SquareValue(v: nat, exp: nat)
      ensures Shifted(Prod(v, v), 2 * exp) == Shifted(v, exp) * Shifted(v, exp)
    {
      ProdIsProduct(v, v);
      ShiftedTwice(v * v, exp, exp);
      ShiftedTimes(v, v, exp);
      ShiftedTimes(Shifted(v, exp), v, exp);
      assert v * Shifted(v, exp) == Shifted(v, exp) * v;
    }

    /** Drop zero bigits from the top, but keep one bigit. */
    method RemoveLeadingZeros()
      requires bigits != []
      modifies this`bigits
      ensures Valid() && Val(bigits) == Val(old(bigits)) && |bigits| <= |old(bigits)|
      ensures old(bigits[|bigits| - 1] != 0) ==> |bigits| == |old(bigits)|
    {
      var top := |bigits| - 1;
      assert bigits[..top + 1] == bigits;
      while top > 0 && bigits[top] == 0
        invariant 0 <= top < |bigits| && Val(bigits[..top + 1]) == Val(old(bigits))
        invariant bigits == old(bigits) && (bigits[|bigits| - 1] != 0 ==> top == |bigits| - 1)
      {
        ValDropTop(bigits[..top + 1]);
        assert bigits[..top + 1][..top] == bigits[..top];
        top := top - 1;
      }
      bigits := bigits[..top + 1];
    }

    /** The highest bit of a positive number. */
    static method TopMask(e: nat) returns (bitmask: nat, ghost k: nat)
      requires 0 < e < 0x4000_0000
      ensures bitmask == Pow(2, k) <= e < Pow(2, k + 1)
    {
      bitmask, k := 1, 0;
      while e >= bitmask
        invariant bitmask == Pow(2, k) && (k > 0 ==> Pow(2, k - 1) <= e)
        decreases 2 * e - bitmask
      {
        bitmask, k := bitmask * 2, k + 1;
      }
      bitmask, k := bitmask / 2, k - 1;
    }

    /** One bit of the exponent. */
    method PowStep(e: nat, bitmask: nat, ghost k: nat)
      requires e < 0x4000_0000 && bitmask == Pow(2, k) && Valid() && exp == 0 && Value() == Pow(5, Shr(e, k + 1))
      modifies this
      ensures Valid() && exp == 0 && Value() == Pow(5, Shr(e, k))
    {
      NextBit(e, k);
      SizeOfPow5(Shr(e, k + 1));
      ShrBelow(e / 2, k);
      Square();
      if BitAnd(e, bitmask) != 0 {
        MultiplySmall(5);
      }
    }

    /** Set to 5^e: go down the bits of e, squaring at each one. */
    method AssignPow5(e: nat)
      requires 0 < e < 0x4000_0000
      modifies this
      ensures Valid() && Value() == Pow(5, e) && exp == 0
    {
      var bitmask: nat, top := TopMask(e);
      ghost var k: int := top as int - 1;
      TopBit(e, top);
      AssignWord(5);
      bitmask := bitmask / 2;
      while bitmask != 0
        invariant -1 <= k && bitmask == (if k >= 0 then Pow(2, k) else 0) && exp == 0
        invariant Valid() && Value() == Pow(5, Shr(e, k + 1))
        decreases k
      {
        PowStep(e, bitmask, k);
        bitmask := bitmask / 2;
        k := k - 1;
      }
    }

    /** Set to 10^e: the power of five by squaring, the power of two by a shift. */
    method AssignPow10(e: nat)
      requires e < 0x4000_0000
      modifies this
      ensures Valid() && Value() == Pow(10, e) && exp == e / 32
    {
      if e == 0 {
        AssignWord(1);
        return;
      }
      AssignPow5(e);
      ShiftLeft(e);
      TenIsTwoTimesFive(e);
    }

    static lemma {:induction false} TopBit(e: nat, k: nat)
      requires Pow(2, k) <= e < Pow(2, k + 1)
      ensures Shr(e, k) == 1 && Pow(5, 1) == 5
    {
      assert Pow(5, 1) == 5 * Pow(5, 0);
      if k > 0 {
        TopBit(e / 2, k - 1);
      }
    }

    static lemma {:induction false} ShrBelow(e: nat, k: nat)
      ensures Shr(e, k) <= e
    {
      if k > 0 {
        ShrBelow(e / 2, k - 1);
      }
    }

    /** Going one bit down squares the power, times five if the bit is set. */
    static lemma NextBit(e: nat, k: nat)
      ensures var x := Shr(e, k + 1);
              if BitAnd(e, Pow(2, k)) != 0 then Pow(5, Shr(e, k)) == 5 * (Pow(5, x) * Pow(5, x))
              else Pow(5, Shr(e, k)) == Pow(5, x) * Pow(5, x)
    {
      BitAndPow2(e, k);
      ShrStep(e, k);
      PowSum(5, Shr(e, k + 1), Shr(e, k + 1));
    }

    lemma SizeOfPow5(x: nat)
      requires Valid() && exp == 0 && Value() == Pow(5, x)
      ensures |bigits| <= x + 1
    {
      PowFiveBound(x);
      if |bigits| > x + 1 {
        ValAtLeast(bigits);
        ShiftedGrows(x, |bigits| - 1);
      }
    }

    /** All bigits, with the zeros that the exponent stands for. */
    ghost function Digits(): (ds: seq<bigit>)
      reads this
      ensures |ds| == NumBigits() && Val(ds) == Value()
    {
      ValZeros(exp, bigits);
      Zeros(exp) + bigits
    }

    /** A number of n bigits in all is below 2^(32n), and at least 2^(32(n-1)) unless it is zero. */
    lemma ValueRange()
      requires Valid()
      ensures Value() < Shifted(1, NumBigits())
      ensures Value() > 0 ==> Shifted(1, NumBigits() - 1) <= Value()
    {
      ValBound(Digits());
      ShiftedZero(exp);
      if Value() > 0 {
        assert |bigits| == 1 ==> Val(bigits) == bigits[0] + W32 * Val(bigits[1..]) && bigits[1..] == [];
        ValAtLeast(bigits);
        ShiftedOrder(Shifted(1, |bigits| - 1), Val(bigits), exp);
        ShiftedTwice(1, |bigits| - 1, exp);
      }
    }

    /**
      Compare two numbers from their top bigits down. The result is exact except
      that lengths win over values, and that of two equal numbers the one with
      more stored bigits counts as the larger one.
     */
    static method Compare(lhs: BigInt, rhs: BigInt) returns (c: int)
      ensures c == CompareResult(lhs, rhs)
    {
      if lhs.NumBigits() != rhs.NumBigits() {
        return if lhs.NumBigits() > rhs.NumBigits() then 1 else -1;
      }
      ghost var a, b := lhs.Digits(), rhs.Digits();
      var i, j := |lhs.bigits| - 1, |rhs.bigits| - 1;
      var end := if i - j < 0 then 0 else i - j;
      assert High(a, |a|) == High(b, |b|);
      while i >= end
        invariant -1 <= i && -1 <= j && i - j == |lhs.bigits| - |rhs.bigits| && i >= end - 1
        invariant High(a, i + 1 + lhs.exp) == High(b, i + 1 + lhs.exp)
      {
        SamePosition(lhs, rhs, i, j);
        if lhs.bigits[i] != rhs.bigits[j] {
          return if lhs.bigits[i] > rhs.bigits[j] then 1 else -1;
        }
        i, j := i - 1, j - 1;
      }
      RestDecides(lhs, rhs, i + 1 + lhs.exp);
      c := if i > j then 1 else if i < j then -1 else 0;
    }

    /** The bigits at one position decide between two numbers that agree above it. */
    static lemma SamePosition(lhs: BigInt, rhs: BigInt, i: nat, j: nat)
      requires i < |lhs.bigits| && j < |rhs.bigits| && i + lhs.exp == j + rhs.exp
      requires High(lhs.Digits(), i + 1 + lhs.exp) == High(rhs.Digits(), i + 1 + lhs.exp)
      ensures lhs.bigits[i] < rhs.bigits[j] ==> lhs.Value() < rhs.Value()
      ensures lhs.bigits[i] > rhs.bigits[j] ==> lhs.Value() > rhs.Value()
      ensures lhs.bigits[i] == rhs.bigits[j] ==> High(lhs.Digits(), i + lhs.exp) == High(rhs.Digits(), i + lhs.exp)
    {
      var a, b, p := lhs.Digits(), rhs.Digits(), i + lhs.exp;
      HighStep(a, p);
      HighStep(b, p);
      if lhs.bigits[i] < rhs.bigits[j] {
        HigherWins(a, b, p);
      } else if lhs.bigits[i] > rhs.bigits[j] {
        HigherWins(b, a, p);
      }
    }

    /** Two numbers that agree from p on, where the coarser one of them has nothing left. */
    static lemma RestDecides(lhs: BigInt, rhs: BigInt, p: nat)
      requires High(lhs.Digits(), p) == High(rhs.Digits(), p)
      requires p == if lhs.exp < rhs.exp then rhs.exp else lhs.exp
      ensures lhs.exp <= rhs.exp ==> lhs.Value() >= rhs.Value()
      ensures rhs.exp <= lhs.exp ==> rhs.Value() >= lhs.Value()
    {
      HighBounds(lhs.Digits(), p);
      HighBounds(rhs.Digits(), p);
      if lhs.exp <= rhs.exp {
        HighExact(rhs.exp, rhs.bigits, p);
      }
      if rhs.exp <= lhs.exp {
        HighExact(lhs.exp, lhs.bigits, p);
      }
    }

    /** The bigit at position i, counted with the exponent. */
    function BigitAt(i: nat): (b: bigit)
      reads this
      ensures b == Get(Digits(), i)
    {
      if exp <= i < NumBigits() then bigits[i - exp] else 0
    }

    /** A number whose length says something about its value next to rhs. */
    ghost predicate Proper(rhs: BigInt)
      reads this, rhs
    {
      Valid() && (Value() > 0 || NumBigits() <= rhs.NumBigits())
    }

    /** The length of the longer one of two numbers. */
    static function Longest(a: BigInt, b: BigInt): nat
      reads a, b
    {
      if a.NumBigits() < b.NumBigits() then b.NumBigits() else a.NumBigits()
    }

    /**
      The sign of lhs1 + lhs2 - rhs, without computing the sum. It is exact
      whenever no zero operand is longer than its value deserves; the lemmas
      AddCompareIsExact and AddCompareIsExactIff are about the result.
     */
    static method AddCompare(lhs1: BigInt, lhs2: BigInt, rhs: BigInt) returns (c: int)
      requires lhs1.Valid() && lhs2.Valid() && rhs.Valid()
      ensures c == AddCompareResult(lhs1, lhs2, rhs)
      ensures LengthsFit(lhs1, lhs2, rhs) ==> c == Sign(lhs1.Value() + lhs2.Value() - rhs.Value())
    {
      var longest := Longest(lhs1, lhs2);
      var n := rhs.NumBigits();
      if LengthsFit(lhs1, lhs2, rhs) {
        AddCompareIsExact(lhs1, lhs2, rhs);
      }
      if longest + 1 < n {
        return -1;
      }
      if longest > n {
        return 1;
      }
      var minExp := if lhs1.exp < lhs2.exp then lhs1.exp else lhs2.exp;
      minExp := if minExp < rhs.exp then minExp else rhs.exp;
      c := CompareFromTop(lhs1, lhs2, rhs, n, minExp);
    }

    /** Subtract from the top down, as long as the difference stays undecided. */
    static method CompareFromTop(lhs1: BigInt, lhs2: BigInt, rhs: BigInt, n: nat, minExp: nat) returns (c: int)
      requires lhs1.NumBigits() <= n && lhs2.NumBigits() <= n && rhs.NumBigits() == n
      requires minExp <= lhs1.exp && minExp <= lhs2.exp && minExp <= rhs.exp
      ensures c == Sign(lhs1.Value() + lhs2.Value() - rhs.Value())
    {
      ghost var a, b, r := lhs1.Digits(), lhs2.Digits(), rhs.Digits();
      var borrow := 0;
      var i := n - 1;
      while i >= minExp
        invariant minExp - 1 <= i < n && 0 <= borrow <= W32
        invariant borrow == W32 * (High(r, i + 1) - High(a, i + 1) - High(b, i + 1))
      {
        HighStep(a, i);
        HighStep(b, i);
        HighStep(r, i);
        var sum := lhs1.BigitAt(i) + lhs2.BigitAt(i);
        var rhsBigit := rhs.BigitAt(i);
        if sum > rhsBigit + borrow {
          SumWins(a, b, r, i);
          return 1;
        }
        borrow := rhsBigit + borrow - sum;
        if borrow > 1 {
          SumLoses(a, b, r, i);
          return -1;
        }
        borrow := borrow * W32;
        i := i - 1;
      }
      AllZeroBelow(lhs1, lhs2, rhs, minExp);
      c := if borrow != 0 then -1 else 0;
    }

    static lemma LengthsDecide(lhs1: BigInt, lhs2: BigInt, rhs: BigInt)
      requires lhs1.Valid() && lhs2.Valid() && rhs.Valid()
      ensures Longest(lhs1, lhs2) > rhs.NumBigits() && lhs1.Proper(rhs) && lhs2.Proper(rhs) ==>
                lhs1.Value() + lhs2.Value() > rhs.Value()
      ensures Longest(lhs1, lhs2) + 1 < rhs.NumBigits() && rhs.Value() > 0 ==>
                lhs1.Value() + lhs2.Value() < rhs.Value()
    {
      var n := rhs.NumBigits();
      if lhs1.NumBigits() > n && lhs1.Value() > 0 {
        LongerIsLarger(lhs1, rhs);
      }
      if lhs2.NumBigits() > n && lhs2.Value() > 0 {
        LongerIsLarger(lhs2, rhs);
      }
      if Longest(lhs1, lhs2) + 1 < n {
        rhs.ValueRange();
        lhs1.ValueRange();
        lhs2.ValueRange();
        ShiftedGrows(lhs1.NumBigits(), n - 2);
        ShiftedGrows(lhs2.NumBigits(), n - 2);
        assert Shifted(1, n - 1) == W32 * Shifted(1, n - 2);
      }
    }

    static lemma SumWins(a: seq<bigit>, b: seq<bigit>, r: seq<bigit>, i: nat)
      requires High(a, i) + High(b, i) > High(r, i)
      ensures Val(a) + Val(b) > Val(r)
    {
      HighBounds(a, i);
      HighBounds(b, i);
      HighBounds(r, i);
      BoundsWin(Val(a), Val(b), Val(r), High(a, i), High(b, i), High(r, i), i);
    }

    static lemma SumLoses(a: seq<bigit>, b: seq<bigit>, r: seq<bigit>, i: nat)
      requires High(a, i) + High(b, i) + 2 <= High(r, i)
      ensures Val(a) + Val(b) < Val(r)
    {
      HighBounds(a, i);
      HighBounds(b, i);
      HighBounds(r, i);
      BoundsLose(Val(a), Val(b), Val(r), High(a, i), High(b, i), High(r, i), i);
    }

    static lemma AllZeroBelow(lhs1: BigInt, lhs2: BigInt, rhs: BigInt, i: nat)
      requires i <= lhs1.exp && i <= lhs2.exp && i <= rhs.exp
      ensures rhs.Value() - lhs1.Value() - lhs2.Value()
           == Shifted(High(rhs.Digits(), i) - High(lhs1.Digits(), i) - High(lhs2.Digits(), i), i)
      ensures Shifted(0, i) == 0 && Shifted(1, i) > 0
    {
      var x: int, y: int, z: int := High(lhs1.Digits(), i), High(lhs2.Digits(), i), High(rhs.Digits(), i);
      HighExact(lhs1.exp, lhs1.bigits, i);
      HighExact(lhs2.exp, lhs2.bigits, i);
      HighExact(rhs.exp, rhs.bigits, i);
      ShiftedAdd(z - x, y, i);
      ShiftedAdd(z, x, i);
      ShiftedZero(i);
      ShiftedOrder(0, 1, i);
    }

    /** One bigit of a subtraction, in 64-bit arithmetic: the top bit of the result is the borrow. */
    static method SubtractBigits(b: bigit, other: bigit, borrow: nat) returns (digit: bigit, next: nat)
      requires borrow <= 1
      ensures digit - W32 * next == b - other - borrow && next <= 1
    {
      var result := (b - other - borrow + W64) % W64;
      digit := result % W32;
      next := result / 0x8000_0000_0000_0000;
    }

    /** Subtraction loses a borrow when the position above the subtrahend is zero. */
    ghost predicate LosesBorrow(other: BigInt)
      reads this, other
      requires exp <= other.exp
    {
      var k, i := other.exp - exp, other.NumBigits() - exp;
      i < |bigits| && bigits[i] == 0 && Val(bigits[..i]) < Shifted(Val(other.bigits), k)
    }

    /** A number that does not compare as smaller is longer, or is not smaller. */
    lemma AlignedValues(other: BigInt)
      requires exp <= other.exp && CompareResult(this, other) >= 0
      ensures other.NumBigits() <= NumBigits()
      ensures other.NumBigits() == NumBigits() ==> Shifted(Val(other.bigits), other.exp - exp) <= Val(bigits)
    {
      ShiftedTwice(Val(other.bigits), other.exp - exp, exp);
      ShiftedOrder(Shifted(Val(other.bigits), other.exp - exp), Val(bigits), exp);
    }

    /** Subtract the borrow at position i until none is left; the position never changes. */
    method PassBorrow(i: nat, start: nat)
      requires start <= 1 && (start == 1 ==> i < |bigits|)
      modifies this`bigits
      ensures |bigits| == |old(bigits)| && forall j :: i < j < |bigits| ==> bigits[j] == old(bigits)[j]
      ensures Val(bigits) == Val(old(bigits)) - Shifted(start, i)
                             + if start == 1 && old(bigits)[i] == 0 then Shifted(W32 - 1, i) else 0
    {
      ghost var b := if start == 1 then bigits[i] else 0;
      var borrow := start;
      ghost var rounds := 0;
      ShiftedZero(i);
      while borrow > 0
        invariant 0 <= borrow <= 1 && 0 <= rounds <= 2 && |bigits| == |old(bigits)| && (start == 0 ==> rounds == 0)
        invariant rounds == 0 ==> borrow == start && bigits == old(bigits)
        invariant rounds == 1 ==> borrow == (if b == 0 then 1 else 0) && bigits == old(bigits)[i := (b + W32 - 1) % W32]
        invariant rounds == 2 ==> borrow == 0 && b == 0 && bigits == old(bigits)[i := W32 - 2]
        invariant borrow == 0 ==> rounds > 0 || start == 0
        decreases 2 - rounds
      {
        var digit, next := SubtractBigits(bigits[i], 0, borrow);
        bigits, borrow := bigits[i := digit], next;
        rounds := rounds + 1;
      }
      if start == 1 {
        ValUpdate(old(bigits), i, if b == 0 then W32 - 2 else b - 1);
        ShiftedAdd(W32 - 1, 1, i);
        ShiftedAdd(0, 1, i);
      }
    }

    static lemma DifferenceValue(v: int, w: int, k: nat, exp: nat, i: nat, extra: int)
      ensures Shifted(v - Shifted(w, k) + Shifted(extra, i), exp)
           == Shifted(v, exp) - Shifted(w, k + exp) + Shifted(extra, i + exp)
    {
      ShiftedAdd(v - Shifted(w, k), Shifted(extra, i), exp);
      ShiftedAdd(v, Shifted(w, k), exp);
      ShiftedTwice(w, k, exp);
      ShiftedTwice(extra, i, exp);
    }

    /** Subtract bigit by bigit; the result is the borrow from the position above the subtrahend. */
    method SubtractEach(other: BigInt) returns (borrow: nat)
      requires other != this && exp <= other.exp && other.NumBigits() <= NumBigits()
      modifies this`bigits
      ensures Subtracting(old(bigits), other.bigits, other.exp - exp, bigits, |other.bigits|, borrow)
    {
      ghost var from, k := bigits, other.exp - exp;
      var i, j := other.exp - exp, 0;
      borrow := 0;
      SubtractStarts(from, other.bigits, k);
      while j != |other.bigits|
        invariant i == k + j && Subtracting(from, other.bigits, k, bigits, j, borrow)
        decreases |other.bigits| - j
      {
        var digit, next := SubtractBigits(bigits[i], other.bigits[j], borrow);
        SubtractStep(from, other.bigits, k, bigits, j, borrow, digit, next);
        bigits, borrow := bigits[i := digit], next;
        i, j := i + 1, j + 1;
      }
    }

    /** The bigits of the difference, before zeros are dropped from the top. */
    method SubtractBuffer(other: BigInt)
      requires bigits != [] && other != this
      requires exp <= other.exp && CompareResult(this, other) >= 0
      modifies this`bigits
      ensures |bigits| == |old(bigits)|
      ensures other.NumBigits() - exp < |bigits| - 1 ==> bigits[|bigits| - 1] == old(bigits)[|bigits| - 1]
      ensures Val(bigits) == Val(old(bigits)) - Shifted(Val(other.bigits), other.exp - exp)
                             + if old(LosesBorrow(other)) then Shifted(W32 - 1, other.NumBigits() - exp) else 0
    {
      ghost var from, k, lost := bigits, other.exp - exp, LosesBorrow(other);
      AlignedValues(other);
      var i := other.NumBigits() - exp;
      var borrow := SubtractEach(other);
      SubtractDone(from, other.bigits, k, bigits, borrow);
      SameFrom(from, bigits, i);
      assert borrow == 1 ==> i < |bigits|;
      assert lost <==> borrow == 1 && bigits[i] == 0;
      PassBorrow(i, borrow);
    }

    static lemma SameFrom(from: seq<bigit>, bs: seq<bigit>, i: nat)
      requires i <= |from| == |bs| && bs[i..] == from[i..]
      ensures i < |from| ==> bs[i] == from[i] && bs[|bs| - 1] == from[|bs| - 1]
      ensures i == |from| ==> from[..i] == from
    {
      if i < |from| {
        assert bs[i..][0] == from[i..][0];
        assert bs[i..][|bs| - 1 - i] == from[i..][|bs| - 1 - i];
      }
    }

    /**
      Subtract a number that is not larger and not finer. The loop that passes
      the last borrow on never moves to a higher position, so the result is the
      difference exactly when no borrow has to pass over a zero, and bigits
      above that position never change. A zero that was padded is taken as it is.
     */
    method SubtractAligned(other: BigInt)
      requires bigits != [] && other != this
      requires exp <= other.exp && CompareResult(this, other) >= 0
      modifies this`bigits
      ensures Valid() && |bigits| <= |old(bigits)|
      ensures old(NumBigits()) >= other.NumBigits() + 2 && old(Valid()) ==> NumBigits() == old(NumBigits())
      ensures Value() == old(Value()) - other.Value()
                         + if old(LosesBorrow(other)) then Shifted(W32 - 1, other.NumBigits()) else 0
    {
      ghost var i, extra := other.NumBigits() - exp, if LosesBorrow(other) then W32 - 1 else 0;
      AlignedValues(other);
      DifferenceValue(Val(bigits), Val(other.bigits), other.exp - exp, exp, i, extra);
      ShiftedZero(i);
      ShiftedZero(i + exp);
      SubtractBuffer(other);
      RemoveLeadingZeros();
    }

    /** Bring a coarser number to another one's exponent by storing zeros; a zero is padded like any other number. */
    method Align(other: BigInt)
      requires Valid() && other != this
      modifies this
      ensures Value() == old(Value()) && NumBigits() == old(NumBigits())
      ensures Valid() <==> old(Value()) > 0 || old(exp) <= other.exp
      ensures exp == if old(exp) > other.exp then other.exp else old(exp)
    {
      if exp <= other.exp {
        return;
      }
      var d, n := exp - other.exp, |bigits|;
      ghost var from := bigits;
      bigits := bigits + Zeros(d);
      var i := n - 1;
      while i >= 0
        invariant -1 <= i < n && |bigits| == n + d && exp == old(exp)
        invariant forall j {:trigger bigits[j]} :: 0 <= j < n + d ==>
                    bigits[j] == if j > i + d then from[j - d] else if j < n then from[j] else 0
      {
        bigits := bigits[i + d := bigits[i]];
        i := i - 1;
      }
      assert bigits[d..] == from;
      bigits := Zeros(d) + bigits[d..];
      Padded(from, d, other.exp);
      exp := exp - d;
    }

    /** Storing zeros instead of an exponent: the value stays, and a zero gets a zero on top. */
    static lemma Padded(from: seq<bigit>, d: nat, e: nat)
      requires Trimmed(from) && d > 0
      ensures Shifted(Val(Zeros(d) + from), e) == Shifted(Val(from), d + e)
      ensures Trimmed(Zeros(d) + from) <==> Shifted(Val(from), d + e) > 0
    {
      ValZeros(d, from);
      ShiftedTwice(Val(from), d, e);
      ShiftedOrder(0, Val(from), d + e);
      ShiftedZero(d + e);
      if |from| == 1 {
        assert Val(from) == from[0] + W32 * Val(from[1..]) && from[1..] == [];
      } else {
        ValAtLeast(from);
        ShiftedGrows(0, |from| - 1);
      }
    }

    lemma NoLostBorrow(d: BigInt)
      requires Valid() && d.Valid() && exp <= d.exp && NumBigits() <= d.NumBigits() + 1
      ensures !LosesBorrow(d)
    {}

    lemma ZeroIsShort()
      requires Valid() && Value() == 0
      ensures bigits == [0]
    {
      ShiftedOrder(0, Val(bigits), exp);
      ShiftedZero(exp);
      if |bigits| > 1 {
        ValAtLeast(bigits);
        ShiftedGrows(0, |bigits| - 1);
      }
    }

    /** Against a positive number, a proper one compares as its value does, except for a tie. */
    lemma ProperCompare(d: BigInt)
      requires Proper(d) && d.Valid() && d.Value() > 0
      ensures CompareResult(this, d) < 0 <==> Value() < d.Value() || (Value() == d.Value() && exp > d.exp)
    {
      if NumBigits() < d.NumBigits() {
        LongerIsLarger(d, this);
      } else if NumBigits() > d.NumBigits() {
        LongerIsLarger(this, d);
      }
    }

    /** A zero that is stored longer than the divisor. */
    ghost predicate LongZero(d: BigInt)
      reads this, d
    {
      Value() == 0 && NumBigits() > d.NumBigits()
    }

    /** What division takes the dividend for: a zero that is too long turns into the largest bigit on top. */
    ghost function Dividend(d: BigInt): (v: nat)
      reads this, d
    {
      ShiftedOrder(0, W32 - 1, d.NumBigits());
      ShiftedZero(d.NumBigits());
      if LongZero(d) then Shifted(W32 - 1, d.NumBigits()) else Value()
    }

    /** Once it is padded, a borrow from a zero has to pass over zeros. */
    lemma PaddedZero(d: BigInt)
      requires LongZero(d) && exp == d.exp && d.Value() > 0
      ensures LosesBorrow(d)
    {
      var i := |d.bigits|;
      ShiftedOrder(0, Val(bigits), exp);
      ShiftedOrder(0, Val(d.bigits), exp);
      ShiftedZero(exp);
      ValSplit(bigits, i);
      ShiftedOrder(0, Val(bigits[i..]), i);
      ShiftedZero(i);
    }

    /** A number below the largest bigit on top of n zeros has at most n + 1 bigits. */
    lemma BelowTop(n: nat)
      requires Valid() && 0 < Value() < Shifted(W32 - 1, n)
      ensures NumBigits() <= n + 1
    {
      ValueRange();
      if NumBigits() > n + 1 {
        ShiftedGrows(n + 1, NumBigits() - 1);
        ShiftedOrder(W32 - 1, W32, n);
        ShiftedCarry(0, 1, n);
        ShiftedZero(n);
      }
    }

    /** Subtraction may go on: a positive dividend, or a zero that was padded because it is too long. */
    ghost predicate Dividing(d: BigInt)
      reads this, d
    {
      && bigits != [] && exp <= d.exp
      && if Value() == 0 then LongZero(d) && exp == d.exp else Valid() && NumBigits() <= d.NumBigits() + 1
    }

    /** One subtraction, after which the dividend is in order whatever it was. */
    method SubtractOnce(d: BigInt) returns (c: int)
      requires d != this && d.Valid() && d.Value() > 0 && Dividing(d) && CompareResult(this, d) >= 0
      modifies this`bigits
      ensures Proper(d) && NumBigits() <= old(NumBigits()) && NumBigits() <= d.NumBigits() + 1
      ensures Value() == old(Dividend(d)) - d.Value()
      ensures c == CompareResult(this, d) && (c >= 0 <==> Value() >= d.Value())
    {
      ghost var n := d.NumBigits();
      if Value() == 0 {
        PaddedZero(d);
      } else {
        NoLostBorrow(d);
      }
      SubtractAligned(d);
      if old(Value()) == 0 {
        d.ValueRange();
        ShiftedOrder(1, W32 - 1, n);
        BelowTop(n);
      }
      ZeroIsProper(d);
      ProperCompare(d);
      c := Compare(this, d);
    }

    /**
      Divide by repeated subtraction; the quotient is returned and the remainder
      is left. A dividend equal to the divisor but with a higher exponent is
      taken for a smaller one, and a zero that is stored longer than the divisor
      for a large number; in every other case the result is exact.
     */
    method DivModAssign(d: BigInt) returns (q: nat)
      requires d != this && Valid() && d.Valid() && d.Value() > 0
      requires Value() == 0 || NumBigits() <= d.NumBigits() + 1
      modifies this
      ensures Proper(d) && NumBigits() <= old(NumBigits())
      ensures exp == if q > 0 && old(exp) > d.exp then d.exp else old(exp)
      ensures if old(Value()) == d.Value() && old(exp) > d.exp then q == 0 && Value() == old(Value())
              else Quotient(old(Dividend(d)), d.Value(), q, Value())
    {
      ghost var v, w := Dividend(d), d.Value();
      var c := Compare(this, d);
      if !LongZero(d) {
        ProperCompare(d);
      } else {
        ZeroIsShort();
      }
      if c < 0 {
        return 0;
      }
      Align(d);
      if Value() > 0 {
        ProperCompare(d);
      }
      q := 0;
      while c >= 0
        invariant d.Valid() && w == d.Value() && v == Prod(q, w) + Dividend(d)
        invariant if c >= 0 then Dividing(d) && CompareResult(this, d) >= 0 else Proper(d) && Value() < w && q > 0
        invariant NumBigits() <= old(NumBigits()) && exp == if old(exp) > d.exp then d.exp else old(exp)
        decreases Dividend(d)
      {
        c := SubtractOnce(d);
        q := q + 1;
      }
    }

    lemma ZeroIsProper(d: BigInt)
      requires Valid() && d.Valid() && exp <= d.exp
      ensures Proper(d)
    {
      if Value() == 0 {
        ZeroIsShort();
      }
    }

    /**
      Rounds of the loop of DivModAssign for a positive dividend that is longer
      than the divisor by two bigits or more: after any number of them the
      dividend is as long as before, so the loop never ends.
     */
    method DivModRounds(d: BigInt, rounds: nat)
      requires d != this && Valid() && d.Valid() && Value() > 0 && NumBigits() >= d.NumBigits() + 2
      modifies this
      ensures Valid() && NumBigits() == old(NumBigits()) && CompareResult(this, d) > 0
    {
      Align(d);
      for i := 0 to rounds
        invariant Valid() && d.Valid() && exp <= d.exp
        invariant NumBigits() == old(NumBigits()) && d.NumBigits() == old(d.NumBigits())
      {
        SubtractAligned(d);
      }
    }
  }

  /** q times w and a remainder below w make v. */
  ghost predicate Quotient(v: nat, w: nat, q: nat, r: nat)
  {
    v == Prod(q, w) + r && r < w
  }

  lemma QuotientIsDivision(v: nat, w: nat, q: nat, r: nat)
    requires w > 0
    ensures Quotient(v, w, q, r) <==> q == v / w && r == v % w
  {
    ProdIsProduct(q, w);
    if Quotient(v, w, q, r) {
      DivModUnique(v, w, q, r);
    }
  }

  ghost function CompareResult(lhs: BigInt, rhs: BigInt): int
    reads lhs, rhs
  {
    if lhs.NumBigits() != rhs.NumBigits() then Sign(lhs.NumBigits() - rhs.NumBigits())
    else if lhs.Value() != rhs.Value() then Sign(lhs.Value() - rhs.Value())
    else Sign(|lhs.bigits| - |rhs.bigits|)
  }

  /** Exactly when comparison gives the sign of the difference. */
  lemma CompareIsExactIff(lhs: BigInt, rhs: BigInt)
    requires lhs.Valid() && rhs.Valid()
    ensures CompareResult(lhs, rhs) == Sign(lhs.Value() - rhs.Value()) <==>
            && !(lhs.NumBigits() > rhs.NumBigits() && lhs.Value() == 0)
            && !(lhs.NumBigits() < rhs.NumBigits() && rhs.Value() == 0)
            && !(lhs.Value() == rhs.Value() && |lhs.bigits| != |rhs.bigits|)
  {
    if lhs.NumBigits() > rhs.NumBigits() && lhs.Value() > 0 {
      LongerIsLarger(lhs, rhs);
    }
    if lhs.NumBigits() < rhs.NumBigits() && rhs.Value() > 0 {
      LongerIsLarger(rhs, lhs);
    }
  }

  /** What a caller can read off: numbers with the same exponent are compared exactly. */
  lemma CompareIsExact(lhs: BigInt, rhs: BigInt)
    requires lhs.Valid() && rhs.Valid() && lhs.exp == rhs.exp
    ensures CompareResult(lhs, rhs) == Sign(lhs.Value() - rhs.Value())
  {
    CompareIsExactIff(lhs, rhs);
    if lhs.Value() == 0 {
      lhs.ZeroIsShort();
    }
    if rhs.Value() == 0 {
      rhs.ZeroIsShort();
    }
    if lhs.NumBigits() > rhs.NumBigits() && lhs.Value() > 0 {
      LongerIsLarger(lhs, rhs);
    }
    if lhs.NumBigits() < rhs.NumBigits() && rhs.Value() > 0 {
      LongerIsLarger(rhs, lhs);
    }
  }

  /** Lengths come first; only operands of about the same length are compared by value. */
  ghost function AddCompareResult(lhs1: BigInt, lhs2: BigInt, rhs: BigInt): int
    reads lhs1, lhs2, rhs
  {
    if BigInt.Longest(lhs1, lhs2) + 1 < rhs.NumBigits() then -1
    else if BigInt.Longest(lhs1, lhs2) > rhs.NumBigits() then 1
    else Sign(lhs1.Value() + lhs2.Value() - rhs.Value())
  }

  /** No zero on the left is longer than the right-hand side, and no zero on the right longer by two bigits. */
  ghost predicate LengthsFit(lhs1: BigInt, lhs2: BigInt, rhs: BigInt)
    reads lhs1, lhs2, rhs
  {
    && lhs1.Proper(rhs) && lhs2.Proper(rhs)
    && (rhs.Value() > 0 || rhs.NumBigits() <= BigInt.Longest(lhs1, lhs2) + 1)
  }

  /** What a caller can see from lengths and zeros alone. */
  lemma AddCompareIsExact(lhs1: BigInt, lhs2: BigInt, rhs: BigInt)
    requires lhs1.Valid() && lhs2.Valid() && rhs.Valid() && LengthsFit(lhs1, lhs2, rhs)
    ensures AddCompareResult(lhs1, lhs2, rhs) == Sign(lhs1.Value() + lhs2.Value() - rhs.Value())
  {
    BigInt.LengthsDecide(lhs1, lhs2, rhs);
  }

  /** The sharp form: a misleading zero on the left does no harm if the sum is larger anyway. */
  lemma AddCompareIsExactIff(lhs1: BigInt, lhs2: BigInt, rhs: BigInt)
    requires lhs1.Valid() && lhs2.Valid() && rhs.Valid()
    ensures AddCompareResult(lhs1, lhs2, rhs) == Sign(lhs1.Value() + lhs2.Value() - rhs.Value()) <==>
            && (rhs.Value() > 0 || rhs.NumBigits() <= BigInt.Longest(lhs1, lhs2) + 1)
            && ((lhs1.Proper(rhs) && lhs2.Proper(rhs)) || lhs1.Value() + lhs2.Value() > rhs.Value())
  {
    BigInt.LengthsDecide(lhs1, lhs2, rhs);
  }

  lemma LongerIsLarger(a: BigInt, b: BigInt)
    requires a.Valid() && b.Valid() && a.Value() > 0 && a.NumBigits() > b.NumBigits()
    ensures a.Value() > b.Value()
  {
    a.ValueRange();
    b.ValueRange();
    ShiftedGrows(b.NumBigits(), a.NumBigits() - 1);
  }

  lemma Pow2Is32()
    ensures Pow(2, 32) == W32
  {
    assert Pow(2, 4) == 16 && Pow(2, 8) == 256;
    PowSum(2, 8, 8);
    PowSum(2, 16, 16);
  }

  lemma {:induction false} ShiftedIsPow2(v: int, e: nat)
    ensures Shifted(v, e) == Pow(2, 32 * e) * v
  {
    if e > 0 {
      ShiftedIsPow2(v, e - 1);
      Pow2Is32();
      PowSum(2, 32, 32 * (e - 1));
      MulAssoc(W32, Pow(2, 32 * (e - 1)), v);
    }
  }

  // ---- where the code does not give the textbook result ----

  lemma ValOfTwo(a: bigit, b: bigit)
    ensures Val([a]) == a && Val([a, b]) == a + W32 * b
  {
    assert [a][1..] == [] && [b][1..] == [] && [a, b][1..] == [b];
  }

  lemma ValOfThree(a: bigit, b: bigit, c: bigit)
    ensures Val([a, b, c]) == a + W32 * (b + W32 * c)
  {
    assert [a, b, c][1..] == [b, c];
    ValOfTwo(b, c);
  }

  /** 5 * 2^32 written with an exponent, and without one: equal, but compared as smaller. */
  lemma EqualButSmaller(a: BigInt, b: BigInt)
    requires a.bigits == [5] && a.exp == 1 && b.bigits == [0, 5] && b.exp == 0
    ensures a.Valid() && b.Valid() && a.Value() == b.Value() && CompareResult(a, b) == -1
  {
    ValOfTwo(5, 0);
    ValOfTwo(0, 5);
    assert a.Value() == Shifted(5, 1) == W32 * Shifted(5, 0);
    assert b.Value() == W32 * 5;
  }

  /** 0 + 1 against 2, where the zero has three bigits more: taken for larger. */
  lemma LongZeroMisleads(a: BigInt, b: BigInt, r: BigInt)
    requires a.bigits == [0] && a.exp == 3 && b.bigits == [1] && b.exp == 0 && r.bigits == [2] && r.exp == 0
    ensures a.Valid() && b.Valid() && r.Valid()
    ensures a.Value() + b.Value() < r.Value() && AddCompareResult(a, b, r) == 1
  {
    ValOfTwo(0, 0);
    ValOfTwo(1, 0);
    ValOfTwo(2, 0);
    ShiftedZero(3);
  }

  /** 2^64 less 1: the borrow out of the lowest bigit stops at the zero above it. */
  lemma BorrowStops(a: BigInt, b: BigInt)
    requires a.bigits == [0, 0, 1] && a.exp == 0 && b.bigits == [1] && b.exp == 0
    ensures a.Valid() && b.Valid() && b.Value() < a.Value() && a.LosesBorrow(b)
  {
    ValOfThree(0, 0, 1);
    ValOfTwo(1, 0);
    ValOfTwo(0, 0);
    assert a.bigits[..1] == [0];
  }

  /** The same two numbers meet the conditions of DivModRounds: dividing 2^64 by 1 never ends. */
  lemma DivisionNeverEnds(a: BigInt, b: BigInt)
    requires a.bigits == [0, 0, 1] && a.exp == 0 && b.bigits == [1] && b.exp == 0
    ensures a.Valid() && b.Valid() && a.Value() > b.Value() > 0 && a.NumBigits() >= b.NumBigits() + 2
    ensures CompareResult(a, b) > 0
  {
    BorrowStops(a, b);
    ValOfTwo(1, 0);
  }

  /** A zero that is stored longer than the divisor is never divided right: its quotient is not zero. */
  lemma LongZeroIsMisdivided(a: BigInt, d: BigInt, q: nat, r: nat)
    requires a.Valid() && d.Valid() && d.Value() > 0 && a.LongZero(d) && Quotient(a.Dividend(d), d.Value(), q, r)
    ensures CompareResult(a, d) > 0 && q >= W32 - 1
  {
    var n, w := d.NumBigits(), d.Value();
    d.ValueRange();
    ProdIsProduct(W32 - 1, w);
    ShiftedTimes(W32 - 1, 1, n);
    if q < W32 - 1 {
      ProdMono(q + 1, W32 - 1, w);
    }
  }

  /** Zero with an exponent, by five: the quotient is that of 2^64 - 2^32, not zero. */
  lemma ZeroByFive(a: BigInt, d: BigInt)
    requires a.bigits == [0] && a.exp == 1 && d.bigits == [5] && d.exp == 0
    ensures a.Valid() && d.Valid() && d.Value() == 5 && a.LongZero(d) && a.Dividend(d) == (W32 - 1) * W32
  {
    ValOfTwo(0, 0);
    ValOfTwo(5, 0);
    ShiftedZero(1);
    assert Shifted(W32 - 1, 1) == W32 * Shifted(W32 - 1, 0);
  }
}
