/**
  Numbers written in base 2^32, least significant bigit first: values, shifts by
  whole bigits, columns of a product. No machine words yet.
 */
module BigNum {
  import opened Basics

  type bigit = x: nat | x < W32

  /** The number that a run of bigits stands for. */
  function Val(bs: seq<bigit>): (v: nat)
  {
    if bs == [] then 0 else bs[0] + W32 * Val(bs[1..])
  }

  /** v times 2^(32e). */
  function Shifted(v: int, e: nat): (r: int)
  {
    if e == 0 then v else W32 * Shifted(v, e - 1)
  }

  function Zeros(n: nat): (zs: seq<bigit>)
    ensures |zs| == n && forall i :: 0 <= i < n ==> zs[i] == 0
  {
    seq(n, _ => 0)
  }

  function Sign(x: int): int {
    if x < 0 then -1 else if x > 0 then 1 else 0
  }

  // ---- shifts by whole bigits ----

  lemma {:induction false} ShiftedAdd(a: int, b: int, e: nat)
    ensures Shifted(a + b, e) == Shifted(a, e) + Shifted(b, e)
    ensures Shifted(a - b, e) == Shifted(a, e) - Shifted(b, e)
  {
    if e > 0 {
      ShiftedAdd(a, b, e - 1);
    }
  }

  /** Carrying one bigit's worth into the next position. */
  lemma {:induction false} ShiftedCarry(lo: int, hi: int, e: nat)
    ensures Shifted(lo + W32 * hi, e) == Shifted(lo, e) + Shifted(hi, e + 1)
  {
    if e > 0 {
      ShiftedCarry(lo, hi, e - 1);
    }
  }

  lemma {:induction false} ShiftedOrder(a: int, b: int, e: nat)
    ensures a < b <==> Shifted(a, e) < Shifted(b, e)
    ensures a <= b <==> Shifted(a, e) <= Shifted(b, e)
  {
    if e > 0 {
      ShiftedOrder(a, b, e - 1);
    }
  }

  lemma {:induction false} ShiftedZero(e: nat)
    ensures Shifted(0, e) == 0
  {
    if e > 0 {
      ShiftedZero(e - 1);
    }
  }

  lemma {:induction false} ShiftedTwice(v: int, a: nat, b: nat)
    ensures Shifted(Shifted(v, a), b) == Shifted(v, a + b)
  {
    if b > 0 {
      ShiftedTwice(v, a, b - 1);
    }
  }

  lemma {:induction false} ShiftedTimes(c: int, v: int, e: nat)
    ensures Shifted(c * v, e) == c * Shifted(v, e)
  {
    if e > 0 {
      ShiftedTimes(c, v, e - 1);
      assert W32 * (c * Shifted(v, e - 1)) == c * (W32 * Shifted(v, e - 1));
    }
  }

  // ---- values ----

  lemma {:induction false} ValAppend(bs: seq<bigit>, c: bigit)
    ensures Val(bs + [c]) == Val(bs) + Shifted(c, |bs|)
  {
    if bs == [] {
      assert [c][1..] == [];
    } else {
      ValAppend(bs[1..], c);
      assert (bs + [c])[1..] == bs[1..] + [c];
    }
  }

  lemma {:induction false} ValSplit(bs: seq<bigit>, i: nat)
    requires i <= |bs|
    ensures Val(bs) == Val(bs[..i]) + Shifted(Val(bs[i..]), i)
    decreases i
  {
    if i == 0 {
      assert bs[0..] == bs;
    } else {
      ValSplit(bs[1..], i - 1);
      assert bs[..i][1..] == bs[1..][..i - 1];
      assert bs[1..][i - 1..] == bs[i..];
    }
  }

  lemma {:induction false} ValBound(bs: seq<bigit>)
    ensures Val(bs) < Shifted(1, |bs|)
  {
    if bs != [] {
      ValBound(bs[1..]);
    }
  }

  lemma {:induction false} ValZeros(n: nat, bs: seq<bigit>)
    ensures Val(Zeros(n) + bs) == Shifted(Val(bs), n)
  {
    if n == 0 {
      assert Zeros(0) + bs == bs;
    } else {
      ValZeros(n - 1, bs);
      assert (Zeros(n) + bs)[1..] == Zeros(n - 1) + bs;
    }
  }

  /** One more bigit of a prefix. */
  lemma ValPrefix(bs: seq<bigit>, i: nat)
    requires i < |bs|
    ensures Val(bs[..i + 1]) == Val(bs[..i]) + Shifted(bs[i], i)
  {
    ValAppend(bs[..i], bs[i]);
    assert bs[..i + 1] == bs[..i] + [bs[i]];
  }

  /** A nonzero top bigit gives a number its length. */
  lemma ValAtLeast(bs: seq<bigit>)
    requires bs != [] && bs[|bs| - 1] != 0
    ensures Shifted(1, |bs| - 1) <= Val(bs)
  {
    var n := |bs| - 1;
    ValPrefix(bs, n);
    assert bs[..n + 1] == bs;
    ShiftedOrder(1, bs[n], n);
  }

  /** Dropping a zero top bigit keeps the value. */
  lemma ValDropTop(bs: seq<bigit>)
    requires bs != [] && bs[|bs| - 1] == 0
    ensures Val(bs[..|bs| - 1]) == Val(bs)
  {
    ValPrefix(bs, |bs| - 1);
    assert bs[..|bs|] == bs;
    ShiftedZero(|bs| - 1);
  }

  // ---- products ----

  lemma {:induction false} ProdSplit(c: nat, x: nat, y: nat)
    ensures Prod(c, x + W32 * y) == Prod(c, x) + W32 * Prod(c, y)
  {
    if c > 0 {
      ProdSplit(c - 1, x, y);
    }
  }

  lemma {:induction false} ProdZero(c: nat)
    ensures Prod(c, 0) == 0
  {
    if c > 0 {
      ProdZero(c - 1);
    }
  }

  function Get(bs: seq<bigit>, k: nat): (b: bigit)
  {
    if k < |bs| then bs[k] else 0
  }

  /** Column k of the product of two numbers: all a[i] * b[k - i]. */
  function Col(a: seq<bigit>, b: seq<bigit>, k: nat): (c: nat)
  {
    if a == [] then 0 else Prod(a[0], Get(b, k)) + if k == 0 then 0 else Col(a[1..], b, k - 1)
  }

  /** Columns k up to n, each one worth 2^32 times the one before. */
  function Cols(a: seq<bigit>, b: seq<bigit>, k: nat, n: nat): (c: nat)
    decreases n - k
  {
    if k >= n then 0 else Col(a, b, k) + W32 * Cols(a, b, k + 1, n)
  }

  /** The columns of a single bigit times a number. */
  lemma {:induction false} ColsOfOne(x: bigit, b: seq<bigit>, k: nat, n: nat)
    requires k <= |b| <= n
    ensures Cols([x], b, k, n) == Prod(x, Val(b[k..]))
    decreases n - k
  {
    ProdZero(x);
    if k < |b| {
      ColsOfOne(x, b, k + 1, n);
      assert b[k..][1..] == b[k + 1..];
      ProdSplit(x, b[k], Val(b[k + 1..]));
    } else {
      ColsBeyond([x], b, k, n);
    }
    assert k < n ==> Col([x], b, k) == Prod(x, Get(b, k));
  }

  lemma {:induction false} ColsBeyond(a: seq<bigit>, b: seq<bigit>, k: nat, n: nat)
    requires k >= |a| + |b| - 1 && |a| > 0
    ensures Cols(a, b, k, n) == 0
    decreases n - k
  {
    if k < n {
      ColsBeyond(a, b, k + 1, n);
      ColBeyond(a, b, k);
    }
  }

  lemma {:induction false} ColBeyond(a: seq<bigit>, b: seq<bigit>, k: nat)
    requires k >= |a| + |b| - 1
    ensures Col(a, b, k) == 0
  {
    if a != [] {
      ProdZero(a[0]);
      if k > 0 {
        ColBeyond(a[1..], b, k - 1);
      }
    }
  }

  /** Peeling the lowest bigit of the first factor off all columns. */
  lemma {:induction false} ColsPeel(a: seq<bigit>, b: seq<bigit>, k: nat, n: nat)
    requires a != [] && 0 < k <= n
    ensures Cols(a, b, k, n) == Cols([a[0]], b, k, n) + Cols(a[1..], b, k - 1, n - 1)
    decreases n - k
  {
    if k < n {
      ColsPeel(a, b, k + 1, n);
      assert [a[0]][1..] == [];
      assert Col([a[0]], b, k) == Prod(a[0], Get(b, k));
      assert Cols(a[1..], b, k - 1, n - 1) == Col(a[1..], b, k - 1) + W32 * Cols(a[1..], b, k, n - 1);
    }
  }

  /** The product of two numbers is the sum of its columns. */
  lemma {:induction false} ProductByColumns(a: seq<bigit>, b: seq<bigit>, n: nat)
    requires |a| + |b| <= n
    ensures Prod(Val(a), Val(b)) == Cols(a, b, 0, n)
  {
    if a == [] {
      NoColumns(b, 0, n);
    } else if n > 0 {
      ProductByColumns(a[1..], b, n - 1);
      OneMoreBigit(a, b, n);
    }
  }

  lemma OneMoreBigit(a: seq<bigit>, b: seq<bigit>, n: nat)
    requires a != [] && |a| + |b| <= n && Prod(Val(a[1..]), Val(b)) == Cols(a[1..], b, 0, n - 1)
    ensures Prod(Val(a), Val(b)) == Cols(a, b, 0, n)
  {
    FirstBigit(a, b, n);
    ColsOfOne(a[0], b, 0, n);
    assert b[0..] == b;
    ProdSplitLeft(a[0], Val(a[1..]), Val(b));
  }

  /** All columns, as those of the lowest bigit and those of the rest one column up. */
  lemma FirstBigit(a: seq<bigit>, b: seq<bigit>, n: nat)
    requires a != [] && n > 0
    ensures Cols(a, b, 0, n) == Cols([a[0]], b, 0, n) + W32 * Cols(a[1..], b, 0, n - 1)
  {
    ColsPeel(a, b, 1, n);
    assert Col(a, b, 0) == Prod(a[0], Get(b, 0)) == Col([a[0]], b, 0);
  }

  lemma {:induction false} NoColumns(b: seq<bigit>, k: nat, n: nat)
    ensures Cols([], b, k, n) == 0
    decreases n - k
  {
    if k < n {
      NoColumns(b, k + 1, n);
    }
  }

  lemma ProdSplitLeft(x: nat, y: nat, c: nat)
    ensures Prod(x + W32 * y, c) == Prod(x, c) + W32 * Prod(y, c)
  {
    ProdIsProduct(x + W32 * y, c);
    ProdIsProduct(x, c);
    ProdIsProduct(y, c);
    assert (x + W32 * y) * c == x * c + W32 * (y * c);
  }

  // ---- sizes ----

  /** A power of five has at most as many bigits as its exponent, and at least one. */
  lemma {:induction false} PowFiveBound(x: nat)
    ensures Pow(5, x) <= Shifted(1, x)
  {
    if x > 0 {
      PowFiveBound(x - 1);
    }
  }

  lemma {:induction false} ShiftedGrows(a: nat, b: nat)
    requires a <= b
    ensures 0 < Shifted(1, a) <= Shifted(1, b) && (a < b ==> Shifted(1, a) < Shifted(1, b))
  {
    if a < b {
      ShiftedGrows(a, b - 1);
    } else if a > 0 {
      ShiftedGrows(a - 1, b - 1);
    }
  }

  // ---- comparison from the top ----

  /** What the bigits from position i on are worth, in units of 2^(32i). */
  function High(ds: seq<bigit>, i: nat): (v: nat)
  {
    if i < |ds| then Val(ds[i..]) else 0
  }

  lemma HighStep(ds: seq<bigit>, i: nat)
    ensures High(ds, i) == Get(ds, i) + W32 * High(ds, i + 1)
  {
    if i < |ds| {
      assert ds[i..][1..] == ds[i + 1..];
    }
  }

  /** The bigits from i on determine the value up to less than 2^(32i). */
  lemma HighBounds(ds: seq<bigit>, i: nat)
    ensures Shifted(High(ds, i), i) <= Val(ds) < Shifted(High(ds, i) + 1, i)
  {
    if i <= |ds| {
      ValSplit(ds, i);
      ValBound(ds[..i]);
      assert i == |ds| ==> ds[i..] == [];
    } else {
      ValBound(ds);
      ShiftedGrows(|ds|, i);
    }
    ShiftedAdd(High(ds, i), 1, i);
    ShiftedZero(i);
  }

  /** With only zeros below i, the bigits from i on are all there is. */
  lemma HighExact(e: nat, bs: seq<bigit>, i: nat)
    requires i <= e
    ensures Val(Zeros(e) + bs) == Shifted(High(Zeros(e) + bs, i), i)
  {
    var ds := Zeros(e) + bs;
    if i < |ds| {
      ValSplit(ds, i);
      assert ds[..i] == Zeros(i) + [];
      ValZeros(i, []);
      ShiftedZero(i);
    } else {
      assert ds == Zeros(i) + [];
      ValZeros(i, []);
      ShiftedZero(i);
    }
  }

  /** The highest position where two numbers differ decides. */
  lemma HigherWins(a: seq<bigit>, b: seq<bigit>, i: nat)
    requires High(a, i) < High(b, i)
    ensures Val(a) < Val(b)
  {
    HighBounds(a, i);
    HighBounds(b, i);
    ShiftedOrder(High(a, i) + 1, High(b, i), i);
  }

  /** Two numbers known down to 2^(32i) against a third: one unit more on top decides. */
  lemma BoundsWin(a: int, b: int, r: int, x: int, y: int, z: int, i: nat)
    requires Shifted(x, i) <= a && Shifted(y, i) <= b && r < Shifted(z + 1, i) && x + y > z
    ensures a + b > r
  {
    ShiftedAdd(x, y, i);
    ShiftedOrder(z + 1, x + y, i);
  }

  /** Two units less on top decide as well: what is below adds up to less than two units. */
  lemma BoundsLose(a: int, b: int, r: int, x: int, y: int, z: int, i: nat)
    requires a < Shifted(x + 1, i) && b < Shifted(y + 1, i) && Shifted(z, i) <= r && x + y + 2 <= z
    ensures a + b < r
  {
    ShiftedAdd(x + 1, y + 1, i);
    ShiftedOrder(x + 1 + (y + 1), z, i);
  }
}
