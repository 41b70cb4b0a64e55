/** What several models share: optional values, word sizes, products and powers. */
module Basics {

  datatype Option<T> = None | Some(value: T)

  const W32: nat := 0x1_0000_0000
  const W64: nat := 0x1_0000_0000_0000_0000

  function Min(a: nat, b: nat): nat {
    if a < b then a else b
  }

  lemma MulAssoc(a: int, b: int, c: int)
    ensures a * b * c == a * (b * c)
  {}

  /** Taking a factor out of the second of two numbers. */
  lemma MulOut(c: int, a: int, p: int)
    ensures a * (c * p) == c * (a * p)
  {}

  lemma MulMono(a: nat, b: nat, c: nat)
    requires a <= b
    ensures a * c <= b * c
  {}

  lemma CancelFactor(t: int, a: int, b: int)
    requires t != 0 && t * a == t * b
    ensures a == b
  {
    assert t * (a - b) == 0;
  }

  /** The product a * b by repeated addition, which keeps proofs about sums of products linear. */
  function Prod(a: nat, b: nat): (r: nat)
  {
    if a == 0 then 0 else b + Prod(a - 1, b)
  }

  lemma {:induction false} ProdIsProduct(a: nat, b: nat)
    ensures Prod(a, b) == a * b
  {
    if a > 0 {
      ProdIsProduct(a - 1, b);
      assert a * b == (a - 1) * b + b;
    }
  }

  lemma {:induction false} ProdMono(a: nat, b: nat, c: nat)
    requires a <= b
    ensures Prod(a, c) <= Prod(b, c)
  {
    if a > 0 {
      ProdMono(a - 1, b - 1, c);
    }
  }

  function Pow(b: nat, e: nat): (r: nat)
    ensures b > 0 ==> r > 0
  {
    if e == 0 then 1 else b * Pow(b, e - 1)
  }

  lemma {:induction false} PowSum(b: nat, x: nat, y: nat)
    ensures Pow(b, x + y) == Pow(b, x) * Pow(b, y)
  {
    if x > 0 {
      PowSum(b, x - 1, y);
      MulAssoc(b, Pow(b, x - 1), Pow(b, y));
    }
  }

  lemma {:induction false} PowMono(b: nat, m: nat, n: nat)
    requires b > 0 && m <= n
    ensures Pow(b, m) <= Pow(b, n)
  {
    if m < n {
      PowMono(b, m, n - 1);
      MulMono(1, b, Pow(b, n - 1));
    }
  }
}
