/**
  Machine words as natural numbers: powers of two, bitwise and, trailing-zero
  count, and little-endian words made of bytes.
 */
module Bits {
  import opened Basics

  type byte = x: nat | x < 256

  function LowBit(a: nat, b: nat): (r: nat)
  {
    if a % 2 == 1 && b % 2 == 1 then 1 else 0
  }

  /** Bitwise and of two naturals, bit by bit. */
  function BitAnd(a: nat, b: nat): (r: nat)
  {
    if a == 0 then 0 else LowBit(a, b) + 2 * BitAnd(a / 2, b / 2)
  }

  lemma MulAtLeast(a: int, d: int)
    requires a >= 1 && d > 0
    ensures a * d >= d
  {}

  /** The unique quotient and remainder of a division. */
  lemma DivModUnique(x: int, d: int, q: int, r: int)
    requires d > 0 && 0 <= r < d && x == q * d + r
    ensures x / d == q && x % d == r
  {
    var q', r' := x / d, x % d;
    assert x == q' * d + r';
    assert q * d - q' * d == (q - q') * d;
    if q > q' {
      MulAtLeast(q - q', d);
    } else if q < q' {
      assert q' * d - q * d == (q' - q) * d;
      MulAtLeast(q' - q, d);
    }
  }

  /** Dividing by 2^k is halving and then dividing by 2^(k-1). */
  lemma SplitPow2(a: nat, k: nat)
    requires k > 0
    ensures a / 2 / Pow(2, k - 1) == a / Pow(2, k)
    ensures a / 2 % Pow(2, k - 1) == a % Pow(2, k) / 2
    ensures a % Pow(2, k) % 2 == a % 2
  {
    var p := Pow(2, k - 1);
    var q, r := a / 2 / p, a / 2 % p;
    assert a / 2 == q * p + r;
    assert a == q * (2 * p) + (2 * r + a % 2) by {
      assert q * (2 * p) == 2 * (q * p);
    }
    DivModUnique(a, 2 * p, q, 2 * r + a % 2);
  }

  lemma BitAndUnfold(a: nat, b: nat)
    ensures BitAnd(a, b) == LowBit(a, b) + 2 * BitAnd(a / 2, b / 2)
  {}

  /** Bitwise and works on the low k bits and on the rest separately. */
  lemma {:induction false} BitAndSplit(aHi: nat, aLo: nat, bHi: nat, bLo: nat, k: nat)
    requires aLo < Pow(2, k) && bLo < Pow(2, k)
    ensures BitAnd(aHi * Pow(2, k) + aLo, bHi * Pow(2, k) + bLo) == BitAnd(aLo, bLo) + Pow(2, k) * BitAnd(aHi, bHi)
  {
    if k > 0 {
      HalfSplit(aHi, aLo, bHi, bLo, Pow(2, k - 1));
      BitAndUnfold(aLo, bLo);
      BitAndSplit(aHi, aLo / 2, bHi, bLo / 2, k - 1);
      MulAssoc(2, Pow(2, k - 1), BitAnd(aHi, bHi));
    }
  }

  lemma HalfSplit(aHi: nat, aLo: nat, bHi: nat, bLo: nat, p: nat)
    ensures BitAnd(aHi * (2 * p) + aLo, bHi * (2 * p) + bLo)
         == LowBit(aLo, bLo) + 2 * BitAnd(aHi * p + aLo / 2, bHi * p + bLo / 2)
  {
    ShiftedHalf(aHi, aLo, p);
    ShiftedHalf(bHi, bLo, p);
    BitAndUnfold(aHi * (2 * p) + aLo, bHi * (2 * p) + bLo);
  }

  lemma ShiftedHalf(hi: nat, lo: nat, p: nat)
    ensures hi * (2 * p) + lo == 2 * (hi * p) + lo
    ensures (hi * (2 * p) + lo) / 2 == hi * p + lo / 2
    ensures (hi * (2 * p) + lo) % 2 == lo % 2
  {
    MulOut(2, hi, p);
  }

  /** Anding with 2^k - 1 is the remainder modulo 2^k. */
  lemma {:induction false} BitAndMask(a: nat, k: nat)
    ensures BitAnd(a, Pow(2, k) - 1) == a % Pow(2, k)
  {
    if k == 0 {
      BitAndZero(a);
    } else if a > 0 {
      BitAndMask(a / 2, k - 1);
      SplitPow2(a, k);
      assert (Pow(2, k) - 1) % 2 == 1 && (Pow(2, k) - 1) / 2 == Pow(2, k - 1) - 1;
    } else {
      DivModUnique(0, Pow(2, k), 0, 0);
    }
  }

  /** Shift right by k bits. */
  function Shr(a: nat, k: nat): (r: nat)
  {
    if k == 0 then a else Shr(a / 2, k - 1)
  }

  lemma {:induction false} ShrStep(a: nat, k: nat)
    ensures Shr(a, k + 1) == Shr(a, k) / 2
  {
    if k > 0 {
      ShrStep(a / 2, k - 1);
    }
  }

  lemma {:induction false} ShrZero(k: nat)
    ensures Shr(0, k) == 0
  {
    if k > 0 {
      ShrZero(k - 1);
    }
  }

  /** Shifting right is dividing by a power of two. */
  lemma {:induction false} ShrIsQuotient(a: nat, k: nat)
    ensures Shr(a, k) == a / Pow(2, k)
  {
    if k > 0 {
      ShrIsQuotient(a / 2, k - 1);
      SplitPow2(a, k);
    }
  }

  /** Testing one bit. */
  lemma {:induction false} BitAndPow2(a: nat, k: nat)
    ensures BitAnd(a, Pow(2, k)) != 0 <==> Shr(a, k) % 2 == 1
  {
    if a == 0 {
      ShrZero(k);
    } else if k == 0 {
      BitAndZero(a / 2);
    } else {
      BitAndUnfold(a, Pow(2, k));
      BitAndPow2(a / 2, k - 1);
    }
  }

  lemma BitAndZero(a: nat)
    ensures BitAnd(a, 0) == 0
  {}

  lemma {:induction false} TenIsTwoTimesFive(e: nat)
    ensures Pow(2, e) * Pow(5, e) == Pow(10, e)
  {
    if e > 0 {
      TenIsTwoTimesFive(e - 1);
      var a, b := Pow(2, e - 1), Pow(5, e - 1);
      MulAssoc(2, a, 5 * b);
      MulOut(5, a, b);
    }
  }

  /** The position of the lowest set bit. */
  function TrailingZeros(a: nat): (r: nat)
    requires a > 0
  {
    if a % 2 == 1 then 0 else 1 + TrailingZeros(a / 2)
  }

  lemma {:induction false} TrailingZerosScale(a: nat, k: nat)
    requires a > 0
    ensures a * Pow(2, k) > 0
    ensures TrailingZeros(a * Pow(2, k)) == k + TrailingZeros(a)
  {
    if k > 0 {
      TrailingZerosScale(a, k - 1);
      MulOut(2, a, Pow(2, k - 1));
      TrailingZerosDouble(a * Pow(2, k - 1));
    }
  }

  lemma TrailingZerosDouble(n: nat)
    requires n > 0
    ensures TrailingZeros(2 * n) == 1 + TrailingZeros(n)
  {}

  lemma {:induction false} TrailingZerosBound(a: nat, k: nat)
    requires a > 0 && a % Pow(2, k) != 0
    ensures TrailingZeros(a) < k
  {
    if k > 0 && a % 2 == 0 {
      SplitPow2(a, k);
      TrailingZerosBound(a / 2, k - 1);
    }
  }

  /** The word stored little-endian in a run of bytes. */
  function WordOf(bs: seq<byte>): (w: nat)
  {
    if bs == [] then 0 else bs[0] + 256 * WordOf(bs[1..])
  }

  /** The n low bytes of a word, lowest first. */
  function BytesOf(w: nat, n: nat): (bs: seq<byte>)
    ensures |bs| == n
  {
    if n == 0 then [] else [w % 256] + BytesOf(w / 256, n - 1)
  }

  lemma {:induction false} StoreLoad(bs: seq<byte>)
    ensures BytesOf(WordOf(bs), |bs|) == bs
  {
    if bs != [] {
      StoreLoad(bs[1..]);
      SplitByte(bs[0], WordOf(bs[1..]));
    }
  }

  lemma SplitByte(b: byte, rest: nat)
    ensures (b + 256 * rest) % 256 == b && (b + 256 * rest) / 256 == rest
  {}

  function HalvedBytes(bs: seq<byte>): (r: seq<byte>)
    ensures |r| == |bs|
  {
    seq(|bs|, i requires 0 <= i < |bs| => bs[i] / 2)
  }

  /** The mask 0x7f7f...7f with n bytes. */
  function Mask7f(n: nat): (m: nat)
  {
    if n == 0 then 0 else 127 + 256 * Mask7f(n - 1)
  }

  lemma Mask7fIs64()
    ensures Mask7f(8) == 0x7f7f7f7f7f7f7f7f
  {
    assert Mask7f(2) == 0x7f7f;
    assert Mask7f(4) == 0x7f7f7f7f;
    assert Mask7f(6) == 0x7f7f7f7f7f7f;
  }

  /**
    Shifting a whole word right by one bit and masking with 0x7f7f...7f halves
    every byte on its own: the bit that leaks in from the next byte is the one
    the mask clears.
   */
  lemma {:induction false} HalveWord(bs: seq<byte>)
    ensures BitAnd(WordOf(bs) / 2, Mask7f(|bs|)) == WordOf(HalvedBytes(bs))
  {
    if bs != [] {
      var rest, m, half := WordOf(bs[1..]), Mask7f(|bs| - 1), WordOf(HalvedBytes(bs[1..]));
      HalveWord(bs[1..]);
      assert HalvedBytes(bs)[1..] == HalvedBytes(bs[1..]);
      HalveStep(bs[0], rest, m);
    }
  }

  lemma HalveStep(b: byte, rest: nat, m: nat)
    ensures BitAnd((b + 256 * rest) / 2, 127 + 256 * m) == b / 2 + 256 * BitAnd(rest / 2, m)
  {
    var lo := b / 2 + 128 * (rest % 2);
    AndMaskByte(lo, rest / 2, m);
    assert (b + 256 * rest) / 2 == 256 * (rest / 2) + lo;
  }

  /** One byte of a mask: the low byte loses its top bit, the rest is anded on its own. */
  lemma AndMaskByte(lo: nat, hi: nat, m: nat)
    requires lo < 256
    ensures BitAnd(256 * hi + lo, 127 + 256 * m) == lo % 128 + 256 * BitAnd(hi, m)
  {
    assert Pow(2, 7) == 128 && Pow(2, 8) == 256 by { assert Pow(2, 4) == 16; }
    BitAndSplit(hi, lo, m, 127, 8);
    BitAndMask(lo, 7);
  }

  ghost predicate AllZero(bs: seq<byte>)
  {
    forall i :: 0 <= i < |bs| ==> bs[i] == 0
  }

  lemma {:induction false} WordZero(bs: seq<byte>)
    ensures WordOf(bs) == 0 <==> AllZero(bs)
  {
    if bs != [] {
      WordZero(bs[1..]);
      if AllZero(bs) {
        assert AllZero(bs[1..]);
      } else if WordOf(bs) == 0 {
        assert AllZero(bs[1..]);
        forall i | 0 <= i < |bs| ensures bs[i] == 0 {
          if i > 0 { assert bs[1..][i - 1] == 0; }
        }
      }
    }
  }

  /** Trailing zeros divided by eight is the index of the first nonzero byte. */
  lemma {:induction false} FirstNonzeroByte(bs: seq<byte>)
    requires WordOf(bs) > 0
    ensures var k := TrailingZeros(WordOf(bs)) / 8;
            k < |bs| && bs[k] != 0 && AllZero(bs[..k])
  {
    var w := WordOf(bs);
    assert Pow(2, 8) == 256 by { assert Pow(2, 4) == 16; }
    if bs[0] != 0 {
      TrailingZerosBound(w, 8);
    } else {
      FirstNonzeroByte(bs[1..]);
      TrailingZerosScale(WordOf(bs[1..]), 8);
      var k := TrailingZeros(w) / 8;
      assert bs[..k] == [bs[0]] + bs[1..][..k - 1];
    }
  }
}
