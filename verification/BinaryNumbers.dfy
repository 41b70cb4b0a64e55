/**
  The numbers of a binary interchange format: what their bits stand for, in one
  unit for all of them, and which number comes next.
 */
module BinaryNumbers {
  import opened Basics

  /** A format: its bits in all, the binary digits of its significands, and the exponent that no number reaches. */
  datatype Binary = Binary(bits: nat, digits: nat, maxExponent: nat)
  {
    /** The bits of the fraction; the leading digit of a significand is not stored. */
    function Size(): int {
      digits - 1
    }

    /** The bits of the exponent; one bit is the sign. */
    function ExponentSize(): int {
      bits - Size() - 1
    }

    function Bias(): int
      requires ExponentSize() >= 0
    {
      Pow(2, ExponentSize()) - maxExponent - 1
    }

    predicate Valid() {
      digits > 0 && ExponentSize() >= 0
    }
  }

  const BINARY32: Binary := Binary(32, 24, 128)
  const BINARY64: Binary := Binary(64, 53, 1024)

  /** Both formats are as IEEE 754-2008 has them in section 3.6: the bias is half the range of exponents, less one. */
  lemma FormatsAre()
    ensures BINARY32.Valid() && BINARY32.Size() == 23 && BINARY32.Bias() == Pow(2, 32 - 23 - 2) - 1 == 127
    ensures BINARY64.Valid() && BINARY64.Size() == 52 && BINARY64.Bias() == Pow(2, 64 - 52 - 2) - 1 == 1023
  {
    assert Pow(2, 4) == 16 && Pow(2, 7) == 128 && Pow(2, 8) == 256 && Pow(2, 10) == 1024 && Pow(2, 11) == 2048;
  }

  /** f * 2^e. */
  datatype Fp = Fp(f: nat, e: int)

  /** A number from its fraction and biased exponent, and whether its predecessor is closer than its successor. */
  function Assign(kind: Binary, fraction: nat, biased: nat): (r: (Fp, bool))
    requires kind.Valid() && fraction < Pow(2, kind.Size())
    ensures r.0.f < Pow(2, kind.Size() + 1) && (r.0.f > 0 <==> fraction > 0 || biased > 0)
  {
    var closer := fraction == 0 && biased > 1;
    if biased != 0 then (Fp(fraction + Pow(2, kind.Size()), biased - kind.Bias() - kind.Size()), closer)
    else (Fp(fraction, 1 - kind.Bias() - kind.Size()), closer)
  }

  // ---- one unit for all numbers ----

  /** The exponent of the least positive number, which all numbers are multiples of. */
  function Lowest(kind: Binary): int
    requires kind.Valid()
  {
    1 - kind.Bias() - kind.Size()
  }

  /** A number in units of the least positive one. */
  function Magnitude(kind: Binary, fraction: nat, biased: nat): nat
    requires kind.Valid()
  {
    if biased == 0 then fraction else (fraction + Pow(2, kind.Size())) * Pow(2, biased - 1)
  }

  /** One unit in the last place of a number. */
  function LastPlace(biased: nat): nat
  {
    Pow(2, if biased == 0 then 0 else biased - 1)
  }

  /** What the bits stand for. */
  function Number(kind: Binary, fraction: nat, biased: nat): Fp
    requires kind.Valid()
  {
    Fp(Magnitude(kind, fraction, biased), Lowest(kind))
  }

  /** Every number, normal or not, is read as what its bits stand for. */
  lemma AssignIs(kind: Binary, fraction: nat, biased: nat)
    requires kind.Valid() && fraction < Pow(2, kind.Size())
    ensures var v := Assign(kind, fraction, biased).0;
            && v.e >= Lowest(kind) && LastPlace(biased) == Pow(2, v.e - Lowest(kind))
            && Magnitude(kind, fraction, biased) == v.f * Pow(2, v.e - Lowest(kind))
  {
  }

  /** The number one has an empty fraction and the bias as its exponent; one unit is the least positive number. */
  lemma OneAndLeast(kind: Binary)
    requires kind.Valid() && kind.Bias() > 0
    ensures Magnitude(kind, 0, kind.Bias()) == Pow(2, -Lowest(kind))
    ensures kind.Size() > 0 ==> Magnitude(kind, 1, 0) == 1
  {
    PowSum(2, kind.Size(), kind.Bias() - 1);
  }

  // ---- the next number ----

  /** The bits after these ones, read as an integer, are those of the next number. */
  lemma Successor(kind: Binary, fraction: nat, biased: nat) returns (fraction': nat, biased': nat)
    requires kind.Valid() && fraction < Pow(2, kind.Size())
    ensures fraction' < Pow(2, kind.Size())
    ensures biased' * Pow(2, kind.Size()) + fraction' == biased * Pow(2, kind.Size()) + fraction + 1
    ensures Magnitude(kind, fraction', biased') == Magnitude(kind, fraction, biased) + LastPlace(biased)
  {
    var p := Pow(2, kind.Size());
    if fraction + 1 < p {
      fraction', biased' := fraction + 1, biased;
      if biased > 0 {
        OneMore(fraction + p, Pow(2, biased - 1));
      }
    } else {
      fraction', biased' := 0, biased + 1;
      OneMore(biased, p);
      if biased > 0 {
        OneMore(fraction + p, Pow(2, biased - 1));
        MulOut(2, p, Pow(2, biased - 1));
        MulAssoc(2, p, Pow(2, biased - 1));
      }
    }
  }

  lemma OneMore(n: nat, d: nat)
    ensures (n + 1) * d == n * d + d
  {
  }

  /** And those before them are those of the number before, which is nearer below a power of two. */
  lemma Predecessor(kind: Binary, fraction: nat, biased: nat) returns (fraction': nat, biased': nat)
    requires kind.Valid() && fraction < Pow(2, kind.Size()) && (fraction > 0 || biased > 0)
    ensures fraction' < Pow(2, kind.Size())
    ensures biased' * Pow(2, kind.Size()) + fraction' + 1 == biased * Pow(2, kind.Size()) + fraction
    ensures var m, m', place := Magnitude(kind, fraction, biased), Magnitude(kind, fraction', biased'), LastPlace(biased);
            if Assign(kind, fraction, biased).1 then 2 * m' + place == 2 * m else m' + place == m
  {
    var p := Pow(2, kind.Size());
    if fraction > 0 {
      fraction', biased' := fraction - 1, biased;
    } else {
      fraction', biased' := p - 1, biased - 1;
      OneMore(biased - 1, p);
    }
    var f, b := Successor(kind, fraction', biased');
    SameBits(biased, fraction, b, f, p);
  }

  lemma SameBits(b: nat, f: nat, b': nat, f': nat, p: nat)
    requires f < p && f' < p && b * p + f == b' * p + f'
    ensures b == b' && f == f'
  {
    if b < b' {
      MulMono(b + 1, b', p);
      OneMore(b, p);
    } else if b' < b {
      MulMono(b' + 1, b, p);
      OneMore(b', p);
    }
  }

  lemma OtherSignificand(f: nat, g: nat, place: nat)
    requires f < g
    ensures f * place + place <= g * place
  {
    MulMono(f + 1, g, place);
    OneMore(f, place);
  }

  /** Numbers with larger exponents are at least one unit away from the next one. */
  lemma HigherNumber(size: nat, f: nat, t: nat, g: nat, u: nat)
    requires f < Pow(2, size + 1) && g >= Pow(2, size) && t < u
    ensures f * Pow(2, t) + Pow(2, t) <= g * Pow(2, u)
  {
    var p := Pow(2, t);
    PowMono(2, t + 1, u);
    assert Pow(2, t + 1) == 2 * p;
    MulMono(2 * p, Pow(2, u), g);
    assert g * (2 * p) == (2 * g) * p;
    OtherSignificand(f, 2 * g, p);
  }

  /** Numbers with smaller exponents end one unit of theirs below a power of two. */
  lemma LowerNumber(size: nat, f: nat, t: nat, g: nat, u: nat)
    requires f >= Pow(2, size) && g < Pow(2, size + 1) && u < t
    ensures g * Pow(2, u) + Pow(2, t - 1) <= f * Pow(2, t)
    ensures f > Pow(2, size) ==> g * Pow(2, u) + Pow(2, t) <= f * Pow(2, t)
  {
    var p := Pow(2, t - 1);
    PowMono(2, u, t - 1);
    MulMono(Pow(2, u), p, g);
    assert f * (2 * p) == (2 * f) * p;
    OtherSignificand(g, 2 * f, p);
    if f > Pow(2, size) {
      OtherSignificand(g, 2 * f - 1, p);
      OneMore(2 * f - 1, p);
    }
  }

  /** Every other number is at least one unit above, or as far below as the predecessor is. */
  lemma Neighbours(kind: Binary, fraction: nat, biased: nat, fraction': nat, biased': nat)
    requires kind.Valid() && fraction < Pow(2, kind.Size()) && fraction' < Pow(2, kind.Size())
    requires fraction != fraction' || biased != biased'
    ensures var m, m', place := Magnitude(kind, fraction, biased), Magnitude(kind, fraction', biased'), LastPlace(biased);
            || m' >= m + place
            || (if Assign(kind, fraction, biased).1 then 2 * m' + place <= 2 * m else m' + place <= m)
  {
    var f, g := Assign(kind, fraction, biased).0.f, Assign(kind, fraction', biased').0.f;
    var t := if biased == 0 then 0 else biased - 1;
    var u := if biased' == 0 then 0 else biased' - 1;
    AssignIs(kind, fraction, biased);
    AssignIs(kind, fraction', biased');
    if t < u {
      HigherNumber(kind.Size(), f, t, g, u);
    } else if u < t {
      LowerNumber(kind.Size(), f, t, g, u);
      assert Pow(2, t) == 2 * Pow(2, t - 1);
    } else if f < g {
      OtherSignificand(f, g, Pow(2, t));
    } else {
      OtherSignificand(g, f, Pow(2, t));
    }
  }
}
