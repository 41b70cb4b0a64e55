/**
  The digits of a quotient of two big integers, rounded to a given number of
  decimal digits: the fixed-digit branch of the fallback float formatter.
 */
module FixedDigits {
  import opened Basics
  import opened Bits
  import opened BigIntegers

  /** The number that decimal digits stand for, most significant first; a digit may be 10 while a carry is pending. */
  function Decimal(ds: seq<nat>): (v: nat)
  {
    if ds == [] then 0 else 10 * Decimal(ds[..|ds| - 1]) + ds[|ds| - 1]
  }

  ghost predicate AreDigits(ds: seq<nat>)
  {
    forall i :: 0 <= i < |ds| ==> ds[i] < 10
  }

  ghost predicate RoundsUp(r: nat, w: nat, digit: nat)
  {
    2 * r > w || (2 * r == w && digit % 2 == 1)
  }

  /** x is n / w rounded to the nearest integer, ties to even. */
  ghost predicate Rounded(n: nat, w: nat, x: nat)
  {
    exists f: nat, r: nat :: Quotient(n, w, f, r) && x == if RoundsUp(r, w, f) then f + 1 else f
  }

  /** How far x * w is from n. */
  function Distance(n: nat, w: nat, x: nat): (d: nat)
  {
    if n < Prod(x, w) then Prod(x, w) - n else n - Prod(x, w)
  }

  /** Nothing is nearer than the rounded value, and of two nearest ones it is the even one. */
  lemma RoundedIsNearest(n: nat, w: nat, x: nat, other: nat)
    requires w > 0 && Rounded(n, w, x) && other != x
    ensures Distance(n, w, x) <= Distance(n, w, other)
    ensures Distance(n, w, x) == Distance(n, w, other) ==> x % 2 == 0
  {
    var f: nat, r: nat :| Quotient(n, w, f, r) && x == if RoundsUp(r, w, f) then f + 1 else f;
    assert Prod(f + 1, w) == w + Prod(f, w);
    if other < f {
      ProdMono(other + 1, f, w);
      assert Prod(other + 1, w) == w + Prod(other, w);
    } else if other > f + 1 {
      ProdMono(f + 1, other - 1, w);
      assert Prod(other, w) == w + Prod(other - 1, w);
    }
  }

  // ---- the carry through trailing nines ----

  lemma DecimalAppend(ds: seq<nat>, d: nat)
    ensures Decimal(ds + [d]) == 10 * Decimal(ds) + d
  {
    assert (ds + [d])[..|ds|] == ds;
  }

  lemma {:induction false} DecimalZeros(ds: seq<nat>, i: nat)
    requires i <= |ds| && forall j :: i <= j < |ds| ==> ds[j] == 0
    ensures Decimal(ds) == Decimal(ds[..i]) * Pow(10, |ds| - i)
    decreases |ds| - i
  {
    if i == |ds| {
      assert ds[..i] == ds;
    } else {
      DecimalZeros(ds, i + 1);
      assert ds[..i + 1][..i] == ds[..i];
      assert 10 * Decimal(ds[..i]) * Pow(10, |ds| - i - 1) == Decimal(ds[..i]) * (10 * Pow(10, |ds| - i - 1));
    }
  }

  /** Moving a pending carry one digit up keeps the number. */
  lemma CarryUp(ds: seq<nat>, ds': seq<nat>, i: nat)
    requires 0 < i < |ds| && ds[i] == 10 && ds' == ds[i := 0][i - 1 := ds[i - 1] + 1]
    ensures 10 * Decimal(ds'[..i]) == Decimal(ds[..i + 1])
  {
    assert ds[..i + 1] == ds[..i - 1] + [ds[i - 1]] + [10];
    assert ds'[..i] == ds[..i - 1] + [ds[i - 1] + 1];
    DecimalAppend(ds[..i - 1] + [ds[i - 1]], 10);
    DecimalAppend(ds[..i - 1], ds[i - 1]);
    DecimalAppend(ds[..i - 1], ds[i - 1] + 1);
  }

  /** What is left of nines only, one place up. */
  ghost predicate OneAndZeros(ds: seq<nat>)
  {
    ds != [] && ds[0] == 1 && forall j :: 0 < j < |ds| ==> ds[j] == 0
  }

  /** Resolve a carry at the last digit: trailing nines become zeros, and all nines become 1 and a shift. */
  method PropagateCarry(start: seq<nat>) returns (buf: seq<nat>, bump: nat)
    requires start != [] && start[|start| - 1] == 10 && AreDigits(start[..|start| - 1])
    ensures |buf| == |start| && AreDigits(buf) && (bump == 0 || (bump == 1 && OneAndZeros(buf)))
    ensures Decimal(buf) * Pow(10, bump) == Decimal(start)
  {
    buf, bump := start, 0;
    var i := |buf| - 1;
    assert start[..i + 1] == start && Pow(10, 0) == 1;
    while i > 0 && buf[i] == 10
      invariant 0 <= i < |buf| == |start| && buf[i] <= 10
      invariant (forall j :: 0 <= j < i ==> buf[j] < 10) && (forall j :: i < j < |buf| ==> buf[j] == 0)
      invariant Decimal(buf[..i + 1]) * Pow(10, |buf| - 1 - i) == Decimal(start)
    {
      ghost var prev := buf;
      buf := buf[i := 0][i - 1 := buf[i - 1] + 1];
      CarryUp(prev, buf, i);
      TimesTen(Decimal(buf[..i]), Decimal(prev[..i + 1]), Pow(10, |buf| - 1 - i));
      i := i - 1;
    }
    DecimalZeros(buf, i + 1);
    if buf[0] == 10 {
      AllNines(buf);
      buf, bump := buf[0 := 1], 1;
    }
  }

  lemma TimesTen(a: nat, b: nat, p: nat)
    requires 10 * a == b
    ensures a * (10 * p) == b * p
  {}

  /** A ten and zeros is a one and zeros, one place up. */
  lemma AllNines(ds: seq<nat>)
    requires ds != [] && ds[0] == 10 && forall j :: 0 < j < |ds| ==> ds[j] == 0
    ensures Decimal(ds[0 := 1]) * Pow(10, 1) == Decimal(ds)
  {
    var one := ds[0 := 1];
    DecimalZeros(ds, 1);
    DecimalZeros(one, 1);
    DecimalAppend([], 10);
    DecimalAppend([], 1);
    assert ds[..1] == [] + [10] && one[..1] == [] + [1];
    assert Pow(10, 1) == 10 * Pow(10, 0);
  }

  // ---- digit generation ----

  /** Division of num by den may go on. */
  ghost predicate Ready(num: BigInt, den: BigInt)
    reads num, den
  {
    num != den && den.Valid() && den.Value() > 0 && num.Proper(den) && num.NumBigits() <= den.NumBigits() + 1
  }

  /** What a division step gives: a tie above the divisor's exponent is missed. */
  ghost predicate Divided(x: nat, w: nat, above: bool, q: nat, r: nat)
  {
    if x == w && above then q == 0 && r == x else Quotient(x, w, q, r)
  }

  lemma Shorter(num: BigInt, den: BigInt)
    requires num.Proper(den) && den.Valid() && num.Value() <= den.Value()
    ensures num.NumBigits() <= den.NumBigits()
  {
    if num.NumBigits() > den.NumBigits() {
      LongerIsLarger(num, den);
    }
  }

  /** v times 10^n. */
  function Scaled(v: nat, n: nat): (r: nat)
  {
    if n == 0 then v else 10 * Scaled(v, n - 1)
  }

  lemma {:induction false} ScaledIsProduct(v: nat, n: nat)
    ensures Scaled(v, n) == v * Pow(10, n)
  {
    if n > 0 {
      ScaledIsProduct(v, n - 1);
      assert v * (10 * Pow(10, n - 1)) == 10 * (v * Pow(10, n - 1));
    }
  }

  /** The digits so far and the rest x make up v * 10^|buf|, in units of 10 w. */
  ghost predicate LongDivision(v: nat, w: nat, buf: seq<nat>, x: nat)
  {
    Scaled(v, |buf|) == 10 * Prod(Decimal(buf), w) + x && x < 10 * w && AreDigits(buf)
  }

  lemma ProdDigit(dv: nat, q: nat, w: nat)
    ensures Prod(10 * dv + q, w) == 10 * Prod(dv, w) + Prod(q, w)
  {
    ProdIsProduct(10 * dv + q, w);
    ProdIsProduct(dv, w);
    ProdIsProduct(q, w);
    assert (10 * dv + q) * w == 10 * (dv * w) + q * w;
  }

  lemma ProdTen(w: nat)
    ensures Prod(10, w) == 10 * w
  {
    ProdIsProduct(10, w);
  }

  lemma DivisionStep(v: nat, w: nat, buf: seq<nat>, x: nat, q: nat, r: nat)
    requires LongDivision(v, w, buf, x) && Quotient(x, w, q, r)
    ensures q < 10 && LongDivision(v, w, buf + [q], 10 * r)
  {
    ProdTen(w);
    if q >= 10 {
      ProdMono(10, q, w);
    }
    DecimalAppend(buf, q);
    ProdDigit(Decimal(buf), q, w);
  }

  /** The scaled dividend equals the divisor when digit j is due. */
  ghost predicate TieAt(v: nat, w: nat, j: nat)
  {
    Scaled(v, j) == w
  }

  ghost predicate NoTieBefore(v: nat, w: nat, n: nat)
  {
    forall j: nat :: j < n ==> !TieAt(v, w, j)
  }

  ghost predicate NeverTies(n: nat, w: nat)
  {
    forall j: nat :: !TieAt(n, w, j)
  }

  /**
    How far digit generation has got: in the regular course, or just after a
    tie that was taken for a smaller dividend, or after the ten that followed.
   */
  datatype Course = Regular | Missed | Derailed

  ghost predicate Generating(v: nat, w: nat, above: bool, buf: seq<nat>, x: nat, stillAbove: bool, course: Course)
  {
    match course
    case Regular =>
      && LongDivision(v, w, buf, x)
      && (stillAbove ==> above && Decimal(buf) == 0)
      && (above && !stillAbove ==> Decimal(buf) > 0)
      && (above ==> NoTieBefore(v, w, |buf|))
    case Missed => above && !NoTieBefore(v, w, |buf|) && x == 10 * w
    case Derailed => above && !NoTieBefore(v, w, |buf|) && x == 0 && 10 in buf
  }

  /** In the regular course the rest tells whether there is a tie now. */
  lemma TieByRest(v: nat, w: nat, above: bool, buf: seq<nat>, x: nat, stillAbove: bool)
    requires w > 0 && Generating(v, w, above, buf, x, stillAbove, Regular)
    ensures stillAbove ==> (TieAt(v, w, |buf|) <==> x == w)
    ensures above && !stillAbove ==> !TieAt(v, w, |buf|)
  {
    if above && !stillAbove {
      ProdMono(1, Decimal(buf), w);
      assert Prod(1, w) == w + Prod(0, w);
    }
  }

  /** After one division step and one multiplication by ten. */
  lemma GenerateStep(v: nat, w: nat, above: bool, buf: seq<nat>, x: nat, stillAbove: bool, course: Course,
                     q: nat, r: nat) returns (course': Course)
    requires w > 0 && Generating(v, w, above, buf, x, stillAbove, course)
    requires Divided(x, w, stillAbove, q, r)
    ensures Generating(v, w, above, buf + [q], 10 * r, stillAbove && q == 0, course')
  {
    DecimalAppend(buf, q);
    match course
    case Regular =>
      TieByRest(v, w, above, buf, x, stillAbove);
      if x == w && stillAbove {
        assert TieAt(v, w, |buf|);
        course' := Missed;
      } else {
        course' := Regular;
        DivisionStep(v, w, buf, x, q, r);
      }
    case Missed =>
      ProdTen(w);
      QuotientIs(x, w, q, r, 10);
      assert (buf + [q])[|buf|] == 10;
      course' := Derailed;
    case Derailed =>
      QuotientIs(x, w, q, r, 0);
      course' := Derailed;
  }

  lemma {:induction false} QuotientIs(x: nat, w: nat, q: nat, r: nat, c: nat)
    requires w > 0 && x == Prod(c, w) && Quotient(x, w, q, r)
    ensures q == c && r == 0
  {
    if c > 0 && q > 0 {
      QuotientIs(x - w, w, q - 1, r, c - 1);
    }
  }

  /** One digit, and the remainder scaled for the next one. */
  method NextDigit(num: BigInt, den: BigInt) returns (q: nat)
    requires Ready(num, den) && num.Value() <= 10 * den.Value()
    modifies num
    ensures Ready(num, den) && den.Value() == old(den.Value())
    ensures exists r :: num.Value() == 10 * r && Divided(old(num.Value()), den.Value(), old(num.exp) > den.exp, q, r)
    ensures num.exp > den.exp <==> old(num.exp) > den.exp && q == 0
  {
    q := num.DivModAssign(den);
    ghost var r := num.Value();
    Shorter(num, den);
    num.MultiplySmall(10);
    if r == 0 {
      num.ZeroIsShort();
    }
    assert Divided(old(num.Value()), den.Value(), old(num.exp) > den.exp, q, r);
  }

  /** All digits but the last. */
  method Generate(num: BigInt, den: BigInt, count: nat) returns (buf: seq<nat>, ghost course: Course)
    requires Ready(num, den) && num.Value() < 10 * den.Value()
    modifies num
    ensures Ready(num, den) && den.Value() == old(den.Value()) && |buf| == count
    ensures Generating(old(num.Value()), den.Value(), old(num.exp) > den.exp, buf,
                       num.Value(), num.exp > den.exp, course)
  {
    buf, course := [], Regular;
    ghost var v, w, above := num.Value(), den.Value(), num.exp > den.exp;
    assert Pow(10, 0) == 1;
    for i := 0 to count
      invariant |buf| == i && Ready(num, den) && den.Value() == w && den.exp == old(den.exp)
      invariant Generating(v, w, above, buf, num.Value(), num.exp > den.exp, course)
    {
      ghost var x, stillAbove := num.Value(), num.exp > den.exp;
      var q := NextDigit(num, den);
      ghost var r :| num.Value() == 10 * r && Divided(x, w, stillAbove, q, r);
      course := GenerateStep(v, w, above, buf, x, stillAbove, course, q, r);
      buf := buf + [q];
    }
  }

  lemma LastQuotient(v: nat, w: nat, buf: seq<nat>, x: nat, q: nat, r: nat)
    requires LongDivision(v, w, buf, x) && Quotient(x, w, q, r)
    ensures Quotient(Scaled(v, |buf|), w, 10 * Decimal(buf) + q, r)
  {
    ProdDigit(Decimal(buf), q, w);
  }

  /** The last digit of the regular course and the remainder give the rounded quotient. */
  lemma LastDigit(v: nat, w: nat, buf: seq<nat>, x: nat, q: nat, r: nat)
    requires w > 0 && LongDivision(v, w, buf, x) && Quotient(x, w, q, r)
    ensures q < 10
    ensures Rounded(Scaled(v, |buf|), w, Decimal(buf + [if RoundsUp(r, w, q) then q + 1 else q]))
  {
    DivisionStep(v, w, buf, x, q, r);
    DecimalAppend(buf, q);
    DecimalAppend(buf, q + 1);
    LastQuotient(v, w, buf, x, q, r);
    LastRounds(Scaled(v, |buf|), w, Decimal(buf), q, r);
  }

  /** Whether to round up depends on the last digit only. */
  lemma LastRounds(n: nat, w: nat, d: nat, q: nat, r: nat)
    requires Quotient(n, w, 10 * d + q, r)
    ensures RoundsUp(r, w, 10 * d + q) <==> RoundsUp(r, w, q)
    ensures Rounded(n, w, if RoundsUp(r, w, q) then 10 * d + (q + 1) else 10 * d + q)
  {
    DivModUnique(10 * d + q, 2, 5 * d + q / 2, q % 2);
  }

  /** The last quotient digit, and whether the remainder asks for rounding up. */
  method DivideLast(num: BigInt, den: BigInt) returns (digit: nat, up: bool)
    requires Ready(num, den)
    modifies num
    ensures exists r :: Divided(old(num.Value()), old(den.Value()), old(num.exp) > den.exp, digit, r)
                        && up == RoundsUp(r, old(den.Value()), digit)
  {
    digit := num.DivModAssign(den);
    var result := BigInt.AddCompare(num, num, den);
    up := result > 0 || (result == 0 && digit % 2 != 0);
    assert Divided(old(num.Value()), old(den.Value()), old(num.exp) > den.exp, digit, num.Value())
        && up == RoundsUp(num.Value(), old(den.Value()), digit);
  }

  /** What the last digit and its rounding amount to, in each course. */
  lemma LastOutcome(v: nat, w: nat, above: bool, buf: seq<nat>, x: nat, stillAbove: bool, course: Course,
                    digit: nat, r: nat)
    requires w > 0 && Generating(v, w, above, buf, x, stillAbove, course) && Divided(x, w, stillAbove, digit, r)
    ensures var last := if RoundsUp(r, w, digit) then digit + 1 else digit;
            if course.Regular? then
              digit < 10 && AreDigits(buf) && Rounded(Scaled(v, |buf|), w, Decimal(buf + [last]))
            else
              !RoundsUp(r, w, digit) && !AreDigits(buf + [digit])
  {
    match course
    case Regular =>
      if x == w && stillAbove {
        assert Prod(1, w) == w + Prod(0, w);
        LastDigit(v, w, buf, x, 1, 0);
      } else {
        LastDigit(v, w, buf, x, digit, r);
      }
    case Missed =>
      ProdTen(w);
      QuotientIs(x, w, digit, r, 10);
      assert (buf + [digit])[|buf|] == 10;
    case Derailed =>
      QuotientIs(x, w, digit, r, 0);
      var i :| 0 <= i < |buf| && buf[i] == 10;
      assert (buf + [digit])[i] == 10;
  }

  /** The last digit: divide, compare twice the remainder with the divisor, and round. */
  method RoundLast(num: BigInt, den: BigInt, start: seq<nat>, ghost v: nat, ghost above: bool, ghost course: Course)
    returns (buf: seq<nat>, bump: nat)
    requires Ready(num, den) && Generating(v, den.Value(), above, start, num.Value(), num.exp > den.exp, course)
    modifies num
    ensures |buf| == |start| + 1 && (AreDigits(buf) <==> course.Regular?)
    ensures bump == 0 || (bump == 1 && OneAndZeros(buf))
    ensures course.Regular? ==> Rounded(Scaled(v, |start|), old(den.Value()), Decimal(buf) * Pow(10, bump))
  {
    ghost var x, w, stillAbove := num.Value(), den.Value(), num.exp > den.exp;
    bump := 0;
    assert Pow(10, 0) == 1;
    var digit, up := DivideLast(num, den);
    ghost var r :| Divided(x, w, stillAbove, digit, r) && up == RoundsUp(r, w, digit);
    LastOutcome(v, w, above, start, x, stillAbove, course, digit, r);
    if up {
      digit := digit + 1;
      if digit == 10 {
        buf := start + [10];
        assert buf[..|start|] == start;
        buf, bump := PropagateCarry(buf);
        return;
      }
    }
    buf := start + [digit];
  }

  /** No digit at all: one digit for a tenth of the quotient, which is below one. */
  method FormatNoDigits(num: BigInt, den: BigInt) returns (buf: seq<nat>)
    requires Ready(num, den) && num.Value() < 10 * den.Value()
    modifies den
    ensures |buf| == 1 && AreDigits(buf) && Rounded(num.Value(), 10 * old(den.Value()), Decimal(buf))
  {
    ghost var v := num.Value();
    den.MultiplySmall(10);
    assert LengthsFit(num, num, den);
    var result := BigInt.AddCompare(num, num, den);
    buf := [if result > 0 then 1 else 0];
    DecimalAppend([], buf[0]);
    assert [] + [buf[0]] == buf;
    BelowOneRounds(v, den.Value(), buf[0]);
  }

  lemma BelowOneRounds(v: nat, w: nat, digit: nat)
    requires v < w && digit == if 2 * v > w then 1 else 0
    ensures Rounded(v, w, digit)
  {
    assert Quotient(v, w, 0, v);
  }

  /**
    The given number of digits of num / den. They are the digits of the quotient
    rounded to nearest, ties to even, with a raised exponent if a carry runs
    through all of them, exactly when no tie is missed before the last digit.
   */
  method FormatFixed(num: BigInt, den: BigInt, numDigits: nat, exp10: int) returns (buf: seq<nat>, newExp10: int)
    requires Ready(num, den) && num.Value() < 10 * den.Value()
    modifies num, den
    ensures numDigits == 0 ==> |buf| == 1 && AreDigits(buf) && newExp10 == exp10 + 1
                               && Rounded(old(num.Value()), 10 * old(den.Value()), Decimal(buf))
    ensures numDigits > 0 ==>
              && |buf| == numDigits
              && (AreDigits(buf) <==>
                  || old(num.exp) <= old(den.exp)
                  || NoTieBefore(old(num.Value()), old(den.Value()), numDigits - 1))
              && (AreDigits(buf) ==>
                  var bump := newExp10 - (exp10 - (numDigits - 1));
                  (bump == 0 || (bump == 1 && OneAndZeros(buf)))
                  && Rounded(old(num.Value()) * Pow(10, numDigits - 1), old(den.Value()),
                                       Decimal(buf) * Pow(10, bump)))
  {
    newExp10 := exp10 - (numDigits - 1);
    if numDigits == 0 {
      buf := FormatNoDigits(num, den);
      return;
    }
    ghost var v, above, course := num.Value(), num.exp > den.exp, Regular;
    buf, course := Generate(num, den, numDigits - 1);
    ScaledIsProduct(v, numDigits - 1);
    var bump;
    buf, bump := RoundLast(num, den, buf, v, above, course);
    newExp10 := newExp10 + bump;
  }

  /** The quotient one, written so that its tie is missed: two digits of it are not both digits. */
  lemma MissedTie(num: BigInt, den: BigInt)
    requires num.bigits == [5] && num.exp == 1 && den.bigits == [0, 5] && den.exp == 0
    ensures Ready(num, den) && num.Value() < 10 * den.Value()
    ensures num.exp > den.exp && !NoTieBefore(num.Value(), den.Value(), 1)
  {
    EqualButSmaller(num, den);
    ValOfTwo(0, 5);
    assert den.Value() == W32 * 5;
    assert TieAt(num.Value(), den.Value(), 0);
  }
}
