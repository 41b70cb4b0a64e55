/**
  The shortest digits of a number: digit generation that ends as soon as the
  digits so far, or those and one more in the last place, are close enough to
  the number to stand for it.
 */
module ShortestDigits {
  import opened Basics
  import opened BigNum
  import opened BigIntegers
  import opened FixedDigits

  // ---- what may stand for a number ----

  /** What is at most lo below n and at most up above it, counted in units of w; the ends belong to it if closed. */
  datatype Interval = Interval(n: nat, lo: nat, up: nat, w: nat, closed: bool)

  ghost predicate Holds(z: Interval, y: nat)
  {
    if z.closed then z.n - z.lo <= Prod(y, z.w) <= z.n + z.up else z.n - z.lo < Prod(y, z.w) < z.n + z.up
  }

  /** The same in units that are smaller by 10^k. */
  function Finer(z: Interval, k: nat): Interval
  {
    Interval(Scaled(z.n, k), Scaled(z.lo, k), Scaled(z.up, k), z.w, z.closed)
  }

  /** Around a positive number below ten: both sides are the same, or the upper one is twice the lower and is short. */
  ghost predicate Usable(z: Interval)
  {
    && 0 < z.lo < z.n < 10 * z.w
    && (z.up == z.lo || (z.up == 2 * z.lo && 4 * z.lo <= z.w))
  }

  /** The number is nearer to ten than to nine, and ten stands for it. */
  ghost predicate ReachesTen(z: Interval)
  {
    19 * z.w <= 2 * z.n && Holds(z, 10)
  }

  ghost predicate Empty(z: Interval)
  {
    forall y: nat :: !Holds(z, y)
  }

  /** Nothing but the lower end. */
  ghost predicate OnlyLowerEnd(z: Interval)
  {
    forall y: nat :: Holds(z, y) ==> Prod(y, z.w) == z.n - z.lo
  }

  /** The lower end is a whole number of units. */
  ghost predicate WholeLowerEnd(z: Interval)
  {
    exists y: nat :: Prod(y, z.w) == z.n - z.lo
  }

  /** The fewest digits that stand for the number are those of the lower end, and of nothing else. */
  ghost predicate LowerEndFirst(z: Interval)
  {
    exists k: nat :: LowerEndAt(z, k)
  }

  ghost predicate LowerEndAt(z: Interval, k: nat)
  {
    OnlyLowerEnd(Finer(z, k)) && !Empty(Finer(z, k)) && NothingShorter(z, k)
  }

  /** Fewer than k digits after the first do not stand for the number. */
  ghost predicate NothingShorter(z: Interval, k: nat)
  {
    forall j: nat :: j < k ==> Empty(Finer(z, j))
  }

  /** Of all that stands for the number nothing is nearer to it than x, and nothing as near unless x is even. */
  ghost predicate Nearest(z: Interval, x: nat)
  {
    forall y: nat :: Holds(z, y) && y != x ==>
      Distance(z.n, z.w, x) < Distance(z.n, z.w, y) || (Distance(z.n, z.w, x) == Distance(z.n, z.w, y) && x % 2 == 0)
  }

  lemma {:induction false} ScaledOrder(a: nat, b: nat, k: nat)
    ensures a < b <==> Scaled(a, k) < Scaled(b, k)
    ensures a <= b <==> Scaled(a, k) <= Scaled(b, k)
    ensures a > 0 <==> Scaled(a, k) > 0
  {
    if k > 0 {
      ScaledOrder(a, b, k - 1);
    }
  }

  /** Around the digits so far: which of them and the next number hold, and that nothing else need be looked at. */
  lemma Sides(z: Interval, p: nat, r: nat)
    requires z.lo > 0 && z.up > 0 && Quotient(z.n, z.w, p, r)
    ensures Holds(z, p) <==> r < z.lo || (z.closed && r == z.lo)
    ensures Holds(z, p + 1) <==> r + z.up > z.w || (z.closed && r + z.up == z.w)
  {
    assert Prod(p + 1, z.w) == z.w + Prod(p, z.w);
  }

  lemma NoneElse(z: Interval, p: nat, r: nat, y: nat)
    requires z.lo > 0 && z.up > 0 && Quotient(z.n, z.w, p, r) && Holds(z, y)
    ensures if y <= p then Holds(z, p) else Holds(z, p + 1)
  {
    assert Prod(p + 1, z.w) == z.w + Prod(p, z.w);
    if y <= p {
      ProdMono(y, p, z.w);
    } else {
      ProdMono(p + 1, y, z.w);
    }
  }

  /** A round that stops at neither side leaves nothing, or the lower end only if that was not noticed. */
  lemma NeitherSide(z: Interval, p: nat, r: nat)
    requires z.lo > 0 && z.up > 0 && Quotient(z.n, z.w, p, r) && !Holds(z, p + 1)
    ensures !Holds(z, p) ==> Empty(z)
    ensures r >= z.lo ==> OnlyLowerEnd(z)
  {
    forall y: nat | Holds(z, y) ensures Holds(z, p) && (r >= z.lo ==> Prod(y, z.w) == z.n - z.lo) {
      NoneElse(z, p, r, y);
      ProdMono(y, p, z.w);
    }
  }

  /** With ten times as many units, ten times as many of them hold. */
  lemma HoldsFiner(z: Interval, k: nat, y: nat)
    ensures Holds(Finer(z, k), y) <==> Holds(Finer(z, k + 1), 10 * y)
  {
    ProdDigit(y, 0, z.w);
  }

  /** What has no shorter form with k + 1 digits has none with fewer. */
  lemma {:induction false} EmptyCoarser(z: Interval, k: nat)
    requires Empty(Finer(z, k))
    ensures NothingShorter(z, k + 1)
  {
    if k > 0 {
      var coarser := Finer(z, k - 1);
      forall y: nat ensures !Holds(coarser, y) {
        HoldsFiner(z, k - 1, y);
      }
      EmptyCoarser(z, k - 1);
    }
  }

  // ---- a common factor ----

  /** The same interval with every number times c. */
  function Times(c: nat, z: Interval): Interval
  {
    Interval(c * z.n, c * z.lo, c * z.up, c * z.w, z.closed)
  }

  lemma TimesFiner(c: nat, z: Interval, k: nat)
    ensures Finer(Times(c, z), k) == Times(c, Finer(z, k))
  {
    ScaledTimes(c, z.n, k);
    ScaledTimes(c, z.lo, k);
    ScaledTimes(c, z.up, k);
  }

  lemma {:induction false} ScaledTimes(c: nat, v: nat, k: nat)
    ensures Scaled(c * v, k) == c * Scaled(v, k)
  {
    if k > 0 {
      ScaledTimes(c, v, k - 1);
      MulOut(10, c, Scaled(v, k - 1));
    }
  }

  lemma ProdTimes(y: nat, c: nat, w: nat)
    ensures Prod(y, c * w) == c * Prod(y, w)
  {
    ProdIsProduct(y, c * w);
    ProdIsProduct(y, w);
    MulOut(c, y, w);
  }

  lemma OrderTimes(c: nat, x: int, y: int)
    requires c > 0
    ensures x <= y <==> c * x <= c * y
    ensures x < y <==> c * x < c * y
    ensures x == y <==> c * x == c * y
  {
    assert c * y - c * x == c * (y - x);
  }

  /** A common factor changes nothing about what holds. */
  lemma HoldsTimes(c: nat, z: Interval, y: nat)
    requires c > 0
    ensures Holds(Times(c, z), y) <==> Holds(z, y)
    ensures Prod(y, Times(c, z).w) == Times(c, z).n - Times(c, z).lo <==> Prod(y, z.w) == z.n - z.lo
  {
    var p := Prod(y, z.w);
    ProdTimes(y, c, z.w);
    OrderTimes(c, z.n - z.lo, p);
    OrderTimes(c, p, z.n + z.up);
    EndsTimes(c, z.n, z.lo, z.up);
  }

  lemma EndsTimes(c: int, n: int, lo: int, up: int)
    ensures c * (n - lo) == c * n - c * lo && c * (n + up) == c * n + c * up
  {
  }

  lemma DistanceTimes(c: nat, n: nat, w: nat, x: nat)
    requires c > 0
    ensures Distance(c * n, c * w, x) == c * Distance(n, w, x)
  {
    ProdTimes(x, c, w);
    OrderTimes(c, n, Prod(x, w));
    assert c * (Prod(x, w) - n) == c * Prod(x, w) - c * n;
  }

  lemma NearestTimes(c: nat, z: Interval, x: nat)
    requires c > 0
    ensures Nearest(Times(c, z), x) <==> Nearest(z, x)
  {
    DistanceTimes(c, z.n, z.w, x);
    forall y: nat
      ensures Holds(Times(c, z), y) <==> Holds(z, y)
      ensures Distance(c * z.n, c * z.w, y) == c * Distance(z.n, z.w, y)
      ensures Distance(z.n, z.w, x) < Distance(z.n, z.w, y) <==> c * Distance(z.n, z.w, x) < c * Distance(z.n, z.w, y)
      ensures Distance(z.n, z.w, x) == Distance(z.n, z.w, y) <==> c * Distance(z.n, z.w, x) == c * Distance(z.n, z.w, y)
    {
      HoldsTimes(c, z, y);
      DistanceTimes(c, z.n, z.w, y);
      OrderTimes(c, Distance(z.n, z.w, x), Distance(z.n, z.w, y));
    }
  }

  lemma ReachesTenTimes(c: nat, z: Interval)
    requires c > 0
    ensures ReachesTen(Times(c, z)) <==> ReachesTen(z)
  {
    HoldsTimes(c, z, 10);
    OrderTimes(c, 19 * z.w, 2 * z.n);
    MulOut(19, c, z.w);
    MulOut(2, c, z.n);
  }

  lemma EmptyTimes(c: nat, z: Interval, k: nat)
    requires c > 0
    ensures Empty(Finer(Times(c, z), k)) <==> Empty(Finer(z, k))
    ensures OnlyLowerEnd(Finer(Times(c, z), k)) <==> OnlyLowerEnd(Finer(z, k))
  {
    var f := Finer(z, k);
    TimesFiner(c, z, k);
    forall y: nat
      ensures Holds(Times(c, f), y) <==> Holds(f, y)
      ensures Prod(y, Times(c, f).w) == Times(c, f).n - Times(c, f).lo <==> Prod(y, f.w) == f.n - f.lo
    {
      HoldsTimes(c, f, y);
    }
  }

  lemma ShortestTimes(c: nat, z: Interval, k: nat)
    requires c > 0
    ensures NothingShorter(Times(c, z), k) <==> NothingShorter(z, k)
    ensures LowerEndFirst(Times(c, z)) <==> LowerEndFirst(z)
  {
    var t := Times(c, z);
    forall j: nat
      ensures Empty(Finer(t, j)) <==> Empty(Finer(z, j))
      ensures OnlyLowerEnd(Finer(t, j)) <==> OnlyLowerEnd(Finer(z, j))
    {
      EmptyTimes(c, z, j);
    }
    forall j: nat ensures LowerEndAt(t, j) <==> LowerEndAt(z, j) {
      assert NothingShorter(t, j) <==> NothingShorter(z, j);
    }
  }

  // ---- the rounds that did not stop ----

  /** Nothing stands for the number after k + 1 digits, or only a lower end that could be overlooked. */
  ghost predicate Passed(z: Interval, above: bool, k: nat)
  {
    Empty(Finer(z, k)) || (above && z.closed && OnlyLowerEnd(Finer(z, k)))
  }

  lemma {:induction false} FirstHeld(z: Interval, k: nat) returns (j: nat)
    requires !NothingShorter(z, k)
    ensures j < k && !Empty(Finer(z, j)) && NothingShorter(z, j)
  {
    if NothingShorter(z, k - 1) {
      j := k - 1;
    } else {
      j := FirstHeld(z, k - 1);
    }
  }

  /** The digits are the shortest ones if and only if no lower end had to be noticed. */
  lemma ShortestIff(z: Interval, above: bool, k: nat)
    requires forall j: nat :: j < k ==> Passed(z, above, j)
    requires !Empty(Finer(z, k)) && (above ==> !OnlyLowerEnd(Finer(z, k)))
    ensures NothingShorter(z, k) <==> !(above && z.closed && LowerEndFirst(z))
  {
    if above && z.closed && LowerEndFirst(z) {
      var i: nat :| LowerEndAt(z, i);
      if i < k {
        assert !NothingShorter(z, k);
      }
    }
    if !NothingShorter(z, k) {
      var j := FirstHeld(z, k);
      assert Passed(z, above, j);
      assert LowerEndAt(z, j);
    }
  }

  /** The digits so far, and one more in their last place, are beyond the number. */
  lemma NextIsBeyond(z: Interval, buf: seq<nat>, x: nat)
    requires buf != [] && LongDivision(z.n, z.w, buf, x)
    ensures Prod(Decimal(buf) + 1, z.w) > Scaled(z.n, |buf| - 1)
  {
    assert Prod(Decimal(buf) + 1, z.w) == z.w + Prod(Decimal(buf), z.w);
  }

  /** A nine is never raised after the first digit: that number would have been found a digit earlier. */
  lemma NoRaisedNine(z: Interval, above: bool, buf: seq<nat>, x: nat)
    requires buf != [] && LongDivision(z.n, z.w, buf, x) && Passed(z, above, |buf| - 1)
    ensures !Holds(Finer(z, |buf|), 10 * (Decimal(buf) + 1))
  {
    NextIsBeyond(z, buf, x);
    HoldsFiner(z, |buf| - 1, Decimal(buf) + 1);
  }

  // ---- the choice between the two sides ----

  lemma LowIsNearest(z: Interval, p: nat, r: nat)
    requires z.lo > 0 && z.up > 0 && Quotient(z.n, z.w, p, r)
    requires !Holds(z, p + 1) || !RoundsUp(r, z.w, p)
    ensures Nearest(z, p)
  {
    forall y: nat | Holds(z, y) && y != p
      ensures Distance(z.n, z.w, p) < Distance(z.n, z.w, y)
              || (Distance(z.n, z.w, p) == Distance(z.n, z.w, y) && p % 2 == 0)
    {
      NoneElse(z, p, r, y);
      assert Prod(p + 1, z.w) == z.w + Prod(p, z.w);
      if y < p {
        ProdMono(y + 1, p, z.w);
        assert Prod(y + 1, z.w) == z.w + Prod(y, z.w);
      } else {
        ProdMono(p + 1, y, z.w);
      }
    }
  }

  lemma HighIsNearest(z: Interval, p: nat, r: nat)
    requires z.lo > 0 && z.up > 0 && Quotient(z.n, z.w, p, r)
    requires !Holds(z, p) || RoundsUp(r, z.w, p)
    ensures Nearest(z, p + 1)
  {
    forall y: nat | Holds(z, y) && y != p + 1
      ensures Distance(z.n, z.w, p + 1) < Distance(z.n, z.w, y)
              || (Distance(z.n, z.w, p + 1) == Distance(z.n, z.w, y) && (p + 1) % 2 == 0)
    {
      NoneElse(z, p, r, y);
      assert Prod(p + 1, z.w) == z.w + Prod(p, z.w);
      if y <= p {
        HighBeatsLower(z, p, r, y);
      } else {
        ProdMono(p + 2, y, z.w);
        assert Prod(p + 2, z.w) == z.w + Prod(p + 1, z.w);
      }
    }
  }

  lemma HighBeatsLower(z: Interval, p: nat, r: nat, y: nat)
    requires Quotient(z.n, z.w, p, r) && y <= p && RoundsUp(r, z.w, p)
    ensures Distance(z.n, z.w, p + 1) < Distance(z.n, z.w, y)
            || (Distance(z.n, z.w, p + 1) == Distance(z.n, z.w, y) && (p + 1) % 2 == 0)
  {
    assert Prod(p + 1, z.w) == z.w + Prod(p, z.w);
    if y < p {
      ProdMono(y + 1, p, z.w);
      assert Prod(y + 1, z.w) == z.w + Prod(y, z.w);
    }
  }

  // ---- one round ----

  /** A lower end that is hit is noticed only if both numbers are stored with the same exponent. */
  lemma CompareWithLower(num: BigInt, lower: BigInt)
    requires num.Valid() && lower.Valid() && lower.Value() > 0 && num.exp <= lower.exp
    ensures CompareResult(num, lower) ==
            if num.Value() == lower.Value() then (if num.exp == lower.exp then 0 else 1)
            else Sign(num.Value() - lower.Value())
  {
    if num.Value() == 0 {
      num.ZeroIsShort();
    } else if num.NumBigits() > lower.NumBigits() {
      LongerIsLarger(num, lower);
    }
    if num.NumBigits() < lower.NumBigits() {
      LongerIsLarger(lower, num);
    }
  }

  /** What one round decides: whether the digits so far, or one more in the last place, are close enough. */
  method Decide(num: BigInt, den: BigInt, lower: BigInt, upper: BigInt, even: bool) returns (low: bool, high: bool)
    requires num.Proper(den) && den.Valid() && den.Value() > 0 && num.exp <= lower.exp
    requires lower.Valid() && lower.Value() > 0 && upper.Valid() && upper.Value() > 0
    ensures low <==> num.Value() < lower.Value()
                     || (even && num.Value() == lower.Value() && num.exp == lower.exp)
    ensures high <==> num.Value() + upper.Value() > den.Value()
                      || (even && num.Value() + upper.Value() == den.Value())
  {
    CompareWithLower(num, lower);
    var c := BigInt.Compare(num, lower);
    low := c - (if even then 1 else 0) < 0;
    assert LengthsFit(num, upper, den);
    var a := BigInt.AddCompare(num, upper, den);
    high := a + (if even then 1 else 0) > 0;
  }

  /** The numbers between two rounds. */
  ghost predicate Going(num: BigInt, den: BigInt, lower: BigInt, upper: BigInt, z: Interval, buf: seq<nat>)
    reads num, den, lower, upper
  {
    && num != lower && num != upper && den != lower && den != upper && Ready(num, den)
    && lower.Valid() && upper.Valid() && Usable(z) && den.Value() == z.w
    && lower.Value() == Scaled(z.lo, |buf|) && upper.Value() == Scaled(z.up, |buf|)
    && num.exp == (if lower.exp > den.exp && Decimal(buf) > 0 then den.exp else lower.exp)
    && (lower.exp > den.exp ==> NeverTies(z.n, z.w))
    && LongDivision(z.n, z.w, buf, num.Value())
  }

  lemma GoingHasNoTie(num: BigInt, den: BigInt, lower: BigInt, upper: BigInt, z: Interval, buf: seq<nat>)
    requires Going(num, den, lower, upper, z, buf)
    ensures num.exp > den.exp ==> num.Value() != den.Value()
    ensures lower.Value() > 0 && upper.Value() > 0
  {
    ScaledOrder(0, z.lo, |buf|);
    ScaledOrder(0, z.up, |buf|);
    if num.exp > den.exp {
      assert !TieAt(z.n, z.w, |buf|);
    }
  }

  /** What is known after the division and the two comparisons of a round. */
  ghost predicate Round(z: Interval, buf: seq<nat>, above: bool, digit: nat, r: nat, low: bool, high: bool)
  {
    var f, p := Finer(z, |buf|), Decimal(buf + [digit]);
    && LongDivision(z.n, z.w, buf + [digit], 10 * r) && Quotient(f.n, f.w, p, r)
    && (low <==> r < f.lo || (z.closed && r == f.lo && !(above && p > 0)))
    && (high <==> Holds(f, p + 1))
  }

  method DoRound(num: BigInt, den: BigInt, lower: BigInt, upper: BigInt, ghost z: Interval, ghost buf: seq<nat>, even: bool)
    returns (digit: nat, low: bool, high: bool)
    requires Going(num, den, lower, upper, z, buf) && even == z.closed
    modifies num
    ensures Round(z, buf, lower.exp > den.exp, digit, num.Value(), low, high)
    ensures num.Proper(den) && num.NumBigits() <= den.NumBigits()
    ensures num.exp == if lower.exp > den.exp && Decimal(buf + [digit]) > 0 then den.exp else lower.exp
  {
    ghost var x := num.Value();
    GoingHasNoTie(num, den, lower, upper, z, buf);
    digit := num.DivModAssign(den);
    Shorter(num, den);
    Divided(z, buf, x, digit, num.Value());
    low, high := Decide(num, den, lower, upper, even);
  }

  lemma Divided(z: Interval, buf: seq<nat>, x: nat, digit: nat, r: nat)
    requires Usable(z) && LongDivision(z.n, z.w, buf, x) && Quotient(x, z.w, digit, r)
    ensures LongDivision(z.n, z.w, buf + [digit], 10 * r)
    ensures Decimal(buf + [digit]) == 10 * Decimal(buf) + digit
    ensures var f, p := Finer(z, |buf|), Decimal(buf + [digit]);
            && Quotient(f.n, f.w, p, r)
            && (Holds(f, p + 1) <==> r + f.up > f.w || (z.closed && r + f.up == f.w))
  {
    DecimalAppend(buf, digit);
    DivisionStep(z.n, z.w, buf, x, digit, r);
    LastQuotient(z.n, z.w, buf, x, digit, r);
    ScaledOrder(0, z.lo, |buf|);
    ScaledOrder(0, z.up, |buf|);
    Sides(Finer(z, |buf|), Decimal(buf + [digit]), r);
  }

  /** Everything times ten, the boundaries only once if they are the same number. */
  method TimesTen(num: BigInt, den: BigInt, lower: BigInt, upper: BigInt)
    requires num != lower && num != upper && den != lower && den != upper && num != den
    requires num.Proper(den) && num.NumBigits() <= den.NumBigits() && den.Valid() && den.Value() > 0
    requires lower.Valid() && upper.Valid() && num.exp <= lower.exp
    modifies num, lower, upper
    ensures Ready(num, den) && lower.Valid() && upper.Valid() && den.Value() == old(den.Value())
    ensures num.exp == old(num.exp) && lower.exp == old(lower.exp) && den.exp == old(den.exp)
    ensures num.Value() == 10 * old(num.Value()) && lower.Value() == 10 * old(lower.Value())
    ensures upper.Value() == 10 * old(upper.Value())
  {
    if num.Value() == 0 {
      num.ZeroIsShort();
    }
    num.MultiplySmall(10);
    lower.MultiplySmall(10);
    if upper != lower {
      upper.MultiplySmall(10);
    }
    if num.Value() == 0 {
      num.ZeroIsShort();
    }
  }

  // ---- the whole loop ----

  /** The rounds so far. */
  ghost predicate AllPassed(z: Interval, above: bool, k: nat)
  {
    && (forall j: nat :: j < k ==> Passed(z, above, j))
    && (k > 0 ==> Scaled(z.lo, k - 1) < z.w)
  }

  /** A round that goes on. */
  lemma RoundPasses(z: Interval, buf: seq<nat>, above: bool, digit: nat, r: nat)
    requires Usable(z) && Round(z, buf, above, digit, r, false, false) && AllPassed(z, above, |buf|)
    ensures AllPassed(z, above, |buf| + 1) && 0 < Scaled(z.lo, |buf|) < z.w
  {
    ScaledOrder(0, z.lo, |buf|);
    ScaledOrder(0, z.up, |buf|);
    PassedHere(Finer(z, |buf|), Decimal(buf + [digit]), r, above);
    assert Passed(z, above, |buf|);
  }

  lemma PassedHere(f: Interval, p: nat, r: nat, above: bool)
    requires f.lo > 0 && f.up > 0 && Quotient(f.n, f.w, p, r) && r >= f.lo && !Holds(f, p + 1)
    requires f.closed && r == f.lo ==> above
    ensures Empty(f) || (above && f.closed && OnlyLowerEnd(f))
  {
    Sides(f, p, r);
    NeitherSide(f, p, r);
  }

  /** What the last round ends with. */
  ghost predicate Ended(z: Interval, above: bool, buf: seq<nat>)
  {
    && buf != [] && Holds(Finer(z, |buf| - 1), Decimal(buf))
    && (AreDigits(buf) || buf == [10])
    && (above ==> !OnlyLowerEnd(Finer(z, |buf| - 1)))
  }

  /** After the first round, ten does not stand for the number. */
  lemma NoTenLater(z: Interval, above: bool)
    requires Usable(z) && Passed(z, above, 0)
    ensures !ReachesTen(z)
  {
    ProdTen(z.w);
    assert Finer(z, 0) == z;
  }

  /** The first digit is raised to ten exactly for a number that reaches ten. */
  lemma FirstTen(z: Interval, above: bool, digit: nat, r: nat, low: bool, high: bool, last: nat)
    requires Usable(z) && Round(z, [], above, digit, r, low, high) && (low || high)
    requires Raised(digit, r, z.w, low, high, last)
    ensures last == 10 <==> ReachesTen(z)
  {
    DecimalAppend([], digit);
    assert Finer(z, 0) == z && ([] + [digit])[0] == digit;
    TenDecides(z, digit, r, low, high, last);
  }

  lemma TenDecides(z: Interval, digit: nat, r: nat, low: bool, high: bool, last: nat)
    requires Usable(z) && Quotient(z.n, z.w, digit, r) && digit < 10 && (low || high)
    requires (r < z.lo ==> low) && (low ==> r <= z.lo) && (high <==> Holds(z, digit + 1))
    requires Raised(digit, r, z.w, low, high, last)
    ensures last == 10 <==> ReachesTen(z)
  {
    ProdTen(z.w);
    if digit == 9 {
      assert Prod(10, z.w) == z.w + Prod(9, z.w);
    } else {
      ProdMono(digit, 8, z.w);
      assert Prod(10, z.w) == z.w + (z.w + Prod(8, z.w));
    }
  }

  /** The choice is the nearest one, but for a lower end that was hit and overlooked. */
  ghost predicate Chosen(z: Interval, above: bool, buf: seq<nat>)
  {
    buf != [] &&
    var f := Finer(z, |buf| - 1);
    Nearest(f, Decimal(buf)) ||
    (above && z.closed && WholeLowerEnd(f) && (z.up != z.lo || 2 * f.lo == f.w))
  }

  /** How a round that stops raises its digit. */
  ghost predicate Raised(digit: nat, r: nat, w: nat, low: bool, high: bool, last: nat)
  {
    last == if !low || (high && RoundsUp(r, w, digit)) then digit + 1 else digit
  }

  lemma NotOnlyLowerEnd(z: Interval, buf: seq<nat>, above: bool, digit: nat, r: nat, low: bool, high: bool)
    requires Usable(z) && Round(z, buf, above, digit, r, low, high) && (low || high) && above
    ensures !OnlyLowerEnd(Finer(z, |buf|))
  {
    var f, p := Finer(z, |buf|), Decimal(buf + [digit]);
    ScaledOrder(z.lo, z.n, |buf|);
    ScaledOrder(0, z.lo, |buf|);
    ScaledOrder(0, z.up, |buf|);
    Sides(f, p, r);
    assert Prod(p + 1, f.w) == f.w + Prod(p, f.w);
    if high {
      assert Holds(f, p + 1);
    } else {
      assert Holds(f, p);
    }
  }

  /** What a round that stops gives does stand for the number. */
  lemma RoundHolds(z: Interval, buf: seq<nat>, above: bool, digit: nat, r: nat, low: bool, high: bool, last: nat)
    requires Usable(z) && Round(z, buf, above, digit, r, low, high) && (low || high)
    requires Raised(digit, r, z.w, low, high, last)
    ensures digit < 10 && digit <= last <= digit + 1
    ensures Decimal(buf + [last]) == 10 * Decimal(buf) + last && Holds(Finer(z, |buf|), Decimal(buf + [last]))
  {
    LastDigits(buf, digit, last);
    ScaledOrder(0, z.lo, |buf|);
    ScaledOrder(0, z.up, |buf|);
    RaisedHolds(Finer(z, |buf|), Decimal(buf + [digit]), digit, r, low, high, last, Decimal(buf + [last]));
  }

  lemma LastDigits(buf: seq<nat>, digit: nat, last: nat)
    ensures Decimal(buf + [last]) == 10 * Decimal(buf) + last
    ensures Decimal(buf + [last]) - last == Decimal(buf + [digit]) - digit
    ensures AreDigits(buf + [digit]) ==> digit < 10
  {
    DecimalAppend(buf, digit);
    DecimalAppend(buf, last);
    assert (buf + [digit])[|buf|] == digit;
  }

  lemma RaisedHolds(f: Interval, p: nat, digit: nat, r: nat, low: bool, high: bool, last: nat, y: nat)
    requires f.lo > 0 && f.up > 0 && Quotient(f.n, f.w, p, r) && (low || high) && (high <==> Holds(f, p + 1))
    requires low ==> r < f.lo || (f.closed && r == f.lo)
    requires Raised(digit, r, f.w, low, high, last) && y - last == p - digit
    ensures Holds(f, y)
  {
    Sides(f, p, r);
  }

  /** The digits of a round that stops. */
  lemma RoundEnds(z: Interval, buf: seq<nat>, above: bool, x: nat, digit: nat, r: nat, low: bool, high: bool, last: nat)
    requires Usable(z) && Round(z, buf, above, digit, r, low, high) && (low || high) && LongDivision(z.n, z.w, buf, x)
    requires Raised(digit, r, z.w, low, high, last) && (buf != [] ==> Passed(z, above, |buf| - 1))
    ensures Ended(z, above, buf + [last])
  {
    RoundHolds(z, buf, above, digit, r, low, high, last);
    if above {
      NotOnlyLowerEnd(z, buf, above, digit, r, low, high);
    }
    DigitsStay(z, buf, above, x, last);
  }

  lemma DigitsStay(z: Interval, buf: seq<nat>, above: bool, x: nat, last: nat)
    requires LongDivision(z.n, z.w, buf, x) && last <= 10
    requires Holds(Finer(z, |buf|), 10 * Decimal(buf) + last) && (buf != [] ==> Passed(z, above, |buf| - 1))
    ensures AreDigits(buf + [last]) || buf + [last] == [10]
  {
    if last == 10 && buf != [] {
      NoRaisedNine(z, above, buf, x);
    }
  }

  /** The side that a round stops at is the nearer one of those that hold. */
  lemma RoundChooses(z: Interval, buf: seq<nat>, above: bool, digit: nat, r: nat, low: bool, high: bool, last: nat)
    requires Usable(z) && Round(z, buf, above, digit, r, low, high) && (low || high)
    requires Raised(digit, r, z.w, low, high, last)
    ensures Chosen(z, above, buf + [last])
  {
    var f, p := Finer(z, |buf|), Decimal(buf + [digit]);
    DecimalAppend(buf, digit);
    DecimalAppend(buf, digit + 1);
    ScaledOrder(0, z.lo, |buf|);
    ScaledOrder(0, z.up, |buf|);
    Sides(f, p, r);
    LastRounds(f.n, f.w, Decimal(buf), digit, r);
    if last == digit {
      LowIsNearest(f, p, r);
    } else if !Holds(f, p) || RoundsUp(r, f.w, p) {
      HighIsNearest(f, p, r);
    } else {
      assert Prod(p, f.w) == f.n - f.lo;
    }
  }

  /**
    The digits stand for the number and are chosen well. They are digits unless
    the number reaches ten, which is written as one digit. They are the shortest
    ones if and only if it is not so that the numerator is stored with the
    larger exponent, the ends belong to the interval, and its lower end is the
    only shortest number in it: then the lower end is overlooked.
   */
  ghost predicate Result(z: Interval, above: bool, buf: seq<nat>)
  {
    && Ended(z, above, buf) && Chosen(z, above, buf)
    && (if ReachesTen(z) then buf == [10] else AreDigits(buf))
    && (|buf| > 1 ==> Scaled(z.lo, |buf| - 2) < z.w)
    && (NothingShorter(z, |buf| - 1) <==> !(above && z.closed && LowerEndFirst(z)))
  }

  lemma RoundResult(z: Interval, buf: seq<nat>, above: bool, x: nat, digit: nat, r: nat, low: bool, high: bool, last: nat)
    requires Usable(z) && Round(z, buf, above, digit, r, low, high) && (low || high) && LongDivision(z.n, z.w, buf, x)
    requires Raised(digit, r, z.w, low, high, last) && AllPassed(z, above, |buf|)
    ensures Result(z, above, buf + [last])
  {
    RoundEnds(z, buf, above, x, digit, r, low, high, last);
    RoundChooses(z, buf, above, digit, r, low, high, last);
    ShortestIff(z, above, |buf|);
    if buf == [] {
      FirstTen(z, above, digit, r, low, high, last);
      assert buf + [last] == [last];
    } else {
      NoTenLater(z, above);
    }
  }

  /** The last digit, raised unless the digits so far are the nearer side, or the only one. */
  method RaiseLast(num: BigInt, den: BigInt, digit: nat, low: bool, high: bool) returns (last: nat)
    requires num.Proper(den) && den.Valid() && den.Value() > 0 && num.NumBigits() <= den.NumBigits()
    ensures Raised(digit, num.Value(), den.Value(), low, high, last)
  {
    last := digit;
    if !low {
      last := digit + 1;
    } else if high {
      assert LengthsFit(num, num, den);
      var result := BigInt.AddCompare(num, num, den);
      if result > 0 || (result == 0 && digit % 2 != 0) {
        last := digit + 1;
      }
    }
  }

  /** The next round, with everything times ten. */
  method GoOn(num: BigInt, den: BigInt, lower: BigInt, upper: BigInt, ghost z: Interval, ghost buf: seq<nat>, digit: nat)
    requires num != lower && num != upper && den != lower && den != upper && num != den && Usable(z)
    requires num.Proper(den) && num.NumBigits() <= den.NumBigits() && den.Valid() && den.Value() == z.w > 0
    requires lower.Valid() && lower.Value() == Scaled(z.lo, |buf|)
    requires upper.Valid() && upper.Value() == Scaled(z.up, |buf|)
    requires num.exp == if lower.exp > den.exp && Decimal(buf + [digit]) > 0 then den.exp else lower.exp
    requires lower.exp > den.exp ==> NeverTies(z.n, z.w)
    requires LongDivision(z.n, z.w, buf + [digit], 10 * num.Value())
    modifies num, lower, upper
    ensures Going(num, den, lower, upper, z, buf + [digit]) && lower.exp == old(lower.exp) && den.exp == old(den.exp)
  {
    TimesTen(num, den, lower, upper);
  }

  method Shortest(num: BigInt, den: BigInt, lower: BigInt, upper: BigInt, even: bool, ghost z: Interval)
    returns (buf: seq<nat>)
    requires Going(num, den, lower, upper, z, []) && even == z.closed
    modifies num, lower, upper
    ensures Result(z, old(lower.exp) > old(den.exp), buf)
  {
    buf := [];
    ghost var above := lower.exp > den.exp;
    while true
      invariant Going(num, den, lower, upper, z, buf) && above == (lower.exp > den.exp)
      invariant AllPassed(z, above, |buf|)
      decreases if Scaled(z.lo, |buf|) < z.w then z.w - Scaled(z.lo, |buf|) else 0
    {
      ghost var x := num.Value();
      var digit, low, high := DoRound(num, den, lower, upper, z, buf, even);
      ghost var r := num.Value();
      if low || high {
        var last := RaiseLast(num, den, digit, low, high);
        RoundResult(z, buf, above, x, digit, r, low, high, last);
        buf := buf + [last];
        return;
      }
      RoundPasses(z, buf, above, digit, r);
      GoOn(num, den, lower, upper, z, buf, digit);
      buf := buf + [digit];
    }
  }
}
