/**
  Durations in 64-bit arithmetic: conversions wrap around, and rounding is
  exact as long as the count in common units leaves room for one more unit.
 */
module MachineDurations {
  import opened Basics
  import opened Ratios
  import opened Durations

  // ---- conversion ----

  /** A 64-bit signed number. */
  predicate InRange(n: int)
  {
    -MAX - 1 <= n <= MAX
  }

  /** What a 64-bit signed word keeps of a number. */
  function Wrapped(n: int): (r: int)
    ensures InRange(r) && (InRange(n) <==> r == n)
  {
    (n + MAX + 1) % W64 - MAX - 1
  }

  /** The same in 64 bits: a product that does not fit wraps around. */
  function MachineCarried(count: int, factor: Ratio): int
    requires factor.den > 0
  {
    if factor.den == 1 then
      if factor.num == 1 then count else Wrapped(count * factor.num)
    else
      if factor.num == 1 then Truncated(count, factor.den) else Truncated(Wrapped(count * factor.num), factor.den)
  }

  function MachineCast(count: int, p: Ratio, to: Ratio): int
    requires to.num != 0 && Divide(p, to).Some? && Divide(p, to).value.den > 0
  {
    MachineCarried(count, Divide(p, to).value)
  }

  lemma WrappedIsFar(n: int)
    requires !InRange(n)
    ensures Abs(n - Wrapped(n)) >= W64
  {
    var q, r := (n + MAX + 1) / W64, (n + MAX + 1) % W64;
    assert n - Wrapped(n) == q * W64;
  }

  lemma FarQuotients(a: int, b: int, d: int)
    requires 0 < d <= MAX && Abs(a - b) >= W64
    ensures Truncated(a, d) != Truncated(b, d)
  {
    TruncatedBounds(a, d);
    TruncatedBounds(b, d);
    Neighbours(Truncated(a, d), d);
  }

  lemma CarriedIff(count: int, factor: Ratio)
    requires 0 < factor.den <= MAX && InRange(count)
    ensures MachineCarried(count, factor) == Carried(count, factor) <==> InRange(count * factor.num)
  {
    var n := count * factor.num;
    if !InRange(n) {
      WrappedIsFar(n);
      FarQuotients(n, Wrapped(n), factor.den);
    }
  }

  lemma ProductFits(r: Ratio, t: Ratio)
    requires Multiply(r, t).Some?
    ensures Fits(Multiply(r, t).value)
  {
    var gx, gy := Gcd(r.num, t.den), Gcd(t.num, r.den);
    ProductInRange(r.num / gx, t.num / gy);
    ProductInRange(r.den / gy, t.den / gx);
  }

  lemma ProductInRange(a: int, b: int)
    requires SafeMultiply(a, b).Some?
    ensures Abs(a * b) <= MAX
  {
    assert Abs(a) <= MAX;
    SafeMultiplyIff(a, b);
  }

  /** Done in 64 bits, a conversion is exact if and only if the count times the numerator of the factor fits. */
  lemma MachineCastIff(count: int, p: Ratio, to: Ratio)
    requires Period(p) && Period(to) && Divide(p, to).Some? && Divide(p, to).value.den > 0 && InRange(count)
    ensures MachineCast(count, p, to) == Cast(count, p, to) <==> InRange(count * Divide(p, to).value.num)
  {
    ProductFits(p, Reduced(to.den, to.num));
    CarriedIff(count, Divide(p, to).value);
  }

  /** The largest number of minutes does not fit as seconds. */
  lemma MinutesOverflow()
    ensures Divide(MINUTE, SECOND) == Some(Ratio(60, 1))
    ensures MachineCast(MAX, MINUTE, SECOND) != Cast(MAX, MINUTE, SECOND)
  {
    MinutePeriods();
    MinuteQuotients();
    MachineCastIff(MAX, MINUTE, SECOND);
  }

  // ---- comparison ----

  predicate MachineLess(c: int, p: Ratio, d: int, q: Ratio)
    requires Comparable(p, q)
  {
    MachineCast(c, p, Common(p, q)) < MachineCast(d, q, Common(p, q))
  }

  lemma InRangeProduct(c: int, k: int)
    requires k > 0 && Abs(c) * k <= MAX
    ensures InRange(c * k) && InRange(c)
  {
    AbsProduct(c, k);
    MulMono(1, k, Abs(c));
  }

  lemma UnitsPositive(p: Ratio, q: Ratio)
    requires Period(p) && Period(q)
    ensures UnitsLeft(p, q) > 0 && UnitsRight(p, q) > 0
  {
    var e := UnitsAreExact(p, q);
    UnderPositive(p, q);
    PositiveFactor(UnitsLeft(p, q), e);
  }

  /** Counts that fit in common units convert exactly. */
  lemma MachineInUnits(c: int, p: Ratio, d: int, q: Ratio)
    requires Comparable(p, q) && Abs(c) * UnitsLeft(p, q) <= MAX && Abs(d) * UnitsRight(p, q) <= MAX
    ensures MachineCast(c, p, Common(p, q)) == Cast(c, p, Common(p, q))
    ensures MachineCast(d, q, Common(p, q)) == Cast(d, q, Common(p, q))
  {
    CommonIs(p, q);
    UnitsPositive(p, q);
    InRangeProduct(c, UnitsLeft(p, q));
    InRangeProduct(d, UnitsRight(p, q));
    CastToUnit(c, p, Common(p, q), UnitsLeft(p, q));
    CastToUnit(d, q, Common(p, q), UnitsRight(p, q));
    MachineCastIff(c, p, Common(p, q));
    MachineCastIff(d, q, Common(p, q));
  }

  /** Cross-unit comparison in 64 bits is exact if both counts fit in common units. */
  lemma MachineLessIsExact(c: int, p: Ratio, d: int, q: Ratio)
    requires Comparable(p, q) && Abs(c) * UnitsLeft(p, q) <= MAX && Abs(d) * UnitsRight(p, q) <= MAX
    ensures MachineLess(c, p, d, q) <==> Over(c, p, q) < d * Under(p, q)
  {
    MachineInUnits(c, p, d, q);
    LessIsExact(c, p, d, q);
  }

  // ---- rounding ----

  function MachineFloor(c: int, p: Ratio, to: Ratio): int
    requires Convertible(p, to)
  {
    var casted := MachineCast(c, p, to);
    if MachineLess(c, p, casted, to) then Wrapped(casted - 1) else casted
  }

  function MachineCeil(c: int, p: Ratio, to: Ratio): int
    requires Convertible(p, to)
  {
    var casted := MachineCast(c, p, to);
    if MachineLess(casted, to, c, p) then Wrapped(casted + 1) else casted
  }

  function MachineRound(c: int, p: Ratio, to: Ratio): int
    requires Convertible(p, to)
  {
    var floored := MachineFloor(c, p, to);
    var ceiled := Wrapped(floored + 1);
    var unit := Common(p, to);
    var floorAdjustment := Wrapped(MachineCast(c, p, unit) - MachineCast(floored, to, unit));
    var ceilAdjustment := Wrapped(MachineCast(ceiled, to, unit) - MachineCast(c, p, unit));
    if floorAdjustment < ceilAdjustment || (floorAdjustment == ceilAdjustment && IsEven(floored))
    then floored else ceiled
  }

  /** The duration in common units, and one target unit more, fit in 64 bits. */
  predicate HasRoom(c: int, p: Ratio, to: Ratio)
  {
    Abs(c) * UnitsLeft(p, to) + UnitsRight(p, to) <= MAX
  }

  /** The factor of a conversion is one number of common units to the other. */
  lemma FactorIsUnits(p: Ratio, to: Ratio)
    requires Period(p) && Period(to) && Divide(p, to).Some?
    ensures Divide(p, to).value == Ratio(UnitsLeft(p, to), UnitsRight(p, to)) && UnitsRight(p, to) > 0
  {
    var f, n, d := Divide(p, to).value, UnitsLeft(p, to), UnitsRight(p, to);
    QuotientIsLowest(p, to);
    UnitsAreCoprime(p, to);
    var e := UnitsAreExact(p, to);
    assert p.den * to.num == Under(p, to);
    SameWithout(f.num, f.den, n, d, e);
    LowestUnique(f, Ratio(n, d));
  }

  lemma SameWithout(a: int, b: int, n: int, d: int, e: int)
    requires e > 0 && SameValue(a, b, n * e, d * e)
    ensures SameValue(a, b, n, d)
  {
    assert e * (a * d) == a * (d * e) && e * (n * b) == (n * e) * b;
    CancelFactor(e, a * d, n * b);
  }

  /** The converted count, in common units, is not farther from zero than the duration. */
  lemma CastShrinks(c: int, p: Ratio, to: Ratio)
    requires Convertible(p, to)
    ensures Abs(Cast(c, p, to)) * UnitsRight(p, to) <= Abs(c) * UnitsLeft(p, to)
  {
    FactorIsUnits(p, to);
    UnitsPositive(p, to);
    var n, d := UnitsLeft(p, to), UnitsRight(p, to);
    TruncatedOne(c * n);
    AbsProduct(c, n);
    TruncatedShrinks(c * n, d);
  }

  lemma TruncatedShrinks(x: int, y: int)
    requires y > 0
    ensures Abs(Truncated(x, y)) * y <= Abs(x)
  {
    var n := Abs(x);
    var q, r := n / y, n % y;
    assert n == q * y + r;
    assert q >= 0;
    assert Abs(Truncated(x, y)) == q;
  }

  lemma MachineCastInRoom(c: int, p: Ratio, to: Ratio)
    requires Convertible(p, to) && HasRoom(c, p, to)
    ensures MachineCast(c, p, to) == Cast(c, p, to)
  {
    FactorIsUnits(p, to);
    UnitsPositive(p, to);
    InRangeProduct(c, UnitsLeft(p, to));
    MachineCastIff(c, p, to);
  }

  lemma SmallCount(t: int, y: int)
    requires y > 0 && Abs(t) * y <= MAX
    ensures Abs(t) <= MAX
  {
    MulMono(1, y, Abs(t));
  }

  /** With room, flooring in 64 bits is flooring. */
  lemma MachineFloorIs(c: int, p: Ratio, to: Ratio)
    requires Convertible(p, to) && HasRoom(c, p, to)
    ensures MachineFloor(c, p, to) == Floor(c, p, to)
  {
    var t := Cast(c, p, to);
    MachineCastInRoom(c, p, to);
    CastShrinks(c, p, to);
    UnitsPositive(p, to);
    SmallCount(t, UnitsRight(p, to));
    MachineInUnits(c, p, t, to);
  }

  lemma UnitsSwap(p: Ratio, q: Ratio)
    requires Period(p) && Period(q)
    ensures UnitsLeft(p, q) == UnitsRight(q, p) && UnitsRight(p, q) == UnitsLeft(q, p)
  {
    GcdSymmetric(p.num, q.num);
    GcdSymmetric(p.den, q.den);
  }

  /** With room, so is rounding up. */
  lemma MachineCeilIs(c: int, p: Ratio, to: Ratio)
    requires Convertible(p, to) && HasRoom(c, p, to)
    ensures MachineCeil(c, p, to) == Ceil(c, p, to)
  {
    var t := Cast(c, p, to);
    MachineCastInRoom(c, p, to);
    CastShrinks(c, p, to);
    UnitsPositive(p, to);
    RoomAbove(t, UnitsRight(p, to), Abs(c) * UnitsLeft(p, to));
    SwappedLess(c, p, t, to);
  }

  lemma SwappedLess(c: int, p: Ratio, t: int, to: Ratio)
    requires Comparable(to, p) && Abs(c) * UnitsLeft(p, to) <= MAX && Abs(t) * UnitsRight(p, to) <= MAX
    ensures MachineLess(t, to, c, p) <==> Less(t, to, c, p)
  {
    UnitsSwap(p, to);
    MachineInUnits(t, to, c, p);
  }

  lemma RoomAbove(t: int, y: int, n: int)
    requires y > 0 && Abs(t) * y <= n && n + y <= MAX
    ensures Abs(t) < MAX
  {
    assert (Abs(t) + 1) * y == Abs(t) * y + y;
    MulMono(1, y, Abs(t) + 1);
  }

  /** The two counts around the duration, in common units, leave the range of neither side. */
  lemma AroundInRoom(c: int, p: Ratio, to: Ratio)
    requires Convertible(p, to) && HasRoom(c, p, to)
    ensures var f := Floor(c, p, to);
            Abs(f) * UnitsRight(p, to) <= MAX && Abs(f + 1) * UnitsRight(p, to) <= MAX
  {
    var f, n, d := Floor(c, p, to), UnitsLeft(p, to), UnitsRight(p, to);
    FloorIs(c, p, to);
    UnitsPositive(p, to);
    var e := UnitsAreExact(p, to);
    OrderScales(f, d, c, n, e);
    OrderScales(c, n, f + 1, d, e);
    AbsProduct(c, n);
    AroundBounds(f, d, c * n);
  }

  lemma AroundBounds(f: int, d: int, x: int)
    requires d > 0 && f * d <= x < (f + 1) * d && Abs(x) + d <= MAX
    ensures Abs(f) * d <= MAX && Abs(f + 1) * d <= MAX
  {
    AbsProduct(f, d);
    AbsProduct(f + 1, d);
    Neighbours(f, d);
  }

  /** The adjustments themselves are below one unit. */
  lemma AdjustmentsInRange(c: int, p: Ratio, to: Ratio)
    requires Convertible(p, to) && HasRoom(c, p, to)
    ensures var f, unit := Floor(c, p, to), Common(p, to);
            && InRange(Cast(c, p, unit) - Cast(f, to, unit))
            && InRange(Cast(f + 1, to, unit) - Cast(c, p, unit))
  {
    var f, n, d := Floor(c, p, to), UnitsLeft(p, to), UnitsRight(p, to);
    UnitsPositive(p, to);
    MulMono(0, Abs(c), n);
    FloorIs(c, p, to);
    var e := UnitsAreExact(p, to);
    OrderScales(f, d, c, n, e);
    OrderScales(c, n, f + 1, d, e);
    Neighbours(f, d);
    InUnits(c, p, f, to);
    InUnits(c, p, f + 1, to);
  }

  /** With room, rounding in 64 bits is rounding to the nearest, ties to even. */
  lemma MachineRoundIs(c: int, p: Ratio, to: Ratio)
    requires Convertible(p, to) && HasRoom(c, p, to)
    ensures MachineRound(c, p, to) == Round(c, p, to)
  {
    var f := Floor(c, p, to);
    MachineFloorIs(c, p, to);
    AroundInRoom(c, p, to);
    UnitsPositive(p, to);
    SmallCount(f + 1, UnitsRight(p, to));
    MachineInUnits(c, p, f, to);
    MachineInUnits(c, p, f + 1, to);
    AdjustmentsInRange(c, p, to);
  }
}
