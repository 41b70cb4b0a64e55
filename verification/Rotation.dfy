/**
  Rotating a range in place: by swapping forwards only, and by three reversals.
 */
module Rotation {

  type Item(0)

  /** The range [first, last) of s with the part from mid on moved to the front. */
  function Rotated(s: seq<Item>, first: nat, mid: nat, last: nat): (r: seq<Item>)
    requires first <= mid <= last <= |s|
    ensures |r| == |s|
  {
    s[..first] + s[mid..last] + s[first..mid] + s[last..]
  }

  function Reversed(s: seq<Item>): (r: seq<Item>)
    ensures |r| == |s|
  {
    seq(|s|, i requires 0 <= i < |s| => s[|s| - 1 - i])
  }

  function Swapped(s: seq<Item>, i: nat, j: nat): (r: seq<Item>)
    requires i < |s| && j < |s|
    ensures |r| == |s|
  {
    s[i := s[j]][j := s[i]]
  }

  // ---- forwards ----

  /**
    What is left to do: before f all is in place; the rest of the result is the
    part from c on, then the part from n to c, then the part from f to n.
   */
  ghost predicate Arranged(s: seq<Item>, f: nat, n: nat, c: nat, last: nat, goal: seq<Item>)
  {
    && f < n <= c <= last <= |s|
    && s[..f] + s[c..last] + s[n..c] + s[f..n] + s[last..] == goal
  }

  lemma SwapStep(s: seq<Item>, f: nat, n: nat, c: nat, last: nat, goal: seq<Item>)
    requires Arranged(s, f, n, c, last, goal) && c < last
    ensures var s' := Swapped(s, f, c);
            && s'[..f + 1] + s'[c + 1..last] + s'[n..c + 1] + s'[f + 1..n] + s'[last..] == goal
            && (f + 1 < n ==> Arranged(s', f + 1, n, c + 1, last, goal))
            && (f + 1 == n ==> Arranged(s', f + 1, c + 1, c + 1, last, goal))
  {
    var s' := Swapped(s, f, c);
    assert s'[..f + 1] == s[..f] + [s[c]];
    assert s[c..last] == [s[c]] + s[c + 1..last] && s'[c + 1..last] == s[c + 1..last];
    assert s'[n..c + 1] == s[n..c] + [s[f]];
    assert s[f..n] == [s[f]] + s[f + 1..n] && s'[f + 1..n] == s[f + 1..n];
    assert s'[last..] == s[last..];
  }

  /** One sweep: swap pairs until current reaches the end. */
  method Sweep(a: array<Item>, f0: nat, n0: nat, last: nat, ghost goal: seq<Item>) returns (f: nat, n: nat)
    requires last <= a.Length && n0 < last && Arranged(a[..], f0, n0, n0, last, goal)
    modifies a
    ensures f0 < f && Arranged(a[..], f, n, last, last, goal)
  {
    f, n := f0, n0;
    var current := n0;
    while current != last
      invariant f0 <= f && current <= last && (current > n0 ==> f0 < f)
      invariant Arranged(a[..], f, n, current, last, goal)
      decreases last - current
    {
      SwapStep(a[..], f, n, current, last, goal);
      ghost var s := a[..];
      a[f], a[current] := a[current], a[f];
      assert a[..] == Swapped(s, f, current);
      f, current := f + 1, current + 1;
      if f == n {
        n := current;
      }
    }
  }

  /** What a sweep has not put in place is again a rotation. */
  lemma NextSweep(s: seq<Item>, f: nat, n: nat, last: nat, goal: seq<Item>)
    requires Arranged(s, f, n, last, last, goal)
    ensures n == last ==> s == goal
    ensures n < last ==> Arranged(s, f, n, n, last, goal)
  {
    assert s[last..last] == [] && s[n..n] == [];
    if n == last {
      assert s == s[..f] + s[f..n] + s[last..];
    }
  }

  method RotateForward(a: array<Item>, first: nat, mid: nat, last: nat)
    requires first < mid < last <= a.Length
    modifies a
    ensures a[..] == Rotated(old(a[..]), first, mid, last)
  {
    ghost var goal := Rotated(a[..], first, mid, last);
    assert Arranged(a[..], first, mid, mid, last, goal);
    var f, n := Sweep(a, first, mid, last, goal);
    while n != last
      invariant f < n <= last && Arranged(a[..], f, n, last, last, goal)
      decreases last - f
    {
      NextSweep(a[..], f, n, last, goal);
      f, n := Sweep(a, f, n, last, goal);
    }
    NextSweep(a[..], f, n, last, goal);
  }

  // ---- by reversals ----

  function RangeReversed(s: seq<Item>, first: nat, last: nat): (r: seq<Item>)
    requires first <= last <= |s|
    ensures |r| == |s|
  {
    s[..first] + Reversed(s[first..last]) + s[last..]
  }

  method Reverse(a: array<Item>, first: nat, last: nat)
    requires first <= last <= a.Length
    modifies a
    ensures a[..] == RangeReversed(old(a[..]), first, last)
  {
    if first == last {
      assert Reversed(a[first..last]) == a[first..last];
      return;
    }
    var i, j := first, last - 1;
    while i < j
      invariant first <= i <= j + 1 <= last && i - first == last - 1 - j
      invariant forall k :: 0 <= k < first || last <= k < a.Length || i <= k <= j ==> a[k] == old(a[k])
      invariant forall k :: first <= k < i || j < k < last ==> a[k] == old(a[first + last - 1 - k])
    {
      a[i], a[j] := a[j], a[i];
      i, j := i + 1, j - 1;
    }
    assert a[..] == RangeReversed(old(a[..]), first, last);
  }

  lemma ReversedSum(s: seq<Item>, t: seq<Item>)
    ensures Reversed(Reversed(s) + Reversed(t)) == t + s
  {
  }

  lemma ThreeReversals(s: seq<Item>, first: nat, mid: nat, last: nat)
    requires first <= mid <= last <= |s|
    ensures RangeReversed(RangeReversed(RangeReversed(s, first, mid), mid, last), first, last) == Rotated(s, first, mid, last)
  {
    var s1 := RangeReversed(s, first, mid);
    var s2 := RangeReversed(s1, mid, last);
    assert s1[mid..last] == s[mid..last] && s1[..mid] == s[..first] + Reversed(s[first..mid]);
    assert s2[..first] == s[..first] && s2[last..] == s[last..];
    assert s2[first..last] == Reversed(s[first..mid]) + Reversed(s[mid..last]);
    ReversedSum(s[first..mid], s[mid..last]);
  }

  method RotateByReversals(a: array<Item>, first: nat, mid: nat, last: nat) returns (r: nat)
    requires first <= mid <= last <= a.Length
    modifies a
    ensures a[..] == Rotated(old(a[..]), first, mid, last) && r == first + (last - mid)
  {
    ThreeReversals(a[..], first, mid, last);
    Reverse(a, first, mid);
    Reverse(a, mid, last);
    Reverse(a, first, last);
    r := first + (last - mid);
  }

  /** Rotation for forward iterators, which leaves an empty part alone. */
  method RotateLeft(a: array<Item>, first: nat, mid: nat, last: nat)
    requires first <= mid <= last <= a.Length
    modifies a
    ensures a[..] == Rotated(old(a[..]), first, mid, last)
  {
    if first == mid || mid == last {
      assert a[..] == Rotated(a[..], first, mid, last);
      return;
    }
    RotateForward(a, first, mid, last);
  }

  /** Rotating back at the position where the old first element went undoes a rotation. */
  lemma RotateBack(s: seq<Item>, first: nat, mid: nat, last: nat)
    requires first <= mid <= last <= |s|
    ensures Rotated(Rotated(s, first, mid, last), first, first + (last - mid), last) == s
  {
    var r := Rotated(s, first, mid, last);
    var back := first + (last - mid);
    assert r[..first] == s[..first] && r[last..] == s[last..];
    assert r[first..back] == s[mid..last] && r[back..last] == s[first..mid];
  }
}
