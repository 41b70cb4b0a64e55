/**
  Iteration over the hash table, erasure while iterating, and whole runs of
  operations compared with runs on a plain finite map.
 */
module RobinHoodRuns {
  import opened Bits
  import opened RobinHoodLayout
  import opened RobinHoodTable

  // ---- iteration ----

  lemma ZeroWord(info: seq<byte>, idx: nat)
    requires idx + 8 <= |info| && WordOf(info[idx..idx + 8]) == 0
    ensures forall i :: idx <= i < idx + 8 ==> info[i] == 0
  {
    var word := info[idx..idx + 8];
    WordZero(word);
    forall i | idx <= i < idx + 8 ensures info[i] == 0 { assert word[i - idx] == 0; }
  }

  lemma NonzeroWord(info: seq<byte>, idx: nat)
    requires idx + 8 <= |info| && WordOf(info[idx..idx + 8]) > 0
    ensures var k := idx + TrailingZeros(WordOf(info[idx..idx + 8])) / 8;
            k < |info| && info[k] != 0 && forall i :: idx <= i < k ==> info[i] == 0
  {
    var word := info[idx..idx + 8];
    FirstNonzeroByte(word);
    var k := TrailingZeros(WordOf(word)) / 8;
    forall i | idx <= i < idx + k ensures info[i] == 0 { assert word[..k][i - idx] == 0; }
  }

  /** The first nonzero byte at or after start, found a word of eight bytes at a time. */
  method NextNonzero(info: seq<byte>, ghost w: nat, start: nat) returns (idx: nat)
    requires start <= w && w + 8 <= |info| && info[w] != 0
    ensures start <= idx <= w && info[idx] != 0 && forall i :: start <= i < idx ==> info[i] == 0
  {
    idx := start;
    var n := WordOf(info[idx..idx + 8]);
    while n == 0
      invariant start <= idx <= w && n == WordOf(info[idx..idx + 8])
      invariant forall i :: start <= i < idx ==> info[i] == 0
      decreases w - idx
    {
      ZeroWord(info, idx);
      idx := idx + 8;
      n := WordOf(info[idx..idx + 8]);
    }
    NonzeroWord(info, idx);
    idx := idx + TrailingZeros(n) / 8;
  }

  /** Where an iterator may stand: at an occupied slot or at the end. */
  ghost predicate Stands(t: Table, idx: nat)
    reads t
  {
    idx <= |t.slots| && (idx < |t.slots| ==> t.slots[idx].Full?)
  }

  /** Everything from a up to b is empty. */
  ghost predicate EmptyRange(t: Table, a: nat, b: nat)
    reads t
    requires b <= |t.slots|
  {
    forall i :: a <= i < b ==> t.slots[i].Empty?
  }

  /** The iterator position at or after start. */
  method FastForward(t: Table, start: nat) returns (idx: nat)
    requires t.Valid() && t.mask != 0 && start <= |t.slots|
    ensures start <= idx && Stands(t, idx) && EmptyRange(t, start, idx)
  {
    idx := NextNonzero(t.info, |t.slots|, start);
    forall i | 0 <= i < |t.slots| ensures t.info[i] == 0 <==> t.slots[i].Empty? {
      ByteMeaning(t.Geo(), t.slots, t.info, i);
    }
  }

  method Begin(t: Table) returns (idx: nat)
    requires t.Valid()
    ensures Stands(t, idx) && EmptyRange(t, 0, idx)
  {
    if t.numElements == 0 {
      return |t.slots|;
    }
    idx := FastForward(t, 0);
  }

  /** A full traversal: the occupied indices, each once, in increasing order. */
  method Traverse(t: Table) returns (visited: seq<nat>)
    requires t.Valid()
    ensures forall i, j :: 0 <= i < j < |visited| ==> visited[i] < visited[j]
    ensures forall i: nat :: i in visited <==> i < |t.slots| && t.slots[i].Full?
  {
    visited := [];
    var idx := Begin(t);
    while idx != |t.slots|
      invariant Stands(t, idx)
      invariant forall i, j :: 0 <= i < j < |visited| ==> visited[i] < visited[j]
      invariant forall i :: 0 <= i < |visited| ==> visited[i] < idx
      invariant forall i: nat :: i in visited <==> i < idx && t.slots[i].Full?
      decreases |t.slots| - idx
    {
      visited := visited + [idx];
      idx := FastForward(t, idx + 1);
    }
  }

  /** Erase through an iterator; the result is the iterator to go on with. */
  method EraseAt(t: Table, pos: nat) returns (next: nat)
    requires t.Valid() && pos < |t.slots| && t.slots[pos].Full?
    modifies t`info, t`slots, t`model, t`numElements
    ensures t.Valid() && t.model == old(t.model) - {old(t.slots[pos].key)}
    ensures pos <= next && Stands(t, next) && EmptyRange(t, pos, next)
    ensures exists e :: Tail(t.Geo(), old(t.slots), pos, e) && Erased(old(t.slots), t.slots, pos, e)
  {
    t.ShiftDown(pos);
    ByteMeaning(t.Geo(), t.slots, t.info, pos);
    if t.info[pos] != 0 {
      return pos;
    }
    next := FastForward(t, pos + 1);
  }

  /** Iterating: exactly the keys before the iterator have been visited. */
  ghost predicate VisitedBelow(s: seq<Slot>, visited: set<Key>, idx: nat)
  {
    forall j :: 0 <= j < |s| && s[j].Full? ==> (s[j].key in visited <==> j < idx)
  }

  lemma VisitAndKeep(s: seq<Slot>, visited: set<Key>, idx: nat, next: nat)
    requires Distinct(s) && idx < next <= |s| && s[idx].Full? && VisitedBelow(s, visited, idx)
    requires forall j :: idx < j < next ==> s[j].Empty?
    ensures VisitedBelow(s, visited + {s[idx].key}, next)
  {
    var pos :| Positions(s, pos);
  }

  lemma VisitAndErase(s: seq<Slot>, r: seq<Slot>, e: nat, visited: set<Key>, idx: nat, next: nat)
    requires Distinct(s) && idx <= e < |s| && s[idx].Full? && VisitedBelow(s, visited, idx)
    requires Erased(s, r, idx, e) && idx <= next <= |r| && forall j :: idx <= j < next ==> r[j].Empty?
    ensures VisitedBelow(r, visited + {s[idx].key}, next)
  {
    var pos :| Positions(s, pos);
  }

  /** One round: visit the element under the iterator, and erase it or step over it. */
  method Advance(t: Table, idx: nat, erase: bool, ghost visited: set<Key>) returns (next: nat)
    requires t.Valid() && idx < |t.slots| && t.slots[idx].Full? && VisitedBelow(t.slots, visited, idx)
    modifies t`info, t`slots, t`model, t`numElements
    ensures t.Valid() && Stands(t, next) && VisitedBelow(t.slots, visited + {old(t.slots[idx].key)}, next)
    ensures t.model == if erase then old(t.model) - {old(t.slots[idx].key)} else old(t.model)
  {
    if erase {
      ghost var s := t.slots;
      next := EraseAt(t, idx);
      ghost var e :| Tail(t.Geo(), s, idx, e) && Erased(s, t.slots, idx, e);
      VisitAndErase(s, t.slots, e, visited, idx, next);
    } else {
      next := FastForward(t, idx + 1);
      VisitAndKeep(t.slots, visited, idx, next);
    }
  }

  /** What the erasing loop keeps, on plain values. */
  ghost predicate LoopState(m: map<Key, Value>, m': map<Key, Value>, visited: seq<Key>, seen: set<Key>, victims: set<Key>)
  {
    && m' == m - (seen * victims)
    && (forall k :: k in visited <==> k in seen)
    && seen <= m.Keys
    && (forall i, j :: 0 <= i < j < |visited| ==> visited[i] != visited[j])
  }

  lemma LoopStep(m: map<Key, Value>, m': map<Key, Value>, visited: seq<Key>, seen: set<Key>, victims: set<Key>, k: Key)
    requires LoopState(m, m', visited, seen, victims) && k in m' && k !in seen
    ensures LoopState(m, if k in victims then m' - {k} else m', visited + [k], seen + {k}, victims)
    ensures |m.Keys - (seen + {k})| < |m.Keys - seen|
  {
    assert m.Keys - seen == (m.Keys - (seen + {k})) + {k};
  }

  /**
    A loop that erases some of the elements through the returned iterator
    visits every element exactly once, although erasure moves elements down.
   */
  method EraseWhileIterating(t: Table, victims: set<Key>) returns (visited: seq<Key>)
    requires t.Valid()
    modifies t`info, t`slots, t`model, t`numElements
    ensures t.Valid() && t.model == old(t.model) - victims
    ensures forall i, j :: 0 <= i < j < |visited| ==> visited[i] != visited[j]
    ensures forall k :: k in visited <==> k in old(t.model)
  {
    visited := [];
    ghost var m, seen: set<Key> := t.model, {};
    var idx := Begin(t);
    while idx != |t.slots|
      invariant t.Valid() && Stands(t, idx) && VisitedBelow(t.slots, seen, idx)
      invariant LoopState(m, t.model, visited, seen, victims)
      decreases |m.Keys - seen|
    {
      var key := t.slots[idx].key;
      LoopStep(m, t.model, visited, seen, victims, key);
      idx := Advance(t, idx, key in victims, seen);
      visited, seen := visited + [key], seen + {key};
    }
    AllSeen(t.slots, t.model, seen, idx);
    LoopDone(m, t.model, visited, seen, victims);
  }

  lemma LoopDone(m: map<Key, Value>, m': map<Key, Value>, visited: seq<Key>, seen: set<Key>, victims: set<Key>)
    requires LoopState(m, m', visited, seen, victims) && m'.Keys <= seen
    ensures m' == m - victims && forall k :: k in visited <==> k in m
  {
    forall k | k in m ensures k in seen {
      assert k in seen * victims || k in m'.Keys;
    }
  }

  lemma AllSeen(s: seq<Slot>, m: map<Key, Value>, seen: set<Key>, idx: nat)
    requires Holds(s, m) && VisitedBelow(s, seen, idx) && idx == |s|
    ensures m.Keys <= seen
  {
    forall k | k in m ensures k in seen {
      var i :| At(s, i, k);
    }
  }

  // ---- whole runs ----

  datatype Op =
    | Insert(k: Key, v: Value)
    | Subscript(k: Key, default: Value)
    | Assign(k: Key, v: Value)
    | EraseKey(k: Key)
    | EraseAll(victims: set<Key>)
    | Clear
    | Reserve(n: size)
    | Rehash(n: size)
    | Find(k: Key)

  /** What an operation gives back to its caller. */
  datatype Out = Nothing | Flag(b: bool) | Got(v: Value)

  /** The same operation on a plain finite map. */
  function MapStep(m: map<Key, Value>, op: Op): (map<Key, Value>, Out)
  {
    match op
    case Insert(k, v) => (if k in m then m else m[k := v], Flag(k !in m))
    case Subscript(k, d) => if k in m then (m, Got(m[k])) else (m[k := d], Got(d))
    case Assign(k, v) => (m[k := v], Flag(k !in m))
    case EraseKey(k) => (m - {k}, Flag(k in m))
    case EraseAll(ks) => (m - ks, Nothing)
    case Clear => (map[], Nothing)
    case Reserve(_) => (m, Nothing)
    case Rehash(_) => (m, Nothing)
    case Find(k) => (m, if k in m then Got(m[k]) else Nothing)
  }

  function MapRun(m: map<Key, Value>, ops: seq<Op>): (map<Key, Value>, seq<Out>)
    decreases |ops|
  {
    if ops == [] then (m, [])
    else
      var (m', out) := MapStep(m, ops[0]);
      var (m'', outs) := MapRun(m', ops[1..]);
      (m'', [out] + outs)
  }

  lemma {:induction false} MapRunAppend(m: map<Key, Value>, ops: seq<Op>, op: Op)
    ensures var (m', outs) := MapRun(m, ops);
            var (m'', out) := MapStep(m', op);
            MapRun(m, ops + [op]) == (m'', outs + [out])
    decreases |ops|
  {
    if ops == [] {
      assert ops + [op] == [op];
      var (m1, out1) := MapStep(m, op);
      assert MapRun(m1, [op][1..]) == (m1, []);
      assert MapRun(m, [op]) == (m1, [out1] + []);
      assert MapRun(m, ops) == (m, []);
      assert [out1] + [] == [] + [out1];
    } else {
      var (m1, out1) := MapStep(m, ops[0]);
      MapRunAppend(m1, ops[1..], op);
      var (m2, outs) := MapRun(m1, ops[1..]);
      assert [out1] + (outs + [MapStep(m2, op).1]) == [out1] + outs + [MapStep(m2, op).1];
      assert (ops + [op])[1..] == ops[1..] + [op];
    }
  }

  /**
    What an operation on a table that holds m does to its number of buckets:
    rehash gives exactly the least number, reserve raises to it, and an
    insertion may raise it if the key is new and the buckets are half full.
   */
  ghost predicate Buckets(m: map<Key, Value>, op: Op, n: nat, n': nat, factor: nat)
  {
    match op
    case Rehash(c) => LeastSize(n', Need(c, |m|), factor)
    case Reserve(c) =>
      exists least: nat :: LeastSize(least, Need(c, |m|), factor) && n' == if least > n then least else n
    case Insert(k, _) => if k in m then n' == n else Growth(|m|, n, n', factor)
    case Subscript(k, _) => if k in m then n' == n else Growth(|m|, n, n', factor)
    case Assign(k, _) => if k in m then n' == n else Growth(|m|, n, n', factor)
    case _ => n' == n
  }

  /** One insertion, of three kinds; not ok when it raises the overflow error. */
  method PerformInsertion(t: Table, op: Op) returns (ok: bool, out: Out)
    requires t.Valid() && (op.Insert? || op.Subscript? || op.Assign?)
    modifies t
    ensures ok ==> t.Valid() && (t.model, out) == MapStep(old(t.model), op) && StuckByCrowd(old(t.Now()), t.Now())
    ensures ok ==> Buckets(old(t.model), op, old(t.mask) + 1, t.mask + 1, t.loadFactor)
    ensures !ok ==> t.Exhausted() && (old(t.Stuck()) || old(t.numElements) >= CROWD)
  {
    match op
    case Insert(k, v) =>
      var r := t.DoInsert(k, v);
      ok, out := !r.Overflow?, Flag(r.Added?);
    case Subscript(k, d) =>
      var v;
      ok, v := t.Index(k, d);
      out := Got(v);
    case Assign(k, v) =>
      var added;
      ok, added := t.InsertOrAssign(k, v);
      out := Flag(added);
  }

  /** Erasing one element, several of them while iterating, or all of them. */
  method PerformErasure(t: Table, op: Op) returns (out: Out)
    requires t.Valid() && (op.EraseKey? || op.EraseAll? || op.Clear?)
    modifies t
    ensures t.Valid() && (t.model, out) == MapStep(old(t.model), op)
    ensures StuckByCrowd(old(t.Now()), t.Now()) && t.mask == old(t.mask)
  {
    ghost var (m, _) := MapStep(t.model, op);
    out := Nothing;
    match op
    case EraseKey(k) =>
      assert m == t.model - {k};
      var n := t.Erase(k);
      out := Flag(n == 1);
    case EraseAll(ks) =>
      assert m == t.model - ks;
      var _ := EraseWhileIterating(t, ks);
    case Clear =>
      t.Clear();
  }

  /** A request for room, forced or not. */
  method PerformReserve(t: Table, op: Op) returns (ok: bool)
    requires t.Valid() && (op.Reserve? || op.Rehash?)
    modifies t
    ensures ok ==> t.Valid() && t.model == old(t.model) && StuckByCrowd(old(t.Now()), t.Now())
    ensures ok ==> Buckets(old(t.model), op, old(t.mask) + 1, t.mask + 1, t.loadFactor)
    ensures !ok ==> || t.TooMany(old(t.numElements), op.n)
                    || (t.Exhausted() && old(t.numElements) >= CROWD)
  {
    ok := t.Reserve(op.n, op.Rehash?);
    if ok {
      ghost var need := Need(op.n, old(t.numElements));
      ghost var least: nat :| LeastSize(least, need, t.loadFactor)
        && if op.Rehash? || least > old(t.mask) + 1 then t.mask + 1 == least && Tight(t.Now())
           else t.Now() == old(t.Now());
    }
  }

  /** One operation on the table; not ok when it raises the overflow error. */
  method Perform(t: Table, op: Op) returns (ok: bool, out: Out)
    requires t.Valid()
    modifies t
    ensures ok ==> t.Valid() && (t.model, out) == MapStep(old(t.model), op) && StuckByCrowd(old(t.Now()), t.Now())
    ensures ok ==> Buckets(old(t.model), op, old(t.mask) + 1, t.mask + 1, t.loadFactor)
    ensures !ok ==> || AsksTooMuch(op, old(t.numElements), t.loadFactor)
                    || (t.Exhausted() && (old(t.Stuck()) || old(t.numElements) >= CROWD))
  {
    ok, out := true, Nothing;
    match op
    case Insert(_, _) => ok, out := PerformInsertion(t, op);
    case Subscript(_, _) => ok, out := PerformInsertion(t, op);
    case Assign(_, _) => ok, out := PerformInsertion(t, op);
    case EraseKey(_) => out := PerformErasure(t, op);
    case EraseAll(_) => out := PerformErasure(t, op);
    case Clear => out := PerformErasure(t, op);
    case Reserve(_) => ok := PerformReserve(t, op);
    case Rehash(_) => ok := PerformReserve(t, op);
    case Find(k) =>
      var idx := t.FindIdx(k);
      if idx != |t.slots| {
        out := Got(t.slots[idx].value);
      }
  }

  /** A request for more elements than any table can hold beside n others. */
  ghost predicate AsksTooMuch(op: Op, n: nat, factor: nat)
  {
    (op.Reserve? || op.Rehash?) && NoSize(Need(op.n, n), factor)
  }

  /** The elements after the first i operations. */
  function Count(ops: seq<Op>, i: nat): nat
    requires i <= |ops|
  {
    |MapRun(map[], ops[..i]).0|
  }

  /** Some time during these operations there were 127 elements. */
  ghost predicate Crowds(ops: seq<Op>)
  {
    exists i :: 0 <= i <= |ops| && Count(ops, i) >= CROWD
  }

  /** The numbers of buckets before and after every operation. */
  ghost predicate Sizes(ops: seq<Op>, sizes: seq<nat>, factor: nat)
  {
    && |sizes| == |ops| + 1 && sizes[0] == 1
    && forall i :: 0 <= i < |ops| ==> Buckets(MapRun(map[], ops[..i]).0, ops[i], sizes[i], sizes[i + 1], factor)
  }

  lemma SizesAppend(ops: seq<Op>, sizes: seq<nat>, factor: nat, op: Op, n: nat)
    requires Sizes(ops, sizes, factor) && Buckets(MapRun(map[], ops).0, op, sizes[|ops|], n, factor)
    ensures Sizes(ops + [op], sizes + [n], factor)
  {
    var all, ns := ops + [op], sizes + [n];
    forall i | 0 <= i < |all| ensures Buckets(MapRun(map[], all[..i]).0, all[i], ns[i], ns[i + 1], factor) {
      if i < |ops| {
        assert all[..i] == ops[..i];
      } else {
        assert all[..i] == ops;
      }
    }
  }

  lemma CrowdsAppend(ops: seq<Op>, op: Op)
    ensures Crowds(ops) ==> Crowds(ops + [op])
    ensures |MapRun(map[], ops + [op]).0| >= CROWD ==> Crowds(ops + [op])
  {
    var all := ops + [op];
    if Crowds(ops) {
      var i :| 0 <= i <= |ops| && Count(ops, i) >= CROWD;
      assert all[..i] == ops[..i];
      assert Count(all, i) >= CROWD;
    }
    assert all[..|all|] == all;
    assert Count(all, |all|) == |MapRun(map[], all).0|;
  }

  /**
    Every run gives its callers exactly what the same run on a finite map gives,
    and ends with slots that hold that map; every operation changes the number
    of buckets as it should. A run stops early only at a request for more than
    64-bit sizes allow, or when all hash bits are used up, and whatever the hash
    is that takes 127 elements at some time before.
   */
  method Run(loadFactor: nat, ops: seq<Op>) returns (ok: bool, t: Table, outs: seq<Out>, sizes: seq<nat>)
    requires 10 < loadFactor < 100
    ensures ok ==> t.Valid() && (t.model, outs) == MapRun(map[], ops)
    ensures ok ==> Holds(t.slots, t.model) && t.numElements == |t.model|
    ensures ok ==> Sizes(ops, sizes, loadFactor) && sizes[|ops|] == t.mask + 1
    ensures !ok ==> || (exists i :: 0 <= i < |ops| && AsksTooMuch(ops[i], Count(ops, i), loadFactor))
                    || (t.Exhausted() && Crowds(ops))
  {
    ok, outs, sizes := true, [], [1];
    t := new Table(loadFactor);
    for i := 0 to |ops|
      invariant ok && t.Valid() && fresh(t) && t.loadFactor == loadFactor
      invariant Follows(ops[..i], t.model, outs, sizes, t.mask + 1, loadFactor, t.Stuck())
    {
      ok, outs, sizes := RunOne(t, ops, i, outs, sizes);
      if !ok {
        return;
      }
    }
    assert ops[..|ops|] == ops;
  }

  /** The operation after the first i ones. */
  method RunOne(t: Table, ops: seq<Op>, i: nat, outs: seq<Out>, sizes: seq<nat>)
    returns (ok: bool, outs': seq<Out>, sizes': seq<nat>)
    requires t.Valid() && i < |ops| && Follows(ops[..i], t.model, outs, sizes, t.mask + 1, t.loadFactor, t.Stuck())
    modifies t
    ensures ok ==>
              t.Valid() && Follows(ops[..i + 1], t.model, outs', sizes', t.mask + 1, t.loadFactor, t.Stuck())
    ensures !ok ==> AsksTooMuch(ops[i], Count(ops, i), t.loadFactor) || (t.Exhausted() && Crowds(ops))
  {
    ghost var u := t.Now();
    var out;
    ok, out := Perform(t, ops[i]);
    outs', sizes' := outs + [out], sizes + [t.mask + 1];
    if ok {
      FollowsOn(ops, i, u.model, outs, sizes, u.g.buckets, t.loadFactor, IsStuck(u),
                t.model, out, t.mask + 1, t.Stuck());
    } else {
      StopsEarly(ops, i);
    }
  }

  /** A table has done these operations: what it holds, has given back, and how its buckets went. */
  ghost predicate Follows(ops: seq<Op>, m: map<Key, Value>, outs: seq<Out>, sizes: seq<nat>, n: nat, factor: nat,
                          stuck: bool)
  {
    && (m, outs) == MapRun(map[], ops)
    && Sizes(ops, sizes, factor) && sizes[|ops|] == n
    && (stuck ==> Crowds(ops))
  }

  lemma FollowsOn(ops: seq<Op>, i: nat, m: map<Key, Value>, outs: seq<Out>, sizes: seq<nat>, n: nat, factor: nat,
                  stuck: bool, m': map<Key, Value>, out: Out, n': nat, stuck': bool)
    requires i < |ops| && Follows(ops[..i], m, outs, sizes, n, factor, stuck)
    requires (m', out) == MapStep(m, ops[i]) && Buckets(m, ops[i], n, n', factor)
    requires stuck' ==> stuck || |m'| >= CROWD
    ensures Follows(ops[..i + 1], m', outs + [out], sizes + [n'], n', factor, stuck')
  {
    MapRunAppend(map[], ops[..i], ops[i]);
    SizesAppend(ops[..i], sizes, factor, ops[i], n');
    CrowdsAppend(ops[..i], ops[i]);
    assert ops[..i] + [ops[i]] == ops[..i + 1];
  }

  lemma StopsEarly(ops: seq<Op>, i: nat)
    requires i < |ops|
    ensures Crowds(ops[..i]) || Count(ops, i) >= CROWD ==> Crowds(ops)
  {
    if Crowds(ops[..i]) {
      var j :| 0 <= j <= i && Count(ops[..i], j) >= CROWD;
      assert ops[..i][..j] == ops[..j];
      assert Count(ops, j) >= CROWD;
    }
  }
}
