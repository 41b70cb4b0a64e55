/**
  The slot layout of the Robin Hood hash table, on plain sequences: the order
  that every run of occupied slots keeps, the info byte of every slot, and what
  shifting a run up or down, or dropping a hash bit, does to them.
 */
module RobinHoodLayout {
  import opened Basics
  import opened Bits

  /** What keys and mapped values are made of. */
  type Id(==, !new)
  type Value(!new)

  /**
    A key together with the value that the hash function gives it. Any hash
    function h on the ids is covered by the keys Key(x, h(x)): equal keys have
    equal hashes, and nothing else is known about the hash.
   */
  datatype Key = Key(id: Id, hash: nat)

  datatype Slot = Empty | Full(key: Key, value: Value)

  /** The number of buckets and the number of hash bits dropped from the info bytes. */
  datatype Geometry = Geometry(buckets: nat, shift: nat)
  {
    ghost predicate Valid() {
      buckets > 0 && shift <= 4
    }
  }

  /** The weight of one step of displacement in an info byte: 32 halved `shift` times. */
  function Inc(shift: nat): (r: nat)
    ensures r >= 2
  {
    if shift == 0 then 32 else if shift == 1 then 16 else if shift == 2 then 8 else if shift == 3 then 4 else 2
  }

  /** The low five hash bits shifted right by `shift`. */
  function Fragment(h: nat, shift: nat): (r: nat)
    ensures r < Inc(shift)
  {
    var f := h % 32;
    if shift == 0 then f else if shift == 1 then f / 2 else if shift == 2 then f / 4
    else if shift == 3 then f / 8 else f / 16
  }

  /** The remainder of x by n, by repeated subtraction. */
  function Mod(x: nat, n: nat): (r: nat)
    requires n > 0
    ensures r < n
  {
    if x < n then x else Mod(x - n, n)
  }

  lemma {:induction false} ModIsRemainder(x: nat, n: nat)
    requires n > 0
    ensures Mod(x, n) == x % n
  {
    if x >= n {
      ModIsRemainder(x - n, n);
      var q, r := (x - n) / n, (x - n) % n;
      assert x == (q + 1) * n + r;
      DivModUnique(x, n, q + 1, r);
    } else {
      DivModUnique(x, n, 0, x);
    }
  }

  /** The home bucket: the hash without its five low bits, modulo the number of buckets. */
  function Home(g: Geometry, k: Key): (r: nat)
    requires g.Valid()
    ensures r < g.buckets
  {
    Mod(k.hash / 32, g.buckets)
  }

  function Frag(g: Geometry, k: Key): (r: nat)
    ensures r < Inc(g.shift)
  {
    Fragment(k.hash, g.shift)
  }

  /** The info value of key k at index i: displacement plus one, then the hash fragment. */
  function InfoOf(g: Geometry, i: nat, k: Key): nat
    requires g.Valid()
  {
    Prod(if Home(g, k) <= i then i - Home(g, k) + 1 else 0, Inc(g.shift)) + Frag(g, k)
  }

  /** Run order: by home bucket, and within one bucket by falling hash fragment. */
  ghost predicate Before(g: Geometry, a: Key, b: Key)
    requires g.Valid()
  {
    Home(g, a) < Home(g, b) || (Home(g, a) == Home(g, b) && Frag(g, a) >= Frag(g, b))
  }

  lemma InfoNext(g: Geometry, i: nat, k: Key)
    requires g.Valid() && Home(g, k) <= i
    ensures InfoOf(g, i + 1, k) == InfoOf(g, i, k) + Inc(g.shift)
  {}

  lemma {:induction false} ScaledOrder(a: nat, b: nat, f: nat, f': nat, inc: nat)
    requires f < inc && f' < inc
    ensures Prod(a, inc) + f <= Prod(b, inc) + f' <==> a < b || (a == b && f <= f')
  {
    if a > 0 && b > 0 {
      ScaledOrder(a - 1, b - 1, f, f', inc);
    }
  }

  /** Comparing info values at one index decides the run order of two keys. */
  lemma CompareInfo(g: Geometry, i: nat, k: Key, other: Key)
    requires g.Valid() && Home(g, k) <= i && Home(g, other) <= i
    ensures InfoOf(g, i, k) <= InfoOf(g, i, other) <==> Before(g, other, k)
  {
    ScaledOrder(i - Home(g, k) + 1, i - Home(g, other) + 1, Frag(g, k), Frag(g, other), Inc(g.shift));
  }

  /** A key at or after its home has an info value of at least one increment; two when displaced. */
  lemma InfoRange(g: Geometry, i: nat, k: Key)
    requires g.Valid() && Home(g, k) <= i
    ensures InfoOf(g, i, k) >= Inc(g.shift)
    ensures Home(g, k) < i <==> InfoOf(g, i, k) >= 2 * Inc(g.shift)
  {
    ScaledOrder(2, i - Home(g, k) + 1, 0, Frag(g, k), Inc(g.shift));
  }

  // ---- the invariants of the slots ----

  ghost predicate OrderedAt(g: Geometry, s: seq<Slot>, i: nat)
    requires g.Valid() && i < |s|
  {
    s[i].Full? ==>
      && Home(g, s[i].key) <= i
      && (Home(g, s[i].key) < i ==> s[i - 1].Full? && Before(g, s[i - 1].key, s[i].key))
  }

  /** A displaced element follows an element that is before it in run order. */
  ghost predicate Ordered(g: Geometry, s: seq<Slot>)
    requires g.Valid()
  {
    forall i :: 0 <= i < |s| ==> OrderedAt(g, s, i)
  }

  ghost predicate At(s: seq<Slot>, i: int, k: Key)
  {
    0 <= i < |s| && s[i].Full? && s[i].key == k
  }

  /** pos gives the index of every key in the slots. */
  ghost predicate Positions(s: seq<Slot>, pos: map<Key, nat>)
  {
    forall i :: 0 <= i < |s| && s[i].Full? ==> s[i].key in pos && pos[s[i].key] == i
  }

  /** No key is in two slots. */
  ghost predicate Distinct(s: seq<Slot>)
  {
    exists pos :: Positions(s, pos)
  }

  /** The occupied slots are exactly the entries of the map. */
  ghost predicate Holds(s: seq<Slot>, m: map<Key, Value>)
  {
    && (forall i :: 0 <= i < |s| && s[i].Full? ==> s[i].key in m && m[s[i].key] == s[i].value)
    && (forall k :: k in m ==> exists i :: At(s, i, k))
  }

  function ByteAt(g: Geometry, s: seq<Slot>, i: nat): int
    requires g.Valid() && i < |s|
  {
    if s[i].Full? then InfoOf(g, i, s[i].key) else 0
  }

  /** The info bytes: one per slot, then the sentinel byte and seven zero bytes of padding. */
  ghost predicate Encodes(g: Geometry, s: seq<Slot>, info: seq<byte>)
    requires g.Valid()
  {
    && |info| == |s| + 8
    && (forall i :: 0 <= i < |s| ==> info[i] == ByteAt(g, s, i))
    && info[|s|] <= 1
    && (forall i :: |s| < i < |info| ==> info[i] == 0)
  }

  /** Every byte can grow by one more step of displacement. */
  ghost predicate Roomy(info: seq<byte>, w: nat, inc: nat)
    requires w <= |info|
  {
    forall i :: 0 <= i < w ==> info[i] + inc <= 255
  }

  ghost predicate Layout(g: Geometry, s: seq<Slot>, info: seq<byte>, m: map<Key, Value>)
  {
    && g.Valid()
    && Ordered(g, s)
    && Distinct(s)
    && Holds(s, m)
    && Encodes(g, s, info)
  }

  /** A byte is zero exactly at an empty slot and at least two increments exactly when displaced. */
  lemma ByteMeaning(g: Geometry, s: seq<Slot>, info: seq<byte>, i: nat)
    requires g.Valid() && Ordered(g, s) && Encodes(g, s, info) && i < |s|
    ensures info[i] != 0 <==> s[i].Full?
    ensures s[i].Full? ==> info[i] >= Inc(g.shift)
    ensures info[i] >= 2 * Inc(g.shift) <==> s[i].Full? && Home(g, s[i].key) < i
  {
    assert OrderedAt(g, s, i);
    if s[i].Full? {
      InfoRange(g, i, s[i].key);
    }
  }

  /** A displaced byte is at most its predecessor plus one increment. */
  lemma DisplacedByteBound(g: Geometry, s: seq<Slot>, info: seq<byte>, i: nat)
    requires g.Valid() && Ordered(g, s) && Encodes(g, s, info)
    requires 0 < i < |s| && info[i] >= 2 * Inc(g.shift)
    ensures info[i - 1] != 0 && info[i] <= info[i - 1] + Inc(g.shift)
  {
    ByteMeaning(g, s, info, i);
    ByteMeaning(g, s, info, i - 1);
    assert OrderedAt(g, s, i);
    CompareInfo(g, i, s[i].key, s[i - 1].key);
    InfoNext(g, i - 1, s[i - 1].key);
  }

  /** From its home up to an element, the run is unbroken and before that element. */
  lemma {:induction false} RunBefore(g: Geometry, s: seq<Slot>, j: nat, i: nat)
    requires g.Valid() && Ordered(g, s) && j < |s| && s[j].Full?
    requires Home(g, s[j].key) <= i <= j
    ensures s[i].Full? && Before(g, s[i].key, s[j].key)
    decreases j
  {
    if i < j {
      assert OrderedAt(g, s, j);
      RunBefore(g, s, j - 1, i);
    }
  }

  /** Where a probe for k may stop: the end of the slots, an empty slot, or a slot not before k. */
  ghost predicate ProbeStops(g: Geometry, s: seq<Slot>, p: nat, k: Key)
    requires g.Valid()
  {
    p >= |s| || s[p].Empty? || !Before(g, s[p].key, k)
  }

  /** The early exit of lookup is right: past a stop there is no k. */
  lemma StoppedProbeMisses(g: Geometry, s: seq<Slot>, p: nat, k: Key)
    requires g.Valid() && Ordered(g, s) && Home(g, k) <= p && ProbeStops(g, s, p, k)
    requires forall i :: Home(g, k) <= i < p ==> !At(s, i, k)
    ensures forall j :: !At(s, j, k)
  {
    forall j ensures !At(s, j, k) {
      if At(s, j, k) {
        assert OrderedAt(g, s, j);
        if p <= j {
          RunBefore(g, s, j, p);
        }
      }
    }
  }

  /** A stop and the byte comparison that the code makes are the same thing. */
  lemma StopByByte(g: Geometry, s: seq<Slot>, info: seq<byte>, p: nat, k: Key)
    requires g.Valid() && Ordered(g, s) && Encodes(g, s, info)
    requires Home(g, k) <= p < |info|
    ensures InfoOf(g, p, k) > info[p] <==> ProbeStops(g, s, p, k)
    ensures p < |s| && s[p].Full? && s[p].key == k ==> InfoOf(g, p, k) == info[p]
  {
    InfoRange(g, p, k);
    if p < |s| && s[p].Full? {
      assert OrderedAt(g, s, p);
      CompareInfo(g, p, k, s[p].key);
    }
  }

  // ---- runs are no longer than the map ----

  ghost function RunKeys(s: seq<Slot>, a: nat, b: nat): set<Key>
    requires a <= b <= |s| && forall i :: a <= i < b ==> s[i].Full?
  {
    if a == b then {} else RunKeys(s, a, b - 1) + {s[b - 1].key}
  }

  lemma {:induction false} RunKeysSize(s: seq<Slot>, pos: map<Key, nat>, a: nat, b: nat)
    requires a <= b <= |s| && Positions(s, pos)
    requires forall i :: a <= i < b ==> s[i].Full?
    ensures |RunKeys(s, a, b)| == b - a
    ensures forall k :: k in RunKeys(s, a, b) ==> k in pos && a <= pos[k] < b && s[pos[k]].key == k
  {
    if a < b {
      RunKeysSize(s, pos, a, b - 1);
    }
  }

  lemma RunLength(s: seq<Slot>, m: map<Key, Value>, a: nat, b: nat)
    requires a <= b <= |s| && Distinct(s) && Holds(s, m)
    requires forall i :: a <= i < b ==> s[i].Full?
    ensures b - a <= |m|
  {
    var pos :| Positions(s, pos);
    RunKeysSize(s, pos, a, b);
    var r := RunKeys(s, a, b);
    assert m.Keys == r + (m.Keys - r);
  }

  /** Behind an element everything is occupied, down to its home bucket. */
  lemma {:induction false} RunBehind(g: Geometry, s: seq<Slot>, i: nat, h: nat)
    requires g.Valid() && Ordered(g, s) && h <= i < |s| && s[i].Full? && Home(g, s[i].key) <= h
    ensures forall j :: h <= j <= i ==> s[j].Full?
    decreases i - h
  {
    assert OrderedAt(g, s, i);
    if h < i {
      RunBehind(g, s, i - 1, h);
    }
  }

  /** Enough elements for one of them to be so far from its home bucket that its byte can hardly grow. */
  predicate Crowded(n: nat, shift: nat)
  {
    Prod(n + 2, Inc(shift)) > 256
  }

  /** A byte that one more increment would overflow takes a crowd. */
  lemma FullByte(g: Geometry, s: seq<Slot>, info: seq<byte>, m: map<Key, Value>, i: nat)
    requires g.Valid() && Layout(g, s, info, m) && i < |s| && info[i] + Inc(g.shift) > 255
    requires Inc(g.shift) <= 128
    ensures Crowded(|m|, g.shift)
  {
    assert info[i] == ByteAt(g, s, i);
    var h, inc := Home(g, s[i].key), Inc(g.shift);
    assert OrderedAt(g, s, i);
    RunBehind(g, s, i, h);
    RunLength(s, m, h, i + 1);
    var d := i - h + 1;
    assert Prod(d + 2, inc) == inc + (inc + Prod(d, inc));
    ProdMono(d + 2, |m| + 2, inc);
  }

  // ---- insertion: shift slots p..e up by one and put x at p ----

  ghost predicate Inserted(s: seq<Slot>, r: seq<Slot>, p: nat, e: nat, x: Slot)
    requires p <= e < |s|
  {
    && |r| == |s|
    && forall i {:trigger r[i]} :: 0 <= i < |s| ==> r[i] == if i < p || i > e then s[i] else if i == p then x else s[i - 1]
  }

  /** The place for k: an unbroken run from its home up to p, all before k, then p..e occupied and e empty. */
  ghost predicate Gap(g: Geometry, s: seq<Slot>, p: nat, e: nat, k: Key)
    requires g.Valid()
  {
    && Home(g, k) <= p <= e < |s|
    && (forall i :: Home(g, k) <= i < p ==> s[i].Full? && Before(g, s[i].key, k))
    && (forall i :: p <= i < e ==> s[i].Full?)
    && (p < e ==> !Before(g, s[p].key, k))
    && s[e].Empty?
  }

  lemma InsertKeepsOrder(g: Geometry, s: seq<Slot>, r: seq<Slot>, p: nat, e: nat, k: Key, v: Value)
    requires g.Valid() && Ordered(g, s) && Gap(g, s, p, e, k) && Inserted(s, r, p, e, Full(k, v))
    ensures Ordered(g, r)
  {
    forall i | 0 <= i < |r| ensures OrderedAt(g, r, i) {
      assert OrderedAt(g, s, i);
      assert i > 0 ==> OrderedAt(g, s, i - 1);
      assert i > 1 ==> OrderedAt(g, s, i - 2);
    }
  }

  lemma InsertKeepsMap(s: seq<Slot>, r: seq<Slot>, m: map<Key, Value>, p: nat, e: nat, k: Key, v: Value)
    requires p <= e < |s| && Distinct(s) && Holds(s, m) && s[e].Empty? && k !in m
    requires Inserted(s, r, p, e, Full(k, v))
    ensures Distinct(r) && Holds(r, m[k := v])
  {
    var pos :| Positions(s, pos);
    var pos' := (map x | x in pos :: if p <= pos[x] < e then pos[x] + 1 else pos[x])[k := p];
    assert Positions(r, pos');
    var m' := m[k := v];
    forall x | x in m' ensures exists i :: At(r, i, x) {
      if x == k {
        assert At(r, p, x);
      } else {
        var i :| At(s, i, x);
        assert At(r, if p <= i < e then i + 1 else i, x);
      }
    }
  }

  ghost predicate InfoInserted(info: seq<byte>, info': seq<byte>, p: nat, e: nat, x: byte, inc: nat)
    requires p <= e < |info|
  {
    && |info'| == |info|
    && forall i {:trigger info'[i]} :: 0 <= i < |info| ==>
         info'[i] == if i < p || i > e then info[i] else if i == p then x else info[i - 1] + inc
  }

  lemma InsertKeepsBytes(g: Geometry, s: seq<Slot>, r: seq<Slot>, info: seq<byte>, info': seq<byte>,
                         p: nat, e: nat, k: Key, v: Value)
    requires g.Valid() && Ordered(g, s) && Encodes(g, s, info) && p <= e < |s| && Inserted(s, r, p, e, Full(k, v))
    requires forall i :: p <= i < e ==> s[i].Full?
    requires 0 <= InfoOf(g, p, k) < 256
    requires InfoInserted(info, info', p, e, InfoOf(g, p, k), Inc(g.shift))
    ensures Encodes(g, r, info')
  {
    forall i | 0 <= i < |r| ensures info'[i] == ByteAt(g, r, i) {
      if p < i <= e {
        assert OrderedAt(g, s, i - 1);
        InfoNext(g, i - 1, s[i - 1].key);
      }
    }
  }

  lemma InsertKeepsLayout(g: Geometry, s: seq<Slot>, info: seq<byte>, m: map<Key, Value>,
                          r: seq<Slot>, info': seq<byte>, p: nat, e: nat, k: Key, v: Value)
    requires Layout(g, s, info, m) && Gap(g, s, p, e, k) && k !in m
    requires Inserted(s, r, p, e, Full(k, v))
    requires 0 <= InfoOf(g, p, k) < 256
    requires InfoInserted(info, info', p, e, InfoOf(g, p, k), Inc(g.shift))
    ensures Layout(g, r, info', m[k := v])
    ensures info'[|s|] == info[|s|]
  {
    InsertKeepsOrder(g, s, r, p, e, k, v);
    InsertKeepsMap(s, r, m, p, e, k, v);
    InsertKeepsBytes(g, s, r, info, info', p, e, k, v);
  }

  lemma InsertKeepsRoom(info: seq<byte>, info': seq<byte>, w: nat, p: nat, e: nat, x: byte, inc: nat)
    requires p <= e < w <= |info| && Roomy(info, w, inc) && InfoInserted(info, info', p, e, x, inc)
    requires x + inc <= 255 && forall i :: p < i <= e ==> info'[i] + inc <= 255
    ensures Roomy(info', w, inc)
  {}

  // ---- erasure: shift slots i+1..e down by one and empty e ----

  ghost predicate Erased(s: seq<Slot>, r: seq<Slot>, i: nat, e: nat)
    requires i <= e < |s|
  {
    && |r| == |s|
    && forall j {:trigger r[j]} :: 0 <= j < |s| ==> r[j] == if j < i || j > e then s[j] else if j == e then Empty else s[j + 1]
  }

  /** The run that an erasure at i moves: i+1..e displaced, and e+1 not displaced. */
  ghost predicate Tail(g: Geometry, s: seq<Slot>, i: nat, e: nat)
    requires g.Valid()
  {
    && i <= e < |s| && s[i].Full?
    && (forall j :: i < j <= e ==> s[j].Full? && Home(g, s[j].key) < j)
    && (e + 1 < |s| && s[e + 1].Full? ==> Home(g, s[e + 1].key) == e + 1)
  }

  /** The bytes tell where the moved run ends. */
  lemma TailByBytes(g: Geometry, s: seq<Slot>, info: seq<byte>, i: nat, e: nat)
    requires g.Valid() && Ordered(g, s) && Encodes(g, s, info) && i <= e < |s| && s[i].Full?
    requires forall j :: i < j <= e ==> info[j] >= 2 * Inc(g.shift)
    requires info[e + 1] < 2 * Inc(g.shift)
    ensures Tail(g, s, i, e)
  {
    forall j | i < j <= e ensures s[j].Full? && Home(g, s[j].key) < j {
      ByteMeaning(g, s, info, j);
    }
    if e + 1 < |s| {
      ByteMeaning(g, s, info, e + 1);
      assert OrderedAt(g, s, e + 1);
    }
  }

  lemma EraseKeepsOrder(g: Geometry, s: seq<Slot>, r: seq<Slot>, i: nat, e: nat)
    requires g.Valid() && Ordered(g, s) && Tail(g, s, i, e) && Erased(s, r, i, e)
    ensures Ordered(g, r)
  {
    forall j | 0 <= j < |r| ensures OrderedAt(g, r, j) {
      assert OrderedAt(g, s, j);
      if j + 1 < |s| {
        assert OrderedAt(g, s, j + 1);
      }
    }
  }

  lemma EraseKeepsMap(s: seq<Slot>, r: seq<Slot>, m: map<Key, Value>, i: nat, e: nat)
    requires i <= e < |s| && s[i].Full? && Distinct(s) && Holds(s, m) && Erased(s, r, i, e)
    ensures Distinct(r)
    ensures s[i].key in m && Holds(r, m - {s[i].key})
  {
    var pos :| Positions(s, pos);
    var pos' := map x | x in pos :: if i < pos[x] <= e then pos[x] - 1 else pos[x];
    assert Positions(r, pos');
    var m' := m - {s[i].key};
    forall k | k in m' ensures exists j :: At(r, j, k) {
      var j :| At(s, j, k);
      assert At(r, if i < j <= e then j - 1 else j, k);
    }
  }

  ghost predicate InfoErased(info: seq<byte>, info': seq<byte>, i: nat, e: nat, inc: nat)
    requires i <= e && e + 1 < |info|
  {
    && |info'| == |info|
    && forall j {:trigger info'[j]} :: 0 <= j < |info| ==>
         info'[j] == if j < i || j > e then info[j] else if j == e then 0 else info[j + 1] - inc
  }

  lemma EraseKeepsBytes(g: Geometry, s: seq<Slot>, r: seq<Slot>, info: seq<byte>, info': seq<byte>, i: nat, e: nat)
    requires g.Valid() && Encodes(g, s, info) && Tail(g, s, i, e) && Erased(s, r, i, e)
    requires InfoErased(info, info', i, e, Inc(g.shift))
    ensures Encodes(g, r, info')
  {
    forall j | 0 <= j < |r| ensures info'[j] == ByteAt(g, r, j) {
      if i <= j < e {
        InfoNext(g, j, s[j + 1].key);
      }
    }
  }

  lemma EraseKeepsLayout(g: Geometry, s: seq<Slot>, info: seq<byte>, m: map<Key, Value>,
                         r: seq<Slot>, info': seq<byte>, i: nat, e: nat)
    requires Layout(g, s, info, m) && Tail(g, s, i, e) && Erased(s, r, i, e)
    requires InfoErased(info, info', i, e, Inc(g.shift))
    ensures s[i].key in m && Layout(g, r, info', m - {s[i].key})
    ensures info'[|s|] == info[|s|]
  {
    EraseKeepsOrder(g, s, r, i, e);
    EraseKeepsMap(s, r, m, i, e);
    EraseKeepsBytes(g, s, r, info, info', i, e);
  }

  lemma EraseKeepsRoom(info: seq<byte>, info': seq<byte>, w: nat, i: nat, e: nat, inc: nat)
    requires i <= e < w < |info| && info[w] <= 1 && inc >= 2 && InfoErased(info, info', i, e, inc)
    ensures Roomy(info, w, inc) ==> Roomy(info', w, inc)
  {}

  lemma RemoveSize(m: map<Key, Value>, k: Key)
    ensures k in m ==> |m - {k}| == |m| - 1
  {
    if k in m {
      assert (m - {k}).Keys == m.Keys - {k};
    }
  }

  // ---- dropping one hash bit ----

  function Sharper(g: Geometry): Geometry {
    g.(shift := g.shift + 1)
  }

  /** Dropping a bit halves an info value. */
  lemma InfoHalved(g: Geometry, i: nat, k: Key)
    requires g.Valid() && g.shift < 4 && Home(g, k) <= i
    ensures InfoOf(Sharper(g), i, k) == InfoOf(g, i, k) / 2
  {
    FragmentHalved(k.hash, g.shift);
    HalfProd(i - Home(g, k) + 1, Inc(g.shift + 1));
  }

  lemma FragmentHalved(h: nat, shift: nat)
    requires shift < 4
    ensures Fragment(h, shift + 1) == Fragment(h, shift) / 2
  {}

  lemma {:induction false} HalfProd(d: nat, inc: nat)
    ensures Prod(d, 2 * inc) == 2 * Prod(d, inc)
  {
    if d > 0 {
      HalfProd(d - 1, inc);
    }
  }

  /** Byte-wise halving is re-encoding the same slots with one hash bit fewer. */
  lemma HalvingKeepsLayout(g: Geometry, s: seq<Slot>, info: seq<byte>, info': seq<byte>, m: map<Key, Value>)
    requires Layout(g, s, info, m) && g.shift < 4
    requires |info'| == |info| && info'[|s|] == 1 && (forall i :: |s| < i < |info| ==> info'[i] == 0)
    requires forall i :: 0 <= i < |s| ==> info'[i] == info[i] / 2
    ensures Layout(Sharper(g), s, info', m)
    ensures Roomy(info', |s|, Inc(g.shift + 1))
  {
    forall i | 0 <= i < |s| ensures info'[i] == ByteAt(Sharper(g), s, i) && OrderedAt(Sharper(g), s, i) {
      assert OrderedAt(g, s, i);
      if s[i].Full? {
        InfoHalved(g, i, s[i].key);
      }
    }
  }
}
