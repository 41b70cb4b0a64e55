/**
  The Robin Hood hash table itself: an open-addressing table that updates its
  info bytes and slots in place and represents a finite map.
 */
module RobinHoodTable {
  import opened Basics
  import opened Bits
  import opened RobinHoodLayout

  const INITIAL_ELEMENTS: nat := 8

  /** With fewer elements than this no table runs out of hash bits, whatever the hash is. */
  const CROWD: nat := 127

  /** How many elements n buckets may hold at the given load factor in percent. */
  function CalcMax(n: nat, factor: nat): (r: nat)
  {
    if n <= (W64 - 1) / 100 then Prod(n, factor) / 100 else Prod(n / 100, factor)
  }

  ghost predicate IsPow2(n: nat)
  {
    exists k: nat :: n == Pow(2, k)
  }

  lemma DoublePow2(n: nat)
    requires IsPow2(n)
    ensures IsPow2(n * 2)
  {
    var k: nat :| n == Pow(2, k);
    assert n * 2 == Pow(2, k + 1);
  }

  /** q hundreds times the factor, as a number of hundreds. */
  lemma Hundreds(q: nat, f: nat)
    ensures Prod(100 * q, f) == 100 * Prod(q, f)
  {
    ProdIsProduct(100 * q, f);
    ProdIsProduct(q, f);
    assert 100 * q * f == 100 * (q * f);
  }

  lemma {:induction false} ProdRange(d: nat, f: nat)
    requires 1 <= f <= 100
    ensures d <= Prod(d, f) <= 100 * d
  {
    if d > 0 {
      ProdRange(d - 1, f);
    }
  }

  lemma CalcMaxBounds(n: nat, factor: nat)
    requires 10 < factor < 100
    ensures Prod(n / 100, factor) <= CalcMax(n, factor) <= Prod(n / 100 + 1, factor)
    ensures n / 100 <= CalcMax(n, factor) <= n
  {
    var q := n / 100;
    ProdMono(100 * q, n, factor);
    ProdMono(n, 100 * (q + 1), factor);
    Hundreds(q, factor);
    Hundreds(q + 1, factor);
    ProdRange(n, factor);
    ProdRange(q, factor);
  }

  /**
    The product with the load factor in hundreds, rounded down; numbers whose
    product could overflow are taken in hundreds first, which loses less than
    one load factor.
   */
  lemma CalcMaxIs(n: nat, factor: nat)
    requires 10 < factor < 100
    ensures 100 * CalcMax(n, factor) <= n * factor
    ensures n <= (W64 - 1) / 100 ==> n * factor < 100 * (CalcMax(n, factor) + 1) && n * factor < W64
    ensures n * factor < 100 * (CalcMax(n, factor) + factor)
  {
    ProdIsProduct(n, factor);
    if n <= (W64 - 1) / 100 {
      MulMono(n, (W64 - 1) / 100, factor);
    } else {
      ProdIsProduct(n / 100, factor);
      InHundreds(n / 100, n % 100, factor);
    }
  }

  lemma InHundreds(q: nat, r: nat, factor: nat)
    requires r < 100
    ensures 100 * (q * factor) <= (100 * q + r) * factor <= 100 * (q * factor) + 99 * factor
  {
    MulAssoc(100, q, factor);
    MulMono(100 * q, 100 * q + r, factor);
    MulMono(100 * q + r, 100 * q + 99, factor);
    assert (100 * q + 99) * factor == 100 * q * factor + 99 * factor;
  }

  lemma CalcMaxDouble(n: nat, factor: nat)
    requires 10 < factor < 100
    ensures CalcMax(n, factor) <= CalcMax(2 * n, factor)
  {
    CalcMaxBounds(n, factor);
    CalcMaxBounds(2 * n, factor);
    ProdMono(n, 2 * n, factor);
    if n > 100 {
      ProdMono(n / 100 + 1, 2 * n / 100, factor);
    }
  }

  /** Twice the buckets have room for the elements; and a table that is half full is not large for its elements. */
  lemma DoubledSize(n: nat, factor: nat, count: nat)
    requires 10 < factor < 100 && IsPow2(n) && count <= CalcMax(n, factor) <= 2 * count
    ensures IsPow2(n * 2) && count <= CalcMax(n * 2, factor) && n < 100 * (2 * count + 1)
  {
    CalcMaxBounds(n, factor);
    CalcMaxDouble(n, factor);
    DoublePow2(n);
  }

  lemma {:induction false} ProdAtLeast(d: nat, inc: nat)
    requires inc >= 2
    ensures Prod(d, inc) >= 2 * d
  {
    if d > 0 {
      ProdAtLeast(d - 1, inc);
    }
  }

  lemma FragmentByMask(h: nat, shift: nat)
    requires shift <= 4
    ensures BitAnd(h, 31) / Pow(2, shift) == Fragment(h, shift)
  {
    SmallPowers();
    BitAndMask(h, 5);
    assert BitAnd(h, 31) == h % 32;
    if shift == 0 {
      assert Pow(2, shift) == 1;
    } else if shift == 1 {
      assert Pow(2, shift) == 2;
    } else if shift == 2 {
      assert Pow(2, shift) == 4;
    } else if shift == 3 {
      assert Pow(2, shift) == 8;
    } else {
      assert Pow(2, shift) == 16;
    }
  }

  lemma SmallPowers()
    ensures Pow(2, 0) == 1 && Pow(2, 1) == 2 && Pow(2, 2) == 4 && Pow(2, 3) == 8 && Pow(2, 4) == 16 && Pow(2, 5) == 32
  {
  }

  /** The table is closed, and no hash bit is left to open it with. */
  ghost predicate IsStuck(t: State)
  {
    t.g.buckets != 1 && t.g.shift == 4 && t.maxAllowed == 0
  }

  /** One more element can be inserted without more buckets, after dropping a hash bit at most. */
  ghost predicate RoomIn(t: State)
  {
    || t.numElements < t.maxAllowed
    || (t.g.buckets != 1 && t.g.shift < 4 && t.numElements < CalcMax(t.g.buckets, t.loadFactor))
  }

  /** Every hash bit that was dropped, and the closing of the table, took a crowd. */
  ghost predicate Tight(t: State)
  {
    && (t.g.shift > 0 ==> Crowded(t.numElements, t.g.shift - 1))
    && (t.maxAllowed == 0 ==> Crowded(t.numElements, t.g.shift) || CalcMax(t.g.buckets, t.loadFactor) == 0)
  }

  /** At the last hash bit a crowd is 127 elements. */
  lemma CrowdIs(n: nat)
    requires Crowded(n, 4)
    ensures n >= CROWD
  {
    assert Inc(4) == 2;
    ProdIsProduct(n + 2, 2);
  }

  lemma CrowdGrows(n: nat, shift: nat)
    requires Crowded(n, shift)
    ensures Crowded(n + 1, shift)
  {
    ProdMono(n + 2, n + 3, Inc(shift));
  }

  lemma TightIsStuck(t: State)
    requires Sound(t) && Tight(t) && IsStuck(t)
    ensures t.numElements >= CROWD
  {
    if Crowded(t.numElements, 4) {
      CrowdIs(t.numElements);
    }
  }

  /** A table that is stuck is crowded, or was stuck before. */
  ghost predicate StuckByCrowd(t: State, u: State)
  {
    IsStuck(u) ==> IsStuck(t) || u.numElements >= CROWD
  }

  /** An insertion leaves the number of buckets as it is, or raises it, but only if they are half full. */
  predicate Growth(count: nat, n: nat, n': nat, factor: nat)
  {
    n' == n || (n' > n && (n == 1 || CalcMax(n, factor) <= 2 * count))
  }

  /** Room was made, or kept, for one more element. */
  ghost predicate MadeRoom(t: State, u: State)
  {
    && u.model == t.model && u.numElements == t.numElements && u.loadFactor == t.loadFactor
    && (RoomIn(t) ==> RoomIn(u) && u.g.buckets == t.g.buckets)
    && StuckByCrowd(t, u) && Growth(t.numElements, t.g.buckets, u.g.buckets, t.loadFactor)
  }

  lemma MadeMoreRoom(t: State, u: State, v: State)
    requires MadeRoom(t, u) && MadeRoom(u, v)
    ensures MadeRoom(t, v)
  {
  }

  datatype InsertResult = Added(idx: nat) | Existing(idx: nat) | Overflow

  /** A table as a value, with the map that it represents. */
  datatype State = State(g: Geometry, loadFactor: nat, numElements: nat, maxAllowed: nat, infoInc: nat,
                         info: seq<byte>, slots: seq<Slot>, model: map<Key, Value>)

  /** The table invariant. */
  ghost predicate Sound(t: State)
  {
    && 10 < t.loadFactor < 100
    && t.g.buckets > 0 && IsPow2(t.g.buckets)
    && t.infoInc == Inc(t.g.shift)
    && t.numElements == |t.model|
    && Layout(t.g, t.slots, t.info, t.model)
    && if t.g.buckets == 1 then
      |t.slots| == 0 && t.maxAllowed == 0
    else
      && t.g.buckets >= INITIAL_ELEMENTS
      && |t.slots| == t.g.buckets + Min(CalcMax(t.g.buckets, t.loadFactor), 0xFF)
      && t.info[|t.slots|] == 1
      && t.numElements <= CalcMax(t.g.buckets, t.loadFactor)
      && (t.maxAllowed == 0 || t.maxAllowed == CalcMax(t.g.buckets, t.loadFactor))
      && (t.maxAllowed != 0 ==> Roomy(t.info, |t.slots|, t.infoInc))
  }

  /** An element was written at p, after shifting p..e up; the table closes exactly if a byte there is nearly full. */
  ghost predicate Written(t: State, u: State, p: nat, e: nat, k: Key, v: Value, inf: byte)
  {
    && p <= e < |t.slots| < |t.info|
    && u == t.(numElements := t.numElements + 1, maxAllowed := u.maxAllowed,
               info := u.info, slots := u.slots, model := t.model[k := v])
    && Inserted(t.slots, u.slots, p, e, Full(k, v)) && InfoInserted(t.info, u.info, p, e, inf, t.infoInc)
    && u.maxAllowed == if NearlyFull(u.info, p, e, t.infoInc) then 0 else t.maxAllowed
  }

  ghost predicate NearlyFull(info: seq<byte>, p: nat, e: nat, inc: nat)
  {
    exists i :: p <= i <= e && i < |info| && info[i] + inc > 255
  }

  /** A nearly full byte from p on is at p or above; the byte at p may have been written last. */
  lemma FullFrom(before: seq<byte>, info: seq<byte>, p: nat, e: nat, inc: nat)
    requires p <= e < |before| && p < |info| && info == before[p := info[p]]
    ensures NearlyFull(info, p, e, inc) <==> info[p] + inc > 255 || NearlyFull(before, p + 1, e, inc)
  {
    if NearlyFull(before, p + 1, e, inc) {
      var i :| p + 1 <= i <= e && i < |before| && before[i] + inc > 255;
      assert info[i] + inc > 255;
    }
  }

  lemma InsertKeepsSound(t: State, u: State, p: nat, e: nat, k: Key, v: Value)
    requires Sound(t) && t.g.buckets > 1 && t.maxAllowed != 0 && t.numElements < CalcMax(t.g.buckets, t.loadFactor)
    requires Gap(t.g, t.slots, p, e, k) && k !in t.model && InfoOf(t.g, p, k) < 256
    requires Written(t, u, p, e, k, v, InfoOf(t.g, p, k))
    ensures Sound(u) && u.slots[p] == Full(k, v)
    ensures u.maxAllowed == 0 ==> Crowded(u.numElements, u.g.shift)
  {
    InsertKeepsLayout(t.g, t.slots, t.info, t.model, u.slots, u.info, p, e, k, v);
    if !NearlyFull(u.info, p, e, t.infoInc) {
      assert u.info[p] == InfoOf(t.g, p, k);
      InsertKeepsRoom(t.info, u.info, |t.slots|, p, e, InfoOf(t.g, p, k), t.infoInc);
    } else {
      ClosedIsCrowded(u);
    }
  }

  /** A table that a nearly full byte has closed is crowded. */
  lemma ClosedIsCrowded(t: State)
    requires Sound(t) && exists i :: 0 <= i < |t.slots| && t.info[i] + t.infoInc > 255
    ensures Crowded(t.numElements, t.g.shift)
  {
    var i :| 0 <= i < |t.slots| && t.info[i] + t.infoInc > 255;
    FullByte(t.g, t.slots, t.info, t.model, i);
  }

  lemma EraseKeepsSound(t: State, info': seq<byte>, slots': seq<Slot>, i: nat, e: nat)
    requires Sound(t)
    requires Tail(t.g, t.slots, i, e) && Erased(t.slots, slots', i, e) && InfoErased(t.info, info', i, e, t.infoInc)
    ensures t.numElements > 0
    ensures Sound(t.(numElements := t.numElements - 1, info := info', slots := slots',
                     model := t.model - {t.slots[i].key}))
  {
    EraseKeepsLayout(t.g, t.slots, t.info, t.model, slots', info', i, e);
    EraseKeepsRoom(t.info, info', |t.slots|, i, e, t.infoInc);
    RemoveSize(t.model, t.slots[i].key);
  }

  lemma HalvingKeepsSound(t: State, info': seq<byte>)
    requires Sound(t) && t.g.buckets > 1 && t.g.shift < 4
    requires |info'| == |t.info| && info'[|t.slots|] == 1
    requires forall i :: |t.slots| < i < |t.info| ==> info'[i] == 0
    requires forall i :: 0 <= i < |t.slots| ==> info'[i] == t.info[i] / 2
    ensures Sound(t.(g := Sharper(t.g), maxAllowed := CalcMax(t.g.buckets, t.loadFactor),
                     infoInc := t.infoInc / 2, info := info'))
  {
    HalvingKeepsLayout(t.g, t.slots, t.info, info', t.model);
  }

  /** A freshly allocated table of n buckets holds nothing. */
  lemma FreshIsSound(loadFactor: nat, n: nat, info: seq<byte>, slots: seq<Slot>)
    requires 10 < loadFactor < 100 && IsPow2(n) && n >= INITIAL_ELEMENTS
    requires |slots| == n + Min(CalcMax(n, loadFactor), 0xFF) && (forall i :: 0 <= i < |slots| ==> slots[i] == Empty)
    requires |info| == |slots| + 8 && info[|slots|] == 1
    requires forall i :: 0 <= i < |info| && i != |slots| ==> info[i] == 0
    ensures Sound(State(Geometry(n, 0), loadFactor, 0, CalcMax(n, loadFactor), 32, info, slots, map[]))
  {
    var pos: map<Key, nat> := map[];
    assert Positions(slots, pos);
    assert Ordered(Geometry(n, 0), slots);
  }

  /** The slots determine the map. */
  lemma HoldsUnique(s: seq<Slot>, m: map<Key, Value>, m': map<Key, Value>)
    requires Holds(s, m) && Holds(s, m')
    ensures m == m'
  {
    forall k ensures k in m <==> k in m' {
      if k in m { var i :| At(s, i, k); }
      if k in m' { var i :| At(s, i, k); }
    }
    forall k | k in m ensures m[k] == m'[k] {
      var i :| At(s, i, k);
    }
  }

  /** Old slots that are about to be moved into a new table. */
  ghost predicate Movable(info: seq<byte>, s: seq<Slot>, m: map<Key, Value>)
  {
    && Distinct(s) && Holds(s, m) && |info| >= |s|
    && forall i :: 0 <= i < |s| ==> (info[i] != 0 <==> s[i].Full?)
  }

  /** The map holds exactly the first i slots. */
  ghost predicate Copied(s: seq<Slot>, i: nat, m: map<Key, Value>)
    requires i <= |s|
  {
    && (forall j :: 0 <= j < i && s[j].Full? ==> s[j].key in m && m[s[j].key] == s[j].value)
    && (forall k :: k in m ==> exists j :: j < i && At(s, j, k))
  }

  /** Copying slots one by one: the next occupied slot has a key that is not copied yet. */
  lemma CopyIsNew(s: seq<Slot>, m: map<Key, Value>, i: nat, copied: map<Key, Value>)
    requires Distinct(s) && Holds(s, m) && i < |s| && Copied(s, i, copied) && s[i].Full?
    ensures s[i].key !in copied && |copied| < |m|
  {
    var pos :| Positions(s, pos);
    MoreKeys(copied, m, s[i].key);
  }

  lemma MoreKeys(a: map<Key, Value>, b: map<Key, Value>, k: Key)
    requires (forall x :: x in a ==> x in b) && k in b && k !in a
    ensures |a| < |b|
  {
    assert b.Keys == a.Keys + (b.Keys - a.Keys);
    assert k in b.Keys - a.Keys;
  }

  lemma CopyHolds(s: seq<Slot>, i: nat, copied: map<Key, Value>)
    requires i < |s| && Copied(s, i, copied) && s[i].Full? && s[i].key !in copied
    ensures Copied(s, i + 1, copied[s[i].key := s[i].value])
  {
    var copied' := copied[s[i].key := s[i].value];
    forall x | x in copied' ensures exists j :: j < i + 1 && At(s, j, x) {
      if x == s[i].key {
        assert At(s, i, x);
      } else {
        var j :| j < i && At(s, j, x);
      }
    }
  }

  lemma CopySkip(s: seq<Slot>, i: nat, copied: map<Key, Value>)
    requires i < |s| && Copied(s, i, copied) && s[i].Empty?
    ensures Copied(s, i + 1, copied)
  {
    forall x | x in copied ensures exists j :: j < i + 1 && At(s, j, x) {
      var j :| j < i && At(s, j, x);
    }
  }

  /** When all slots are copied, the copy is the whole map. */
  lemma CopyComplete(s: seq<Slot>, m: map<Key, Value>, copied: map<Key, Value>)
    requires Holds(s, m) && Copied(s, |s|, copied)
    ensures copied == m
  {
    assert Holds(s, copied);
    HoldsUnique(s, m, copied);
  }

  lemma AssignKeepsSound(t: State, i: nat, v: Value)
    requires Sound(t) && i < |t.slots| && t.slots[i].Full?
    ensures var k := t.slots[i].key;
            Sound(t.(slots := t.slots[i := Full(k, v)], model := t.model[k := v]))
  {
    var g, info, slots, m := t.g, t.info, t.slots, t.model;
    var k, s', m' := slots[i].key, slots[i := Full(slots[i].key, v)], m[slots[i].key := v];
    var pos :| Positions(slots, pos);
    assert Positions(s', pos);
    forall j | 0 <= j < |s'| ensures OrderedAt(g, s', j) && info[j] == ByteAt(g, s', j) {
      assert OrderedAt(g, slots, j);
    }
    forall x | x in m' ensures exists j :: At(s', j, x) {
      var j :| At(slots, j, x);
      assert At(s', j, x);
    }
    assert m'.Keys == m.Keys;
  }

  /** Growing by powers of two never lowers the limit. */
  lemma {:induction false} CalcMaxGrows(j: nat, k: nat, factor: nat)
    requires j <= k && 10 < factor < 100
    ensures CalcMax(Pow(2, j), factor) <= CalcMax(Pow(2, k), factor)
  {
    if j < k {
      CalcMaxGrows(j, k - 1, factor);
      CalcMaxDouble(Pow(2, k - 1), factor);
    }
  }

  lemma LargerHoldsMore(n: nat, m: nat, factor: nat)
    requires IsPow2(n) && IsPow2(m) && n <= m && 10 < factor < 100
    ensures CalcMax(n, factor) <= CalcMax(m, factor)
  {
    var j: nat :| n == Pow(2, j);
    var k: nat :| m == Pow(2, k);
    if j > k {
      PowMono(2, k + 1, j);
    }
    CalcMaxGrows(j, k, factor);
  }

  lemma Pow2Is64()
    ensures Pow(2, 63) == 0x8000_0000_0000_0000
    ensures Pow(2, 64) == W64
  {
    PowSum(2, 8, 8);
    PowSum(2, 16, 16);
    PowSum(2, 32, 31);
    PowSum(2, 16, 15);
    assert Pow(2, 4) == 16 && Pow(2, 8) == 256 && Pow(2, 15) == 0x8000;
  }

  /** Doubling a 64-bit power of two: past the top bit it becomes zero. */
  lemma DoublingWraps(e: nat)
    requires 3 <= e < 64
    ensures Pow(2, e) * 2 % W64 == if e < 63 then Pow(2, e + 1) else 0
    ensures Pow(2, e + 1) >= INITIAL_ELEMENTS
  {
    Pow2Is64();
    PowMono(2, 3, e + 1);
    assert Pow(2, 3) == 8;
    if e < 63 {
      PowMono(2, e + 1, 63);
    }
  }

  type size = n: nat | n < W64

  /** As many elements as are asked for, but not fewer than there are. */
  function Need(c: nat, n: nat): nat
  {
    if c < n then n else c
  }

  /** The least number of buckets, from eight up, that may hold this many elements. */
  ghost predicate LeastSize(n: nat, need: nat, factor: nat)
  {
    && IsPow2(n) && n >= INITIAL_ELEMENTS && CalcMax(n, factor) >= need
    && forall k: nat :: 3 <= k && Pow(2, k) < n ==> CalcMax(Pow(2, k), factor) < need
  }

  /** No number of buckets that 64 bits can count may hold this many elements. */
  ghost predicate NoSize(need: nat, factor: nat)
  {
    forall k: nat :: 3 <= k < 64 ==> CalcMax(Pow(2, k), factor) < need
  }

  /** There is only one least size. */
  lemma LeastIsUnique(n: nat, n': nat, need: nat, factor: nat)
    requires LeastSize(n, need, factor) && LeastSize(n', need, factor)
    ensures n == n'
  {
    var j: nat :| n == Pow(2, j);
    var k: nat :| n' == Pow(2, k);
    FromEight(j);
    FromEight(k);
  }

  lemma FromEight(k: nat)
    requires Pow(2, k) >= INITIAL_ELEMENTS
    ensures k >= 3
  {
    assert Pow(2, 0) == 1 && Pow(2, 1) == 2 && Pow(2, 2) == 4;
  }

  /** A table refilled at the least size, if forced or if it is smaller; otherwise nothing has changed. */
  ghost predicate Resized(t: State, u: State, need: nat, force: bool)
  {
    exists n: nat :: LeastSize(n, need, t.loadFactor)
      && if force || n > t.g.buckets then u.g.buckets == n && Tight(u) else u == t
  }

  class Table {
    const loadFactor: nat
    var info: seq<byte>
    var slots: seq<Slot>
    var numElements: nat
    var mask: nat
    var maxAllowed: nat
    var infoInc: nat
    var hashShift: nat
    /** The finite map that the slots represent. */
    ghost var model: map<Key, Value>

    ghost function Geo(): Geometry
      reads this
    {
      Geometry(mask + 1, hashShift)
    }

    ghost function Now(): State
      reads this
    {
      State(Geo(), loadFactor, numElements, maxAllowed, infoInc, info, slots, model)
    }

    ghost predicate Valid()
      reads this
    {
      Sound(Now())
    }

    /** Every hash bit has been dropped from the info bytes already. */
    ghost predicate Exhausted()
      reads this
    {
      mask != 0 && hashShift == 4
    }

    ghost predicate Stuck()
      reads this
    {
      IsStuck(Now())
    }

    ghost predicate HasRoom()
      reads this
    {
      RoomIn(Now())
    }

    /** An empty table: nothing is allocated, and the info bytes are the zero bytes of the mask. */
    constructor (loadFactor: nat)
      requires 10 < loadFactor < 100
      ensures Valid() && model == map[] && mask == 0
      ensures this.loadFactor == loadFactor
    {
      this.loadFactor := loadFactor;
      info := seq(8, _ => 0);
      slots := [];
      numElements, mask, maxAllowed := 0, 0, 0;
      infoInc, hashShift := 32, 0;
      model := map[];
      new;
      assert 1 == Pow(2, 0);
      ghost var pos: map<Key, nat> := map[];
      assert Positions(slots, pos);
    }

    /** The start of a probe: the home bucket and the info value there. */
    method KeyToIdx(key: Key) returns (idx: nat, inf: nat)
      requires Valid()
      ensures idx == Home(Geo(), key) <= mask && inf == InfoOf(Geo(), idx, key)
    {
      var h := key.hash;
      inf := infoInc + BitAnd(h, 31) / Pow(2, hashShift);
      idx := BitAnd(h / 32, mask);
      ghost var k: nat :| mask + 1 == Pow(2, k);
      BitAndMask(h / 32, k);
      ModIsRemainder(h / 32, mask + 1);
      FragmentByMask(h, hashShift);
      assert Prod(1, infoInc) == infoInc;
    }

    /** Is the key in the slot that a probe is at? The slot is looked at only if the bytes agree. */
    method KeyAt(key: Key, idx: nat, inf: nat) returns (hit: bool)
      requires Valid() && Home(Geo(), key) <= idx < |info| && inf == InfoOf(Geo(), idx, key) && inf >= 2
      ensures hit <==> At(slots, idx, key)
      ensures hit ==> key in model && slots[idx] == Full(key, model[key])
    {
      StopByByte(Geo(), slots, info, idx, key);
      hit := inf == info[idx] && slots[idx].Full? && slots[idx].key == key;
    }

    /** Probing as lookup does, two slots per round: the index of the key, or the end index. */
    method FindIdx(key: Key) returns (idx: nat)
      requires Valid()
      ensures key in model ==> idx < |slots| && slots[idx] == Full(key, model[key])
      ensures key !in model ==> idx == |slots|
    {
      ghost var g, s, bytes := Geo(), slots, info;
      var inf;
      idx, inf := KeyToIdx(key);
      ghost var home := idx;
      InfoRange(g, home, key);
      var more := true;
      while more
        invariant home <= idx < |info| && inf == InfoOf(g, idx, key) && inf >= 2
        invariant forall i :: home <= i < idx ==> !At(s, i, key)
        invariant if more then idx <= |slots| else inf > info[idx]
        decreases more, |info| - idx
      {
        var hit := KeyAt(key, idx, inf);
        if hit {
          return;
        }
        InfoNext(g, idx, key);
        idx, inf := idx + 1, inf + infoInc;
        hit := KeyAt(key, idx, inf);
        if hit {
          return;
        }
        InfoNext(g, idx, key);
        idx, inf := idx + 1, inf + infoInc;
        more := inf <= info[idx];
      }
      StopByByte(g, s, bytes, idx, key);
      StoppedProbeMisses(g, s, idx, key);
      idx := if mask == 0 then 0 else |slots|;
    }

    /** A probe for the key that has reached p past elements that are all before the key and are not it. */
    ghost predicate Probing(key: Key, p: nat, inf: nat)
      reads this
      requires Valid()
    {
      && Home(Geo(), key) <= p <= |slots|
      && inf == InfoOf(Geo(), p, key) >= 2
      && forall i :: Home(Geo(), key) <= i < p ==>
           slots[i].Full? && Before(Geo(), slots[i].key, key) && slots[i].key != key
    }

    /** What a probe for an absent key has established when it stops at p. */
    ghost predicate Stopped(key: Key, p: nat, inf: nat)
      reads this
      requires Valid()
    {
      Probing(key, p, inf) && inf > info[p] && key !in model
    }

    lemma StoppedHere(key: Key, p: nat, inf: nat)
      requires Valid() && Probing(key, p, inf) && inf > info[p]
      ensures Stopped(key, p, inf)
    {
      StopByByte(Geo(), slots, info, p, key);
      StoppedProbeMisses(Geo(), slots, p, key);
    }

    /** One step past a slot whose byte is not below the probe's and whose key differs. */
    lemma ProbeStep(key: Key, p: nat, inf: nat)
      requires Valid() && Probing(key, p, inf) && inf <= info[p]
      ensures p < |slots| && slots[p].Full?
      ensures slots[p].key == key ==> inf == info[p]
      ensures slots[p].key != key ==> Probing(key, p + 1, inf + infoInc)
    {
      var g, s, bytes := Geo(), slots, info;
      StopByByte(g, s, bytes, p, key);
      InfoNext(g, p, key);
      InfoRange(g, p, key);
    }

    /** Where the bytes agree, the next byte is not above the probe's next one. */
    lemma NextByte(key: Key, p: nat, inf: nat)
      requires Valid() && Probing(key, p, inf) && inf == info[p] && p < |slots|
      ensures inf + infoInc >= info[p + 1]
    {
      var g, s, bytes := Geo(), slots, info;
      InfoRange(g, p, key);
      if p + 1 < |slots| && bytes[p + 1] >= 2 * Inc(g.shift) {
        DisplacedByteBound(g, s, bytes, p + 1);
      }
    }

    /** Skip the slots whose bytes are above the probe's. */
    method NextWhileLess(key: Key, start: nat, startInf: nat) returns (idx: nat, inf: nat)
      requires Valid() && Probing(key, start, startInf)
      ensures Probing(key, idx, inf) && inf >= info[idx]
    {
      idx, inf := start, startInf;
      while inf < info[idx]
        invariant Probing(key, idx, inf)
        decreases |slots| - idx
      {
        ProbeStep(key, idx, inf);
        idx, inf := idx + 1, inf + infoInc;
      }
    }

    /** Skip forward, then compare keys while the bytes agree. */
    method Locate(key: Key) returns (found: bool, idx: nat, inf: nat)
      requires Valid()
      ensures found ==> key in model && idx < |slots| && slots[idx] == Full(key, model[key])
      ensures !found ==> Stopped(key, idx, inf)
    {
      idx, inf := KeyToIdx(key);
      InfoRange(Geo(), idx, key);
      idx, inf := NextWhileLess(key, idx, inf);
      found, idx, inf := CompareWhileEqual(key, idx, inf);
    }

    /** Compare keys while the bytes agree. */
    method CompareWhileEqual(key: Key, start: nat, startInf: nat) returns (found: bool, idx: nat, inf: nat)
      requires Valid() && Probing(key, start, startInf) && startInf >= info[start]
      ensures found ==> key in model && idx < |slots| && slots[idx] == Full(key, model[key])
      ensures !found ==> Stopped(key, idx, inf)
    {
      idx, inf := start, startInf;
      while inf == info[idx]
        invariant Probing(key, idx, inf) && inf >= info[idx]
        decreases |slots| - idx
      {
        ProbeStep(key, idx, inf);
        if slots[idx].key == key {
          return true, idx, inf;
        }
        NextByte(key, idx, inf);
        idx, inf := idx + 1, inf + infoInc;
      }
      StoppedHere(key, idx, inf);
      found := false;
    }

    /** Move slots p..e-1 up by one. */
    method ShiftSlotsUp(e: nat, p: nat)
      requires p < e < |slots|
      modifies this`slots
      ensures Inserted(old(slots), slots, p, e, old(slots[p]))
    {
      var idx := e;
      slots := slots[idx := slots[idx - 1]];
      idx := idx - 1;
      while idx != p
        invariant p <= idx < e && |slots| == |old(slots)|
        invariant forall i {:trigger slots[i]} :: 0 <= i < |slots| ==>
                    slots[i] == if idx < i <= e then old(slots[i - 1]) else old(slots[i])
      {
        slots := slots[idx := slots[idx - 1]];
        idx := idx - 1;
      }
    }

    /** Move the bytes of p..e-1 up by one; a byte that can grow no further closes the table. */
    method ShiftInfoUp(e: nat, p: nat)
      requires p < e < |info|
      requires forall i :: p <= i < e ==> info[i] + infoInc <= 255
      modifies this`maxAllowed, this`info
      ensures InfoInserted(old(info), info, p, e, old(info[p]), infoInc)
      ensures maxAllowed == if NearlyFull(info, p + 1, e, infoInc) then 0 else old(maxAllowed)
    {
      var idx := e;
      while idx != p
        invariant p <= idx <= e && |info| == |old(info)|
        invariant forall i {:trigger info[i]} :: 0 <= i < |info| ==>
                    info[i] == if idx < i <= e then old(info[i - 1]) + infoInc else old(info[i])
        invariant maxAllowed == if NearlyFull(info, idx + 1, e, infoInc) then 0 else old(maxAllowed)
      {
        ghost var before := info;
        info := info[idx := (info[idx - 1] + infoInc) % 256];
        FullFrom(before, info, idx, e, infoInc);
        if info[idx] + infoInc > 0xFF {
          maxAllowed := 0;
        }
        idx := idx - 1;
      }
    }

    method ShiftUp(e: nat, p: nat)
      requires p < e < |slots| < |info|
      requires forall i :: p <= i < e ==> info[i] + infoInc <= 255
      modifies this`maxAllowed, this`info, this`slots
      ensures Inserted(old(slots), slots, p, e, old(slots[p]))
      ensures InfoInserted(old(info), info, p, e, old(info[p]), infoInc)
      ensures maxAllowed == if NearlyFull(info, p + 1, e, infoInc) then 0 else old(maxAllowed)
    {
      ShiftSlotsUp(e, p);
      ShiftInfoUp(e, p);
    }

    /** A run that starts at a home bucket ends before the end of the overflow area. */
    lemma RunFits(home: nat, idx: nat)
      requires Valid() && mask != 0 && numElements < CalcMax(mask + 1, loadFactor)
      requires home <= mask && home <= idx < |slots|
      requires forall i :: home <= i <= idx ==> slots[i].Full?
      ensures idx + 1 < |slots|
    {
      var g, s := Geo(), slots;
      RunLength(s, model, home, idx + 1);
      assert OrderedAt(g, s, idx);
      var k := s[idx].key;
      assert Home(g, k) <= mask;
      ProdAtLeast(idx - Home(g, k) + 1, Inc(g.shift));
      assert info[idx] == ByteAt(g, s, idx);
    }

    /** The info value of a new element fits a byte while the table is open. */
    lemma NewInfoFits(key: Key, p: nat, inf: nat)
      requires Valid() && mask != 0 && maxAllowed != 0 && Probing(key, p, inf)
      ensures inf <= 255
    {
      var g, s, bytes := Geo(), slots, info;
      if Home(g, key) < p {
        assert OrderedAt(g, s, p - 1);
        CompareInfo(g, p - 1, key, s[p - 1].key);
        InfoNext(g, p - 1, key);
        assert bytes[p - 1] == ByteAt(g, s, p - 1);
      } else {
        assert Prod(1, Inc(g.shift)) == Inc(g.shift);
      }
    }

    /** The first empty slot at or after the place where a probe stopped. */
    method EmptySpot(key: Key, p: nat, inf: nat) returns (idx: nat)
      requires Valid() && mask != 0 && numElements < CalcMax(mask + 1, loadFactor)
      requires Stopped(key, p, inf)
      ensures Gap(Geo(), slots, p, idx, key)
    {
      ghost var g, s, bytes, home := Geo(), slots, info, Home(Geo(), key);
      StopByByte(g, s, bytes, p, key);
      if p > home {
        RunFits(home, p - 1);
      }
      idx := p;
      while info[idx] != 0
        invariant p <= idx < |slots| && forall i :: p <= i < idx ==> s[i].Full?
        decreases |slots| - idx
      {
        ByteMeaning(g, s, bytes, idx);
        RunFits(home, idx);
        idx := idx + 1;
      }
      ByteMeaning(g, s, bytes, idx);
    }

    /** In an open table the bytes of a gap can all grow, and the new one fits. */
    lemma RoomToShift(key: Key, p: nat, inf: nat, e: nat)
      requires Valid() && mask != 0 && maxAllowed != 0 && Stopped(key, p, inf) && Gap(Geo(), slots, p, e, key)
      ensures inf == InfoOf(Geo(), p, key) < 256 && p <= e < |slots| < |info|
      ensures forall i :: p <= i < e ==> info[i] + infoInc <= 255
    {
      NewInfoFits(key, p, inf);
    }

    /** Shift up if there is anything to shift. */
    method MakeGap(p: nat, e: nat)
      requires p <= e < |slots| < |info|
      requires forall i :: p <= i < e ==> info[i] + infoInc <= 255
      modifies this`maxAllowed, this`info, this`slots
      ensures Inserted(old(slots), slots, p, e, old(slots[p]))
      ensures InfoInserted(old(info), info, p, e, old(info[p]), infoInc)
      ensures maxAllowed == if NearlyFull(info, p + 1, e, infoInc) then 0 else old(maxAllowed)
    {
      if e != p {
        ShiftUp(e, p);
      }
    }

    /** Shift up if there is anything to shift, then write the new element, its byte and the count. */
    method WriteAt(p: nat, e: nat, key: Key, value: Value, inf: byte)
      requires p <= e < |slots| < |info|
      requires forall i :: p <= i < e ==> info[i] + infoInc <= 255
      modifies this`numElements, this`maxAllowed, this`model, this`info, this`slots
      ensures Written(old(Now()), Now(), p, e, key, value, inf)
    {
      if inf + infoInc > 0xFF {
        maxAllowed := 0;
      }
      MakeGap(p, e);
      FullFrom(info, info[p := inf], p, e, infoInc);
      slots := slots[p := Full(key, value)];
      info := info[p := inf];
      numElements := numElements + 1;
      model := model[key := value];
    }

    /** Put an absent key at the place where its probe stopped. */
    method Place(key: Key, value: Value, p: nat, inf: nat)
      requires Valid() && mask != 0 && maxAllowed != 0
      requires numElements < CalcMax(mask + 1, loadFactor)
      requires Stopped(key, p, inf)
      modifies this`numElements, this`maxAllowed, this`model, this`info, this`slots
      ensures Valid() && model == old(model)[key := value]
      ensures p < |slots| && slots[p] == Full(key, value)
      ensures maxAllowed == 0 ==> Crowded(numElements, hashShift)
    {
      var idx := EmptySpot(key, p, inf);
      RoomToShift(key, p, inf, idx);
      WriteAt(p, idx, key, value, inf % 256);
      InsertKeepsSound(old(Now()), Now(), p, idx, key, value);
    }

    /** Move the bytes of two increments or more behind a slot down by one, with their slots, and clear the last. */
    method MoveDown(start: nat) returns (idx: nat)
      requires start < |slots| < |info| && infoInc > 0 && info[|slots|] < 2 * infoInc
      modifies this`info, this`slots
      ensures start <= idx < |old(slots)| && old(info)[idx + 1] < 2 * infoInc
      ensures forall j :: start < j <= idx ==> old(info)[j] >= 2 * infoInc
      ensures Erased(old(slots), slots, start, idx) && InfoErased(old(info), info, start, idx, infoInc)
    {
      idx := start;
      while info[idx + 1] >= 2 * infoInc
        invariant start <= idx < |old(slots)| == |slots| && |info| == |old(info)|
        invariant forall j :: start < j <= idx ==> old(info)[j] >= 2 * infoInc
        invariant forall j {:trigger slots[j]} :: 0 <= j < |slots| ==>
                    slots[j] == if start <= j < idx then old(slots)[j + 1] else old(slots)[j]
        invariant forall j {:trigger info[j]} :: 0 <= j < |info| ==>
                    info[j] == if start <= j < idx then old(info)[j + 1] - infoInc else old(info)[j]
        decreases |slots| - idx
      {
        info := info[idx := info[idx + 1] - infoInc];
        slots := slots[idx := slots[idx + 1]];
        idx := idx + 1;
      }
      info := info[idx := 0];
      slots := slots[idx := Empty];
    }

    /** Erase the element in a slot and close the gap. */
    method ShiftDown(start: nat)
      requires Valid() && start < |slots| && slots[start].Full?
      modifies this`info, this`slots, this`model, this`numElements
      ensures Valid() && model == old(model) - {old(slots[start].key)}
      ensures exists e :: Tail(Geo(), old(slots), start, e) && Erased(old(slots), slots, start, e)
    {
      ghost var t, k := Now(), slots[start].key;
      var idx := MoveDown(start);
      TailByBytes(t.g, t.slots, t.info, start, idx);
      EraseKeepsSound(t, info, slots, start, idx);
      numElements, model := numElements - 1, model - {k};
      assert Now() == t.(numElements := numElements, info := info, slots := slots, model := t.model - {k});
      assert Tail(t.g, t.slots, start, idx) && Erased(t.slots, slots, start, idx);
    }

    /** The probe of erasure: one slot per round, as long as the probe's info is not above the byte. */
    method FindToErase(key: Key) returns (found: bool, idx: nat)
      requires Valid()
      ensures found <==> key in model
      ensures found ==> idx < |slots| && slots[idx] == Full(key, model[key])
    {
      ghost var g := Geo();
      var inf;
      idx, inf := KeyToIdx(key);
      ghost var home := idx;
      InfoRange(g, idx, key);
      var more := true;
      while more
        invariant home <= idx < |info| && inf == InfoOf(g, idx, key) && inf >= 2
        invariant forall i :: home <= i < idx ==> !At(slots, i, key)
        invariant if more then idx <= |slots| else inf > info[idx]
        decreases more, |info| - idx
      {
        StopByByte(g, slots, info, idx, key);
        if inf == info[idx] && slots[idx].Full? && slots[idx].key == key {
          return true, idx;
        }
        InfoNext(g, idx, key);
        idx, inf := idx + 1, inf + infoInc;
        more := inf <= info[idx];
      }
      StopByByte(g, slots, info, idx, key);
      StoppedProbeMisses(g, slots, idx, key);
      found := false;
    }

    /** Erase by key. */
    method Erase(key: Key) returns (count: nat)
      requires Valid()
      modifies this`info, this`slots, this`model, this`numElements
      ensures Valid() && model == old(model) - {key}
      ensures count == if key in old(model) then 1 else 0
    {
      var found, idx := FindToErase(key);
      count := 0;
      if found {
        ShiftDown(idx);
        count := 1;
      }
    }

    /** Halve all info bytes, eight at a time, by one shift and one mask per word. */
    method HalveInfo(w: nat)
      requires w + 8 == |info|
      modifies this`info
      ensures |info| == |old(info)|
      ensures forall j :: 0 <= j < |info| ==> info[j] == old(info)[j] / 2 || (j >= w && info[j] == old(info)[j])
    {
      var i := 0;
      while i < w
        invariant 0 <= i <= w + 7 && |info| == |old(info)|
        invariant forall j :: 0 <= j < |info| ==> info[j] == if j < i then old(info)[j] / 2 else old(info)[j]
      {
        ghost var word := info[i..i + 8];
        var val := WordOf(info[i..i + 8]);
        val := BitAnd(val / 2, 0x7f7f7f7f7f7f7f7f);
        info := info[..i] + BytesOf(val, 8) + info[i + 8..];
        Mask7fIs64();
        HalveWord(word);
        StoreLoad(HalvedBytes(word));
        i := i + 8;
      }
    }

    /** Drop one hash bit from every info byte, which makes room for more displacement. */
    method TryIncreaseInfo() returns (ok: bool)
      requires Valid() && mask != 0
      modifies this`info, this`infoInc, this`hashShift, this`maxAllowed
      ensures Valid() && ok == (old(hashShift) < 4)
      ensures if ok then hashShift == old(hashShift) + 1 && maxAllowed == CalcMax(mask + 1, loadFactor)
              else hashShift == old(hashShift) && maxAllowed == old(maxAllowed)
    {
      if infoInc <= 2 {
        return false;
      }
      ghost var t := Now();
      HalveInfo(|slots|);
      infoInc := infoInc / 2;
      hashShift := hashShift + 1;
      info := info[|slots| := 1];
      maxAllowed := CalcMax(mask + 1, loadFactor);
      HalvingKeepsSound(t, info);
      ok := true;
    }

    /** Allocate n empty buckets and their overflow area. */
    method InitData(n: nat)
      requires 10 < loadFactor < 100 && IsPow2(n) && n >= INITIAL_ELEMENTS
      modifies this
      ensures Valid() && model == map[] && mask + 1 == n && hashShift == 0 && Tight(Now())
    {
      var w := n + Min(CalcMax(n, loadFactor), 0xFF);
      numElements, mask, maxAllowed := 0, n - 1, CalcMax(n, loadFactor);
      slots := seq(w, _ => Empty);
      info := seq(w + 8, i => if i == w then 1 else 0);
      infoInc, hashShift := 32, 0;
      model := map[];
      FreshIsSound(loadFactor, n, info, slots);
    }

    /** The probe for a key that is known to be absent. */
    method SkipForward(key: Key) returns (idx: nat, inf: nat)
      requires Valid() && key !in model
      ensures Stopped(key, idx, inf)
    {
      idx, inf := KeyToIdx(key);
      InfoRange(Geo(), idx, key);
      while inf <= info[idx]
        invariant Probing(key, idx, inf)
        decreases |slots| - idx
      {
        ProbeStep(key, idx, inf);
        idx, inf := idx + 1, inf + infoInc;
      }
      StoppedHere(key, idx, inf);
    }

    /** Insert a key that is known to be absent, as rehashing does. Fails only when no hash bit is left to drop. */
    method InsertMove(key: Key, value: Value) returns (ok: bool)
      requires Valid() && mask != 0 && key !in model && numElements < CalcMax(mask + 1, loadFactor)
      modifies this
      ensures mask == old(mask)
      ensures ok <==> old(maxAllowed) != 0 || old(hashShift) < 4
      ensures if ok then Valid() && model == old(model)[key := value] else hashShift == old(hashShift)
      ensures ok && old(Tight(Now())) ==> Tight(Now())
    {
      if maxAllowed == 0 {
        ok := TryIncreaseInfo();
        if !ok {
          return;
        }
      }
      ghost var n := numElements;
      var idx, inf := SkipForward(key);
      Place(key, value, idx, inf);
      if hashShift > 0 && Crowded(n, hashShift - 1) {
        CrowdGrows(n, hashShift - 1);
      }
      ok := true;
    }

    /** Insert one slot of the old slots, if it is occupied. */
    method MoveOne(oldInfo: seq<byte>, oldSlots: seq<Slot>, i: nat, ghost m: map<Key, Value>) returns (ok: bool)
      requires Valid() && mask != 0 && |m| <= CalcMax(mask + 1, loadFactor)
      requires i < |oldSlots| && Movable(oldInfo, oldSlots, m) && Copied(oldSlots, i, model)
      requires Tight(Now())
      modifies this
      ensures mask == old(mask)
      ensures if ok then Valid() && Copied(oldSlots, i + 1, model) && Tight(Now()) else Exhausted() && |m| >= CROWD
    {
      if oldInfo[i] == 0 {
        CopySkip(oldSlots, i, model);
        return true;
      }
      CopyIsNew(oldSlots, m, i, model);
      CopyHolds(oldSlots, i, model);
      ghost var t := Now();
      ok := InsertMove(oldSlots[i].key, oldSlots[i].value);
      if !ok {
        TightIsStuck(t);
      }
    }

    /** Insert every element of the old slots. */
    method MoveAll(oldInfo: seq<byte>, oldSlots: seq<Slot>, ghost m: map<Key, Value>) returns (ok: bool)
      requires Valid() && mask != 0 && model == map[] && |m| <= CalcMax(mask + 1, loadFactor)
      requires Movable(oldInfo, oldSlots, m) && Tight(Now())
      modifies this
      ensures mask == old(mask)
      ensures if ok then Valid() && Copied(oldSlots, |oldSlots|, model) && Tight(Now())
              else Exhausted() && |m| >= CROWD
    {
      ok := true;
      var i := 0;
      while i < |oldSlots|
        invariant 0 <= i <= |oldSlots| && mask == old(mask)
        invariant Valid() && Copied(oldSlots, i, model) && Tight(Now())
      {
        ok := MoveOne(oldInfo, oldSlots, i, m);
        if !ok {
          return;
        }
        i := i + 1;
      }
    }

    /** Move every element into a table of n buckets. */
    method RehashPowerOfTwo(n: nat) returns (ok: bool)
      requires Valid() && IsPow2(n) && n >= INITIAL_ELEMENTS && numElements <= CalcMax(n, loadFactor)
      modifies this
      ensures mask + 1 == n
      ensures if ok then Valid() && model == old(model) && Tight(Now()) else Exhausted() && old(numElements) >= CROWD
    {
      var oldInfo, oldSlots := info, slots;
      ghost var m := model;
      forall i | 0 <= i < |slots| ensures info[i] != 0 <==> slots[i].Full? {
        ByteMeaning(Geo(), slots, info, i);
      }
      InitData(n);
      ok := MoveAll(oldInfo, oldSlots, m);
      if ok {
        CopyComplete(oldSlots, m, model);
      }
    }

    /** The element count at or above which the table may still grow. */
    ghost function GrowthBound(): nat
      reads this
    {
      100 * (2 * numElements + 1)
    }

    /** Make room: allocate, or drop a hash bit, or double the buckets, or report that the hash is too bad. */
    method IncreaseSize() returns (ok: bool)
      requires Valid()
      modifies this
      ensures if ok then Valid() && model == old(model) else Exhausted()
      ensures !ok ==> || (old(Exhausted()) && 2 * old(numElements) < CalcMax(old(mask) + 1, loadFactor))
                      || old(numElements) >= CROWD
      ensures !ok && mask == old(mask) ==> 2 * numElements < CalcMax(mask + 1, loadFactor)
      ensures ok && Stuck() ==> numElements >= CROWD
      ensures ok ==> || (mask == old(mask) && hashShift == old(hashShift) + 1)
                     || (mask > old(mask) && old(mask) + 1 < old(GrowthBound()))
      ensures ok ==> mask == old(mask) || mask + 1 == if old(mask) == 0 then INITIAL_ELEMENTS else 2 * (old(mask) + 1)
      ensures ok ==> Growth(old(numElements), old(mask) + 1, mask + 1, loadFactor)
      ensures old(mask != 0 && hashShift < 4 && numElements < CalcMax(mask + 1, loadFactor)) ==>
                ok && mask == old(mask) && maxAllowed == CalcMax(mask + 1, loadFactor)
    {
      if mask == 0 {
        assert INITIAL_ELEMENTS == Pow(2, 3);
        InitData(INITIAL_ELEMENTS);
        return true;
      }
      var limit := CalcMax(mask + 1, loadFactor);
      if numElements < limit {
        ok := TryIncreaseInfo();
        if ok {
          return;
        }
      }
      if numElements * 2 < limit {
        return false;
      }
      ok := Double();
    }

    /** Twice the buckets. */
    method Double() returns (ok: bool)
      requires Valid() && mask != 0 && CalcMax(mask + 1, loadFactor) <= 2 * numElements
      modifies this
      ensures mask + 1 == 2 * (old(mask) + 1) && old(mask) + 1 < old(GrowthBound())
      ensures if ok then Valid() && model == old(model) else Exhausted() && old(numElements) >= CROWD
      ensures ok && Stuck() ==> numElements >= CROWD
    {
      DoubledSize(mask + 1, loadFactor, numElements);
      ok := RehashPowerOfTwo((mask + 1) * 2);
      if ok && Stuck() {
        TightIsStuck(Now());
      }
    }

    /** What an increase of the size means for a table without room. */
    method MakeRoom() returns (ok: bool)
      requires Valid() && numElements >= maxAllowed
      modifies this
      ensures ok ==> Valid() && MadeRoom(old(Now()), Now())
      ensures ok ==> || (mask == old(mask) && hashShift == old(hashShift) + 1)
                     || (mask > old(mask) && old(mask) + 1 < old(GrowthBound()))
      ensures !ok ==> Exhausted() && (old(Stuck()) || old(numElements) >= CROWD) && !old(HasRoom())
    {
      ok := IncreaseSize();
    }

    /** One round of an insertion: the result, or nothing if there is more room now. */
    method InsertRound(key: Key, value: Value) returns (r: Option<InsertResult>)
      requires Valid()
      modifies this
      ensures key in old(model) ==> r.Some? && r.value.Existing?
      ensures r.Some? && r.value.Existing? ==> Now() == old(Now()) && key in model
      ensures r.Some? && r.value.Added? ==>
                && Valid() && key !in old(model) && model == old(model)[key := value] && mask == old(mask)
                && StuckByCrowd(old(Now()), Now())
      ensures r.Some? && !r.value.Overflow? ==> r.value.idx < |slots| && slots[r.value.idx] == Full(key, model[key])
      ensures r.Some? && r.value.Overflow? ==>
                Exhausted() && (old(Stuck()) || old(numElements) >= CROWD) && !old(HasRoom())
      ensures r.None? ==>
                && Valid() && MadeRoom(old(Now()), Now())
                && (|| (mask == old(mask) && hashShift == old(hashShift) + 1)
                    || (mask > old(mask) && old(mask) + 1 < old(GrowthBound())))
    {
      var found, idx, inf := Locate(key);
      if found {
        return Some(Existing(idx));
      }
      if numElements >= maxAllowed {
        var ok := MakeRoom();
        return if ok then None else Some(Overflow);
      }
      Place(key, value, idx, inf);
      if Stuck() {
        CrowdIs(numElements);
      }
      return Some(Added(idx));
    }

    /** Insert a key unless it is present, growing as often as needed. */
    method DoInsert(key: Key, value: Value) returns (r: InsertResult)
      requires Valid()
      modifies this
      ensures key in old(model) ==> r.Existing?
      ensures r.Existing? ==> Valid() && Now() == old(Now()) && key in model
      ensures r.Added? ==> Valid() && key !in old(model) && model == old(model)[key := value]
      ensures !r.Overflow? ==> r.idx < |slots| && slots[r.idx] == Full(key, model[key])
      ensures old(HasRoom()) ==> !r.Overflow? && mask == old(mask)
      ensures r.Overflow? ==> Exhausted() && (old(Stuck()) || old(numElements) >= CROWD)
      ensures !r.Overflow? ==> StuckByCrowd(old(Now()), Now()) && Growth(old(numElements), old(mask) + 1, mask + 1, loadFactor)
    {
      while true
        invariant Valid() && MadeRoom(old(Now()), Now()) && (key in model ==> Now() == old(Now()))
        decreases if mask + 1 < GrowthBound() then GrowthBound() - mask else 0, 5 - hashShift
      {
        ghost var t := Now();
        var round := InsertRound(key, value);
        if round.Some? {
          return round.value;
        }
        MadeMoreRoom(old(Now()), t, Now());
      }
    }

    /** Remove everything and keep the buckets. */
    method Clear()
      requires Valid()
      modifies this
      ensures Valid() && model == map[] && mask == old(mask) && StuckByCrowd(old(Now()), Now())
    {
      if numElements == 0 {
        return;
      }
      var w := |slots|;
      numElements, model := 0, map[];
      slots := seq(w, _ => Empty);
      info := seq(w + 8, i => if i == w then 1 else 0);
      infoInc, hashShift := 32, 0;
      FreshIsSound(loadFactor, mask + 1, info, slots);
    }

    /** The smallest power of two, from eight up, that may hold c elements; zero when none of 64 bits may. */
    method NewSize(c: nat) returns (n: nat)
      requires 10 < loadFactor < 100
      ensures n == 0 <==> NoSize(c, loadFactor)
      ensures n > 0 ==> LeastSize(n, c, loadFactor)
    {
      n := INITIAL_ELEMENTS;
      ghost var e: nat := 3;
      assert Pow(2, 3) == INITIAL_ELEMENTS;
      while CalcMax(n, loadFactor) < c && n != 0
        invariant 3 <= e <= 64 && (e < 64 ==> n == Pow(2, e) >= INITIAL_ELEMENTS) && (e == 64 ==> n == 0)
        invariant forall k: nat :: 3 <= k < e ==> CalcMax(Pow(2, k), loadFactor) < c
        decreases 64 - e
      {
        DoublingWraps(e);
        n := n * 2 % W64;
        e := e + 1;
      }
      forall k: nat | 3 <= k && Pow(2, k) < n ensures k < e {
        if k >= e { PowMono(2, e, k); }
      }
    }

    /** Not even the largest table that 64 bits can index may hold this many elements. */
    ghost predicate TooMany(n: nat, c: nat)
    {
      NoSize(Need(c, n), loadFactor)
    }

    /**
      Make sure that c elements fit. If forced, rehash to the least size for
      them and the elements; otherwise only if that is larger than the table,
      and do nothing at all if it is not.
     */
    method Reserve(c: size, force: bool) returns (ok: bool)
      requires Valid()
      modifies this
      ensures if ok then Valid() && model == old(model)
              else TooMany(old(numElements), c) || (Exhausted() && old(numElements) >= CROWD)
      ensures TooMany(old(numElements), c) ==> !ok && Now() == old(Now())
      ensures ok ==> CalcMax(mask + 1, loadFactor) >= c && StuckByCrowd(old(Now()), Now())
      ensures ok ==> Resized(old(Now()), Now(), Need(c, old(numElements)), force)
    {
      var minAllowed := Need(c, numElements);
      var n := NewSize(minAllowed);
      if n == 0 {
        return false;
      }
      if force || n > mask + 1 {
        ok := RehashPowerOfTwo(n);
        if ok && Stuck() {
          TightIsStuck(Now());
        }
      } else {
        LargerHoldsMore(n, mask + 1, loadFactor);
        ok := true;
      }
      assert LeastSize(n, minAllowed, loadFactor);
    }

    /** operator[]: the mapped value of the key, which is first inserted with a default if absent. */
    method Index(key: Key, default: Value) returns (ok: bool, value: Value)
      requires Valid()
      modifies this
      ensures key in old(model) || !Exhausted() ==> ok
      ensures ok ==> Valid() && model == if key in old(model) then old(model) else old(model)[key := default]
      ensures ok ==> value == model[key]
      ensures old(HasRoom()) || key in old(model) ==> ok && mask == old(mask)
      ensures !ok ==> Exhausted() && (old(Stuck()) || old(numElements) >= CROWD)
      ensures ok ==> StuckByCrowd(old(Now()), Now()) && Growth(old(numElements), old(mask) + 1, mask + 1, loadFactor)
    {
      value := default;
      var r := DoInsert(key, default);
      ok := !r.Overflow?;
      if ok {
        value := slots[r.idx].value;
      }
    }

    /** Assign to a present key, or insert an absent one; tells whether the key is new. */
    method InsertOrAssign(key: Key, value: Value) returns (ok: bool, added: bool)
      requires Valid()
      modifies this
      ensures key in old(model) || !Exhausted() ==> ok
      ensures ok ==> Valid() && model == old(model)[key := value] && added == (key !in old(model))
      ensures old(HasRoom()) || key in old(model) ==> ok && mask == old(mask)
      ensures !ok ==> Exhausted() && (old(Stuck()) || old(numElements) >= CROWD)
      ensures ok ==> StuckByCrowd(old(Now()), Now()) && Growth(old(numElements), old(mask) + 1, mask + 1, loadFactor)
    {
      var idx := FindIdx(key);
      if idx == |slots| {
        var r := DoInsert(key, value);
        return r.Added?, true;
      }
      AssignKeepsSound(Now(), idx, value);
      slots, model := slots[idx := Full(key, value)], model[key := value];
      return true, false;
    }
  }
}
