/**
  The bulk pool behind node-based tables: a free list threaded through the
  blocks themselves, in memory that is obtained in large regions.
 */
module BulkPool {
  import opened Basics
  import opened Bits

  /** The size of a pointer, which every free block must have room for. */
  const LINK_SIZE: nat := 8

  /** The alignment of blocks and their size, a multiple of the alignment. */
  datatype Shape = Shape(align: nat, size: nat)

  predicate ShapeOk(z: Shape)
  {
    z.align >= LINK_SIZE && z.size >= z.align && z.size % z.align == 0
  }

  /** The block size for objects of a given size. */
  function AlignedSize(bytes: nat, align: nat): nat
    requires bytes > 0 && align > 0
  {
    ((bytes - 1) / align + 1) * align
  }

  lemma ModOfMultiple(k: nat, d: nat)
    requires d > 0
    ensures (k * d) % d == 0
  {
    DivModUnique(k * d, d, k, 0);
  }

  /** It is the least multiple of the alignment that the object fits in. */
  lemma AlignedSizeFits(bytes: nat, align: nat)
    requires bytes > 0 && align > 0
    ensures AlignedSize(bytes, align) % align == 0
    ensures AlignedSize(bytes, align) - align < bytes <= AlignedSize(bytes, align)
  {
    var q, r := (bytes - 1) / align, (bytes - 1) % align;
    assert bytes - 1 == q * align + r;
    assert (q + 1) * align == q * align + align;
    ModOfMultiple(q + 1, align);
  }

  // ---- blocks ----

  /** n blocks of this size, one after the other. */
  function Blocks(start: nat, n: nat, size: nat): (s: seq<nat>)
    ensures |s| == n
    decreases n
  {
    if n == 0 then [] else [start] + Blocks(start + size, n - 1, size)
  }

  lemma {:induction false} BlocksNext(start: nat, n: nat, size: nat, i: nat)
    requires i < n
    ensures i == 0 ==> Blocks(start, n, size)[i] == start
    ensures i > 0 ==> Blocks(start, n, size)[i] == Blocks(start, n, size)[i - 1] + size
    decreases n
  {
    if i > 0 {
      BlocksNext(start + size, n - 1, size, i - 1);
    }
  }

  /** The address behind n blocks. */
  function End(start: nat, n: nat, size: nat): (e: nat)
    ensures e >= start
    decreases n
  {
    if n == 0 then start else End(start + size, n - 1, size)
  }

  lemma {:induction false} EndIs(start: nat, n: nat, size: nat)
    ensures End(start, n, size) == start + n * size
    decreases n
  {
    if n > 0 {
      EndIs(start + size, n - 1, size);
      assert n * size == (n - 1) * size + size;
    }
  }

  /** Blocks lie apart from each other, between the start and the end. */
  lemma {:induction false} BlocksApart(start: nat, n: nat, size: nat, i: nat, j: nat)
    requires i < j <= n
    ensures start <= Blocks(start, n, size)[i]
    ensures j < n ==> Blocks(start, n, size)[i] + size <= Blocks(start, n, size)[j]
    ensures Blocks(start, n, size)[i] + size <= End(start, n, size)
    decreases n
  {
    if i > 0 {
      BlocksApart(start + size, n - 1, size, i - 1, j - 1);
    } else if j < n {
      BlocksApart(start + size, n - 1, size, j - 1, n - 1);
    }
  }

  lemma {:induction false} BlocksAligned(start: nat, n: nat, z: Shape, i: nat)
    requires i < n && ShapeOk(z) && start % z.align == 0
    ensures Blocks(start, n, z.size)[i] % z.align == 0
    decreases n
  {
    if i > 0 {
      ModOfSum(start, z.size, z.align);
      BlocksAligned(start + z.size, n - 1, z, i - 1);
    }
  }

  lemma ModOfSum(a: nat, b: nat, d: nat)
    requires d > 0 && a % d == 0 && b % d == 0
    ensures (a + b) % d == 0
  {
    assert a == (a / d) * d && b == (b / d) * d;
    assert a + b == (a / d + b / d) * d;
    ModOfMultiple(a / d + b / d, d);
  }

  // ---- regions ----

  /** Memory that the pool was given: a link to the region before it, then blocks. */
  datatype Region = Region(base: nat, bytes: nat)

  function Count(z: Shape, r: Region): nat
    requires ShapeOk(z) && r.bytes >= z.align
  {
    (r.bytes - z.align) / z.size
  }

  predicate RegionOk(z: Shape, r: Region)
    requires ShapeOk(z)
  {
    r.base > 0 && r.base % z.align == 0 && r.bytes >= z.align + z.size
  }

  /** That many blocks fill a region up: less than one more is left behind its link and them. */
  predicate FillsUp(z: Shape, r: Region, n: int)
  {
    n > 0 && 0 <= r.bytes - z.align - n * z.size < z.size
  }

  /** The blocks fill a region: behind its link there is room for them, but not for one more. */
  lemma CountIs(z: Shape, r: Region)
    requires ShapeOk(z) && RegionOk(z, r)
    ensures FillsUp(z, r, Count(z, r))
  {
    var n := r.bytes - z.align;
    DivAtLeastOne(n, z.size);
    assert n == n / z.size * z.size + n % z.size;
  }

  function RegionBlocks(z: Shape, r: Region): seq<nat>
    requires ShapeOk(z) && RegionOk(z, r)
  {
    Blocks(r.base + z.align, Count(z, r), z.size)
  }

  predicate Apart(r: Region, t: Region)
  {
    r.base + r.bytes <= t.base || t.base + t.bytes <= r.base
  }

  /** The address range of a block lies inside a region, behind its link, and is aligned. */
  predicate Inside(z: Shape, a: nat, r: Region)
    requires ShapeOk(z)
  {
    r.base + z.align <= a && a + z.size <= r.base + r.bytes && a % z.align == 0
  }

  lemma RegionBlocksInside(z: Shape, r: Region, i: nat)
    requires ShapeOk(z) && RegionOk(z, r) && i < Count(z, r)
    ensures Inside(z, RegionBlocks(z, r)[i], r)
  {
    var n, start := Count(z, r), r.base + z.align;
    BlocksApart(start, n, z.size, i, n);
    EndIs(start, n, z.size);
    assert n * z.size <= r.bytes - z.align;
    ModOfMultiple(1, z.align);
    ModOfSum(r.base, z.align, z.align);
    BlocksAligned(start, n, z, i);
  }

  predicate RegionsOk(z: Shape, regions: seq<Region>)
    requires ShapeOk(z)
  {
    && (forall i :: 0 <= i < |regions| ==> RegionOk(z, regions[i]))
    && (forall i, j :: 0 <= i < j < |regions| ==> Apart(regions[i], regions[j]))
  }

  function SetOf(s: seq<nat>): set<nat>
  {
    set a | a in s
  }

  /** All the blocks of all the regions. */
  ghost function AllBlocks(z: Shape, regions: seq<Region>): set<nat>
    requires ShapeOk(z) && RegionsOk(z, regions)
  {
    if regions == [] then {}
    else SetOf(RegionBlocks(z, regions[0])) + AllBlocks(z, regions[1..])
  }

  lemma {:induction false} BlockHasRegion(z: Shape, regions: seq<Region>, a: nat) returns (i: nat)
    requires ShapeOk(z) && RegionsOk(z, regions) && a in AllBlocks(z, regions)
    ensures i < |regions| && a in RegionBlocks(z, regions[i]) && Inside(z, a, regions[i])
  {
    if a in RegionBlocks(z, regions[0]) {
      i := 0;
      var k :| 0 <= k < Count(z, regions[0]) && RegionBlocks(z, regions[0])[k] == a;
      RegionBlocksInside(z, regions[0], k);
    } else {
      i := BlockHasRegion(z, regions[1..], a);
      i := i + 1;
    }
  }

  /** Two blocks are apart, be they of one region or of two. */
  lemma BlocksDisjoint(z: Shape, regions: seq<Region>, a: nat, b: nat)
    requires ShapeOk(z) && RegionsOk(z, regions)
    requires a in AllBlocks(z, regions) && b in AllBlocks(z, regions) && a != b
    ensures a + z.size <= b || b + z.size <= a
  {
    var i := BlockHasRegion(z, regions, a);
    var j := BlockHasRegion(z, regions, b);
    if i == j {
      var r := regions[i];
      var k :| 0 <= k < Count(z, r) && RegionBlocks(z, r)[k] == a;
      var l :| 0 <= l < Count(z, r) && RegionBlocks(z, r)[l] == b;
      if k < l {
        BlocksApart(r.base + z.align, Count(z, r), z.size, k, l);
      } else {
        BlocksApart(r.base + z.align, Count(z, r), z.size, l, k);
      }
    } else if i < j {
      assert Apart(regions[i], regions[j]);
    } else {
      assert Apart(regions[j], regions[i]);
    }
  }

  lemma BlockIsNoBase(z: Shape, regions: seq<Region>, a: nat, j: nat)
    requires ShapeOk(z) && RegionsOk(z, regions) && a in AllBlocks(z, regions) && j < |regions|
    ensures a != regions[j].base && a != 0
  {
    var i := BlockHasRegion(z, regions, a);
    if i < j {
      assert Apart(regions[i], regions[j]);
    } else if j < i {
      assert Apart(regions[j], regions[i]);
    }
  }

  // ---- lists threaded through memory ----

  function First(s: seq<nat>): nat
  {
    if s == [] then 0 else s[0]
  }

  /** From head on, memory links exactly these addresses, in this order, up to a null pointer. */
  ghost predicate Links(memory: map<nat, nat>, s: seq<nat>, head: nat)
  {
    && head == First(s)
    && forall i :: 0 <= i < |s| ==> s[i] != 0 && s[i] in memory && memory[s[i]] == First(s[i + 1..])
  }

  function Bases(regions: seq<Region>): seq<nat>
  {
    seq(|regions|, i requires 0 <= i < |regions| => regions[i].base)
  }

  ghost predicate NoDuplicates(s: seq<nat>)
  {
    forall i, j :: 0 <= i < j < |s| ==> s[i] != s[j]
  }

  /** A pool as a value: its memory, the heads of its two lists, and what they stand for. */
  datatype State = State(z: Shape, memory: map<nat, nat>, head: nat, list: nat,
                         regions: seq<Region>, free: seq<nat>, handed: set<nat>)

  /** The pool: the free list and the blocks handed out together are all the blocks. */
  ghost predicate Sound(s: State)
  {
    && ShapeOk(s.z) && RegionsOk(s.z, s.regions)
    && Links(s.memory, s.free, s.head)
    && Links(s.memory, Bases(s.regions), s.list)
    && NoDuplicates(s.free)
    && (forall a :: a in s.free ==> a !in s.handed)
    && (forall a :: a in AllBlocks(s.z, s.regions) <==> a in s.free || a in s.handed)
  }

  /** Writing to addresses that are not on a list leaves the list alone. */
  lemma LinksFrame(memory: map<nat, nat>, memory': map<nat, nat>, s: seq<nat>, head: nat)
    requires Links(memory, s, head)
    requires forall i :: 0 <= i < |s| ==> s[i] in memory' && memory'[s[i]] == memory[s[i]]
    ensures Links(memory', s, head)
  {
  }

  lemma Push(memory: map<nat, nat>, s: seq<nat>, head: nat, a: nat)
    requires Links(memory, s, head) && a !in s && a != 0
    ensures Links(memory[a := head], [a] + s, a)
  {
    var t := [a] + s;
    assert t[1..] == s;
    forall i | 0 <= i < |t| ensures t[i] != 0 && memory[a := head][t[i]] == First(t[i + 1..]) {
      if i > 0 {
        assert t[i] == s[i - 1] && t[i + 1..] == s[i..];
      }
    }
  }

  /** The word at an address lies outside every block that is handed out. */
  ghost predicate Outside(z: Shape, handed: set<nat>, x: nat)
  {
    forall a :: a in handed ==> x + LINK_SIZE <= a || a + z.size <= x
  }

  lemma FreeIsOutside(z: Shape, regions: seq<Region>, handed: set<nat>, x: nat)
    requires ShapeOk(z) && RegionsOk(z, regions) && x in AllBlocks(z, regions) && x !in handed
    requires forall a :: a in handed ==> a in AllBlocks(z, regions)
    ensures Outside(z, handed, x)
  {
    forall a | a in handed ensures x + LINK_SIZE <= a || a + z.size <= x {
      BlocksDisjoint(z, regions, x, a);
    }
  }

  lemma BaseIsOutside(z: Shape, regions: seq<Region>, handed: set<nat>, j: nat)
    requires ShapeOk(z) && RegionsOk(z, regions) && j < |regions|
    requires forall a :: a in handed ==> a in AllBlocks(z, regions)
    ensures Outside(z, handed, regions[j].base)
  {
    forall a | a in handed ensures regions[j].base + LINK_SIZE <= a || a + z.size <= regions[j].base {
      var i := BlockHasRegion(z, regions, a);
      assert RegionOk(z, regions[j]);
      if i < j {
        assert Apart(regions[i], regions[j]);
      } else if j < i {
        assert Apart(regions[j], regions[i]);
      }
    }
  }

  /** Callers may overwrite every word of the blocks they hold; the pool's links are all outside. */
  lemma CallersMayWrite(s: State, memory': map<nat, nat>)
    requires Sound(s)
    requires forall x :: x in s.memory && Outside(s.z, s.handed, x) ==> x in memory' && memory'[x] == s.memory[x]
    ensures Sound(s.(memory := memory'))
  {
    var State(z, memory, head, list, regions, free, handed) := s;
    forall i | 0 <= i < |free| ensures Outside(z, handed, free[i]) {
      FreeIsOutside(z, regions, handed, free[i]);
    }
    forall j | 0 <= j < |regions| ensures Outside(z, handed, regions[j].base) {
      BaseIsOutside(z, regions, handed, j);
    }
    LinksFrame(memory, memory', free, head);
    LinksFrame(memory, memory', Bases(regions), list);
  }

  lemma DeallocateKeeps(s: State, a: nat)
    requires Sound(s) && a in s.handed
    ensures Sound(s.(memory := s.memory[a := s.head], head := a, free := [a] + s.free, handed := s.handed - {a}))
  {
    var State(z, memory, head, list, regions, free, handed) := s;
    forall j | 0 <= j < |regions| ensures regions[j].base != a && a != 0 {
      BlockIsNoBase(z, regions, a, j);
    }
    var k := BlockHasRegion(z, regions, a);
    Push(memory, free, head, a);
    LinksFrame(memory, memory[a := head], Bases(regions), list);
  }

  lemma AllocateKeeps(s: State)
    requires Sound(s) && s.free != []
    ensures s.head == s.free[0] && s.head in s.memory
    ensures Sound(s.(head := s.memory[s.head], free := s.free[1..], handed := s.handed + {s.head}))
  {
    LinksRest(s.memory, s.free, s.head);
    assert s.free == [s.head] + s.free[1..];
  }

  lemma LinksRest(memory: map<nat, nat>, s: seq<nat>, head: nat)
    requires Links(memory, s, head) && s != []
    ensures head in memory && Links(memory, s[1..], memory[head])
  {
    var rest := s[1..];
    forall i | 0 <= i < |rest| ensures rest[i] in memory && memory[rest[i]] == First(rest[i + 1..]) {
      assert rest[i] == s[i + 1] && rest[i + 1..] == s[i + 2..];
    }
  }

  // ---- adding a region ----

  /** Memory after n blocks were linked, the last of them to what follows, with nothing else written. */
  ghost predicate Threaded(memory: map<nat, nat>, memory': map<nat, nat>, blocks: seq<nat>, last: nat)
  {
    && (forall i :: 0 <= i < |blocks| ==> blocks[i] in memory')
    && (forall i :: 0 <= i < |blocks| ==> memory'[blocks[i]] == if i + 1 < |blocks| then blocks[i + 1] else last)
    && (forall a :: a in memory && a !in blocks ==> a in memory' && memory'[a] == memory[a])
  }

  /** With every block linked to what follows it, linking the last one elsewhere threads them all. */
  lemma LastLinked(memory: map<nat, nat>, memory': map<nat, nat>, start: nat, n: nat, size: nat, last: nat)
    requires n > 0 && size > 0
    requires var blocks := Blocks(start, n, size);
             && (forall k :: 0 <= k < n ==> blocks[k] in memory' && memory'[blocks[k]] == blocks[k] + size)
             && (forall a :: a in memory && a !in blocks ==> a in memory' && memory'[a] == memory[a])
    ensures var blocks := Blocks(start, n, size);
            Threaded(memory, memory'[blocks[n - 1] := last], blocks, last)
  {
    var blocks := Blocks(start, n, size);
    forall k | 0 <= k < n - 1 ensures blocks[k] != blocks[n - 1] && blocks[k] + size == blocks[k + 1] {
      BlocksNext(start, n, size, k + 1);
      BlocksApart(start, n, size, k, n - 1);
    }
    assert blocks[n - 1] in blocks;
  }

  lemma ThreadedLinks(memory: map<nat, nat>, memory': map<nat, nat>, blocks: seq<nat>, free: seq<nat>, head: nat)
    requires Links(memory, free, head) && blocks != [] && Threaded(memory, memory', blocks, head)
    requires forall i :: 0 <= i < |blocks| ==> blocks[i] != 0 && blocks[i] !in free
    ensures Links(memory', blocks + free, blocks[0])
  {
    var s := blocks + free;
    forall i | 0 <= i < |s| ensures s[i] != 0 && s[i] in memory' && memory'[s[i]] == First(s[i + 1..]) {
      if i >= |blocks| {
        assert s[i] == free[i - |blocks|] && s[i + 1..] == free[i - |blocks| + 1..];
      } else if i + 1 == |blocks| {
        assert s[i + 1..] == free;
      } else {
        assert s[i + 1..][0] == blocks[i + 1];
      }
    }
  }

  /** A region that the pool may be given: usable, and apart from all it has. */
  ghost predicate NewTo(z: Shape, r: Region, regions: seq<Region>)
    requires ShapeOk(z)
  {
    RegionOk(z, r) && forall j :: 0 <= j < |regions| ==> Apart(r, regions[j])
  }

  lemma OneMoreRegion(z: Shape, r: Region, regions: seq<Region>)
    requires ShapeOk(z) && RegionsOk(z, regions) && NewTo(z, r, regions)
    ensures RegionsOk(z, [r] + regions)
    ensures forall a :: a in AllBlocks(z, [r] + regions) <==> a in RegionBlocks(z, r) || a in AllBlocks(z, regions)
    ensures [r.base] + Bases(regions) == Bases([r] + regions) && r.base !in Bases(regions)
  {
    var all := [r] + regions;
    assert all[1..] == regions;
    forall i, j | 0 <= i < j < |all| ensures Apart(all[i], all[j]) {
      if i > 0 {
        assert all[i] == regions[i - 1] && all[j] == regions[j - 1];
      }
    }
    assert forall j :: 0 <= j < |regions| ==> RegionOk(z, regions[j]) && Apart(r, regions[j]);
  }

  /** Nothing that the pool already has lies in a new region, nor is the link of the new region a block. */
  lemma NewBlock(z: Shape, r: Region, regions: seq<Region>, i: nat)
    requires ShapeOk(z) && RegionsOk(z, regions) && NewTo(z, r, regions) && i < Count(z, r)
    ensures RegionBlocks(z, r)[i] !in AllBlocks(z, regions) && RegionBlocks(z, r)[i] != 0
    ensures RegionBlocks(z, r)[i] !in [r.base] + Bases(regions)
  {
    RegionBlocksInside(z, r, i);
    var a := RegionBlocks(z, r)[i];
    if a in AllBlocks(z, regions) {
      var k := BlockHasRegion(z, regions, a);
    }
    forall j | 0 <= j < |regions| ensures a != regions[j].base {
      assert Apart(r, regions[j]) && RegionOk(z, regions[j]);
    }
  }

  lemma OldBlock(z: Shape, r: Region, regions: seq<Region>, a: nat)
    requires ShapeOk(z) && RegionsOk(z, regions) && NewTo(z, r, regions) && a in AllBlocks(z, regions)
    ensures a != r.base
  {
    var i := BlockHasRegion(z, regions, a);
    assert Apart(r, regions[i]);
  }

  lemma DivAtLeastOne(n: nat, d: nat)
    requires 0 < d <= n
    ensures n / d >= 1
  {
    assert n == (n / d) * d + n % d;
  }

  lemma BasesStayLinked(z: Shape, memory: map<nat, nat>, memory': map<nat, nat>, last: nat, list: nat,
                        regions: seq<Region>, r: Region)
    requires ShapeOk(z) && RegionsOk(z, regions) && NewTo(z, r, regions) && Links(memory, Bases(regions), list)
    requires Threaded(memory[r.base := list], memory', RegionBlocks(z, r), last)
    ensures Links(memory', Bases([r] + regions), r.base)
  {
    var blocks, bases := RegionBlocks(z, r), [r.base] + Bases(regions);
    OneMoreRegion(z, r, regions);
    Push(memory, Bases(regions), list, r.base);
    forall i | 0 <= i < |bases| ensures bases[i] !in blocks {
      if bases[i] in blocks {
        var k :| 0 <= k < |blocks| && blocks[k] == bases[i];
        NewBlock(z, r, regions, k);
      }
    }
    LinksFrame(memory[r.base := list], memory', bases, r.base);
  }

  lemma FreeStaysLinked(z: Shape, memory: map<nat, nat>, memory': map<nat, nat>, head: nat, list: nat,
                        regions: seq<Region>, free: seq<nat>, r: Region)
    requires ShapeOk(z) && RegionsOk(z, regions) && NewTo(z, r, regions) && Links(memory, free, head)
    requires forall a :: a in free ==> a in AllBlocks(z, regions)
    requires Threaded(memory[r.base := list], memory', RegionBlocks(z, r), head)
    ensures Links(memory', RegionBlocks(z, r) + free, r.base + z.align)
  {
    var blocks := RegionBlocks(z, r);
    DivAtLeastOne(r.bytes - z.align, z.size);
    BlocksNext(r.base + z.align, Count(z, r), z.size, 0);
    forall i | 0 <= i < |blocks| ensures blocks[i] !in free && blocks[i] != 0 {
      NewBlock(z, r, regions, i);
    }
    forall i | 0 <= i < |free| ensures free[i] != r.base {
      OldBlock(z, r, regions, free[i]);
    }
    LinksFrame(memory, memory[r.base := list], free, head);
    ThreadedLinks(memory[r.base := list], memory', blocks, free, head);
  }

  lemma DistinctBlocks(z: Shape, r: Region)
    requires ShapeOk(z) && RegionOk(z, r)
    ensures NoDuplicates(RegionBlocks(z, r))
  {
    forall i, j | 0 <= i < j < Count(z, r) ensures RegionBlocks(z, r)[i] != RegionBlocks(z, r)[j] {
      BlocksApart(r.base + z.align, Count(z, r), z.size, i, j);
    }
  }

  /** The pool with one more region, whose blocks come first. */
  ghost function Added(s: State, memory': map<nat, nat>, r: Region): State
    requires ShapeOk(s.z) && RegionOk(s.z, r)
  {
    State(s.z, memory', r.base + s.z.align, r.base, [r] + s.regions, RegionBlocks(s.z, r) + s.free, s.handed)
  }

  lemma AddRegion(s: State, memory': map<nat, nat>, r: Region) returns (s': State)
    requires Sound(s) && NewTo(s.z, r, s.regions)
    requires Threaded(s.memory[r.base := s.list], memory', RegionBlocks(s.z, r), s.head)
    ensures s' == Added(s, memory', r) && Sound(s') && FillsUp(s.z, r, |s'.free| - |s.free|)
  {
    s' := Added(s, memory', r);
    AddKeeps(s, memory', r);
    CountIs(s.z, r);
  }

  /** Threading a new region onto the free list keeps the pool sound. */
  lemma AddKeeps(s: State, memory': map<nat, nat>, r: Region)
    requires Sound(s) && NewTo(s.z, r, s.regions)
    requires Threaded(s.memory[r.base := s.list], memory', RegionBlocks(s.z, r), s.head)
    ensures Sound(Added(s, memory', r))
  {
    var State(z, memory, head, list, regions, free, handed) := s;
    var blocks := RegionBlocks(z, r);
    OneMoreRegion(z, r, regions);
    BasesStayLinked(z, memory, memory', head, list, regions, r);
    FreeStaysLinked(z, memory, memory', head, list, regions, free, r);
    DistinctBlocks(z, r);
    forall i | 0 <= i < |blocks| ensures blocks[i] !in AllBlocks(z, regions) {
      NewBlock(z, r, regions, i);
    }
    JoinDistinct(blocks, free);
  }

  lemma JoinDistinct(s: seq<nat>, t: seq<nat>)
    requires NoDuplicates(s) && NoDuplicates(t) && forall i :: 0 <= i < |s| ==> s[i] !in t
    ensures NoDuplicates(s + t)
  {
  }

  // ---- what soundness means ----

  function Total(z: Shape, regions: seq<Region>): nat
    requires ShapeOk(z) && RegionsOk(z, regions)
  {
    if regions == [] then 0 else Count(z, regions[0]) + Total(z, regions[1..])
  }

  lemma {:induction false} SetOfDistinct(s: seq<nat>)
    requires NoDuplicates(s)
    ensures |SetOf(s)| == |s|
  {
    if s == [] {
      assert SetOf(s) == {};
    } else {
      SetOfDistinct(s[1..]);
      assert s[0] !in SetOf(s[1..]);
      assert SetOf(s) == SetOf(s[1..]) + {s[0]};
    }
  }

  lemma OwnBlocksAreNew(z: Shape, r: Region, regions: seq<Region>)
    requires ShapeOk(z) && RegionsOk(z, regions) && NewTo(z, r, regions)
    ensures SetOf(RegionBlocks(z, r)) !! AllBlocks(z, regions)
    ensures |SetOf(RegionBlocks(z, r))| == Count(z, r)
  {
    var blocks := RegionBlocks(z, r);
    forall i | 0 <= i < |blocks| ensures blocks[i] !in AllBlocks(z, regions) {
      NewBlock(z, r, regions, i);
    }
    DistinctBlocks(z, r);
    SetOfDistinct(blocks);
  }

  lemma {:induction false} AllBlocksCount(z: Shape, regions: seq<Region>)
    requires ShapeOk(z) && RegionsOk(z, regions)
    ensures |AllBlocks(z, regions)| == Total(z, regions)
  {
    if regions != [] {
      AllBlocksCount(z, regions[1..]);
      OwnBlocksAreNew(z, regions[0], regions[1..]);
    }
  }

  /** Free and handed-out blocks together are as many as the pool's memory holds. */
  lemma PoolIsConserved(s: State)
    requires Sound(s)
    ensures |s.free| + |s.handed| == Total(s.z, s.regions)
  {
    SetOfDistinct(s.free);
    AllBlocksCount(s.z, s.regions);
    assert SetOf(s.free) !! s.handed;
    assert SetOf(s.free) + s.handed == AllBlocks(s.z, s.regions);
  }

  /** All the memory that the pool was given. */
  function Bytes(regions: seq<Region>): nat
  {
    if regions == [] then 0 else regions[0].bytes + Bytes(regions[1..])
  }

  lemma {:induction false} RegionBytes(z: Shape, regions: seq<Region>) returns (slack: nat)
    requires ShapeOk(z) && RegionsOk(z, regions)
    ensures Bytes(regions) == |regions| * z.align + Total(z, regions) * z.size + slack
    ensures slack <= |regions| * (z.size - 1)
  {
    slack := 0;
    if regions != [] {
      var c, rest := Count(z, regions[0]), |regions| - 1;
      slack := RegionBytes(z, regions[1..]);
      CountIs(z, regions[0]);
      OneMore(rest, z.align);
      OneMore(rest, z.size - 1);
      Distributes(c, Total(z, regions[1..]), z.size);
      slack := slack + (regions[0].bytes - z.align - c * z.size);
    }
  }

  lemma OneMore(n: nat, d: nat)
    ensures (n + 1) * d == n * d + d
  {
  }

  lemma Distributes(a: nat, b: nat, d: nat)
    ensures (a + b) * d == a * d + b * d
  {
  }

  /**
    Every byte is accounted for: the regions are their links, the blocks that
    are free or handed out, and less than one block of slack for each region.
   */
  lemma BytesAccounted(s: State) returns (slack: nat)
    requires Sound(s)
    ensures Bytes(s.regions) == |s.regions| * s.z.align + (|s.free| + |s.handed|) * s.z.size + slack
    ensures slack <= |s.regions| * (s.z.size - 1)
  {
    PoolIsConserved(s);
    slack := RegionBytes(s.z, s.regions);
  }

  ghost predicate Has(free: seq<nat>, handed: set<nat>, a: nat)
  {
    a in free || a in handed
  }

  /**
    Any two blocks of a sound pool, free or handed out, are disjoint, and each
    is aligned and inside memory that the pool was given.
   */
  lemma BlocksInPlace(s: State, a: nat, b: nat)
    requires Sound(s)
    requires Has(s.free, s.handed, a) && Has(s.free, s.handed, b) && a != b
    ensures exists i :: 0 <= i < |s.regions| && Inside(s.z, a, s.regions[i])
    ensures a + s.z.size <= b || b + s.z.size <= a
  {
    var i := BlockHasRegion(s.z, s.regions, a);
    BlocksDisjoint(s.z, s.regions, a, b);
  }

  // ---- the pool ----

  class Pool {
    const shape: Shape
    const minAllocs: nat
    const maxAllocs: nat
    var memory: map<nat, nat>
    var head: nat
    var listForFree: nat
    ghost var regions: seq<Region>
    ghost var free: seq<nat>
    ghost var handed: set<nat>

    ghost function Now(): State
      reads this
    {
      State(shape, memory, head, listForFree, regions, free, handed)
    }

    ghost predicate Valid()
      reads this
    {
      1 <= minAllocs <= maxAllocs && Sound(Now())
    }

    constructor (shape: Shape, minAllocs: nat, maxAllocs: nat)
      requires ShapeOk(shape) && 1 <= minAllocs <= maxAllocs
      ensures Valid() && regions == [] && handed == {}
    {
      this.shape, this.minAllocs, this.maxAllocs := shape, minAllocs, maxAllocs;
      memory, head, listForFree := map[], 0, 0;
      regions, free, handed := [], [], {};
    }

    /** Put a block back at the head of the free list. */
    method Deallocate(a: nat)
      requires Valid() && a in handed
      modifies this
      ensures Valid() && regions == old(regions) && handed == old(handed) - {a} && free == [a] + old(free)
    {
      DeallocateKeeps(Now(), a);
      memory := memory[a := head];
      head := a;
      free, handed := [a] + free, handed - {a};
    }

    /** Link the blocks of a region to each other and the last one to the free list. */
    static method Thread(memory: map<nat, nat>, start: nat, n: nat, size: nat, last: nat)
      returns (memory': map<nat, nat>)
      requires n > 0 && size > 0
      ensures Threaded(memory, memory', Blocks(start, n, size), last)
    {
      ghost var blocks := Blocks(start, n, size);
      memory' := memory;
      var p, end, i := start, start, 0;
      while i < n
        invariant 0 <= i <= n && (i > 0 ==> end == blocks[i - 1])
        invariant i < n ==> p == blocks[i]
        invariant forall k :: 0 <= k < i ==> blocks[k] in memory' && memory'[blocks[k]] == blocks[k] + size
        invariant forall a :: a in memory && a !in blocks ==> a in memory' && memory'[a] == memory[a]
      {
        LaterBlock(start, n, size, i);
        memory' := memory'[p := p + size];
        end, p, i := p, p + size, i + 1;
      }
      LastLinked(memory, memory', start, n, size, last);
      memory' := memory'[end := last];
    }

    /** Link a region to the other ones, and its blocks, as many as there is room for, to the free ones. */
    method Link(base: nat, bytes: nat) returns (memory': map<nat, nat>)
      requires ShapeOk(shape) && RegionOk(shape, Region(base, bytes))
      ensures Threaded(memory[base := listForFree], memory', RegionBlocks(shape, Region(base, bytes)), head)
    {
      var n := (bytes - shape.align) / shape.size;
      DivAtLeastOne(bytes - shape.align, shape.size);
      memory' := Thread(memory[base := listForFree], base + shape.align, n, shape.size, head);
    }

    /** Give the pool a region that is large enough for a block. */
    method Add(base: nat, bytes: nat)
      requires Valid() && NewTo(shape, Region(base, bytes), regions)
      modifies this
      ensures Valid() && regions == [Region(base, bytes)] + old(regions) && handed == old(handed)
      ensures free == RegionBlocks(shape, Region(base, bytes)) + old(free)
      ensures FillsUp(shape, Region(base, bytes), |free| - |old(free)|)
    {
      var memory' := Link(base, bytes);
      ghost var next := AddRegion(Now(), memory', Region(base, bytes));
      memory, listForFree, head := memory', base, base + shape.align;
      regions, free := next.regions, next.free;
      assert Now() == next;
    }

    /** Give the pool any memory; what cannot hold a block is handed back at once. */
    method AddOrFree(base: nat, bytes: nat) returns (returned: bool)
      requires Valid() && base > 0 && base % shape.align == 0
      requires forall j :: 0 <= j < |regions| ==> Apart(Region(base, bytes), regions[j])
      modifies this
      ensures Valid() && handed == old(handed)
      ensures returned == (bytes < shape.align + shape.size)
      ensures regions == if returned then old(regions) else [Region(base, bytes)] + old(regions)
    {
      returned := bytes < shape.align + shape.size;
      if !returned {
        Add(base, bytes);
      }
    }

    /** Twice as many blocks as the time before, up to a limit. */
    method CalcNumElementsToAlloc() returns (n: nat)
      requires Valid()
      ensures n == Grown(minAllocs, maxAllocs, |regions|) && minAllocs <= n <= maxAllocs
    {
      ghost var _ := GrownIs(minAllocs, maxAllocs, |regions|);
      var tmp := listForFree;
      n := minAllocs;
      ghost var k := 0;
      ghost var bases := Bases(regions);
      while n * 2 <= maxAllocs && tmp != 0
        invariant 0 <= k <= |bases| == |regions| && tmp == First(bases[k..])
        invariant Grown(n, maxAllocs, |regions| - k) == Grown(minAllocs, maxAllocs, |regions|)
        decreases |bases| - k
      {
        assert tmp == bases[k];
        tmp := memory[tmp];
        n := n * 2;
        k := k + 1;
      }
    }

    /** With no free block left, ask for a new region; the address is what the underlying allocator returns. */
    method PerformAllocation(supply: nat)
      requires Valid() && free == []
      requires NewTo(shape, NextRegion(shape, supply, Grown(minAllocs, maxAllocs, |regions|)), regions)
      modifies this
      ensures Valid() && handed == old(handed) && free != []
      ensures var r := NextRegion(shape, supply, Grown(minAllocs, maxAllocs, |old(regions)|));
              regions == [r] + old(regions) && free == RegionBlocks(shape, r)
      ensures |free| == Grown(minAllocs, maxAllocs, |old(regions)|)
    {
      var n := CalcNumElementsToAlloc();
      ghost var r := NextRegion(shape, supply, n);
      NextCount(shape, supply, n);
      Add(supply, shape.align + shape.size * n);
    }

    method TakeFirst() returns (a: nat)
      requires Valid() && free != []
      modifies this
      ensures Valid() && regions == old(regions) && [a] + free == old(free)
      ensures a !in old(handed) && handed == old(handed) + {a}
    {
      a := head;
      AllocateKeeps(Now());
      head := memory[a];
      free, handed := free[1..], handed + {a};
    }

    /** Take the first free block, after adding a region if there is none. */
    method Allocate(supply: nat) returns (a: nat)
      requires Valid()
      requires free == [] ==> NewTo(shape, NextRegion(shape, supply, Grown(minAllocs, maxAllocs, |regions|)), regions)
      modifies this
      ensures Valid() && a !in old(handed) && handed == old(handed) + {a}
      ensures old(free) != [] ==> regions == old(regions) && [a] + free == old(free)
      ensures old(free) == [] ==>
                var r := NextRegion(shape, supply, Grown(minAllocs, maxAllocs, |old(regions)|));
                regions == [r] + old(regions) && [a] + free == RegionBlocks(shape, r)
      ensures |handed| + |free| == |old(handed)| +
                if old(free) == [] then Grown(minAllocs, maxAllocs, |old(regions)|) else |old(free)|
    {
      if head == 0 {
        PerformAllocation(supply);
      }
      a := TakeFirst();
    }

    /** Hand every region back, each one once. */
    method Reset() returns (returned: seq<nat>)
      requires Valid()
      modifies this
      ensures Valid() && returned == old(Bases(regions)) && regions == [] && handed == {}
    {
      ghost var bases := Bases(regions);
      returned := [];
      while listForFree != 0
        invariant |returned| <= |bases| && returned == bases[..|returned|]
        invariant memory == old(memory) && Links(memory, bases, old(listForFree))
        invariant listForFree == First(bases[|returned|..])
        decreases |bases| - |returned|
      {
        var tmp := memory[listForFree];
        returned := returned + [listForFree];
        listForFree := tmp;
      }
      head := 0;
      regions, free, handed := [], [], {};
    }
  }

  /** The number of blocks to ask for when there are this many regions. */
  function Grown(n: nat, most: nat, regions: nat): nat
    decreases regions
  {
    if regions == 0 || n * 2 > most then n else Grown(n * 2, most, regions - 1)
  }

  /** The least number is doubled once for every region, but not beyond the greatest one. */
  lemma {:induction false} GrownIs(n: nat, most: nat, regions: nat) returns (j: nat)
    requires 0 < n <= most
    ensures j <= regions && Grown(n, most, regions) == n * Pow(2, j) <= most
    ensures j == regions || n * Pow(2, j + 1) > most
    ensures n <= Grown(n, most, regions)
    decreases regions
  {
    if regions == 0 || n * 2 > most {
      j := 0;
    } else {
      j := GrownIs(n * 2, most, regions - 1);
      MulAssoc(n, 2, Pow(2, j));
      MulAssoc(n, 2, Pow(2, j + 1));
      j := j + 1;
    }
  }

  function NextRegion(z: Shape, base: nat, n: nat): Region
  {
    Region(base, z.align + z.size * n)
  }

  /** A region that is asked for holds exactly the blocks it was asked for, without slack. */
  lemma NextCount(z: Shape, base: nat, n: nat)
    requires ShapeOk(z) && n > 0
    ensures Count(z, NextRegion(z, base, n)) == n && NextRegion(z, base, n).bytes == z.align + n * z.size
    ensures NextRegion(z, base, n).bytes >= z.align + z.size
  {
    DivModUnique(z.size * n, z.size, n, 0);
    MulMono(1, n, z.size);
  }

  lemma LaterBlock(start: nat, n: nat, size: nat, i: nat)
    requires i < n && size > 0
    ensures forall k :: 0 <= k < i ==> Blocks(start, n, size)[k] != Blocks(start, n, size)[i]
    ensures i == 0 ==> Blocks(start, n, size)[i] == start
    ensures i + 1 < n ==> Blocks(start, n, size)[i + 1] == Blocks(start, n, size)[i] + size
    ensures Blocks(start, n, size)[i] in Blocks(start, n, size)
  {
    forall k | 0 <= k < i ensures Blocks(start, n, size)[k] != Blocks(start, n, size)[i] {
      BlocksApart(start, n, size, k, i);
    }
    BlocksNext(start, n, size, i);
    if i + 1 < n {
      BlocksNext(start, n, size, i + 1);
    }
  }
}
