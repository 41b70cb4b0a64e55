/**
  The control blocks behind shared and weak pointers, under every interleaving
  of the atomic steps of copying, moving, promoting and dropping handles.
 */
module SharedHandles {

  /** The two counters of a control block, and how often it was destroyed and freed. */
  datatype Block = Block(strong: int, weak: int, destroyed: nat, freed: nat)

  /** A handle, together with how far the operation that is at work on it has got. */
  datatype Cell =
    | Null
    | Strong(b: nat)
    | Weak(b: nat)
    | Taking(b: nat, strong: bool, pins: set<nat>)  // about to increment; the pins must not change meanwhile
    | Destroying(b: nat)                            // took strong to 0, about to destroy the object
    | Unfollowing(b: nat)                           // about to give up the weak count of all strong handles
    | Deleting(b: nat)                              // took weak to 0, about to free the block

  datatype System = System(blocks: seq<Block>, cells: seq<Cell>)

  datatype Action =
    | Create                             // a strong handle to a new object
    | Copy(from: nat, strong: bool)      // read the pointer of another handle
    | Promote(from: nat, pins: set<nat>) // read the pointer of a weak handle whose object has not expired
    | Move(from: nat)
    | Proceed                            // the next atomic step: increment, decrement, destroy or free

  // ---- steps ----

  function Set(s: System, h: nat, cell: Cell): System
    requires h < |s.cells|
  {
    s.(cells := s.cells[h := cell])
  }

  function SetBlock(s: System, b: nat, block: Block): System
    requires b < |s.blocks|
  {
    s.(blocks := s.blocks[b := block])
  }

  ghost predicate Pinned(s: System, h: nat)
  {
    exists k :: 0 <= k < |s.cells| && s.cells[k].Taking? && h in s.cells[k].pins
  }

  /** The block that a cell works on. */
  predicate Uses(cell: Cell, b: nat)
  {
    !cell.Null? && cell.b == b
  }

  /** Can this action start here, given who else is reading the handles involved? */
  ghost predicate Enabled(s: System, h: nat, a: Action)
  {
    && h < |s.cells|
    && (s.cells[h].Null? || s.cells[h].b < |s.blocks|)
    && match a
       case Create => s.cells[h].Null?
       case Copy(g, strong) =>
         s.cells[h].Null? && g < |s.cells| && (s.cells[g].Strong? || (s.cells[g].Weak? && !strong))
       case Promote(g, pins) =>
         && s.cells[h].Null? && g < |s.cells| && s.cells[g].Weak? && s.cells[g].b < |s.blocks|
         && g in pins
       case Move(g) =>
         s.cells[h].Null? && g < |s.cells| && (s.cells[g].Strong? || s.cells[g].Weak?) && !Pinned(s, g)
       case Proceed => !s.cells[h].Null? && ((s.cells[h].Strong? || s.cells[h].Weak?) ==> !Pinned(s, h))
  }

  /** What the next atomic step leaves of a handle; whoever takes a counter to 0 has more to do. */
  function NextCell(cell: Cell, k: Block): Cell
    requires !cell.Null?
  {
    match cell
    case Taking(b, strong, _) => if strong then Strong(b) else Weak(b)
    case Strong(b) => if k.strong == 1 then Destroying(b) else Null
    case Destroying(b) => Unfollowing(b)
    case Deleting(b) => Null
    case Weak(b) => if k.weak == 1 then Deleting(b) else Null
    case Unfollowing(b) => if k.weak == 1 then Deleting(b) else Null
  }

  function NextBlock(cell: Cell, k: Block): Block
    requires !cell.Null?
  {
    match cell
    case Taking(_, strong, _) => if strong then k.(strong := k.strong + 1) else k.(weak := k.weak + 1)
    case Strong(_) => k.(strong := k.strong - 1)
    case Destroying(_) => k.(destroyed := k.destroyed + 1)
    case Deleting(_) => k.(freed := k.freed + 1)
    case Weak(_) => k.(weak := k.weak - 1)
    case Unfollowing(_) => k.(weak := k.weak - 1)
  }

  ghost function Step(s: System, h: nat, a: Action): System
    requires Enabled(s, h, a)
  {
    match a
    case Create => Set(s.(blocks := s.blocks + [Block(1, 1, 0, 0)]), h, Strong(|s.blocks|))
    case Copy(g, strong) => Set(s, h, Taking(s.cells[g].b, strong, {g}))
    case Promote(g, pins) =>
      if s.blocks[s.cells[g].b].strong == 0 then s else Set(s, h, Taking(s.cells[g].b, true, pins))
    case Move(g) => Set(Set(s, g, Null), h, s.cells[g])
    case Proceed =>
      var cell := s.cells[h];
      var k := s.blocks[cell.b];
      Set(SetBlock(s, cell.b, NextBlock(cell, k)), h, NextCell(cell, k))
  }

  // ---- the invariant ----

  /** How many handles of a block are in each condition. */
  datatype Tally = Tally(strong: nat, weak: nat, destroying: nat, unfollowing: nat, deleting: nat)

  function TallyOf(cells: seq<Cell>, b: nat): Tally
  {
    var m := multiset(cells);
    Tally(m[Strong(b)], m[Weak(b)], m[Destroying(b)], m[Unfollowing(b)], m[Deleting(b)])
  }

  /** What the counters of a block have to do with the handles. */
  ghost predicate Fits(t: Tally, k: Block)
  {
    var ending := t.destroying + t.unfollowing;
    && k.strong == t.strong
    && ending <= 1
    && (k.strong > 0 ==> ending == 0)
    && k.weak == t.weak + (if k.strong > 0 then 1 else ending)
    && k.destroyed == (if k.strong > 0 || t.destroying > 0 then 0 else 1)
    && t.deleting <= 1
    && (k.weak > 0 ==> t.deleting == 0)
    && k.freed == (if k.weak > 0 || t.deleting > 0 then 0 else 1)
  }

  ghost predicate Balanced(cells: seq<Cell>, b: nat, k: Block)
  {
    Fits(TallyOf(cells, b), k)
  }

  /**
    A handle that is being copied from is still there, and keeps the block from
    being freed. If promotions are guarded, a strong handle is taken only while
    another one is kept.
   */
  ghost predicate Held(s: System, cell: Cell, guarded: bool)
  {
    cell.Taking? ==> exists g :: g in cell.pins && Keeps(s, g, cell.b, guarded && cell.strong)
  }

  /** Handle g keeps block b alive, and if need be its object too. */
  ghost predicate Keeps(s: System, g: nat, b: nat, strongly: bool)
  {
    g < |s.cells| && (s.cells[g] == Strong(b) || (s.cells[g] == Weak(b) && !strongly))
  }

  ghost predicate Inv(s: System)
  {
    && (forall b :: 0 <= b < |s.blocks| ==> Balanced(s.cells, b, s.blocks[b]))
    && (forall h :: 0 <= h < |s.cells| ==> s.cells[h].Null? || s.cells[h].b < |s.blocks|)
    && (forall h :: 0 <= h < |s.cells| ==> Held(s, s.cells[h], false))
  }

  function One(cell: Cell, c: Cell): nat
  {
    if cell == c then 1 else 0
  }

  /** The tally t' arises from t when a handle goes from one condition to another. */
  ghost predicate Shifted(t: Tally, t': Tally, b: nat, from: Cell, to: Cell)
  {
    && t'.strong == t.strong - One(from, Strong(b)) + One(to, Strong(b))
    && t'.weak == t.weak - One(from, Weak(b)) + One(to, Weak(b))
    && t'.destroying == t.destroying - One(from, Destroying(b)) + One(to, Destroying(b))
    && t'.unfollowing == t.unfollowing - One(from, Unfollowing(b)) + One(to, Unfollowing(b))
    && t'.deleting == t.deleting - One(from, Deleting(b)) + One(to, Deleting(b))
  }

  lemma TallyAfter(cells: seq<Cell>, h: nat, cell: Cell, b: nat)
    requires h < |cells|
    ensures Shifted(TallyOf(cells, b), TallyOf(cells[h := cell], b), b, cells[h], cell)
  {
    assert cells[h] in multiset(cells);
  }

  /** A live handle is counted. */
  lemma Counted(cells: seq<Cell>, h: nat, b: nat)
    requires h < |cells|
    ensures cells[h] == Strong(b) ==> TallyOf(cells, b).strong > 0
    ensures cells[h] == Weak(b) ==> TallyOf(cells, b).weak > 0
    ensures cells[h] == Destroying(b) ==> TallyOf(cells, b).destroying > 0
    ensures cells[h] == Unfollowing(b) ==> TallyOf(cells, b).unfollowing > 0
    ensures cells[h] == Deleting(b) ==> TallyOf(cells, b).deleting > 0
  {
    assert cells[h] in multiset(cells);
  }

  /** Blocks that a step does not work on stay balanced. */
  lemma OtherBlock(cells: seq<Cell>, h: nat, cell: Cell, b: nat, k: Block)
    requires h < |cells| && !Uses(cells[h], b) && !Uses(cell, b)
    ensures Balanced(cells[h := cell], b, k) <==> Balanced(cells, b, k)
  {
    TallyAfter(cells, h, cell, b);
  }

  /** Nobody that is copying loses the handle it copies from. */
  lemma HeldAfter(s: System, s': System, h: nat, cell: Cell, guarded: bool)
    requires h < |s.cells| && s'.cells == s.cells[h := cell]
    requires (s.cells[h].Strong? || s.cells[h].Weak?) ==> !Pinned(s, h)
    requires forall j :: 0 <= j < |s.cells| ==> Held(s, s.cells[j], guarded)
    requires Held(s', cell, guarded)
    ensures forall j :: 0 <= j < |s'.cells| ==> Held(s', s'.cells[j], guarded)
  {
    forall j | 0 <= j < |s'.cells| ensures Held(s', s'.cells[j], guarded) {
      if j != h && s.cells[j].Taking? {
        assert Held(s, s.cells[j], guarded);
        var b := s.cells[j].b;
        var g :| g in s.cells[j].pins && Keeps(s, g, b, guarded && s.cells[j].strong);
        assert Keeps(s', g, b, guarded && s.cells[j].strong);
      }
    }
  }

  /** A step on one handle and its block keeps the invariant exactly if it keeps that block balanced. */
  lemma UpdateKeeps(s: System, h: nat, cell: Cell, b: nat, k: Block)
    requires Inv(s) && h < |s.cells| && b < |s.blocks|
    requires s.cells[h].Null? || s.cells[h].b == b
    requires cell.Null? || cell.b == b
    requires (s.cells[h].Strong? || s.cells[h].Weak?) ==> !Pinned(s, h)
    requires Held(Set(SetBlock(s, b, k), h, cell), cell, false)
    ensures Inv(Set(SetBlock(s, b, k), h, cell)) <==> Balanced(s.cells[h := cell], b, k)
  {
    var s' := Set(SetBlock(s, b, k), h, cell);
    HeldAfter(s, s', h, cell, false);
    forall b' | 0 <= b' < |s.blocks| && b' != b ensures Balanced(s'.cells, b', s'.blocks[b']) {
      OtherBlock(s.cells, h, cell, b', s.blocks[b']);
    }
    var cells := s.cells[h := cell];
    assert s'.blocks[b] == k && s'.cells == cells;
    if Balanced(cells, b, k) {
      forall b' | 0 <= b' < |s'.blocks| ensures Balanced(s'.cells, b', s'.blocks[b']) {
        assert b' != b ==> Balanced(s'.cells, b', s'.blocks[b']);
      }
    } else {
      assert !Balanced(s'.cells, b, s'.blocks[b]);
    }
  }

  lemma CreateKeeps(s: System, h: nat)
    requires Inv(s) && Enabled(s, h, Create)
    ensures Inv(Step(s, h, Create))
  {
    var s' := Step(s, h, Create);
    var b := |s.blocks|;
    HeldAfter(s, s', h, Strong(b), false);
    forall b' | 0 <= b' < b ensures Balanced(s'.cells, b', s'.blocks[b']) {
      OtherBlock(s.cells, h, Strong(b), b', s.blocks[b']);
    }
    assert TallyOf(s.cells, b) == Tally(0, 0, 0, 0, 0) by {
      assert forall c: Cell :: Uses(c, b) ==> c !in s.cells;
    }
    TallyAfter(s.cells, h, Strong(b), b);
  }

  lemma MoveKeeps(s: System, h: nat, g: nat)
    requires Inv(s) && Enabled(s, h, Move(g))
    ensures Inv(Step(s, h, Move(g)))
  {
    var s' := Step(s, h, Move(g));
    var mid := Set(s, g, Null);
    HeldAfter(s, mid, g, Null, false);
    HeldAfter(mid, s', h, s.cells[g], false);
    assert multiset(s'.cells) == multiset(s.cells);
    forall b | 0 <= b < |s'.blocks| ensures Balanced(s'.cells, b, s'.blocks[b]) {
      assert Balanced(s.cells, b, s.blocks[b]);
    }
  }

  // ---- one step ----

  lemma TakeKeeps(s: System, h: nat, g: nat, strong: bool, pins: set<nat>)
    requires Inv(s) && h < |s.cells| && s.cells[h].Null? && g in pins
    requires g < |s.cells| && (s.cells[g].Strong? || s.cells[g].Weak?)
    ensures Inv(Set(s, h, Taking(s.cells[g].b, strong, pins)))
  {
    var b := s.cells[g].b;
    var cell := Taking(b, strong, pins);
    assert s.blocks[b := s.blocks[b]] == s.blocks;
    assert Keeps(Set(s, h, cell), g, b, false);
    TallyAfter(s.cells, h, cell, b);
    UpdateKeeps(s, h, cell, b, s.blocks[b]);
  }

  /** A promotion increments the strong counter of an object that has expired. */
  predicate Resurrects(cell: Cell, k: Block)
  {
    cell.Taking? && cell.strong && k.strong == 0
  }

  lemma ProceedFits(t: Tally, t': Tally, cell: Cell, k: Block)
    requires !cell.Null? && Fits(t, k) && Shifted(t, t', cell.b, cell, NextCell(cell, k))
    requires cell.Taking? ==> k.weak > 0
    ensures Fits(t', NextBlock(cell, k)) <==> !Resurrects(cell, k)
  {
  }

  lemma ProceedKeeps(s: System, h: nat)
    requires Inv(s) && Enabled(s, h, Proceed)
    ensures Inv(Step(s, h, Proceed)) <==> !Resurrects(s.cells[h], s.blocks[s.cells[h].b])
  {
    var cell := s.cells[h];
    var k := s.blocks[cell.b];
    assert Balanced(s.cells, cell.b, k);
    if cell.Taking? {
      assert Held(s, cell, false);
      var g :| g in cell.pins && Keeps(s, g, cell.b, false);
      Counted(s.cells, g, cell.b);
    }
    TallyAfter(s.cells, h, NextCell(cell, k), cell.b);
    ProceedFits(TallyOf(s.cells, cell.b), TallyOf(s.cells[h := NextCell(cell, k)], cell.b), cell, k);
    UpdateKeeps(s, h, NextCell(cell, k), cell.b, NextBlock(cell, k));
  }

  /** A step keeps the invariant exactly if it is not the second half of a promotion whose object has expired. */
  lemma StepKeeps(s: System, h: nat, a: Action)
    requires Inv(s) && Enabled(s, h, a)
    ensures Inv(Step(s, h, a)) <==> !(a.Proceed? && Resurrects(s.cells[h], s.blocks[s.cells[h].b]))
  {
    match a
    case Create => CreateKeeps(s, h);
    case Copy(g, strong) => TakeKeeps(s, h, g, strong, {g});
    case Promote(g, pins) => if s.blocks[s.cells[g].b].strong != 0 { TakeKeeps(s, h, g, true, pins); }
    case Move(g) => MoveKeeps(s, h, g);
    case Proceed => ProceedKeeps(s, h);
  }

  // ---- guarded promotions ----

  ghost predicate Guarded(s: System)
  {
    forall h :: 0 <= h < |s.cells| ==> Held(s, s.cells[h], true)
  }

  /** A promotion across which some strong handle of the same block is kept, or one of an object that has expired. */
  ghost predicate GuardedAction(s: System, h: nat, a: Action)
    requires Enabled(s, h, a)
  {
    a.Promote? ==>
      || Expired(s, s.cells[a.from].b)
      || exists w :: w in a.pins && Keeps(s, w, s.cells[a.from].b, true)
  }

  /** No strong handle of the block is left. */
  predicate Expired(s: System, b: nat)
  {
    Strong(b) !in s.cells
  }

  /** The counter tells whether an object has expired. */
  lemma ExpiredByCounter(s: System, b: nat)
    requires Inv(s) && b < |s.blocks|
    ensures Expired(s, b) <==> s.blocks[b].strong == 0
    ensures s.blocks[b].destroyed > 0 ==> Expired(s, b)
  {
    assert Balanced(s.cells, b, s.blocks[b]);
  }

  lemma GuardedTake(s: System, h: nat, cell: Cell, w: nat)
    requires Guarded(s) && h < |s.cells| && s.cells[h].Null?
    requires cell.Taking? && w in cell.pins && Keeps(s, w, cell.b, cell.strong)
    ensures Guarded(Set(s, h, cell))
  {
    assert Keeps(Set(s, h, cell), w, cell.b, cell.strong);
    HeldAfter(s, Set(s, h, cell), h, cell, true);
  }

  lemma GuardedStep(s: System, h: nat, a: Action)
    requires Inv(s) && Guarded(s) && Enabled(s, h, a) && GuardedAction(s, h, a)
    ensures Guarded(Step(s, h, a))
    ensures a.Proceed? ==> !Resurrects(s.cells[h], s.blocks[s.cells[h].b])
  {
    var s' := Step(s, h, a);
    match a
    case Create =>
      HeldAfter(s, s', h, s'.cells[h], true);
    case Copy(g, strong) =>
      GuardedTake(s, h, Taking(s.cells[g].b, strong, {g}), g);
    case Promote(g, pins) =>
      ExpiredByCounter(s, s.cells[g].b);
      if !Expired(s, s.cells[g].b) {
        var w :| w in pins && Keeps(s, w, s.cells[g].b, true);
        GuardedTake(s, h, Taking(s.cells[g].b, true, pins), w);
      }
    case Move(g) =>
      HeldAfter(s, Set(s, g, Null), g, Null, true);
      HeldAfter(Set(s, g, Null), s', h, s.cells[g], true);
    case Proceed =>
      HeldAfter(s, s', h, s'.cells[h], true);
      assert Held(s, s.cells[h], true);
      if s.cells[h].Taking? {
        var g :| g in s.cells[h].pins && Keeps(s, g, s.cells[h].b, s.cells[h].strong);
        Counted(s.cells, g, s.cells[h].b);
      }
  }

  // ---- whole runs ----

  ghost predicate Initial(s: System)
  {
    s.blocks == [] && forall h :: 0 <= h < |s.cells| ==> s.cells[h].Null?
  }

  /** A schedule of steps leads from s to t; if guarded, all its promotions are. */
  ghost predicate Leads(s: System, schedule: seq<(nat, Action)>, t: System, guarded: bool)
    decreases |schedule|
  {
    if schedule == [] then s == t
    else
      var (h, a) := schedule[0];
      && Enabled(s, h, a)
      && (guarded ==> GuardedAction(s, h, a))
      && Leads(Step(s, h, a), schedule[1..], t, guarded)
  }

  lemma {:induction false} RunKeeps(s: System, schedule: seq<(nat, Action)>, t: System)
    requires Inv(s) && Guarded(s) && Leads(s, schedule, t, true)
    ensures Inv(t) && Guarded(t)
    decreases |schedule|
  {
    if schedule != [] {
      var (h, a) := schedule[0];
      StepKeeps(s, h, a);
      GuardedStep(s, h, a);
      RunKeeps(Step(s, h, a), schedule[1..], t);
    }
  }

  /** A state that some run with guarded promotions reaches. */
  ghost predicate Reachable(t: System)
  {
    exists s, schedule :: Initial(s) && Leads(s, schedule, t, true)
  }

  /**
    In every reachable state the counters are the numbers of handles, every
    object is destroyed at most once and only when no strong handle is left,
    every block is freed at most once, after its object was destroyed and when
    no handle is left, and both have happened once nobody uses the block.
   */
  lemma Lifetimes(t: System, b: nat)
    requires Reachable(t) && b < |t.blocks|
    ensures var k := t.blocks[b];
            var m := multiset(t.cells);
            && k.strong == m[Strong(b)]
            && k.weak == m[Weak(b)] + (if k.strong > 0 then 1 else m[Destroying(b)] + m[Unfollowing(b)])
            && k.freed <= k.destroyed <= 1
            && (k.destroyed == 1 ==> Strong(b) !in t.cells)
            && (k.freed == 1 ==> forall h :: 0 <= h < |t.cells| ==> !Uses(t.cells[h], b))
            && ((forall h :: 0 <= h < |t.cells| ==> !Uses(t.cells[h], b)) ==> k.freed == 1)
  {
    ReachableInv(t);
    assert Balanced(t.cells, b, t.blocks[b]);
    FreedIff(t, b);
  }

  lemma FreedIff(t: System, b: nat)
    requires Inv(t) && b < |t.blocks|
    ensures t.blocks[b].freed == 1 <==> forall h :: 0 <= h < |t.cells| ==> !Uses(t.cells[h], b)
  {
    if h :| 0 <= h < |t.cells| && Uses(t.cells[h], b) {
      InUse(t, h);
    } else {
      NobodyCounts(t.cells, b);
      assert Balanced(t.cells, b, t.blocks[b]);
    }
  }

  lemma NobodyCounts(cells: seq<Cell>, b: nat)
    requires forall h :: 0 <= h < |cells| ==> !Uses(cells[h], b)
    ensures TallyOf(cells, b) == Tally(0, 0, 0, 0, 0)
  {
    forall cell | cell in cells ensures !Uses(cell, b) {
      var h :| 0 <= h < |cells| && cells[h] == cell;
    }
  }

  /** Whoever is at work on a block finds it there, and destroys or frees it for the first time. */
  lemma InUse(t: System, h: nat)
    requires Inv(t) && h < |t.cells| && !t.cells[h].Null?
    ensures t.cells[h].b < |t.blocks|
    ensures var k := t.blocks[t.cells[h].b];
            && k.freed == 0
            && (t.cells[h].Strong? || t.cells[h].Destroying? ==> k.destroyed == 0)
  {
    var cell := t.cells[h];
    assert Balanced(t.cells, cell.b, t.blocks[cell.b]);
    Counted(t.cells, h, cell.b);
    if cell.Taking? {
      assert Held(t, cell, false);
      var g :| g in cell.pins && Keeps(t, g, cell.b, false);
      Counted(t.cells, g, cell.b);
    }
  }

  lemma ReachableInv(t: System)
    requires Reachable(t)
    ensures Inv(t) && Guarded(t)
  {
    var s, schedule :| Initial(s) && Leads(s, schedule, t, true);
    RunKeeps(s, schedule, t);
  }

  // ---- what becomes of a handle ----

  lemma {:induction false} ReachableOn(t: System, schedule: seq<(nat, Action)>, u: System)
    requires Reachable(t) && Leads(t, schedule, u, true)
    ensures Reachable(u)
  {
    var s, first :| Initial(s) && Leads(s, first, t, true);
    LeadsOn(s, first, t, schedule, u);
  }

  lemma {:induction false} LeadsOn(s: System, first: seq<(nat, Action)>, t: System, more: seq<(nat, Action)>, u: System)
    requires Leads(s, first, t, true) && Leads(t, more, u, true)
    ensures Leads(s, first + more, u, true)
    decreases |first|
  {
    if first == [] {
      assert first + more == more;
    } else {
      LeadsOn(Step(s, first[0].0, first[0].1), first[1..], t, more, u);
      assert (first + more)[1..] == first[1..] + more;
    }
  }

  /** Promoting a handle whose object has expired gives an empty handle and touches no counter. */
  lemma PromotingExpired(t: System, h: nat, g: nat, pins: set<nat>)
    requires Reachable(t) && Enabled(t, h, Promote(g, pins))
    requires t.blocks[t.cells[g].b].destroyed > 0 || Expired(t, t.cells[g].b)
    ensures GuardedAction(t, h, Promote(g, pins))
    ensures Step(t, h, Promote(g, pins)).cells[h].Null? && Step(t, h, Promote(g, pins)) == t
  {
    ReachableInv(t);
    ExpiredByCounter(t, t.cells[g].b);
  }

  /** The steps are all of other handles. */
  predicate OfOthers(schedule: seq<(nat, Action)>, h: nat)
  {
    forall i :: 0 <= i < |schedule| ==> schedule[i].0 != h
  }

  /** Nobody else touches a handle that is being taken. */
  lemma {:induction false} TakingStays(t: System, schedule: seq<(nat, Action)>, u: System, h: nat)
    requires Leads(t, schedule, u, true) && OfOthers(schedule, h) && h < |t.cells| && t.cells[h].Taking?
    ensures h < |u.cells| && u.cells[h] == t.cells[h]
    decreases |schedule|
  {
    if schedule != [] {
      TakingStays(Step(t, schedule[0].0, schedule[0].1), schedule[1..], u, h);
    }
  }

  /** A new handle to block b, one more than there were in u. */
  ghost predicate Gains(u: System, u': System, h: nat, b: nat, strong: bool)
  {
    && h < |u'.cells| && b < |u.blocks| == |u'.blocks|
    && u'.cells[h] == (if strong then Strong(b) else Weak(b))
    && u'.blocks[b].strong == u.blocks[b].strong + (if strong then 1 else 0)
    && u'.blocks[b].weak == u.blocks[b].weak + (if strong then 0 else 1)
    && u'.blocks[b].destroyed == u.blocks[b].destroyed && u'.blocks[b].freed == u.blocks[b].freed
  }

  /** A handle that is being taken from is complete after its next step, whatever others do in between. */
  lemma TakingCompletes(t: System, h: nat, schedule: seq<(nat, Action)>, u: System)
    requires Reachable(t) && h < |t.cells| && t.cells[h].Taking?
    requires Leads(t, schedule, u, true) && OfOthers(schedule, h)
    ensures Reachable(u) && Enabled(u, h, Proceed)
    ensures Gains(u, Step(u, h, Proceed), h, t.cells[h].b, t.cells[h].strong)
    ensures u.blocks[t.cells[h].b].freed == 0
    ensures t.cells[h].strong ==> u.blocks[t.cells[h].b].destroyed == 0
  {
    ReachableOn(t, schedule, u);
    ReachableInv(u);
    TakingStays(t, schedule, u, h);
    InUse(u, h);
    if t.cells[h].strong {
      GuardedStep(u, h, Proceed);
      assert Balanced(u.cells, u.cells[h].b, u.blocks[u.cells[h].b]);
    }
  }

  lemma ReachableStep(t: System, h: nat, a: Action)
    requires Reachable(t) && Enabled(t, h, a) && GuardedAction(t, h, a)
    ensures Reachable(Step(t, h, a))
  {
    assert [(h, a)][1..] == [];
    assert Leads(Step(t, h, a), [], Step(t, h, a), true);
    assert Leads(t, [(h, a)], Step(t, h, a), true);
    ReachableOn(t, [(h, a)], Step(t, h, a));
  }

  /**
    Promoting a weak handle while a strong one is kept gives a strong handle to
    the live object, and the strong counter is one higher, whatever others do
    between the check and the increment.
   */
  lemma PromotingLive(t: System, h: nat, g: nat, pins: set<nat>, w: nat, schedule: seq<(nat, Action)>, u: System)
    requires Reachable(t) && Enabled(t, h, Promote(g, pins)) && w in pins && Keeps(t, w, t.cells[g].b, true)
    requires Leads(Step(t, h, Promote(g, pins)), schedule, u, true) && OfOthers(schedule, h)
    ensures Enabled(u, h, Proceed) && Gains(u, Step(u, h, Proceed), h, t.cells[g].b, true)
    ensures u.blocks[t.cells[g].b].destroyed == 0
  {
    ReachableInv(t);
    assert t.cells[w] == Strong(t.cells[g].b);
    ExpiredByCounter(t, t.cells[g].b);
    ReachableStep(t, h, Promote(g, pins));
    TakingCompletes(Step(t, h, Promote(g, pins)), h, schedule, u);
  }

  /** Copying a handle gives one of the kind that was asked for, to the same block, likewise. */
  lemma CopyingGains(t: System, h: nat, g: nat, strong: bool, schedule: seq<(nat, Action)>, u: System)
    requires Reachable(t) && Enabled(t, h, Copy(g, strong))
    requires Leads(Step(t, h, Copy(g, strong)), schedule, u, true) && OfOthers(schedule, h)
    ensures Enabled(u, h, Proceed) && Gains(u, Step(u, h, Proceed), h, t.cells[g].b, strong)
    ensures strong ==> u.blocks[t.cells[g].b].destroyed == 0
  {
    ReachableStep(t, h, Copy(g, strong));
    TakingCompletes(Step(t, h, Copy(g, strong)), h, schedule, u);
  }

  /** Moving a handle leaves the old one empty and all counters alone; all other handles stay. */
  lemma MovingKeeps(t: System, h: nat, g: nat)
    requires Reachable(t) && Enabled(t, h, Move(g))
    ensures var u := Step(t, h, Move(g));
            && u.blocks == t.blocks && |u.cells| == |t.cells| && multiset(u.cells) == multiset(t.cells)
            && u.cells[h] == t.cells[g] && u.cells[g].Null?
            && forall j :: 0 <= j < |t.cells| && j != h && j != g ==> u.cells[j] == t.cells[j]
  {
  }

  // ---- an unguarded promotion ----

  /** Some run, guarded or not, leads from s to t. */
  ghost predicate Reaches(s: System, t: System)
  {
    exists schedule :: Leads(s, schedule, t, false)
  }

  lemma Prepend(s: System, h: nat, a: Action, s': System, t: System)
    requires Enabled(s, h, a) && Step(s, h, a) == s' && Reaches(s', t)
    ensures Reaches(s, t)
  {
    var schedule :| Leads(s', schedule, t, false);
    assert ([(h, a)] + schedule)[1..] == schedule;
    assert Leads(s, [(h, a)] + schedule, t, false);
  }

  /** A step of the first of three handles on one block. */
  lemma FirstProceeds(k: Block, x: Cell, y: Cell, z: Cell, t: System)
    requires Enabled(System([k], [x, y, z]), 0, Proceed)
    requires Reaches(System([NextBlock(x, k)], [NextCell(x, k), y, z]), t)
    ensures Reaches(System([k], [x, y, z]), t)
  {
    assert [k][0 := NextBlock(x, k)] == [NextBlock(x, k)];
    assert [x, y, z][0 := NextCell(x, k)] == [NextCell(x, k), y, z];
    Prepend(System([k], [x, y, z]), 0, Proceed, System([NextBlock(x, k)], [NextCell(x, k), y, z]), t);
  }

  lemma ThirdProceeds(k: Block, x: Cell, y: Cell, z: Cell, t: System)
    requires Enabled(System([k], [x, y, z]), 2, Proceed)
    requires Reaches(System([NextBlock(z, k)], [x, y, NextCell(z, k)]), t)
    ensures Reaches(System([k], [x, y, z]), t)
  {
    assert [k][0 := NextBlock(z, k)] == [NextBlock(z, k)];
    assert [x, y, z][2 := NextCell(z, k)] == [x, y, NextCell(z, k)];
    Prepend(System([k], [x, y, z]), 2, Proceed, System([NextBlock(z, k)], [x, y, NextCell(z, k)]), t);
  }

  /** The check of a promotion has succeeded; now the last strong handle is dropped. */
  lemma LosingTheLastHandle(t: System)
    requires t == System([Block(0, 2, 2, 0)], [Unfollowing(0), Weak(0), Unfollowing(0)])
    ensures Reaches(System([Block(1, 2, 0, 0)], [Strong(0), Weak(0), Taking(0, true, {1})]), t)
  {
    assert Leads(t, [], t, false);
    ThirdProceeds(Block(0, 2, 1, 0), Unfollowing(0), Weak(0), Destroying(0), t);
    ThirdProceeds(Block(1, 2, 1, 0), Unfollowing(0), Weak(0), Strong(0), t);
    ThirdProceeds(Block(0, 2, 1, 0), Unfollowing(0), Weak(0), Taking(0, true, {1}), t);
    FirstProceeds(Block(0, 2, 0, 0), Destroying(0), Weak(0), Taking(0, true, {1}), t);
    FirstProceeds(Block(1, 2, 0, 0), Strong(0), Weak(0), Taking(0, true, {1}), t);
  }

  /**
    Without the guard the check and the increment of a promotion are a race: the
    last strong handle may be dropped in between. The promoted handle then refers
    to a destroyed object, and dropping it destroys that object again.
   */
  lemma PromotionRace() returns (s: System, t: System)
    ensures Initial(s) && Reaches(s, t) && |t.blocks| == 1 && t.blocks[0].destroyed == 2
  {
    t := System([Block(0, 2, 2, 0)], [Unfollowing(0), Weak(0), Unfollowing(0)]);
    LosingTheLastHandle(t);
    var s4 := System([Block(1, 2, 0, 0)], [Strong(0), Weak(0), Taking(0, true, {1})]);
    var s3 := System([Block(1, 2, 0, 0)], [Strong(0), Weak(0), Null]);
    var s2 := System([Block(1, 1, 0, 0)], [Strong(0), Taking(0, false, {0}), Null]);
    var s1 := System([Block(1, 1, 0, 0)], [Strong(0), Null, Null]);
    s := System([], [Null, Null, Null]);
    Prepend(s3, 2, Promote(1, {1}), s4, t);
    Prepend(s2, 1, Proceed, s3, t);
    Prepend(s1, 1, Copy(0, false), s2, t);
    Prepend(s, 0, Create, s1, t);
  }
}
