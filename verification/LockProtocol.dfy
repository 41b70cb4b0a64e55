/**
  Locking several mutexes at once without deadlock: every interleaving of any
  number of threads that run the multi-lock algorithm, one atomic mutex
  operation at a time.
 */
module LockProtocol {
  import opened Basics

  type Mutex = nat

  /** How a failed attempt ends: start over by blocking on mutex i, or pass an exception on. */
  datatype Outcome = Retry(i: nat) | Throw

  /** Where a thread is in the algorithm; indices are positions in its group of mutexes. */
  datatype PC =
    | Idle
    | Blocking(p: nat)                                   // in a blocking lock() of p
    | TryLow(p: nat, c: nat)                             // p locked, about to try c < p
    | TryHigh(p: nat, c: nat)                            // all up to p locked, about to try c > p
    | UndoLow(p: nat, c: nat, k: nat, o: Outcome)        // c failed: unlocking k..c
    | UndoHigh(p: nat, c: nat, k: nat, o: Outcome)
    | Rollback(k: nat, end: nat, o: Outcome)             // unlocking k..end before the next attempt
    | Holding                                            // lock() has returned
    | Releasing(k: nat)                                  // the scope ends: unlocking k..
    | Failed                                             // an exception has left lock()

  datatype Thread = Thread(group: seq<Mutex>, pc: PC)

  /** The threads, and for every locked mutex the index of the thread that owns it. */
  datatype System = System(threads: seq<Thread>, owner: map<Mutex, nat>)

  ghost predicate Distinct(g: seq<Mutex>)
  {
    forall i, j :: 0 <= i < j < |g| ==> g[i] != g[j]
  }

  /** The positions whose mutexes a thread holds at a program counter. */
  predicate Held(pc: PC, n: nat, i: nat)
  {
    match pc
    case Idle => false
    case Blocking(_) => false
    case TryLow(p, c) => i == p || i < c
    case TryHigh(_, c) => i < c
    case UndoLow(p, c, k, _) => i == p || k <= i < c
    case UndoHigh(p, c, k, _) => i <= p || k <= i < c
    case Rollback(k, end, _) => k <= i < end
    case Holding => i < n
    case Releasing(k) => k <= i < n
    case Failed => false
  }

  predicate WellPlaced(pc: PC, n: nat)
  {
    match pc
    case Idle => true
    case Blocking(p) => p < n
    case TryLow(p, c) => c <= p < n
    case TryHigh(p, c) => p < c <= n
    case UndoLow(p, c, k, o) => k <= c < p < n && (o.Retry? ==> o.i < n)
    case UndoHigh(p, c, k, o) => p < k <= c < n && (o.Retry? ==> o.i < n)
    case Rollback(k, end, o) => k <= end <= n && (o.Retry? ==> o.i < n)
    case Holding => true
    case Releasing(k) => k <= n
    case Failed => true
  }

  // ---- steps ----

  /** What the environment decides: let the operation succeed, let try_lock fail, or let it throw. */
  datatype Choice = Go | Refuse | Raise

  function SetPC(s: System, t: nat, pc: PC): System
    requires t < |s.threads|
  {
    s.(threads := s.threads[t := s.threads[t].(pc := pc)])
  }

  /** Lock a free mutex, then go on. */
  function Acquire(s: System, t: nat, m: Mutex, pc: PC): Option<System>
    requires t < |s.threads|
  {
    if m in s.owner then None else Some(SetPC(s.(owner := s.owner[m := t]), t, pc))
  }

  /** Unlock a mutex that the thread owns, then go on. */
  function Release(s: System, t: nat, m: Mutex, pc: PC): Option<System>
    requires t < |s.threads|
  {
    if m in s.owner && s.owner[m] == t then Some(SetPC(s.(owner := s.owner - {m}), t, pc)) else None
  }

  /** One step of thread t, if it can take one with this choice. */
  function Step(s: System, t: nat, choice: Choice): Option<System>
    requires t < |s.threads|
  {
    var Thread(g, pc) := s.threads[t];
    var n := |g|;
    if !WellPlaced(pc, n) then None else
    match pc
    case Idle => if choice.Go? && n > 0 then Some(SetPC(s, t, Blocking(0))) else None
    case Blocking(p) =>
      (match choice
       case Go => Acquire(s, t, g[p], TryLow(p, 0))
       case Refuse => None
       case Raise => Some(SetPC(s, t, Failed)))
    case TryLow(p, c) =>
      if c == p then (if choice.Go? then Some(SetPC(s, t, TryHigh(p, p + 1))) else None) else
      (match choice
       case Go => Acquire(s, t, g[c], TryLow(p, c + 1))
       case Refuse => Some(SetPC(s, t, UndoLow(p, c, 0, Retry(c))))
       case Raise => Some(SetPC(s, t, UndoLow(p, c, 0, Throw))))
    case TryHigh(p, c) =>
      if c == n then (if choice.Go? then Some(SetPC(s, t, Holding)) else None) else
      (match choice
       case Go => Acquire(s, t, g[c], TryHigh(p, c + 1))
       case Refuse => Some(SetPC(s, t, UndoHigh(p, c, p + 1, Retry(c))))
       case Raise => Some(SetPC(s, t, UndoHigh(p, c, p + 1, Throw))))
    case UndoLow(p, c, k, o) =>
      if !choice.Go? then None
      else if k < c then Release(s, t, g[k], UndoLow(p, c, k + 1, o))
      else Some(SetPC(s, t, Rollback(p, p + 1, o)))
    case UndoHigh(p, c, k, o) =>
      if !choice.Go? then None
      else if k < c then Release(s, t, g[k], UndoHigh(p, c, k + 1, o))
      else Some(SetPC(s, t, Rollback(0, p + 1, o)))
    case Rollback(k, end, o) =>
      if !choice.Go? then None
      else if k < end then Release(s, t, g[k], Rollback(k + 1, end, o))
      else Some(SetPC(s, t, if o.Retry? then Blocking(o.i) else Failed))
    case Holding => if choice.Go? then Some(SetPC(s, t, Releasing(0))) else None
    case Releasing(k) =>
      if !choice.Go? then None
      else if k < n then Release(s, t, g[k], Releasing(k + 1))
      else Some(SetPC(s, t, Idle))
    case Failed => None
  }

  // ---- the invariant ----

  /** A thread owns exactly the mutexes that its program counter says. */
  ghost predicate OwnsAsPlaced(s: System, t: nat)
    requires t < |s.threads|
  {
    var Thread(g, pc) := s.threads[t];
    && Distinct(g) && WellPlaced(pc, |g|)
    && (forall i :: 0 <= i < |g| && Held(pc, |g|, i) ==> g[i] in s.owner && s.owner[g[i]] == t)
    && (forall m :: m in s.owner && s.owner[m] == t ==> exists i :: 0 <= i < |g| && g[i] == m && Held(pc, |g|, i))
  }

  ghost predicate Inv(s: System)
  {
    && (forall t :: 0 <= t < |s.threads| ==> OwnsAsPlaced(s, t))
    && (forall m :: m in s.owner ==> s.owner[m] < |s.threads|)
  }

  ghost predicate Initial(s: System)
  {
    && s.owner == map[]
    && forall t :: 0 <= t < |s.threads| ==> Distinct(s.threads[t].group) && s.threads[t].pc == Idle
  }

  /** The other threads do not notice a step that leaves their mutexes alone. */
  lemma OthersKeep(s: System, s': System, t: nat, u: nat)
    requires Inv(s) && t < |s.threads| == |s'.threads| && u < |s.threads| && u != t
    requires s'.threads[u] == s.threads[u]
    requires forall m :: (m in s.owner && s.owner[m] == u) <==> (m in s'.owner && s'.owner[m] == u)
    ensures OwnsAsPlaced(s', u)
  {
    assert OwnsAsPlaced(s, u);
  }

  lemma SetKeeps(s: System, t: nat, pc: PC)
    requires Inv(s) && t < |s.threads|
    requires var n := |s.threads[t].group|;
             WellPlaced(pc, n) && forall i :: 0 <= i < n ==> (Held(pc, n, i) <==> Held(s.threads[t].pc, n, i))
    ensures Inv(SetPC(s, t, pc))
  {
    var s' := SetPC(s, t, pc);
    forall u | 0 <= u < |s'.threads| ensures OwnsAsPlaced(s', u) {
      assert OwnsAsPlaced(s, u);
      if u != t {
        OthersKeep(s, s', t, u);
      }
    }
  }

  lemma AcquireKeeps(s: System, t: nat, c: nat, pc: PC)
    requires Inv(s) && t < |s.threads| && c < |s.threads[t].group| && s.threads[t].group[c] !in s.owner
    requires var n := |s.threads[t].group|;
             WellPlaced(pc, n) && forall i :: 0 <= i < n ==> (Held(pc, n, i) <==> i == c || Held(s.threads[t].pc, n, i))
    ensures Inv(SetPC(s.(owner := s.owner[s.threads[t].group[c] := t]), t, pc))
  {
    var g := s.threads[t].group;
    var s' := SetPC(s.(owner := s.owner[g[c] := t]), t, pc);
    forall u | 0 <= u < |s'.threads| ensures OwnsAsPlaced(s', u) {
      assert OwnsAsPlaced(s, u);
      if u != t {
        OthersKeep(s, s', t, u);
      } else {
        assert g[c] == g[c] && Held(pc, |g|, c);
      }
    }
  }

  lemma ReleaseKeeps(s: System, t: nat, k: nat, pc: PC)
    requires Inv(s) && t < |s.threads| && k < |s.threads[t].group|
    requires s.threads[t].group[k] in s.owner && s.owner[s.threads[t].group[k]] == t
    requires var n := |s.threads[t].group|;
             WellPlaced(pc, n) && forall i :: 0 <= i < n ==> (Held(pc, n, i) <==> i != k && Held(s.threads[t].pc, n, i))
    ensures Inv(SetPC(s.(owner := s.owner - {s.threads[t].group[k]}), t, pc))
  {
    var g := s.threads[t].group;
    var s' := SetPC(s.(owner := s.owner - {g[k]}), t, pc);
    forall u | 0 <= u < |s'.threads| ensures OwnsAsPlaced(s', u) {
      assert OwnsAsPlaced(s, u);
      if u != t {
        OthersKeep(s, s', t, u);
      }
    }
  }

  predicate Locking(pc: PC)
  {
    pc.Blocking? || pc.TryLow? || pc.TryHigh?
  }

  lemma LockingStepKeeps(s: System, t: nat, choice: Choice)
    requires Inv(s) && t < |s.threads| && Locking(s.threads[t].pc) && Step(s, t, choice).Some?
    ensures Inv(Step(s, t, choice).value)
  {
    assert OwnsAsPlaced(s, t);
    var pc' := Step(s, t, choice).value.threads[t].pc;
    match s.threads[t].pc
    case Blocking(p) =>
      if choice.Go? { AcquireKeeps(s, t, p, pc'); } else { SetKeeps(s, t, pc'); }
    case TryLow(p, c) =>
      if c < p && choice.Go? { AcquireKeeps(s, t, c, pc'); } else { SetKeeps(s, t, pc'); }
    case TryHigh(p, c) =>
      if c < |s.threads[t].group| && choice.Go? { AcquireKeeps(s, t, c, pc'); } else { SetKeeps(s, t, pc'); }
  }

  predicate Undoing(pc: PC)
  {
    pc.UndoLow? || pc.UndoHigh?
  }

  lemma UndoingStepKeeps(s: System, t: nat, choice: Choice)
    requires Inv(s) && t < |s.threads| && Undoing(s.threads[t].pc) && Step(s, t, choice).Some?
    ensures Inv(Step(s, t, choice).value)
  {
    assert OwnsAsPlaced(s, t);
    var pc := s.threads[t].pc;
    var pc' := Step(s, t, choice).value.threads[t].pc;
    if pc.k < pc.c { ReleaseKeeps(s, t, pc.k, pc'); } else { SetKeeps(s, t, pc'); }
  }

  lemma UnlockingStepKeeps(s: System, t: nat, choice: Choice)
    requires Inv(s) && t < |s.threads| && Step(s, t, choice).Some?
    requires !Locking(s.threads[t].pc) && !Undoing(s.threads[t].pc)
    ensures Inv(Step(s, t, choice).value)
  {
    assert OwnsAsPlaced(s, t);
    var pc' := Step(s, t, choice).value.threads[t].pc;
    match s.threads[t].pc
    case Rollback(k, end, o) =>
      if k < end { ReleaseKeeps(s, t, k, pc'); } else { SetKeeps(s, t, pc'); }
    case Releasing(k) =>
      if k < |s.threads[t].group| { ReleaseKeeps(s, t, k, pc'); } else { SetKeeps(s, t, pc'); }
    case _ =>
      SetKeeps(s, t, pc');
  }

  /** Every step of every thread keeps the invariant. */
  lemma StepKeeps(s: System, t: nat, choice: Choice)
    requires Inv(s) && t < |s.threads| && Step(s, t, choice).Some?
    ensures Inv(Step(s, t, choice).value)
  {
    if Locking(s.threads[t].pc) {
      LockingStepKeeps(s, t, choice);
    } else if Undoing(s.threads[t].pc) {
      UndoingStepKeeps(s, t, choice);
    } else {
      UnlockingStepKeeps(s, t, choice);
    }
  }

  // ---- whole runs ----

  /** The state after a schedule of steps, if each of them can be taken. */
  function Run(s: System, schedule: seq<(nat, Choice)>): Option<System>
    decreases |schedule|
  {
    if schedule == [] then Some(s)
    else
      var (t, choice) := schedule[0];
      if t >= |s.threads| then None else
      match Step(s, t, choice)
      case None => None
      case Some(s') => Run(s', schedule[1..])
  }

  lemma {:induction false} RunKeeps(s: System, schedule: seq<(nat, Choice)>)
    requires Inv(s) && Run(s, schedule).Some?
    ensures Inv(Run(s, schedule).value)
    decreases |schedule|
  {
    if schedule != [] {
      var (t, choice) := schedule[0];
      StepKeeps(s, t, choice);
      RunKeeps(Step(s, t, choice).value, schedule[1..]);
    }
  }

  ghost predicate Reachable(s: System)
  {
    exists s0, schedule :: Initial(s0) && Run(s0, schedule) == Some(s)
  }

  lemma ReachableInv(s: System)
    requires Reachable(s)
    ensures Inv(s)
  {
    var s0, schedule :| Initial(s0) && Run(s0, schedule) == Some(s);
    forall t | 0 <= t < |s0.threads| ensures OwnsAsPlaced(s0, t) {}
    RunKeeps(s0, schedule);
  }

  /** The mutexes that a thread owns. */
  ghost function Owned(s: System, t: nat): set<Mutex>
  {
    set m | m in s.owner && s.owner[m] == t
  }

  /**
    In every reachable state a thread that waits in a blocking lock() owns
    nothing, a thread that has returned from lock() owns its whole group, and a
    thread that an exception has thrown out of lock() owns nothing.
   */
  lemma AllOrNothing(s: System, t: nat)
    requires Reachable(s) && t < |s.threads|
    ensures s.threads[t].pc.Blocking? ==> Owned(s, t) == {}
    ensures s.threads[t].pc.Holding? ==> Owned(s, t) == set m | m in s.threads[t].group
    ensures s.threads[t].pc.Failed? || s.threads[t].pc.Idle? ==> Owned(s, t) == {}
  {
    ReachableInv(s);
    assert OwnsAsPlaced(s, t);
  }

  /** Mutual exclusion: two threads that have returned from lock() have no mutex in common. */
  lemma MutualExclusion(s: System, t: nat, u: nat)
    requires Reachable(s) && t < |s.threads| && u < |s.threads| && t != u
    requires s.threads[t].pc.Holding? && s.threads[u].pc.Holding?
    ensures forall m :: m in s.threads[t].group ==> m !in s.threads[u].group
  {
    AllOrNothing(s, t);
    AllOrNothing(s, u);
    forall m | m in s.threads[t].group ensures m !in s.threads[u].group {
      assert m in Owned(s, t);
      assert m !in Owned(s, u);
    }
  }

  // ---- no deadlock ----

  /** Thread t waits in a blocking lock() for a mutex that u owns. */
  ghost predicate WaitsFor(s: System, t: nat, u: nat)
  {
    && t < |s.threads| && s.threads[t].pc.Blocking? && s.threads[t].pc.p < |s.threads[t].group|
    && var m := s.threads[t].group[s.threads[t].pc.p];
       m in s.owner && s.owner[m] == u
  }

  /** Whoever is waited for does not wait, so waiting threads form no chain, let alone a cycle. */
  lemma NoWaitingChain(s: System, t: nat, u: nat, v: nat)
    requires Reachable(s) && WaitsFor(s, t, u)
    ensures !WaitsFor(s, u, v) && u != t
  {
    ReachableInv(s);
    assert OwnsAsPlaced(s, t);
    if u < |s.threads| {
      AllOrNothing(s, u);
      var m := s.threads[t].group[s.threads[t].pc.p];
      assert m in Owned(s, u);
    }
    AllOrNothing(s, t);
  }

  /** The element after i on a cycle. */
  function Next(cycle: seq<nat>, i: nat): nat
    requires i < |cycle|
  {
    if i + 1 < |cycle| then cycle[i + 1] else cycle[0]
  }

  ghost predicate WaitingCycle(s: System, cycle: seq<nat>)
  {
    && |cycle| > 0
    && forall i :: 0 <= i < |cycle| ==> WaitsFor(s, cycle[i], Next(cycle, i))
  }

  lemma NoWaitingCycle(s: System, cycle: seq<nat>)
    requires Reachable(s)
    ensures !WaitingCycle(s, cycle)
  {
    if WaitingCycle(s, cycle) {
      var i := if |cycle| > 1 then 1 else 0;
      assert WaitsFor(s, cycle[0], Next(cycle, 0));
      NoWaitingChain(s, cycle[0], cycle[i], Next(cycle, i));
    }
  }

  /** A thread can step, whatever the others do. */
  ghost predicate CanStep(s: System, t: nat)
    requires t < |s.threads|
  {
    Step(s, t, Go).Some? || Step(s, t, Refuse).Some?
  }

  /** Outside blocking lock() calls a thread that has begun is never stuck; in particular it unlocks only what it owns. */
  lemma OnlyBlockingWaits(s: System, t: nat)
    requires Reachable(s) && t < |s.threads| && |s.threads[t].group| > 0
    requires !s.threads[t].pc.Failed?
    ensures CanStep(s, t) <==> !exists u :: WaitsFor(s, t, u)
  {
    ReachableInv(s);
    assert OwnsAsPlaced(s, t);
    var Thread(g, pc) := s.threads[t];
    match pc
    case Blocking(p) => assert g[p] in s.owner ==> WaitsFor(s, t, s.owner[g[p]]);
    case UndoLow(p, c, k, o) => assert k < c ==> Held(pc, |g|, k);
    case UndoHigh(p, c, k, o) => assert k < c ==> Held(pc, |g|, k);
    case Rollback(k, end, o) => assert k < end ==> Held(pc, |g|, k);
    case Releasing(k) => assert k < |g| ==> Held(pc, |g|, k);
    case _ =>
  }

  /** In every reachable state, a thread that waits can itself step, or the owner it waits for can. */
  lemma NoDeadlock(s: System, t: nat)
    requires Reachable(s) && t < |s.threads| && s.threads[t].pc.Blocking?
    ensures exists u :: 0 <= u < |s.threads| && (u == t || WaitsFor(s, t, u)) && CanStep(s, u)
  {
    ReachableInv(s);
    assert OwnsAsPlaced(s, t);
    if exists u :: WaitsFor(s, t, u) {
      var u :| WaitsFor(s, t, u);
      assert OwnsAsPlaced(s, u);
      forall v ensures !WaitsFor(s, u, v) { NoWaitingChain(s, t, u, v); }
      OnlyBlockingWaits(s, u);
      assert CanStep(s, u);
    } else {
      OnlyBlockingWaits(s, t);
      assert CanStep(s, t);
    }
  }

  // ---- every attempt ends ----

  /** An upper bound on the steps until a thread blocks again, returns or gives up. */
  function StepsLeft(pc: PC, n: nat): nat
    requires WellPlaced(pc, n)
  {
    match pc
    case TryLow(_, c) => 4 * n + 4 - c
    case TryHigh(_, c) => 4 * n + 4 - c
    case UndoLow(_, c, k, _) => 2 * n + 2 + (c - k)
    case UndoHigh(_, c, k, _) => 2 * n + 2 + (c - k)
    case Rollback(k, end, _) => 1 + (end - k)
    case _ => 0
  }

  /** Once its blocking lock() has succeeded, an attempt ends after a bounded number of the thread's own steps. */
  lemma AttemptEnds(s: System, t: nat, choice: Choice)
    requires Inv(s) && t < |s.threads| && Step(s, t, choice).Some?
    requires var pc := s.threads[t].pc; pc.TryLow? || pc.TryHigh? || pc.UndoLow? || pc.UndoHigh? || pc.Rollback?
    ensures var s' := Step(s, t, choice).value;
            var n := |s.threads[t].group|;
            && |s'.threads| == |s.threads| && s'.threads[t].group == s.threads[t].group
            && WellPlaced(s.threads[t].pc, n) && WellPlaced(s'.threads[t].pc, n)
            && StepsLeft(s'.threads[t].pc, n) < StepsLeft(s.threads[t].pc, n)
  {
    assert OwnsAsPlaced(s, t);
  }

  // ---- how a failed attempt ends ----

  /** Where a failed attempt ends: in the next blocking lock(), or outside with an exception. */
  function Destination(o: Outcome): PC
  {
    if o.Retry? then Blocking(o.i) else Failed
  }

  /** The thread is there, or gives back what it has on the way there. */
  predicate HeadsFor(pc: PC, end: PC)
  {
    pc == end || ((Undoing(pc) || pc.Rollback?) && Destination(pc.o) == end)
  }

  /** The position of the mutex that a thread is about to lock or to try. */
  function Target(pc: PC, n: nat): Option<nat>
  {
    match pc
    case Blocking(p) => Some(p)
    case TryLow(p, c) => if c < p then Some(c) else None
    case TryHigh(_, c) => if c < n then Some(c) else None
    case _ => None
  }

  /**
    Every operation on a mutex may throw; every try_lock() may fail, but no
    blocking lock(); and both succeed exactly if the mutex is free, which makes
    the thread its owner.
   */
  lemma Possibilities(s: System, t: nat)
    requires Reachable(s) && t < |s.threads|
    ensures var Thread(g, pc) := s.threads[t];
            var target := Target(pc, |g|);
            && (Step(s, t, Raise).Some? <==> target.Some?)
            && (Step(s, t, Refuse).Some? <==> target.Some? && !pc.Blocking?)
            && (target.Some? ==>
                  && target.value < |g|
                  && (Step(s, t, Go).Some? <==> g[target.value] !in s.owner)
                  && (Step(s, t, Go).Some? ==> Step(s, t, Go).value.owner == s.owner[g[target.value] := t]))
  {
    ReachableInv(s);
    assert OwnsAsPlaced(s, t);
  }

  /** An exception, of a blocking lock() or of a try_lock(), leaves the whole operation. */
  lemma RaiseFails(s: System, t: nat)
    requires t < |s.threads| && Step(s, t, Raise).Some?
    ensures Locking(s.threads[t].pc)
    ensures var s' := Step(s, t, Raise).value;
            |s'.threads| == |s.threads| && HeadsFor(s'.threads[t].pc, Failed) && s'.owner == s.owner
  {
  }

  /** After a refused try_lock() the next attempt starts with the mutex that refused. */
  lemma RefuseRetries(s: System, t: nat)
    requires t < |s.threads| && Step(s, t, Refuse).Some?
    ensures var pc := s.threads[t].pc;
            var s' := Step(s, t, Refuse).value;
            && (pc.TryLow? || pc.TryHigh?) && Target(pc, |s.threads[t].group|) == Some(pc.c)
            && |s'.threads| == |s.threads| && HeadsFor(s'.threads[t].pc, Blocking(pc.c)) && s'.owner == s.owner
  {
  }

  /** On its way a thread can always go on, and every step of its own brings it nearer to the same end. */
  lemma HeadsOn(s: System, t: nat, end: PC)
    requires Inv(s) && t < |s.threads| && HeadsFor(s.threads[t].pc, end) && s.threads[t].pc != end
    ensures Step(s, t, Go).Some? && Step(s, t, Refuse).None? && Step(s, t, Raise).None?
    ensures var s' := Step(s, t, Go).value;
            var n := |s.threads[t].group|;
            && |s'.threads| == |s.threads| && s'.threads[t].group == s.threads[t].group
            && HeadsFor(s'.threads[t].pc, end)
            && WellPlaced(s.threads[t].pc, n) && WellPlaced(s'.threads[t].pc, n)
            && StepsLeft(s'.threads[t].pc, n) < StepsLeft(s.threads[t].pc, n)
  {
    assert OwnsAsPlaced(s, t);
    var Thread(g, pc) := s.threads[t];
    match pc
    case UndoLow(p, c, k, o) => assert k < c ==> Held(pc, |g|, k);
    case UndoHigh(p, c, k, o) => assert k < c ==> Held(pc, |g|, k);
    case Rollback(k, last, o) => assert k < last ==> Held(pc, |g|, k);
  }

  /** So it gets there by its own steps, within the bound, and has given everything back. */
  lemma {:induction false} Arrives(s: System, t: nat, end: PC) returns (schedule: seq<(nat, Choice)>)
    requires Inv(s) && t < |s.threads| && HeadsFor(s.threads[t].pc, end) && (end.Blocking? || end.Failed?)
    requires WellPlaced(s.threads[t].pc, |s.threads[t].group|)
    ensures |schedule| <= StepsLeft(s.threads[t].pc, |s.threads[t].group|)
    ensures forall i :: 0 <= i < |schedule| ==> schedule[i] == (t, Go)
    ensures Run(s, schedule).Some? && t < |Run(s, schedule).value.threads|
    ensures Run(s, schedule).value.threads[t] == Thread(s.threads[t].group, end)
    ensures Owned(Run(s, schedule).value, t) == {}
    decreases StepsLeft(s.threads[t].pc, |s.threads[t].group|)
  {
    if s.threads[t].pc == end {
      schedule := [];
      assert OwnsAsPlaced(s, t);
    } else {
      HeadsOn(s, t, end);
      StepKeeps(s, t, Go);
      var rest := Arrives(Step(s, t, Go).value, t, end);
      schedule := [(t, Go)] + rest;
      assert schedule[1..] == rest;
    }
  }

  lemma StepOfOther(s: System, u: nat, choice: Choice, t: nat)
    requires u < |s.threads| && t < |s.threads| && u != t && Step(s, u, choice).Some?
    ensures var s' := Step(s, u, choice).value;
            |s'.threads| == |s.threads| && s'.threads[t] == s.threads[t]
  {
  }

  /** After some of the steps of a schedule, thread t is at this place. */
  ghost predicate ReachesAt(s: System, schedule: seq<(nat, Choice)>, t: nat, pc: PC, i: nat)
  {
    i <= |schedule| && match Run(s, schedule[..i])
                       case None => false
                       case Some(s') => t < |s'.threads| && s'.threads[t].pc == pc
  }

  lemma ReachesLater(s: System, s': System, schedule: seq<(nat, Choice)>, t: nat, pc: PC, i: nat)
    requires schedule != [] && schedule[0].0 < |s.threads| && Step(s, schedule[0].0, schedule[0].1) == Some(s')
    requires ReachesAt(s', schedule[1..], t, pc, i)
    ensures ReachesAt(s, schedule, t, pc, i + 1)
  {
    assert schedule[..i + 1][1..] == schedule[1..][..i];
  }

  /** Whatever everybody does, the thread goes nowhere else before it has got there. */
  lemma {:induction false} NowhereElse(s: System, schedule: seq<(nat, Choice)>, t: nat, end: PC)
    requires Inv(s) && t < |s.threads| && HeadsFor(s.threads[t].pc, end) && Run(s, schedule).Some?
    ensures t < |Run(s, schedule).value.threads|
    ensures HeadsFor(Run(s, schedule).value.threads[t].pc, end) || exists i :: ReachesAt(s, schedule, t, end, i)
    decreases |schedule|
  {
    if schedule != [] {
      var (u, choice) := schedule[0];
      var s' := Step(s, u, choice).value;
      StepKeeps(s, u, choice);
      if u != t {
        StepOfOther(s, u, choice, t);
      } else if s.threads[t].pc != end {
        HeadsOn(s, t, end);
      }
      if s.threads[t].pc == end && u == t {
        assert schedule[..0] == [];
        assert ReachesAt(s, schedule, t, end, 0);
        ThreadsStay(s, schedule);
      } else {
        NowhereElse(s', schedule[1..], t, end);
        if exists i :: ReachesAt(s', schedule[1..], t, end, i) {
          var i :| ReachesAt(s', schedule[1..], t, end, i);
          ReachesLater(s, s', schedule, t, end, i);
        }
      }
    }
  }

  lemma {:induction false} ThreadsStay(s: System, schedule: seq<(nat, Choice)>)
    requires Run(s, schedule).Some?
    ensures |Run(s, schedule).value.threads| == |s.threads|
    decreases |schedule|
  {
    if schedule != [] {
      ThreadsStay(Step(s, schedule[0].0, schedule[0].1).value, schedule[1..]);
    }
  }

  /** A thread that has failed takes no step. */
  lemma {:induction false} FailedForGood(s: System, schedule: seq<(nat, Choice)>, t: nat)
    requires Inv(s) && t < |s.threads| && HeadsFor(s.threads[t].pc, Failed) && Run(s, schedule).Some?
    ensures t < |Run(s, schedule).value.threads| && HeadsFor(Run(s, schedule).value.threads[t].pc, Failed)
    decreases |schedule|
  {
    if schedule != [] {
      var (u, choice) := schedule[0];
      StepKeeps(s, u, choice);
      if u != t {
        StepOfOther(s, u, choice, t);
      } else if s.threads[t].pc != Failed {
        HeadsOn(s, t, Failed);
      }
      FailedForGood(Step(s, u, choice).value, schedule[1..], t);
    }
  }

  /**
    From every reachable state: an exception leads the thread, by its own steps
    and within the bound, out of lock() without any mutex; and whatever everybody
    does from there on, it never locks, returns or starts over.
   */
  lemma ExceptionLeaves(s: System, t: nat, schedule: seq<(nat, Choice)>) returns (own: seq<(nat, Choice)>)
    requires Reachable(s) && t < |s.threads| && Step(s, t, Raise).Some?
    ensures var s' := Step(s, t, Raise).value;
            var n := |s.threads[t].group|;
            && |s'.threads| == |s.threads| && s'.threads[t].group == s.threads[t].group
            && WellPlaced(s'.threads[t].pc, n) && |own| <= StepsLeft(s'.threads[t].pc, n)
            && (forall i :: 0 <= i < |own| ==> own[i] == (t, Go))
            && Run(s', own).Some? && t < |Run(s', own).value.threads|
            && Run(s', own).value.threads[t].pc == Failed && Owned(Run(s', own).value, t) == {}
            && (Run(s', schedule).Some? ==>
                  && t < |Run(s', schedule).value.threads|
                  && HeadsFor(Run(s', schedule).value.threads[t].pc, Failed))
  {
    ReachableInv(s);
    RaiseFails(s, t);
    StepKeeps(s, t, Raise);
    var s' := Step(s, t, Raise).value;
    assert OwnsAsPlaced(s', t);
    own := Arrives(s', t, Failed);
    if Run(s', schedule).Some? {
      FailedForGood(s', schedule, t);
    }
  }

  /**
    From every reachable state: a refusal leads the thread, by its own steps and
    within the bound, to a blocking lock() of exactly the mutex that refused,
    without any mutex; and whatever everybody does, it goes nowhere else before.
   */
  lemma RefusalRetries(s: System, t: nat, schedule: seq<(nat, Choice)>) returns (own: seq<(nat, Choice)>)
    requires Reachable(s) && t < |s.threads| && Step(s, t, Refuse).Some?
    ensures var pc := s.threads[t].pc;
            var s' := Step(s, t, Refuse).value;
            var n := |s.threads[t].group|;
            && (pc.TryLow? || pc.TryHigh?)
            && |s'.threads| == |s.threads| && s'.threads[t].group == s.threads[t].group
            && WellPlaced(s'.threads[t].pc, n) && |own| <= StepsLeft(s'.threads[t].pc, n)
            && (forall i :: 0 <= i < |own| ==> own[i] == (t, Go))
            && Run(s', own).Some? && t < |Run(s', own).value.threads|
            && Run(s', own).value.threads[t].pc == Blocking(pc.c) && Owned(Run(s', own).value, t) == {}
            && (Run(s', schedule).Some? ==>
                  && t < |Run(s', schedule).value.threads|
                  && (|| HeadsFor(Run(s', schedule).value.threads[t].pc, Blocking(pc.c))
                      || exists i :: ReachesAt(s', schedule, t, Blocking(pc.c), i)))
  {
    ReachableInv(s);
    RefuseRetries(s, t);
    StepKeeps(s, t, Refuse);
    var s', end := Step(s, t, Refuse).value, Blocking(s.threads[t].pc.c);
    assert OwnsAsPlaced(s', t);
    own := Arrives(s', t, end);
    if Run(s', schedule).Some? {
      NowhereElse(s', schedule, t, end);
    }
  }

  // ---- an uncontended lock succeeds ----

  /** Nobody else owns a mutex of the thread's group. */
  ghost predicate Uncontended(s: System, t: nat)
    requires t < |s.threads|
  {
    forall m :: m in s.threads[t].group && m in s.owner ==> s.owner[m] == t
  }

  function Ahead(pc: PC, n: nat): int
  {
    match pc
    case Idle => 2 * n + 4
    case Blocking(_) => 2 * n + 3
    case TryLow(_, c) => 2 * n + 2 - c
    case TryHigh(_, c) => n + 1 - c
    case _ => 0
  }

  /** On the way to its locks a thread that nobody contends with can always go on. */
  lemma SoloStep(s: System, t: nat)
    requires Inv(s) && t < |s.threads| && |s.threads[t].group| > 0 && Uncontended(s, t)
    requires var pc := s.threads[t].pc; pc.Idle? || Locking(pc)
    ensures Step(s, t, Go).Some?
    ensures var s' := Step(s, t, Go).value;
            var n := |s.threads[t].group|;
            && |s'.threads| == |s.threads| && s'.threads[t].group == s.threads[t].group && Uncontended(s', t)
            && (s'.threads[t].pc.Holding? || (Locking(s'.threads[t].pc) && 0 <= Ahead(s'.threads[t].pc, n)))
            && Ahead(s'.threads[t].pc, n) < Ahead(s.threads[t].pc, n)
  {
    assert OwnsAsPlaced(s, t);
    var Thread(g, pc) := s.threads[t];
    assert forall i :: 0 <= i < |g| && !Held(pc, |g|, i) ==> g[i] !in s.owner;
  }

  /** So it ends up holding the whole group, by its own steps alone. */
  lemma {:induction false} SoloSucceeds(s: System, t: nat) returns (schedule: seq<(nat, Choice)>)
    requires Inv(s) && t < |s.threads| && |s.threads[t].group| > 0 && Uncontended(s, t)
    requires var pc := s.threads[t].pc; (pc.Idle? || Locking(pc)) && 0 <= Ahead(pc, |s.threads[t].group|)
    ensures forall i :: 0 <= i < |schedule| ==> schedule[i] == (t, Go)
    ensures Run(s, schedule).Some? && t < |Run(s, schedule).value.threads|
    ensures Run(s, schedule).value.threads[t] == Thread(s.threads[t].group, Holding)
    decreases Ahead(s.threads[t].pc, |s.threads[t].group|)
  {
    SoloStep(s, t);
    StepKeeps(s, t, Go);
    var s' := Step(s, t, Go).value;
    if s'.threads[t].pc.Holding? {
      schedule := [(t, Go)];
    } else {
      var rest := SoloSucceeds(s', t);
      schedule := [(t, Go)] + rest;
      assert schedule[1..] == rest;
    }
  }
}
