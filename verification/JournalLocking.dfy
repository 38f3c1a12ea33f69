/**
 * What every step keeps about the locks: who holds which stripes, that exclusive guards exclude,
 * and that nobody waits while holding a guard. From this: mutual exclusion and no deadlock.
 */
module JournalLocking {
  import opened JournalRegions
  import opened JournalTile
  import opened JournalProtocol

  predicate AllSet(gens: seq<Gen>) {
    forall g <- gens :: g != 0
  }

  // What the phase of an I/O says about its locks and its generations.
  predicate Shape(c: Setup, shifts: seq<nat>, io: IO)
    requires |shifts| == |c.journals|
  {
    InRange(c, shifts, io) &&
    var locks := Locks(c, shifts, io);
    && io.held <= Elems(locks)
    && (Guarded(io.phase) ==> io.held == Elems(locks))
    && match io.phase
       case Locking(k) =>
         k < |locks| && io.held == Elems(locks[..k]) && io.gens == [] && !io.anyWasVerifiable
       case Loading => !io.exclusive && |io.gens| <= io.num && !io.anyWasVerifiable
       case Upgrading => !io.exclusive && !io.anyWasVerifiable
       case Reading => !io.exclusive && |io.gens| == io.num
       case Claiming(m) => io.exclusive && m <= |io.gens| <= m + 1 && |io.gens| <= io.num && AllSet(io.gens)
       case Writing => io.exclusive && |io.gens| == io.num && AllSet(io.gens)
       case Committing(d) => io.exclusive && d <= |io.gens| == io.num && AllSet(io.gens)
       case Releasing => true
       case Orphan => io.held == {} && |io.gens| == io.num && AllSet(io.gens)
  }

  ghost predicate AllShaped(c: Setup, s: State)
    requires WellFormed(c, s)
  {
    forall x | x in s.ios :: Shape(c, s.shifts, s.ios[x])
  }

  predicate Compatible(a: IO, b: IO) {
    forall l | l in a.held && l in b.held :: !a.exclusive && !b.exclusive
  }

  // A lock that is held exclusively is held once.
  predicate LocksExclude(ios: map<nat, IO>) {
    forall x, y | x in ios && y in ios && x != y :: Compatible(ios[x], ios[y])
  }

  // A thread that may wait inside begin() has no other I/O in flight.
  predicate WaitsAlone(ios: map<nat, IO>) {
    forall x, y | x in ios && y in ios && x != y && ios[x].thread == ios[y].thread ::
      InBegin(ios[x].phase) && ios[x].mayBlock ==> ios[y].phase.Orphan?
  }

  ghost predicate LockInv(c: Setup, s: State)
    requires WellFormed(c, s)
  {
    AllShaped(c, s) && LocksExclude(s.ios) && WaitsAlone(s.ios)
  }

  // ---- Preservation ----

  // A step that acquires no lock and does not enter begin().
  lemma UpdateKeepsLockInv(c: Setup, s: State, t: State, id: nat, io: IO)
    requires WellFormed(c, s) && WellFormed(c, t) && LockInv(c, s) && id in s.ios
    requires t.shifts == s.shifts && t.ios == s.ios[id := io]
    requires Shape(c, s.shifts, io)
    requires io.thread == s.ios[id].thread && io.mayBlock == s.ios[id].mayBlock
    requires io.held <= s.ios[id].held && (io.exclusive == s.ios[id].exclusive || io.held == {})
    requires InBegin(io.phase) ==> InBegin(s.ios[id].phase)
    requires s.ios[id].phase.Orphan? ==> io.phase.Orphan?
    ensures LockInv(c, t)
  {
    hide Shape;
    forall x, y | x in t.ios && y in t.ios && x != y ensures Compatible(t.ios[x], t.ios[y]) {
      assert Compatible(s.ios[x], s.ios[y]);
    }
  }

  lemma ElemsNext(locks: seq<nat>, next: nat)
    requires next < |locks|
    ensures Elems(locks[..next + 1]) == Elems(locks[..next]) + {locks[next]}
    ensures Elems(locks[..next + 1]) <= Elems(locks)
  {
    assert locks[..next + 1] == locks[..next] + [locks[next]];
  }

  lemma LockedShape(c: Setup, s: State, id: nat)
    requires WellFormed(c, s) && LockInv(c, s) && id in s.ios && StepEnabled(c, s, id, Lock)
    ensures Shape(c, s.shifts, NextIO(c, s, id, Lock))
  {
    hide LockList, Elems, LocksExclude, WaitsAlone, Free;
    var io := s.ios[id];
    assert Shape(c, s.shifts, io);
    var locks := Locks(c, s.shifts, io);
    ElemsNext(locks, io.phase.next);
    assert locks[..|locks|] == locks;
  }

  lemma LockKeepsLockInv(c: Setup, s: State, t: State, id: nat)
    requires WellFormed(c, s) && LockInv(c, s) && id in s.ios && StepEnabled(c, s, id, Lock)
    requires WellFormed(c, t) && t.shifts == s.shifts && t.ios == s.ios[id := NextIO(c, s, id, Lock)]
    ensures LockInv(c, t)
  {
    hide Locks, Shape;
    LockedShape(c, s, id);
    forall x, y | x in t.ios && y in t.ios && x != y ensures Compatible(t.ios[x], t.ios[y]) {
      assert Compatible(s.ios[x], s.ios[y]);
    }
  }

  lemma RemovalKeepsLockInv(c: Setup, s: State, t: State, id: nat)
    requires WellFormed(c, s) && WellFormed(c, t) && LockInv(c, s)
    requires t.shifts == s.shifts && t.ios == s.ios - {id}
    ensures LockInv(c, t)
  {
    hide Shape, Compatible;
  }

  // The steps of begin() after its locks are taken.
  predicate AfterLocking(step: Step) {
    step.LoadCell? || step.Decide? || step.ClaimLoad? || step.ClaimMark? || step.ClaimDone? || step.SyncFailed?
  }

  lemma BeginStepShaped(c: Setup, s: State, id: nat, step: Step)
    requires AfterLocking(step)
    requires WellFormed(c, s) && id in s.ios && Shape(c, s.shifts, s.ios[id]) && StepEnabled(c, s, id, step)
    ensures Shape(c, s.shifts, NextIO(c, s, id, step))
  {
    hide LockList, Expected, ContentComplete, Elems;
  }

  lemma LaterStepShaped(c: Setup, s: State, id: nat, step: Step)
    requires !AfterLocking(step)
    requires WellFormed(c, s) && id in s.ios && Shape(c, s.shifts, s.ios[id]) && StepEnabled(c, s, id, step)
    requires !step.Lock? && !(step.Finish? && s.ios[id].phase.Releasing?)
    ensures Shape(c, s.shifts, NextIO(c, s, id, step))
  {
    hide LockList, Expected, ContentComplete;
    assert Locks(c, s.shifts, s.ios[id])[..0] == [];
  }

  lemma NextIOShaped(c: Setup, s: State, id: nat, step: Step)
    requires WellFormed(c, s) && LockInv(c, s) && id in s.ios && StepEnabled(c, s, id, step)
    requires !step.Lock? && !(step.Finish? && s.ios[id].phase.Releasing?)
    ensures Shape(c, s.shifts, NextIO(c, s, id, step))
  {
    hide Shape, NextIO, StepEnabled, WellFormed;
    if AfterLocking(step) {
      BeginStepShaped(c, s, id, step);
    } else {
      LaterStepShaped(c, s, id, step);
    }
  }

  predicate SameIdentity(io: IO, io': IO, step: Step) {
    && io'.thread == io.thread && io'.mayBlock == io.mayBlock && io'.held <= io.held
    && (io'.exclusive == io.exclusive || io'.held == {})
    && (InBegin(io'.phase) && !(step.Finish? && io.phase.Releasing?) ==> InBegin(io.phase))
    && (io.phase.Orphan? ==> io'.phase.Orphan?)
  }

  lemma BeginStepIdentity(c: Setup, s: State, id: nat, step: Step)
    requires WellFormed(c, s) && id in s.ios && StepEnabled(c, s, id, step) && AfterLocking(step)
    ensures SameIdentity(s.ios[id], NextIO(c, s, id, step), step)
  {
    hide Locks, Expected, ContentComplete, Free;
  }

  lemma LaterStepIdentity(c: Setup, s: State, id: nat, step: Step)
    requires WellFormed(c, s) && id in s.ios && StepEnabled(c, s, id, step) && !AfterLocking(step) && !step.Lock?
    ensures SameIdentity(s.ios[id], NextIO(c, s, id, step), step)
  {
    hide Locks, Expected, ContentComplete, Free;
  }

  // Between its locking steps, an I/O keeps its identity and gains no lock.
  lemma NextIOKeepsIdentity(c: Setup, s: State, id: nat, step: Step)
    requires WellFormed(c, s) && id in s.ios && StepEnabled(c, s, id, step) && !step.Lock?
    ensures SameIdentity(s.ios[id], NextIO(c, s, id, step), step)
  {
    hide StepEnabled, NextIO, SameIdentity, WellFormed;
    if AfterLocking(step) {
      BeginStepIdentity(c, s, id, step);
    } else {
      LaterStepIdentity(c, s, id, step);
    }
  }

  lemma DoKeepsLockInv(c: Setup, s: State, t: State, id: nat, step: Step)
    requires WellFormed(c, s) && LockInv(c, s) && id in s.ios && StepEnabled(c, s, id, step)
    requires WellFormed(c, t) && t.shifts == s.shifts && t.ios == NextIOs(c, s, id, step)
    ensures LockInv(c, t)
  {
    hide LockInv, NextIO, WellFormed, StepEnabled;
    if step.Lock? {
      LockKeepsLockInv(c, s, t, id);
    } else if step.Finish? && s.ios[id].phase.Releasing? {
      RemovalKeepsLockInv(c, s, t, id);
    } else {
      NextIOShaped(c, s, id, step);
      NextIOKeepsIdentity(c, s, id, step);
      UpdateKeepsLockInv(c, s, t, id, NextIO(c, s, id, step));
    }
  }

  lemma NewShaped(c: Setup, shifts: seq<nat>, io: IO)
    requires |shifts| == |c.journals| && InRange(c, shifts, io) && IsNew(io)
    ensures Shape(c, shifts, io)
  {
    hide LockList;
    assert Locks(c, shifts, io)[..0] == [];
  }

  lemma BeginKeepsLockInv(c: Setup, s: State, t: State, id: nat, io: IO)
    requires WellFormed(c, s) && LockInv(c, s) && Enabled(c, s, Begin(id, io))
    requires WellFormed(c, t) && t.shifts == s.shifts && t.ios == s.ios[id := io]
    ensures LockInv(c, t)
  {
    hide Shape, InRange;
    NewShaped(c, s.shifts, io);
    forall x, y | x in t.ios && y in t.ios && x != y ensures Compatible(t.ios[x], t.ios[y]) {
      if x != id && y != id { assert Compatible(s.ios[x], s.ios[y]); }
    }
  }

  lemma StaysWellFormed(c: Setup, s: State, e: Event)
    requires WellFormed(c, s) && Enabled(c, s, e)
    ensures WellFormed(c, Apply(c, s, e))
  {
    hide NextIO, Expected, ContentComplete;
  }

  lemma LockInvStep(c: Setup, s: State, e: Event)
    requires WellFormed(c, s) && LockInv(c, s) && Enabled(c, s, e)
    ensures WellFormed(c, Apply(c, s, e)) && LockInv(c, Apply(c, s, e))
  {
    hide Shape, WellFormed, StepEnabled;
    StaysWellFormed(c, s, e);
    var t := Apply(c, s, e);
    match e
    case Begin(id, io) => BeginKeepsLockInv(c, s, t, id, io);
    case Do(id, step) => DoKeepsLockInv(c, s, t, id, step);
    case WriteBack(_) =>
    case Restart(_) =>
    case PowerFail(_) =>
  }

  lemma {:induction false} RunKeepsLockInv(c: Setup, s: State, events: seq<Event>, t: State)
    requires Leads(c, s, events, t) && LockInv(c, s)
    ensures WellFormed(c, t) && LockInv(c, t)
    decreases |events|
  {
    hide LockInv, Enabled, Apply, WellFormed;
    if events != [] {
      LockInvStep(c, s, events[0]);
      RunKeepsLockInv(c, Apply(c, s, events[0]), events[1..], t);
    }
  }

  // ---- Mutual exclusion ----

  // Two guards of one journal whose ranges overlap are never held together if either of them
  // is exclusive.
  lemma GuardsExclude(c: Setup, s: State, x: nat, y: nat, b: BlockId)
    requires WellFormed(c, s) && LockInv(c, s)
    requires x in s.ios && y in s.ios && x != y
    requires Guarded(s.ios[x].phase) && Guarded(s.ios[y].phase)
    requires Covers(s.ios[x], b) && Covers(s.ios[y], b)
    ensures !s.ios[x].exclusive && !s.ios[y].exclusive
  {
    hide LockList, StripeOf;
    var ix, iy := s.ios[x], s.ios[y];
    var shift, salt := s.shifts[b.journal], c.journals[b.journal].seed;
    LocksCoverRange(ix.base, ix.num, shift, salt, b.index);
    LocksCoverRange(iy.base, iy.num, shift, salt, b.index);
    assert StripeOf(b.index, shift, salt) in Elems(Locks(c, s.shifts, ix));
    assert StripeOf(b.index, shift, salt) in Elems(Locks(c, s.shifts, iy));
    assert Compatible(ix, iy);
  }

  // ---- No circular wait ----

  // The lock that an I/O is about to take.
  ghost function Awaited(c: Setup, s: State, x: nat): (lock: nat)
    requires WellFormed(c, s) && LockInv(c, s) && x in s.ios && s.ios[x].phase.Locking?
    ensures lock < NUM_STRIPES
  {
    assert Shape(c, s.shifts, s.ios[x]);
    var locks := Locks(c, s.shifts, s.ios[x]);
    assert locks[s.ios[x].phase.next] in locks;
    locks[s.ios[x].phase.next]
  }

  // I/O x waits for I/O y, either because y holds the lock in a conflicting mode or, where the
  // mutex prefers writers, because y waits for the same lock exclusively.
  ghost predicate WaitsFor(c: Setup, s: State, x: nat, y: nat)
    requires WellFormed(c, s) && LockInv(c, s)
  {
    && x in s.ios && y in s.ios && x != y && s.ios[x].phase.Locking? && s.ios[x].mayBlock
    && (|| (Awaited(c, s, x) in s.ios[y].held && (s.ios[x].exclusive || s.ios[y].exclusive))
        || (s.ios[y].phase.Locking? && s.ios[y].mayBlock && Awaited(c, s, y) == Awaited(c, s, x)
            && s.ios[y].exclusive && !s.ios[x].exclusive))
  }

  ghost predicate ThreadWaits(c: Setup, s: State, t: nat, u: nat)
    requires WellFormed(c, s) && LockInv(c, s)
  {
    exists x, y :: WaitsFor(c, s, x, y) && s.ios[x].thread == t && s.ios[y].thread == u
  }

  // Position of a waiting I/O in the order in which all threads take locks.
  ghost function Rank(c: Setup, s: State, x: nat): nat
    requires WellFormed(c, s) && LockInv(c, s) && x in s.ios && s.ios[x].phase.Locking?
  {
    2 * Awaited(c, s, x) + if s.ios[x].exclusive then 1 else 0
  }

  // Whoever is waited for, and waits as well, waits for a later lock.
  lemma WaitingClimbs(c: Setup, s: State, x: nat, y: nat, y': nat, z: nat)
    requires WellFormed(c, s) && LockInv(c, s)
    requires WaitsFor(c, s, x, y) && WaitsFor(c, s, y', z) && s.ios[y].thread == s.ios[y'].thread
    ensures y' == y && Rank(c, s, x) < Rank(c, s, y)
  {
    hide LockList;
    assert Shape(c, s.shifts, s.ios[y]) && Shape(c, s.shifts, s.ios[x]);
  }

  // Each thread of the path waits for the next one.
  ghost predicate WaitPath(c: Setup, s: State, path: seq<nat>)
    requires WellFormed(c, s) && LockInv(c, s)
  {
    |path| >= 2 ==> ThreadWaits(c, s, path[0], path[1]) && WaitPath(c, s, path[1..])
  }

  lemma {:induction false} PathClimbs(c: Setup, s: State, path: seq<nat>, y: nat, z: nat)
      returns (x: nat, w: nat)
    requires WellFormed(c, s) && LockInv(c, s) && |path| >= 2 && WaitPath(c, s, path)
    requires WaitsFor(c, s, y, z) && s.ios[y].thread == path[|path| - 1]
    ensures WaitsFor(c, s, x, w) && s.ios[x].thread == path[0]
    ensures Rank(c, s, x) < Rank(c, s, y)
  {
    hide Awaited, Rank, LockInv, WellFormed;
    x, w :| WaitsFor(c, s, x, w) && s.ios[x].thread == path[0] && s.ios[w].thread == path[1];
    if |path| == 2 {
      WaitingClimbs(c, s, x, w, y, z);
    } else {
      var x', w' := PathClimbs(c, s, path[1..], y, z);
      WaitingClimbs(c, s, x, w, x', w');
    }
  }

  lemma OneWaitPerThread(c: Setup, s: State, x: nat, w: nat, y: nat, z: nat)
    requires WellFormed(c, s) && LockInv(c, s)
    requires WaitsFor(c, s, x, w) && WaitsFor(c, s, y, z) && s.ios[x].thread == s.ios[y].thread
    ensures x == y
  {
    hide Shape;
  }

  // For every reachable state: no thread waits for itself through any chain of threads each of
  // which waits for the next.
  lemma NoCircularWait(c: Setup, s: State, path: seq<nat>)
    requires WellFormed(c, s) && LockInv(c, s) && |path| >= 2
    ensures WaitPath(c, s, path) ==> path[0] != path[|path| - 1]
  {
    hide Awaited, Rank, LockInv, WellFormed;
    if WaitPath(c, s, path) && path[0] == path[|path| - 1] {
      var y, z :| WaitsFor(c, s, y, z) && s.ios[y].thread == path[0] && s.ios[z].thread == path[1];
      var x, w := PathClimbs(c, s, path, y, z);
      OneWaitPerThread(c, s, x, w, y, z);
    }
  }

  // ---- Progress ----

  // A step that an I/O can take on its own once it is not waiting for a lock.
  lemma OwnStep(c: Setup, s: State, x: nat) returns (step: Step)
    requires WellFormed(c, s) && LockInv(c, s) && x in s.ios
    requires !s.ios[x].phase.Locking? && !s.ios[x].phase.Orphan?
    ensures StepEnabled(c, s, x, step)
  {
    hide Locks, Elems, Free, ContentComplete, LocksExclude, WaitsAlone;
    var io := s.ios[x];
    assert Shape(c, s.shifts, io);
    if io.phase.Loading? {
      step := if |io.gens| < io.num then LoadCell else Decide;
    } else if io.phase.Claiming? {
      step := if |io.gens| > io.phase.marked then ClaimMark
              else if io.phase.marked < io.num then ClaimLoad else ClaimDone;
    } else if io.phase.Reading? {
      step := ReadDone;
    } else if io.phase.Writing? {
      step := WriteFailed;
    } else if io.phase.Committing? {
      step := if io.phase.done < io.num then CommitCell else CommitDone(false);
    } else if io.held == {} {
      step := Finish;
    } else {
      var l :| l in io.held;
      step := Unlock(l);
    }
  }

  // Whoever is waited for can go on, unless it waits further on in the order of the locks.
  lemma WaitedForIsAhead(c: Setup, s: State, x: nat, y: nat)
    requires WellFormed(c, s) && LockInv(c, s) && WaitsFor(c, s, x, y)
    ensures !s.ios[y].phase.Orphan?
    ensures s.ios[y].phase.Locking? ==> Rank(c, s, x) < Rank(c, s, y)
  {
    hide LockList;
    assert Shape(c, s.shifts, s.ios[y]) && Shape(c, s.shifts, s.ios[x]);
  }

  // Whoever waits for nobody can take a step.
  lemma NotWaitingCanStep(c: Setup, s: State, x: nat) returns (step: Step)
    requires WellFormed(c, s) && LockInv(c, s) && x in s.ios && !s.ios[x].phase.Orphan?
    requires forall y :: !WaitsFor(c, s, x, y)
    ensures StepEnabled(c, s, x, step)
  {
    hide LockList;
    var io := s.ios[x];
    assert Shape(c, s.shifts, io);
    if !io.phase.Locking? {
      step := OwnStep(c, s, x);
    } else if !io.mayBlock {
      step := Refuse;
    } else {
      forall y | y in s.ios && y != x && Awaited(c, s, x) in s.ios[y].held
        ensures !io.exclusive && !s.ios[y].exclusive
      {
        assert !WaitsFor(c, s, x, y);
      }
      step := Lock;
    }
  }

  // Each I/O of the chain waits for the next one.
  ghost predicate Chain(c: Setup, s: State, chain: seq<nat>)
    requires WellFormed(c, s) && LockInv(c, s)
  {
    forall i | 0 < i < |chain| :: WaitsFor(c, s, chain[i - 1], chain[i])
  }

  // The chain starts at I/O x and ends at one that waits for nobody and can take a step.
  ghost predicate LeadsToStep(c: Setup, s: State, x: nat, chain: seq<nat>)
    requires WellFormed(c, s) && LockInv(c, s)
  {
    && chain != [] && chain[0] == x && Chain(c, s, chain)
    && var last := chain[|chain| - 1];
    last in s.ios && (forall y :: !WaitsFor(c, s, last, y)) && exists step :: StepEnabled(c, s, last, step)
  }

  // Follow the waits from any I/O, those behind waiting writers included: they end at an I/O that
  // waits for nobody and can take a step. So no reachable state is stuck.
  lemma {:induction false} NeverStuck(c: Setup, s: State, x: nat) returns (chain: seq<nat>)
    requires WellFormed(c, s) && LockInv(c, s) && x in s.ios && !s.ios[x].phase.Orphan?
    ensures LeadsToStep(c, s, x, chain)
    decreases if s.ios[x].phase.Locking? then 2 * NUM_STRIPES - Rank(c, s, x) else 0
  {
    hide Awaited, WellFormed, LockInv, WaitsFor, StepEnabled;
    if y :| WaitsFor(c, s, x, y) {
      WaitingIO(c, s, x, y);
      WaitedForIsAhead(c, s, x, y);
      var rest := NeverStuck(c, s, y);
      chain := [x] + rest;
      forall i | 0 < i < |chain| ensures WaitsFor(c, s, chain[i - 1], chain[i]) {
        if i > 1 { assert chain[i - 1] == rest[i - 2] && chain[i] == rest[i - 1]; }
      }
    } else {
      var step := NotWaitingCanStep(c, s, x);
      chain := [x];
    }
  }

  lemma WaitingIO(c: Setup, s: State, x: nat, y: nat)
    requires WellFormed(c, s) && LockInv(c, s) && WaitsFor(c, s, x, y)
    ensures x in s.ios && y in s.ios && s.ios[x].phase.Locking?
  {
  }

  // ---- From fresh journals ----

  // In every reachable state of any number of threads and journals: no chain of waiting threads
  // is closed, and the waits of any I/O in flight lead to one that can take a step.
  lemma DeadlockFreedom(c: Setup, s: State, events: seq<Event>, t: State)
    requires Init(c, s) && Leads(c, s, events, t)
    ensures WellFormed(c, t) && LockInv(c, t)
    ensures forall path: seq<nat> | |path| >= 2 && WaitPath(c, t, path) :: path[0] != path[|path| - 1]
    ensures forall x | x in t.ios && !t.ios[x].phase.Orphan? :: exists chain :: LeadsToStep(c, t, x, chain)
  {
    RunKeepsLockInv(c, s, events, t);
    hide WaitPath, LeadsToStep, LockInv, WellFormed;
    forall path: seq<nat> | |path| >= 2 && WaitPath(c, t, path) ensures path[0] != path[|path| - 1] {
      NoCircularWait(c, t, path);
    }
    forall x | x in t.ios && !t.ios[x].phase.Orphan? ensures exists chain :: LeadsToStep(c, t, x, chain) {
      var chain := NeverStuck(c, t, x);
    }
  }

  // In every reachable state: two I/Os that hold their guards on a common block both hold them
  // shared.
  lemma MutualExclusion(c: Setup, s: State, events: seq<Event>, t: State, x: nat, y: nat, b: BlockId)
    requires Init(c, s) && Leads(c, s, events, t)
    requires x in t.ios && y in t.ios && x != y && Covers(t.ios[x], b) && Covers(t.ios[y], b)
    requires Guarded(t.ios[x].phase) && Guarded(t.ios[y].phase)
    ensures !t.ios[x].exclusive && !t.ios[y].exclusive
  {
    RunKeepsLockInv(c, s, events, t);
    GuardsExclude(c, t, x, y, b);
  }
}
