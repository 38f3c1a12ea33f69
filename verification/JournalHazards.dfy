/**
 * Runs that show that the conditions of the safety theorems are needed, built for every state
 * that violates them, and from these the exact conditions.
 */
module JournalHazards {
  import opened Word64
  import opened JournalRegions
  import opened JournalTile
  import opened JournalProtocol
  import opened JournalLocking
  import opened JournalSafety
  import opened JournalPower

  lemma {:induction false} Append(c: Setup, s: State, events: seq<Event>, m: State, e: Event)
    requires Leads(c, s, events, m) && WellFormed(c, m) && Enabled(c, m, e)
    ensures Leads(c, s, events + [e], Apply(c, m, e))
    decreases |events|
  {
    hide Enabled, Apply, WellFormed;
    if events == [] {
      assert ([] + [e])[1..] == [];
      StaysWellFormed(c, m, e);
    } else {
      Append(c, Apply(c, s, events[0]), events[1..], m, e);
      assert (events + [e])[1..] == events[1..] + [e];
    }
  }

  lemma {:induction false} Join(c: Setup, s: State, first: seq<Event>, m: State, second: seq<Event>, t: State)
    requires Leads(c, s, first, m) && Leads(c, m, second, t)
    ensures Leads(c, s, first + second, t)
    decreases |first|
  {
    hide Enabled, Apply, WellFormed;
    if first == [] {
      assert [] + second == second;
    } else {
      Join(c, Apply(c, s, first[0]), first[1..], m, second, t);
      assert (first + second)[1..] == first[1..] + second;
    }
  }

  // ---- One I/O that writes one block by itself ----

  function SoloStripe(c: Setup, s: State, b: BlockId): nat
    requires IsBlock(c, b) && |s.shifts| == |c.journals|
  {
    StripeOf(b.index, s.shifts[b.journal], c.journals[b.journal].seed)
  }

  function SoloIO(thread: nat, b: BlockId): IO {
    NewIO(thread, b.journal, b.index, 1, Write, true)
  }

  // A new I/O on the block can start and lock at once.
  ghost predicate CanStart(c: Setup, s: State, b: BlockId, id: nat, thread: nat) {
    && WellFormed(c, s) && IsBlock(c, b) && id !in s.ios
    && forall y | y in s.ios :: s.ios[y].thread != thread && SoloStripe(c, s, b) !in s.ios[y].held
  }

  lemma SoloLocks(c: Setup, s: State, io: IO, b: BlockId)
    requires WellFormed(c, s) && IsBlock(c, b) && io.journal == b.journal && io.base == b.index && io.num == 1
    ensures InRange(c, s.shifts, io) && Locks(c, s.shifts, io) == [SoloStripe(c, s, b)]
  {
  }

  // Events of a run in which nothing is cut short.
  predicate Plain(e: Event) {
    !e.Restart? && !(e.Do? && (e.step.SyncFailed? || e.step.Abandon?))
  }

  // The run so far has put one I/O, and nothing else, in flight beside those of s.
  ghost predicate Solo(c: Setup, s: State, events: seq<Event>, m: State, id: nat, io: IO) {
    && Leads(c, s, events, m) && WellFormed(c, m) && m.shifts == s.shifts
    && m.ios == s.ios[id := io] && forall e <- events :: Plain(e)
  }

  lemma SoloBegin(c: Setup, s: State, b: BlockId, id: nat, thread: nat) returns (events: seq<Event>, m: State)
    requires CanStart(c, s, b, id, thread)
    ensures Solo(c, s, events, m, id, SoloIO(thread, b)) && m == s.(ios := s.ios[id := SoloIO(thread, b)])
  {
    hide StripeOf, Locks, StepEnabled;
    var io := SoloIO(thread, b);
    SoloLocks(c, s, io, b);
    events, m := [Begin(id, io)], Apply(c, s, Begin(id, io));
    StaysWellFormed(c, s, Begin(id, io));
    assert events[1..] == [] && Leads(c, m, [], m);
  }

  // Any other step of that I/O, with its effect on the rest of the state.
  lemma SoloStep(c: Setup, s: State, events: seq<Event>, m: State, id: nat, io: IO, step: Step)
      returns (events': seq<Event>, m': State)
    requires Solo(c, s, events, m, id, io) && StepEnabled(c, m, id, step)
    requires !step.Finish? && Plain(Do(id, step))
    ensures Solo(c, s, events', m', id, NextIO(c, m, id, step))
    ensures m'.cells == NextCells(c, m, id, step) && m'.disk == NextDisk(c, m, id, step)
    ensures m'.content == NextContent(c, m, id, step)
  {
    hide StepEnabled, NextIO, Leads, NextCells, NextDisk, NextContent, WellFormed;
    events', m' := events + [Do(id, step)], Apply(c, m, Do(id, step));
    Append(c, s, events, m, Do(id, step));
    StaysWellFormed(c, m, Do(id, step));
    assert s.ios[id := io][id := NextIO(c, m, id, step)] == s.ios[id := NextIO(c, m, id, step)];
  }

  function WritingIO(c: Setup, s: State, b: BlockId, thread: nat, prev: Gen): IO
    requires IsBlock(c, b) && |s.shifts| == |c.journals|
  {
    SoloIO(thread, b).(held := {SoloStripe(c, s, b)}, phase := Writing, gens := [NextGen(prev)],
                       anyWasVerifiable := prev != 0)
  }

  function LockedIO(c: Setup, s: State, b: BlockId, thread: nat): IO
    requires IsBlock(c, b) && |s.shifts| == |c.journals|
  {
    SoloIO(thread, b).(held := {SoloStripe(c, s, b)}, phase := Claiming(0))
  }

  lemma SoloLock(c: Setup, s: State, b: BlockId, id: nat, thread: nat) returns (events: seq<Event>, t: State)
    requires CanStart(c, s, b, id, thread)
    ensures Solo(c, s, events, t, id, LockedIO(c, s, b, thread))
    ensures t.cells == s.cells && t.content == s.content && t.disk == s.disk
  {
    hide Locks, StripeOf, Leads, NextIOs;
    events, t := SoloBegin(c, s, b, id, thread);
    SoloLocks(c, t, t.ios[id], b);
    events, t := SoloStep(c, s, events, t, id, SoloIO(thread, b), Lock);
    assert {} + {SoloStripe(c, s, b)} == {SoloStripe(c, s, b)};
  }

  function LoadedIO(c: Setup, s: State, b: BlockId, thread: nat, prev: Gen): IO
    requires IsBlock(c, b) && |s.shifts| == |c.journals|
  {
    LockedIO(c, s, b, thread).(gens := [NextGen(prev)], anyWasVerifiable := prev != 0)
  }

  lemma SoloLoad(c: Setup, s: State, b: BlockId, id: nat, thread: nat) returns (events: seq<Event>, t: State)
    requires CanStart(c, s, b, id, thread)
    ensures Solo(c, s, events, t, id, LoadedIO(c, s, b, thread, s.cells[b]))
    ensures t.cells == s.cells && t.content == s.content && t.disk == s.disk
  {
    hide Locks, StripeOf, Expected, Leads, ContentComplete, Free;
    var io := LockedIO(c, s, b, thread);
    events, t := SoloLock(c, s, b, id, thread);
    SoloLocks(c, t, io, b);
    assert Block(c, io, 0) == b;
    events, t := SoloStep(c, s, events, t, id, io, ClaimLoad);
    assert [] + [NextGen(s.cells[b])] == [NextGen(s.cells[b])];
  }

  // The claim of a single block, up to the point where the device write may start.
  lemma SoloClaim(c: Setup, s: State, b: BlockId, id: nat, thread: nat) returns (events: seq<Event>, t: State)
    requires CanStart(c, s, b, id, thread)
    ensures Solo(c, s, events, t, id, WritingIO(c, s, b, thread, s.cells[b]))
    ensures t.cells == s.cells[b := 0] && t.content == s.content
    ensures s.cells[b] == 0 ==> t.disk == s.disk
  {
    hide Locks, StripeOf, Expected, Leads, ContentComplete, Free, SoloStripe;
    var io := LoadedIO(c, s, b, thread, s.cells[b]);
    events, t := SoloLoad(c, s, b, id, thread);
    SoloLocks(c, t, io, b);
    assert Block(c, io, 0) == b;
    events, t := SoloStep(c, s, events, t, id, io, ClaimMark);
    var io' := io.(phase := Claiming(1));
    SoloLocks(c, t, io', b);
    events, t := SoloStep(c, s, events, t, id, io', ClaimDone);
  }

  // The device write of a single block, byte by byte.
  lemma SoloPutAll(c: Setup, s: State, events0: seq<Event>, m0: State, id: nat, io: IO, b: BlockId)
      returns (events: seq<Event>, m: State)
    requires Solo(c, s, events0, m0, id, io) && IsBlock(c, b)
    requires io.phase.Writing? && io.journal == b.journal && io.base == b.index && io.num == 1 == |io.gens|
    ensures Solo(c, s, events, m, id, io)
    ensures m.cells == m0.cells && m.content == m0.content[b := Expected(c, b, io.gens[0])]
  {
    hide Locks, StripeOf, Expected, Leads, ContentComplete;
    events, m := events0, m0;
    var want := Expected(c, b, io.gens[0]);
    var k := 0;
    assert want[..0] + m0.content[b][0..] == m0.content[b];
    while k < |want|
      invariant k <= |want| && Solo(c, s, events, m, id, io) && m.cells == m0.cells
      invariant m.content == m0.content[b := want[..k] + m0.content[b][k..]]
    {
      SoloLocks(c, m, io, b);
      events, m := SoloStep(c, s, events, m, id, io, PutByte(0, k));
      assert (want[..k] + m0.content[b][k..])[k := want[k]] == want[..k + 1] + m0.content[b][k + 1..];
      k := k + 1;
    }
    assert want[..k] + m0.content[b][k..] == want;
  }

  lemma SoloWritten(c: Setup, s: State, events0: seq<Event>, m: State, id: nat, io: IO, b: BlockId)
      returns (events: seq<Event>, t: State)
    requires Solo(c, s, events0, m, id, io) && IsBlock(c, b)
    requires io.phase.Writing? && io.journal == b.journal && io.base == b.index && io.num == 1 == |io.gens|
    requires m.content[b] == Expected(c, b, io.gens[0])
    ensures Solo(c, s, events, t, id, io.(phase := Committing(0)))
    ensures t.cells == m.cells && t.content == m.content
  {
    hide Locks, StripeOf, Expected, Leads, Free;
    SoloLocks(c, m, io, b);
    assert forall b' | IsBlock(c, b') && Covers(io, b') :: b' == b;
    events, t := SoloStep(c, s, events0, m, id, io, WriteDone);
  }

  lemma SoloCommit(c: Setup, s: State, events0: seq<Event>, m: State, id: nat, io: IO, b: BlockId)
      returns (events: seq<Event>, t: State)
    requires Solo(c, s, events0, m, id, io) && IsBlock(c, b)
    requires io.phase == Committing(0) && io.journal == b.journal && io.base == b.index && io.num == 1 == |io.gens|
    requires m.cells[b] == 0
    ensures Solo(c, s, events, t, id, io.(phase := Releasing))
    ensures t.cells == m.cells[b := io.gens[0]] && t.content == m.content
  {
    hide Locks, StripeOf, Expected, Leads, Free, ContentComplete;
    SoloLocks(c, m, io, b);
    assert Block(c, io, 0) == b;
    events, t := SoloStep(c, s, events0, m, id, io, CommitCell);
    events, t := SoloCommitDone(c, s, events, t, id, io.(phase := Committing(1)), b);
  }

  lemma SoloCommitDone(c: Setup, s: State, events0: seq<Event>, m: State, id: nat, io: IO, b: BlockId)
      returns (events: seq<Event>, t: State)
    requires Solo(c, s, events0, m, id, io) && IsBlock(c, b)
    requires io.phase == Committing(1) && io.journal == b.journal && io.base == b.index && io.num == 1 == |io.gens|
    ensures Solo(c, s, events, t, id, io.(phase := Releasing))
    ensures t.cells == m.cells && t.content == m.content
  {
    hide Locks, StripeOf, Expected, Leads, Free, ContentComplete;
    SoloLocks(c, m, io, b);
    events, t := SoloStep(c, s, events0, m, id, io, CommitDone(false));
  }

  lemma SoloRelease(c: Setup, s: State, events0: seq<Event>, m: State, id: nat, io: IO, b: BlockId)
      returns (events: seq<Event>, t: State)
    requires Solo(c, s, events0, m, id, io) && IsBlock(c, b) && id !in s.ios
    requires io.phase.Releasing? && io.journal == b.journal && io.base == b.index && io.num == 1
    requires exists l :: io.held == {l}
    ensures Leads(c, s, events, t) && WellFormed(c, t) && forall e <- events :: Plain(e)
    ensures t == m.(ios := s.ios)
  {
    hide Locks, StripeOf, Expected, Leads, Free;
    var l :| io.held == {l};
    SoloLocks(c, m, io, b);
    events, t := SoloStep(c, s, events0, m, id, io, Unlock(l));
    assert io.held - {l} == {};
    events, t := SoloFinish(c, s, events, t, id, io.(held := {}), b);
  }

  lemma SoloFinish(c: Setup, s: State, events0: seq<Event>, m: State, id: nat, io: IO, b: BlockId)
      returns (events: seq<Event>, t: State)
    requires Solo(c, s, events0, m, id, io) && IsBlock(c, b) && id !in s.ios
    requires io.phase.Releasing? && io.journal == b.journal && io.base == b.index && io.num == 1 && io.held == {}
    ensures Leads(c, s, events, t) && WellFormed(c, t) && forall e <- events :: Plain(e)
    ensures t == m.(ios := s.ios)
  {
    hide Locks, StripeOf, Expected, Leads, Free;
    SoloLocks(c, m, io, b);
    Append(c, s, events0, m, Do(id, Finish));
    StaysWellFormed(c, m, Do(id, Finish));
    assert s.ios[id := io] - {id} == s.ios;
    events, t := events0 + [Do(id, Finish)], Apply(c, m, Do(id, Finish));
  }

  // One complete, successful write of a block by an I/O that meets no other: the cell rotates
  // to the next generation and names what the block now holds.
  lemma SoloWrite(c: Setup, s: State, b: BlockId, id: nat, thread: nat) returns (events: seq<Event>, t: State)
    requires CanStart(c, s, b, id, thread)
    ensures Leads(c, s, events, t) && WellFormed(c, t) && t.shifts == s.shifts && t.ios == s.ios
    ensures var g := NextGen(s.cells[b]);
      t.cells == s.cells[b := g] && t.content == s.content[b := Expected(c, b, g)]
    ensures forall e <- events :: Plain(e)
  {
    hide Locks, StripeOf, Expected, Leads;
    var io := WritingIO(c, s, b, thread, s.cells[b]);
    events, t := SoloClaim(c, s, b, id, thread);
    events, t := SoloPutAll(c, s, events, t, id, io, b);
    events, t := SoloWritten(c, s, events, t, id, io, b);
    events, t := SoloCommit(c, s, events, t, id, io.(phase := Committing(0)), b);
    events, t := SoloRelease(c, s, events, t, id, io.(phase := Releasing), b);
  }

  lemma {:induction false} UpperBound(xs: set<nat>) returns (bound: nat)
    ensures forall x <- xs :: x < bound
  {
    bound := 0;
    if xs != {} {
      var x :| x in xs;
      var rest := UpperBound(xs - {x});
      bound := if rest > x then rest else x + 1;
      forall y <- xs ensures y < bound {
        if y != x { assert y in xs - {x}; }
      }
    }
  }

  lemma Fresh(ios: map<nat, IO>) returns (id: nat, thread: nat)
    ensures id !in ios && forall y | y in ios :: ios[y].thread != thread
  {
    id := UpperBound(ios.Keys);
    var threads := set y | y in ios :: ios[y].thread;
    thread := UpperBound(threads);
    assert forall y | y in ios :: ios[y].thread in threads;
  }

  // ---- A cleared cell that is not on disk ----

  ghost predicate RoomForTiles(c: Setup) {
    forall j <- c.journals :: j.blockSize >= 8
  }

  // Two generations of a block differ in some byte.
  lemma DifferingByte(c: Setup, b: BlockId, g: Gen, h: Gen) returns (k: nat)
    requires IsBlock(c, b) && RoomForTiles(c) && g != h
    ensures k < c.journals[b.journal].blockSize && Expected(c, b, g)[k] != Expected(c, b, h)[k]
  {
    hide BlockContent;
    var j := c.journals[b.journal];
    ContentTellsGenerationsApart((j.offset + b.index * j.blockSize) % WORD, j.seed, g, h, j.blockSize, 0);
    k :| 0 <= k < j.blockSize && Expected(c, b, g)[k] != Expected(c, b, h)[k];
  }

  lemma {:induction false} PlainRunIsClean(c: Setup, s: State, events: seq<Event>, t: State)
    requires Leads(c, s, events, t) && forall e <- events :: Plain(e)
    ensures CleanRun(c, s, events)
    decreases |events|
  {
    hide Enabled, Apply, WellFormed;
    if events != [] {
      assert Plain(events[0]);
      PlainRunIsClean(c, Apply(c, s, events[0]), events[1..], t);
    }
  }

  // From any state with an exposed block, the next writer of the block skips the sync, lets one
  // byte of its data land, and a power failure brings back a generation that is torn.
  lemma ExposureBreaks(c: Setup, s: State, b: BlockId, id: nat, thread: nat)
      returns (events: seq<Event>, t: State)
    requires CanStart(c, s, b, id, thread) && Exposed(s, b) && RoomForTiles(c)
    ensures Leads(c, s, events, t) && CleanRun(c, s, events) && forall e <- events :: Plain(e)
    ensures !CellsSafe(c, t.cells, t.content)
  {
    hide Locks, StripeOf, Expected, Leads, Free, ContentComplete;
    var g := s.disk[b];
    var io := WritingIO(c, s, b, thread, 0);
    events, t := SoloClaim(c, s, b, id, thread);
    var k := DifferingByte(c, b, 1, g);
    SoloLocks(c, t, io, b);
    assert Block(c, io, 0) == b;
    events, t := SoloStep(c, s, events, t, id, io, PutByte(0, k));
    assert t.content[b][k] == Expected(c, b, 1)[k];
    Append(c, s, events, t, PowerFail(s.shifts));
    events, t := events + [PowerFail(s.shifts)], Apply(c, t, PowerFail(s.shifts));
    PlainRunIsClean(c, s, events, t);
    assert !BlockSafe(c, t.cells, t.content, b);
  }

  // What the journal names stays complete however a run goes on from s, cuts being clean.
  ghost predicate SafeFrom(c: Setup, s: State) {
    forall events, t :: Leads(c, s, events, t) && CleanRun(c, s, events) ==>
      CellsSafe(c, t.cells, t.content) && CellsSafe(c, t.disk, t.content)
  }

  // A process may end, or crash, at a moment of a journalsync run without putting power-failure
  // safety at risk if and only if no block is exposed at that moment.
  lemma RestartSafeIffNothingExposed(c: Setup, s: State, shifts: seq<nat>)
    requires WellFormed(c, s) && LockInv(c, s) && DataInv(c, s) && PowerInv(c, s)
    requires c.journalSync && RoomForTiles(c) && |shifts| == |c.journals|
    ensures SafeFrom(c, Apply(c, s, Restart(shifts))) <==> forall b: BlockId | IsBlock(c, b) :: !Exposed(s, b)
  {
    hide Leads, CellsSafe, LockInv, DataInv, PowerInv, StripeOf;
    var r := Apply(c, s, Restart(shifts));
    if b: BlockId :| IsBlock(c, b) && Exposed(s, b) {
      var events, t := ExposureBreaks(c, r, b, 0, 0);
      assert Leads(c, r, events, t) && CleanRun(c, r, events);
    } else {
      PowerInvStep(c, s, Restart(shifts));
      forall events, t | Leads(c, r, events, t) && CleanRun(c, r, events)
        ensures CellsSafe(c, t.cells, t.content) && CellsSafe(c, t.disk, t.content)
      {
        RunKeepsPowerInv(c, r, events, t);
        InvMeansSafe(c, t);
      }
    }
  }

  lemma InvMeansSafe(c: Setup, t: State)
    requires WellFormed(c, t) && LockInv(c, t) && DataInv(c, t) && PowerInv(c, t)
    ensures CellsSafe(c, t.cells, t.content) && CellsSafe(c, t.disk, t.content)
  {
  }

  // An I/O that is releasing its locks lets go of all of them and ends.
  lemma {:induction false} Drain(c: Setup, s: State, x: nat) returns (events: seq<Event>, t: State)
    requires WellFormed(c, s) && x in s.ios && s.ios[x].phase.Releasing? && InRange(c, s.shifts, s.ios[x])
    ensures Leads(c, s, events, t) && WellFormed(c, t) && t == s.(ios := s.ios - {x})
    ensures forall e <- events :: Plain(e)
    decreases s.ios[x].held
  {
    hide Locks, Free, ContentComplete;
    var io := s.ios[x];
    if l :| l in io.held {
      var e := Do(x, Unlock(l));
      var m := Apply(c, s, e);
      StaysWellFormed(c, s, e);
      events, t := Drain(c, m, x);
      assert t.ios == s.ios - {x};
      assert ([e] + events)[1..] == events;
      events := [e] + events;
    } else {
      var e := Do(x, Finish);
      t := Apply(c, s, e);
      StaysWellFormed(c, s, e);
      events := [e];
      assert events[1..] == [] && Leads(c, t, [], t);
    }
  }

  lemma DrainedIsFree(c: Setup, s: State, x: nat, b: BlockId, id: nat, thread: nat)
    requires WellFormed(c, s) && LockInv(c, s) && x in s.ios && s.ios[x].phase.Claiming?
    requires IsBlock(c, b) && Covers(s.ios[x], b)
    requires id !in s.ios && forall y | y in s.ios :: s.ios[y].thread != thread
    requires StepEnabled(c, s, x, SyncFailed)
    ensures var r := Apply(c, s, Do(x, SyncFailed)); CanStart(c, r.(ios := r.ios - {x}), b, id, thread)
  {
    hide LockList, StripeOf, Expected, ContentComplete;
    var io := s.ios[x];
    var r := Apply(c, s, Do(x, SyncFailed));
    assert Shape(c, s.shifts, io);
    LocksCoverRange(io.base, io.num, s.shifts[io.journal], c.journals[io.journal].seed, b.index);
    assert SoloStripe(c, r, b) in io.held;
    forall y | y in r.ios && y != x ensures r.ios[y].thread != thread && SoloStripe(c, r, b) !in r.ios[y].held {
      assert Compatible(s.ios[x], s.ios[y]);
    }
  }

  // The same for a claim whose msync fails.
  lemma SyncFailureSafeIffNothingExposed(c: Setup, s: State, x: nat)
    requires WellFormed(c, s) && LockInv(c, s) && DataInv(c, s) && PowerInv(c, s)
    requires c.journalSync && RoomForTiles(c) && Enabled(c, s, Do(x, SyncFailed))
    ensures SafeFrom(c, Apply(c, s, Do(x, SyncFailed)))
       <==> forall b: BlockId | IsBlock(c, b) && Covers(s.ios[x], b) :: !Exposed(s, b)
  {
    hide Leads, CellsSafe, LockInv, DataInv, PowerInv, StripeOf, Locks, Free;
    var r := Apply(c, s, Do(x, SyncFailed));
    if b: BlockId :| IsBlock(c, b) && Covers(s.ios[x], b) && Exposed(s, b) {
      var id, thread := Fresh(s.ios);
      DrainedIsFree(c, s, x, b, id, thread);
      StaysWellFormed(c, s, Do(x, SyncFailed));
      var first, m := Drain(c, r, x);
      var second, t := ExposureBreaks(c, m, b, id, thread);
      Join(c, r, first, m, second, t);
      PlainThenClean(c, r, first, m, second);
    } else {
      PowerInvStep(c, s, Do(x, SyncFailed));
      forall events, t | Leads(c, r, events, t) && CleanRun(c, r, events)
        ensures CellsSafe(c, t.cells, t.content) && CellsSafe(c, t.disk, t.content)
      {
        RunKeepsPowerInv(c, r, events, t);
        InvMeansSafe(c, t);
      }
    }
  }

  lemma {:induction false} PlainThenClean(c: Setup, s: State, first: seq<Event>, m: State, second: seq<Event>)
    requires Leads(c, s, first, m) && (forall e <- first :: Plain(e)) && CleanRun(c, m, second)
    ensures CleanRun(c, s, first + second)
    decreases |first|
  {
    hide Enabled, Apply, WellFormed;
    if first == [] {
      assert [] + second == second;
    } else {
      assert Plain(first[0]);
      PlainThenClean(c, Apply(c, s, first[0]), first[1..], m, second);
      assert (first + second)[1..] == first[1..] + second;
    }
  }

  // Two complete writes and a write-back: the block's generation 2 is on disk.
  lemma SecondGenerationOnDisk(c: Setup, s: State, b: BlockId) returns (events: seq<Event>, t: State)
    requires Init(c, s) && IsBlock(c, b)
    ensures Leads(c, s, events, t) && WellFormed(c, t) && t.ios == map[] && t.cells[b] == 2 == t.disk[b]
    ensures forall e <- events :: Plain(e)
  {
    hide StripeOf, Expected, Leads;
    var first, m := SoloWrite(c, s, b, 0, 0);
    var second, m' := SoloWrite(c, m, b, 0, 0);
    Join(c, s, first, m, second, m');
    Append(c, s, first + second, m', WriteBack(b));
    StaysWellFormed(c, m', WriteBack(b));
    events, t := first + second + [WriteBack(b)], Apply(c, m', WriteBack(b));
  }

  // The exposure is reachable with every journal: a crash between the clearing of a cell and its
  // msync, a resume, a write that skips the sync and a power failure report corruption although
  // every write was either complete or still in flight.
  lemma CrashInsideClaimBreaksPowerSafety(c: Setup, s: State, b: BlockId)
      returns (before: seq<Event>, after: seq<Event>, t: State)
    requires Init(c, s) && IsBlock(c, b) && c.journalSync && RoomForTiles(c)
    ensures Leads(c, s, before + [Restart(s.shifts)] + after, t) && !CellsSafe(c, t.cells, t.content)
    ensures forall e <- before + after :: Plain(e)
  {
    hide StripeOf, Expected, Leads, Locks, Free, ContentComplete, CellsSafe;
    var written, w := SecondGenerationOnDisk(c, s, b);
    var io := LoadedIO(c, w, b, 0, 2);
    var claim, m := SoloLoad(c, w, b, 0, 0);
    SoloLocks(c, m, io, b);
    assert Block(c, io, 0) == b;
    claim, m := SoloStep(c, w, claim, m, 0, io, ClaimMark);
    Join(c, s, written, w, claim, m);
    before := written + claim;
    Append(c, s, before, m, Restart(s.shifts));
    var r := Apply(c, m, Restart(s.shifts));
    after, t := ExposureBreaks(c, r, b, 0, 0);
    Join(c, s, before + [Restart(s.shifts)], r, after, t);
  }

  // So is a failed msync: every write is complete or given up, and no process is cut short.
  lemma FailedSyncBreaksPowerSafety(c: Setup, s: State, b: BlockId)
      returns (before: seq<Event>, after: seq<Event>, t: State)
    requires Init(c, s) && IsBlock(c, b) && c.journalSync && RoomForTiles(c)
    ensures Leads(c, s, before + [Do(0, SyncFailed)] + after, t) && !CellsSafe(c, t.cells, t.content)
    ensures forall e <- before + after :: Plain(e)
  {
    hide StripeOf, Expected, Leads, Locks, Free, ContentComplete, CellsSafe;
    var written, w := SecondGenerationOnDisk(c, s, b);
    var io := LoadedIO(c, w, b, 0, 2);
    var claim, m := SoloLoad(c, w, b, 0, 0);
    SoloLocks(c, m, io, b);
    assert Block(c, io, 0) == b;
    claim, m := SoloStep(c, w, claim, m, 0, io, ClaimMark);
    Join(c, s, written, w, claim, m);
    before := written + claim;
    Append(c, s, before, m, Do(0, SyncFailed));
    StaysWellFormed(c, m, Do(0, SyncFailed));
    var r := Apply(c, m, Do(0, SyncFailed));
    var drain, d := Drain(c, r, 0);
    Join(c, s, before + [Do(0, SyncFailed)], r, drain, d);
    var rest, u := ExposureBreaks(c, d, b, 0, 0);
    Join(c, s, before + [Do(0, SyncFailed)] + drain, d, rest, u);
    after, t := drain + rest, u;
    assert before + [Do(0, SyncFailed)] + drain + rest == before + [Do(0, SyncFailed)] + after;
  }

  // ---- A device write that outlives its guard ----

  lemma AbandonedIsFree(c: Setup, s: State, x: nat, id: nat, thread: nat)
    requires WellFormed(c, s) && LockInv(c, s) && x in s.ios && s.ios[x].phase.Writing?
    requires InJournal(c, s.ios[x]) && 0 < s.ios[x].num
    requires id !in s.ios && forall y | y in s.ios :: s.ios[y].thread != thread
    requires StepEnabled(c, s, x, Abandon)
    ensures CanStart(c, Apply(c, s, Do(x, Abandon)), Block(c, s.ios[x], 0), id, thread)
  {
    hide LockList, StripeOf, Expected, ContentComplete;
    var io := s.ios[x];
    var r := Apply(c, s, Do(x, Abandon));
    var b := Block(c, io, 0);
    assert Shape(c, s.shifts, io);
    LocksCoverRange(io.base, io.num, s.shifts[io.journal], c.journals[io.journal].seed, io.base);
    assert SoloStripe(c, r, b) in io.held;
    forall y | y in r.ios ensures r.ios[y].thread != thread && SoloStripe(c, r, b) !in r.ios[y].held {
      if y != x { assert Compatible(s.ios[x], s.ios[y]); }
    }
  }

  // From the state in which a device write of generation g is orphaned, rewrite the block until
  // its cell names another generation, and then let the orphan's data land.
  lemma OrphanBreaks(c: Setup, s: State, x: nat, id: nat, thread: nat) returns (events: seq<Event>, t: State)
    requires WellFormed(c, s) && x in s.ios && s.ios[x].phase.Orphan? && RoomForTiles(c)
    requires InRange(c, s.shifts, s.ios[x]) && |s.ios[x].gens| == s.ios[x].num
    requires CanStart(c, s, Block(c, s.ios[x], 0), id, thread)
    ensures Leads(c, s, events, t) && !CellsSafe(c, t.cells, t.content)
    ensures forall e <- events :: Plain(e)
  {
    hide Locks, StripeOf, Expected, Leads, ContentComplete, Free;
    var io := s.ios[x];
    var b := Block(c, io, 0);
    events, t := SoloWrite(c, s, b, id, thread);
    if t.cells[b] == io.gens[0] {
      var more, t' := SoloWrite(c, t, b, id, thread);
      Join(c, s, events, t, more, t');
      events, t := events + more, t';
    }
    var k := DifferingByte(c, b, t.cells[b], io.gens[0]);
    Append(c, s, events, t, Do(x, PutByte(0, k)));
    events, t := events + [Do(x, PutByte(0, k))], Apply(c, t, Do(x, PutByte(0, k)));
    assert !BlockSafe(c, t.cells, t.content, b);
  }

  // Giving up the guard while the device write is still in flight is never harmless: from every
  // reachable state there is a way on to a cell that names content that is not there.
  lemma AbandonBreaks(c: Setup, s: State, x: nat) returns (events: seq<Event>, t: State)
    requires WellFormed(c, s) && LockInv(c, s) && x in s.ios && s.ios[x].phase.Writing? && RoomForTiles(c)
    ensures Leads(c, s, [Do(x, Abandon)] + events, t) && !CellsSafe(c, t.cells, t.content)
    ensures forall e <- events :: Plain(e)
  {
    hide Locks, StripeOf, Expected, ContentComplete, CellsSafe;
    assert Shape(c, s.shifts, s.ios[x]);
    var id, thread := Fresh(s.ios);
    var r := Apply(c, s, Do(x, Abandon));
    AbandonedIsFree(c, s, x, id, thread);
    events, t := OrphanBreaks(c, r, x, id, thread);
    assert ([Do(x, Abandon)] + events)[1..] == events;
  }
}
