/**
 * Power-failure safety with journalsync: every generation that the journal on disk names is
 * complete on the target, at every moment of every run, and exactly when that can be broken.
 */
module JournalPower {
  import opened Word64
  import opened JournalTile
  import opened JournalProtocol
  import opened JournalLocking
  import opened JournalSafety

  // The mapped cell is already cleared while the disk still names a generation that the next
  // claim of the block would not choose again.
  predicate Exposed(s: State, b: BlockId) {
    b in s.cells && b in s.disk && s.cells[b] == 0 && s.disk[b] >= 2
  }

  // The I/O has cleared the cell and is going to sync it before it lets its device write start.
  predicate Pending(io: IO, b: BlockId) {
    io.phase.Claiming? && io.anyWasVerifiable && Covers(io, b) && b.index - io.base < io.phase.marked
  }

  ghost predicate ExposedArePending(c: Setup, s: State) {
    forall b: BlockId | IsBlock(c, b) && Exposed(s, b) :: exists x :: x in s.ios && Pending(s.ios[x], b)
  }

  predicate AllOne(gens: seq<Gen>) {
    forall g <- gens :: g == 1
  }

  ghost predicate DiskCleared(c: Setup, s: State, io: IO)
    requires WellFormed(c, s)
  {
    forall b: BlockId | IsBlock(c, b) && Covers(io, b) :: s.disk[b] == 0
  }

  ghost predicate DiskKnown(c: Setup, s: State, io: IO)
    requires WellFormed(c, s) && Shape(c, s.shifts, io)
  {
    && (io.phase.Claiming? && !io.anyWasVerifiable ==> AllOne(io.gens))
    && (io.phase.Claiming? && |io.gens| == io.phase.marked + 1 && !io.anyWasVerifiable ==>
          s.cells[Block(c, io, io.phase.marked)] == 0)
    && (io.phase.Writing? ==> DiskCleared(c, s, io) || AllOne(io.gens))
  }

  ghost predicate PowerInv(c: Setup, s: State)
    requires WellFormed(c, s) && LockInv(c, s)
  {
    && CellsSafe(c, s.disk, s.content)
    && ExposedArePending(c, s)
    && forall x | x in s.ios :: DiskKnown(c, s, s.ios[x])
  }

  // When a process end, or a failed msync of a claim, cuts a claim off from its sync, no cell
  // may stay exposed.
  ghost predicate CleanCut(c: Setup, s: State, e: Event)
    requires WellFormed(c, s)
  {
    && (e.Restart? ==> forall b: BlockId | IsBlock(c, b) :: !Exposed(s, b))
    && (e.Do? && e.step.SyncFailed? && e.id in s.ios ==>
          forall b: BlockId | IsBlock(c, b) && Covers(s.ios[e.id], b) :: !Exposed(s, b))
  }

  // ---- Preservation ----

  // An exclusive owner that is not pending itself keeps its cleared cells from being exposed.
  lemma OwnedNotExposed(c: Setup, s: State, id: nat, b: BlockId)
    requires WellFormed(c, s) && LockInv(c, s) && PowerInv(c, s) && IsBlock(c, b)
    requires id in s.ios && s.ios[id].exclusive && Guarded(s.ios[id].phase)
    requires Covers(s.ios[id], b) && !Pending(s.ios[id], b)
    ensures !Exposed(s, b)
  {
    hide LockInv, CellsSafe, DiskKnown;
    if Exposed(s, b) {
      var x :| x in s.ios && Pending(s.ios[x], b);
      GuardsExclude(c, s, id, x, b);
    }
  }

  lemma DiskKnownFrame(c: Setup, s: State, t: State, io: IO)
    requires WellFormed(c, s) && WellFormed(c, t) && s.shifts == t.shifts && Shape(c, s.shifts, io)
    requires DiskKnown(c, s, io)
    requires forall b: BlockId | IsBlock(c, b) && Covers(io, b) && Guarded(io.phase) ::
               t.cells[b] == s.cells[b] && (t.disk[b] == s.disk[b] || t.disk[b] == s.cells[b])
    requires io.phase.Writing? ==> Cleared(c, s, io, 0, io.num)
    ensures DiskKnown(c, t, io)
  {
    hide Locks;
  }

  // Writing a byte of the generation that the disk names keeps the content complete.
  lemma PutKeepsDiskSafe(c: Setup, s: State, t: State, id: nat, i: nat, k: nat)
    requires WellFormed(c, s) && LockInv(c, s) && DataInv(c, s) && PowerInv(c, s) && id in s.ios
    requires StepEnabled(c, s, id, PutByte(i, k))
    requires t.content == NextContent(c, s, id, PutByte(i, k)) && t.disk == s.disk
    ensures CellsSafe(c, t.disk, t.content)
  {
    hide Locks, Expected;
    var io := s.ios[id];
    var b := Block(c, io, i);
    assert Data(c, s, io) && DiskKnown(c, s, io);
    OwnedNotExposed(c, s, id, b);
    assert BlockSafe(c, s.disk, s.content, b);
    assert s.cells[b] == 0;
    if s.disk[b] != 0 {
      assert io.phase.Writing? && AllOne(io.gens) && io.gens[i] in io.gens;
      assert s.disk[b] == 1 && io.gens[i] == 1;
      assert t.content[b] == s.content[b];
    }
    forall b': BlockId ensures BlockSafe(c, t.disk, t.content, b') {
      assert BlockSafe(c, s.disk, s.content, b');
    }
  }

  // Frame for the I/Os other than the one that takes the step.
  lemma OthersKeepDiskKnown(c: Setup, s: State, t: State, id: nat, x: nat)
    requires WellFormed(c, s) && LockInv(c, s) && DataInv(c, s) && PowerInv(c, s)
    requires WellFormed(c, t) && t.shifts == s.shifts && id in s.ios && x in s.ios && x != id
    requires forall b: BlockId | IsBlock(c, b) && !(Guarded(s.ios[id].phase) && s.ios[id].exclusive && Covers(s.ios[id], b)) ::
               t.cells[b] == s.cells[b] && t.disk[b] == s.disk[b]
    ensures DiskKnown(c, t, s.ios[x])
  {
    hide CellsSafe, DiskKnown, Expected, Locks;
    var io := s.ios[x];
    assert Data(c, s, io) && Shape(c, s.shifts, io);
    forall b: BlockId | IsBlock(c, b) && Covers(io, b) && Guarded(io.phase)
      ensures t.cells[b] == s.cells[b] && t.disk[b] == s.disk[b]
    {
      if Guarded(s.ios[id].phase) && s.ios[id].exclusive && Covers(s.ios[id], b) {
        GuardsExclude(c, s, id, x, b);
        assert false;
      }
    }
    DiskKnownFrame(c, s, t, io);
  }

  // What the stepping I/O itself knows afterwards about the disk.
  lemma ClaimDoneDiskKnown(c: Setup, s: State, t: State, id: nat)
    requires WellFormed(c, s) && LockInv(c, s) && DataInv(c, s) && PowerInv(c, s) && c.journalSync
    requires id in s.ios && StepEnabled(c, s, id, ClaimDone) && t == Apply(c, s, Do(id, ClaimDone)) && WellFormed(c, t)
    requires Shape(c, t.shifts, NextIO(c, s, id, ClaimDone))
    ensures DiskKnown(c, t, NextIO(c, s, id, ClaimDone))
  {
    hide Locks, Expected, CellsSafe, ContentComplete;
    assert Data(c, s, s.ios[id]) && DiskKnown(c, s, s.ios[id]);
  }

  lemma ClaimingDiskKnown(c: Setup, s: State, t: State, id: nat, step: Step)
    requires WellFormed(c, s) && LockInv(c, s) && PowerInv(c, s) && (step.ClaimLoad? || step.ClaimMark?)
    requires id in s.ios && StepEnabled(c, s, id, step) && t == Apply(c, s, Do(id, step)) && WellFormed(c, t)
    requires Shape(c, t.shifts, NextIO(c, s, id, step))
    ensures DiskKnown(c, t, NextIO(c, s, id, step))
  {
    hide Locks, Expected, CellsSafe, ContentComplete, NextContent;
    assert DiskKnown(c, s, s.ios[id]);
  }

  lemma EarlyDiskKnown(c: Setup, s: State, t: State, id: nat, step: Step)
    requires WellFormed(c, s) && LockInv(c, s) && PowerInv(c, s)
    requires !step.ClaimLoad? && !step.ClaimMark? && !step.ClaimDone?
    requires !(step.Finish? && id in s.ios && s.ios[id].phase.Releasing?)
    requires id in s.ios && StepEnabled(c, s, id, step) && t == Apply(c, s, Do(id, step)) && WellFormed(c, t)
    requires Shape(c, t.shifts, NextIO(c, s, id, step))
    requires AfterLocking(step)
    ensures DiskKnown(c, t, NextIO(c, s, id, step))
  {
    hide Locks, Expected, CellsSafe, ContentComplete, NextContent, NextCells, Synced, Free, LocksExclude, WaitsAlone, Elems;
    assert DiskKnown(c, s, s.ios[id]) && Shape(c, s.shifts, s.ios[id]);
  }

  lemma LateDiskKnown(c: Setup, s: State, t: State, id: nat, step: Step)
    requires WellFormed(c, s) && LockInv(c, s) && PowerInv(c, s)
    requires !step.ClaimLoad? && !step.ClaimMark? && !step.ClaimDone?
    requires !(step.Finish? && id in s.ios && s.ios[id].phase.Releasing?)
    requires id in s.ios && StepEnabled(c, s, id, step) && t == Apply(c, s, Do(id, step)) && WellFormed(c, t)
    requires Shape(c, t.shifts, NextIO(c, s, id, step))
    requires !AfterLocking(step)
    ensures DiskKnown(c, t, NextIO(c, s, id, step))
  {
    hide Locks, Expected, CellsSafe, ContentComplete, NextContent, NextCells, Synced, Free, LocksExclude, WaitsAlone, Elems;
    assert DiskKnown(c, s, s.ios[id]) && Shape(c, s.shifts, s.ios[id]);
  }

  lemma OtherDiskKnown(c: Setup, s: State, t: State, id: nat, step: Step)
    requires WellFormed(c, s) && LockInv(c, s) && PowerInv(c, s)
    requires !step.ClaimLoad? && !step.ClaimMark? && !step.ClaimDone?
    requires !(step.Finish? && id in s.ios && s.ios[id].phase.Releasing?)
    requires id in s.ios && StepEnabled(c, s, id, step) && t == Apply(c, s, Do(id, step)) && WellFormed(c, t)
    requires Shape(c, t.shifts, NextIO(c, s, id, step))
    ensures DiskKnown(c, t, NextIO(c, s, id, step))
  {
    hide Apply, WellFormed, LockInv, PowerInv, StepEnabled, Shape, DiskKnown, NextIO;
    if AfterLocking(step) {
      EarlyDiskKnown(c, s, t, id, step);
    } else {
      LateDiskKnown(c, s, t, id, step);
    }
  }

  lemma OwnDiskKnown(c: Setup, s: State, t: State, id: nat, step: Step)
    requires WellFormed(c, s) && LockInv(c, s) && DataInv(c, s) && PowerInv(c, s) && c.journalSync
    requires Enabled(c, s, Do(id, step)) && !(step.Finish? && s.ios[id].phase.Releasing?)
    requires t == Apply(c, s, Do(id, step)) && WellFormed(c, t)
    requires Shape(c, t.shifts, NextIO(c, s, id, step))
    ensures DiskKnown(c, t, NextIO(c, s, id, step))
  {
    hide Apply, WellFormed, LockInv, DataInv, PowerInv, StepEnabled, Shape, DiskKnown, NextIO;
    if step.ClaimDone? {
      ClaimDoneDiskKnown(c, s, t, id);
    } else if step.ClaimLoad? || step.ClaimMark? {
      ClaimingDiskKnown(c, s, t, id, step);
    } else {
      OtherDiskKnown(c, s, t, id, step);
    }
  }

  lemma SyncedSafe(c: Setup, s: State, io: IO)
    requires CellsSafe(c, s.cells, s.content) && CellsSafe(c, s.disk, s.content)
    ensures CellsSafe(c, Synced(s, io), s.content)
  {
    hide Expected;
    forall b: BlockId ensures BlockSafe(c, Synced(s, io), s.content, b) {
      assert BlockSafe(c, s.cells, s.content, b) && BlockSafe(c, s.disk, s.content, b);
    }
  }

  // Pending blocks stay pending, except where their I/O leaves the claim.
  lemma PendingStays(c: Setup, s: State, id: nat, step: Step, b: BlockId)
    requires WellFormed(c, s) && id in s.ios && StepEnabled(c, s, id, step)
    requires !step.ClaimDone? && !step.SyncFailed? && !(step.Finish? && s.ios[id].phase.Releasing?)
    requires Pending(s.ios[id], b)
    ensures Pending(NextIO(c, s, id, step), b)
  {
    hide Locks, ContentComplete;
  }

  // A cell that a claim clears was loaded by the claim, so its own sync will follow if it held
  // a generation, and otherwise it was not exposed before.
  lemma MarkedIsPending(c: Setup, s: State, id: nat)
    requires WellFormed(c, s) && LockInv(c, s) && DataInv(c, s) && PowerInv(c, s) && id in s.ios
    requires StepEnabled(c, s, id, ClaimMark)
    ensures var b := Block(c, s.ios[id], s.ios[id].phase.marked);
      s.disk[b] >= 2 ==> Pending(NextIO(c, s, id, ClaimMark), b)
  {
    hide Locks, CellsSafe;
    var io := s.ios[id];
    var b := Block(c, io, io.phase.marked);
    assert DiskKnown(c, s, io) && Shape(c, s.shifts, io);
    OwnedNotExposed(c, s, id, b);
  }

  // A claim that is done leaves no cell of its range exposed.
  lemma ClaimDoneCovers(c: Setup, s: State, id: nat, b: BlockId)
    requires WellFormed(c, s) && LockInv(c, s) && DataInv(c, s) && PowerInv(c, s) && c.journalSync
    requires id in s.ios && StepEnabled(c, s, id, ClaimDone) && IsBlock(c, b) && Covers(s.ios[id], b)
    ensures NextDisk(c, s, id, ClaimDone)[b] <= 1
  {
    hide Locks, CellsSafe;
    var io := s.ios[id];
    assert Data(c, s, io) && Shape(c, s.shifts, io);
    assert s.cells[b] == 0;
    if !io.anyWasVerifiable {
      OwnedNotExposed(c, s, id, b);
    }
  }

  lemma DoKeepsPending(c: Setup, s: State, t: State, id: nat, step: Step, b: BlockId)
    requires WellFormed(c, s) && LockInv(c, s) && DataInv(c, s) && PowerInv(c, s) && c.journalSync
    requires Enabled(c, s, Do(id, step)) && CleanCut(c, s, Do(id, step))
    requires t == Apply(c, s, Do(id, step)) && IsBlock(c, b) && Exposed(t, b)
    ensures exists x :: x in t.ios && Pending(t.ios[x], b)
  {
    hide NextIO, LockInv, DataInv, CellsSafe, DiskKnown, StepEnabled;
    var io := s.ios[id];
    if step.ClaimMark? && b == MarkedBlock(c, s, id) {
      MarkedIsPending(c, s, id);
      assert Pending(t.ios[id], b);
    } else if step.ClaimDone? && Covers(io, b) {
      ClaimDoneCovers(c, s, id, b);
      assert false;
    } else {
      assert Exposed(s, b);
      var x :| x in s.ios && Pending(s.ios[x], b);
      if x == id {
        PendingStays(c, s, id, step, b);
      }
      assert x in t.ios && Pending(t.ios[x], b);
    }
  }

  ghost function MarkedBlock(c: Setup, s: State, id: nat): BlockId
    requires WellFormed(c, s) && id in s.ios && StepEnabled(c, s, id, ClaimMark)
  {
    Block(c, s.ios[id], s.ios[id].phase.marked)
  }

  lemma DoKeepsDiskSafe(c: Setup, s: State, t: State, id: nat, step: Step)
    requires WellFormed(c, s) && LockInv(c, s) && DataInv(c, s) && PowerInv(c, s)
    requires Enabled(c, s, Do(id, step)) && t == Apply(c, s, Do(id, step))
    ensures CellsSafe(c, t.disk, t.content)
  {
    hide NextIO, LockInv, StepEnabled, CellsSafe, NextIOs;
    if step.PutByte? {
      PutKeepsDiskSafe(c, s, t, id, step.i, step.k);
    } else {
      SyncedSafe(c, s, s.ios[id]);
    }
  }

  lemma DoKeepsPowerInv(c: Setup, s: State, t: State, id: nat, step: Step)
    requires WellFormed(c, s) && LockInv(c, s) && DataInv(c, s) && PowerInv(c, s) && c.journalSync
    requires Enabled(c, s, Do(id, step)) && CleanCut(c, s, Do(id, step))
    requires t == Apply(c, s, Do(id, step)) && WellFormed(c, t) && LockInv(c, t)
    ensures PowerInv(c, t)
  {
    hide NextIO, CellsSafe, DiskKnown, Data, Shape;
    DoKeepsDiskSafe(c, s, t, id, step);
    forall b: BlockId | IsBlock(c, b) && Exposed(t, b)
      ensures exists x :: x in t.ios && Pending(t.ios[x], b)
    {
      DoKeepsPending(c, s, t, id, step, b);
    }
    assert ExposedArePending(c, t);
    forall x | x in t.ios ensures DiskKnown(c, t, t.ios[x]) {
      if x == id {
        assert Shape(c, t.shifts, t.ios[id]);
        OwnDiskKnown(c, s, t, id, step);
      } else {
        DoTouchesOwnBlocks(c, s, t, id, step);
        OthersKeepDiskKnown(c, s, t, id, x);
      }
    }
  }

  // Cells and their images on disk only change where the stepping I/O holds them exclusively.
  lemma DoTouchesOwnBlocks(c: Setup, s: State, t: State, id: nat, step: Step)
    requires WellFormed(c, s) && LockInv(c, s) && Enabled(c, s, Do(id, step)) && t == Apply(c, s, Do(id, step))
    requires WellFormed(c, t)
    ensures t.shifts == s.shifts
    ensures forall b: BlockId | IsBlock(c, b) && !(Guarded(s.ios[id].phase) && s.ios[id].exclusive && Covers(s.ios[id], b)) ::
              t.cells[b] == s.cells[b] && t.disk[b] == s.disk[b]
  {
    hide NextIO, Locks, ContentComplete, NextContent;
    assert Shape(c, s.shifts, s.ios[id]);
  }

  lemma WriteBackKeepsPowerInv(c: Setup, s: State, t: State, b: BlockId)
    requires WellFormed(c, s) && LockInv(c, s) && DataInv(c, s) && PowerInv(c, s)
    requires Enabled(c, s, WriteBack(b)) && t == Apply(c, s, WriteBack(b)) && WellFormed(c, t) && LockInv(c, t)
    ensures PowerInv(c, t)
  {
    hide Expected, Locks, Shape, DiskKnown;
    forall b' ensures BlockSafe(c, t.disk, t.content, b') {
      assert BlockSafe(c, s.disk, s.content, b') && BlockSafe(c, s.cells, s.content, b');
    }
    forall x | x in t.ios ensures DiskKnown(c, t, t.ios[x]) {
      assert Shape(c, s.shifts, s.ios[x]) && Data(c, s, s.ios[x]);
      DiskKnownFrame(c, s, t, s.ios[x]);
    }
  }

  lemma BeginKeepsPowerInv(c: Setup, s: State, t: State, id: nat, io: IO)
    requires WellFormed(c, s) && LockInv(c, s) && PowerInv(c, s)
    requires Enabled(c, s, Begin(id, io)) && t == Apply(c, s, Begin(id, io)) && WellFormed(c, t) && LockInv(c, t)
    ensures PowerInv(c, t)
  {
    hide CellsSafe, Shape;
    forall b: BlockId | IsBlock(c, b) && Exposed(t, b)
      ensures exists x :: x in t.ios && Pending(t.ios[x], b)
    {
      var x :| x in s.ios && Pending(s.ios[x], b);
      assert x in t.ios && Pending(t.ios[x], b);
    }
    forall x | x in t.ios && x != id ensures DiskKnown(c, t, t.ios[x]) {
      assert Shape(c, s.shifts, s.ios[x]) && DiskKnown(c, s, s.ios[x]);
    }
  }

  lemma PowerInvStep(c: Setup, s: State, e: Event)
    requires WellFormed(c, s) && LockInv(c, s) && DataInv(c, s) && PowerInv(c, s) && c.journalSync
    requires Enabled(c, s, e) && CleanCut(c, s, e) && !(e.Do? && e.step.Abandon?)
    ensures WellFormed(c, Apply(c, s, e)) && LockInv(c, Apply(c, s, e))
    ensures DataInv(c, Apply(c, s, e)) && PowerInv(c, Apply(c, s, e))
  {
    hide StepEnabled, NextIO, CellsSafe, Shape, Data;
    LockInvStep(c, s, e);
    var t := Apply(c, s, e);
    if !e.PowerFail? { DataInvStep(c, s, e); }
    match e
    case Begin(id, io) => BeginKeepsPowerInv(c, s, t, id, io);
    case Do(id, step) => DoKeepsPowerInv(c, s, t, id, step);
    case WriteBack(b) => WriteBackKeepsPowerInv(c, s, t, b);
    case Restart(_) =>
    case PowerFail(_) =>
  }

  // ---- Whole runs ----

  // Locks are only given up after the device write has ended, and every cut is clean.
  ghost predicate CleanRun(c: Setup, s: State, events: seq<Event>)
    decreases |events|
  {
    events == [] ||
    (&& WellFormed(c, s) && Enabled(c, s, events[0]) && CleanCut(c, s, events[0])
     && !(events[0].Do? && events[0].step.Abandon?)
     && CleanRun(c, Apply(c, s, events[0]), events[1..]))
  }

  lemma {:induction false} RunKeepsPowerInv(c: Setup, s: State, events: seq<Event>, t: State)
    requires Leads(c, s, events, t) && CleanRun(c, s, events) && c.journalSync
    requires LockInv(c, s) && DataInv(c, s) && PowerInv(c, s)
    ensures WellFormed(c, t) && LockInv(c, t) && DataInv(c, t) && PowerInv(c, t)
    decreases |events|
  {
    hide LockInv, DataInv, PowerInv, Enabled, Apply, WellFormed, CleanCut;
    if events != [] {
      PowerInvStep(c, s, events[0]);
      RunKeepsPowerInv(c, Apply(c, s, events[0]), events[1..], t);
    }
  }

  // Power-failure safety: over every clean run with journalsync, through any number of power
  // failures, what the journal on disk names is complete on the target, and no read has obtained
  // a byte that fails its verification.
  lemma PowerSafety(c: Setup, s: State, events: seq<Event>, t: State)
    requires Init(c, s) && c.journalSync && Leads(c, s, events, t) && CleanRun(c, s, events)
    ensures CellsSafe(c, t.disk, t.content) && CellsSafe(c, t.cells, t.content) && ReadsVerify(c, t.ios)
  {
    hide Expected, Shape, DiskKnown, Data, ReadsVerify;
    InitInv(c, s);
    forall b: BlockId ensures BlockSafe(c, s.disk, s.content, b) {
    }
    RunKeepsPowerInv(c, s, events, t);
    InvVerifiesReads(c, t);
  }
}
