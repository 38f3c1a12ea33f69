/**
 * Crash safety: over every run, a block whose journal cell names a generation holds the complete
 * content of that generation, so a read that verifies what its guard protects never reports
 * corruption that is not there.
 */
module JournalSafety {
  import opened Word64
  import opened JournalTile
  import opened JournalProtocol
  import opened JournalLocking

  // ---- The claim ----

  ghost predicate BlockSafe(c: Setup, cells: map<BlockId, Gen>, content: map<BlockId, seq<byte>>, b: BlockId) {
    IsBlock(c, b) && b in cells && b in content && cells[b] != 0 ==> content[b] == Expected(c, b, cells[b])
  }

  // A non-zero cell names the complete content of its block.
  ghost predicate CellsSafe(c: Setup, cells: map<BlockId, Gen>, content: map<BlockId, seq<byte>>) {
    forall b: BlockId :: BlockSafe(c, cells, content, b)
  }

  // The bytes that a read got so far pass the verification against its generations, which skips
  // the blocks of generation 0.
  ghost predicate Verifies(c: Setup, io: IO)
    requires InJournal(c, io) && |io.gens| == io.num
  {
    forall p | p in io.buf ::
      p.0 < io.num && p.1 < c.journals[io.journal].blockSize
      && (io.gens[p.0] != 0 ==> io.buf[p] == Expected(c, Block(c, io, p.0), io.gens[p.0])[p.1])
  }

  // ---- The invariant ----

  ghost predicate Snapshot(c: Setup, s: State, io: IO)
    requires WellFormed(c, s) && InJournal(c, io) && |io.gens| <= io.num
  {
    forall b: BlockId | IsBlock(c, b) && Covers(io, b) && b.index - io.base < |io.gens| ::
      s.cells[b] == io.gens[b.index - io.base]
  }

  // The cells of the blocks from..upTo of the I/O are 0.
  ghost predicate Cleared(c: Setup, s: State, io: IO, from: nat, upTo: nat)
    requires WellFormed(c, s) && InJournal(c, io) && upTo <= io.num
  {
    forall b: BlockId | IsBlock(c, b) && Covers(io, b) && from <= b.index - io.base < upTo :: s.cells[b] == 0
  }

  // What an I/O in flight knows about the cells and the content that its guard protects.
  ghost predicate Data(c: Setup, s: State, io: IO)
    requires WellFormed(c, s) && Shape(c, s.shifts, io)
  {
    match io.phase
    case Locking(_) => io.buf == map[]
    case Loading => Snapshot(c, s, io) && io.buf == map[]
    case Upgrading => io.buf == map[]
    case Reading => Snapshot(c, s, io) && Verifies(c, io)
    case Claiming(m) => m <= io.num && Cleared(c, s, io, 0, m)
    case Writing => Cleared(c, s, io, 0, io.num)
    case Committing(d) => Cleared(c, s, io, d, io.num) && ContentComplete(c, s, io)
    case Releasing => true
    case Orphan => false
  }

  ghost predicate DataInv(c: Setup, s: State)
    requires WellFormed(c, s) && LockInv(c, s)
  {
    && CellsSafe(c, s.cells, s.content)
    && forall x | x in s.ios :: Data(c, s, s.ios[x])
  }

  // ---- Preservation ----

  // An I/O only depends on the blocks that it covers.
  lemma DataFrame(c: Setup, s: State, t: State, io: IO)
    requires WellFormed(c, s) && WellFormed(c, t) && s.shifts == t.shifts && Shape(c, s.shifts, io)
    requires Data(c, s, io)
    requires forall b: BlockId | IsBlock(c, b) && Covers(io, b) && Guarded(io.phase) ::
               t.cells[b] == s.cells[b] && t.content[b] == s.content[b]
    ensures Data(c, t, io)
  {
    hide Expected;
  }

  // A change to a block that one I/O holds exclusively does not touch the others.
  lemma OthersKeepData(c: Setup, s: State, t: State, id: nat, b: BlockId, x: nat)
    requires WellFormed(c, s) && WellFormed(c, t) && s.shifts == t.shifts && LockInv(c, s) && DataInv(c, s)
    requires id in s.ios && s.ios[id].exclusive && Guarded(s.ios[id].phase) && Covers(s.ios[id], b)
    requires x in s.ios && x != id
    requires forall b' | IsBlock(c, b') && b' != b :: t.cells[b'] == s.cells[b'] && t.content[b'] == s.content[b']
    ensures Data(c, t, s.ios[x])
  {
    hide Data, Shape, CellsSafe, Expected;
    assert Shape(c, s.shifts, s.ios[x]);
    if Guarded(s.ios[x].phase) && Covers(s.ios[x], b) {
      GuardsExclude(c, s, id, x, b);
      assert false;
    }
    DataFrame(c, s, t, s.ios[x]);
  }

  predicate TouchesBlocks(step: Step) {
    step.ClaimMark? || step.CommitCell? || step.PutByte?
  }

  // A step that leaves cells and targets alone and after which the I/O is still in flight.
  ghost predicate Quiet(c: Setup, s: State, t: State, id: nat, step: Step) {
    && WellFormed(c, s) && LockInv(c, s) && DataInv(c, s) && WellFormed(c, t)
    && t.cells == s.cells && t.content == s.content && t.shifts == s.shifts
    && id in s.ios && StepEnabled(c, s, id, step) && !TouchesBlocks(step) && !step.Abandon?
    && !(step.Finish? && s.ios[id].phase.Releasing?)
    && Shape(c, s.shifts, NextIO(c, s, id, step))
  }

  lemma LoadCellData(c: Setup, s: State, t: State, id: nat)
    requires Quiet(c, s, t, id, LoadCell)
    ensures Data(c, t, NextIO(c, s, id, LoadCell))
  {
    hide Locks, Expected, CellsSafe, LocksExclude, WaitsAlone, Elems, Free;
    assert Data(c, s, s.ios[id]);
  }

  lemma GetSafe(c: Setup, s: State, b: BlockId)
    requires CellsSafe(c, s.cells, s.content)
    ensures BlockSafe(c, s.cells, s.content, b)
  {
  }

  lemma VerifiesGrows(c: Setup, io: IO, i: nat, k: nat, v: byte)
    requires InJournal(c, io) && |io.gens| == io.num && Verifies(c, io)
    requires i < io.num && k < c.journals[io.journal].blockSize
    requires io.gens[i] != 0 ==> v == Expected(c, Block(c, io, i), io.gens[i])[k]
    ensures Verifies(c, io.(buf := io.buf[(i, k) := v]))
  {
    hide Expected;
  }

  lemma GetByteData(c: Setup, s: State, t: State, id: nat, i: nat, k: nat)
    requires Quiet(c, s, t, id, GetByte(i, k))
    ensures Data(c, t, NextIO(c, s, id, GetByte(i, k)))
  {
    hide Shape, Locks, Expected, Verifies, CellsSafe;
    var io := s.ios[id];
    assert Shape(c, s.shifts, io) && Data(c, s, io);
    GetSafe(c, s, Block(c, io, i));
    VerifiesGrows(c, io, i, k, s.content[Block(c, io, i)][k]);
  }

  predicate EndsIO(step: Step) {
    step.Refuse? || step.SyncFailed? || step.WriteFailed? || step.CommitDone? || step.ReadDone? || step.Unlock?
  }

  lemma EndingStepData(c: Setup, s: State, t: State, id: nat, step: Step)
    requires EndsIO(step)
    requires Quiet(c, s, t, id, step)
    ensures Data(c, t, NextIO(c, s, id, step))
  {
    hide Locks, CellsSafe, Snapshot, Verifies, ContentComplete, Cleared;
    assert Data(c, s, s.ios[id]);
  }

  lemma ClaimStepData(c: Setup, s: State, t: State, id: nat, step: Step)
    requires step.ClaimLoad? || step.ClaimDone?
    requires Quiet(c, s, t, id, step)
    ensures Data(c, t, NextIO(c, s, id, step))
  {
    hide Locks, Expected, CellsSafe, LocksExclude, WaitsAlone, Elems, Free;
    assert Data(c, s, s.ios[id]);
  }

  lemma DecideData(c: Setup, s: State, t: State, id: nat)
    requires Quiet(c, s, t, id, Decide)
    ensures Data(c, t, NextIO(c, s, id, Decide))
  {
    hide Shape, Locks, Expected, CellsSafe, ContentComplete, Cleared, LocksExclude, WaitsAlone, Free;
    assert Shape(c, s.shifts, s.ios[id]) && Data(c, s, s.ios[id]);
  }

  lemma OtherStepData(c: Setup, s: State, t: State, id: nat, step: Step)
    requires step.Lock? || step.WriteDone? || step.Finish?
    requires Quiet(c, s, t, id, step)
    ensures Data(c, t, NextIO(c, s, id, step))
  {
    hide Locks, Expected, CellsSafe, LocksExclude, WaitsAlone, Elems, Free;
    assert Data(c, s, s.ios[id]);
  }

  // What the I/O itself learns.
  lemma OwnStepData(c: Setup, s: State, t: State, id: nat, step: Step)
    requires Quiet(c, s, t, id, step)
    ensures Data(c, t, NextIO(c, s, id, step))
  {
    if step.LoadCell? {
      LoadCellData(c, s, t, id);
    } else if step.GetByte? {
      GetByteData(c, s, t, id, step.i, step.k);
    } else if EndsIO(step) {
      EndingStepData(c, s, t, id, step);
    } else if step.ClaimLoad? || step.ClaimDone? {
      ClaimStepData(c, s, t, id, step);
    } else if step.Decide? {
      DecideData(c, s, t, id);
    } else {
      OtherStepData(c, s, t, id, step);
    }
  }

  lemma QuietStepKeepsData(c: Setup, s: State, t: State, id: nat, step: Step)
    requires WellFormed(c, s) && LockInv(c, s) && DataInv(c, s)
    requires id in s.ios && StepEnabled(c, s, id, step) && !TouchesBlocks(step) && !step.Abandon?
    requires WellFormed(c, t) && LockInv(c, t) && t.cells == s.cells && t.content == s.content
    requires t.shifts == s.shifts && t.ios == NextIOs(c, s, id, step)
    ensures DataInv(c, t)
  {
    hide StepEnabled, NextIO, CellsSafe, Data, Shape;
    forall x | x in t.ios ensures Data(c, t, t.ios[x]) {
      if x == id {
        assert Shape(c, t.shifts, t.ios[id]);
        OwnStepData(c, s, t, id, step);
      } else {
        DataFrame(c, s, t, s.ios[x]);
      }
    }
  }

  lemma MarkKeepsData(c: Setup, s: State, t: State, id: nat)
    requires WellFormed(c, s) && LockInv(c, s) && DataInv(c, s) && id in s.ios
    requires StepEnabled(c, s, id, ClaimMark)
    requires WellFormed(c, t) && LockInv(c, t) && t.cells == NextCells(c, s, id, ClaimMark)
    requires t.content == s.content && t.shifts == s.shifts && t.ios == NextIOs(c, s, id, ClaimMark)
    ensures DataInv(c, t)
  {
    hide Locks, Expected, LocksExclude, WaitsAlone, Elems, ContentComplete, Free;
    var io := s.ios[id];
    var b := Block(c, io, io.phase.marked);
    assert Data(c, s, io);
    assert Data(c, t, t.ios[id]);
    assert forall b' :: BlockSafe(c, s.cells, s.content, b') ==> BlockSafe(c, t.cells, t.content, b');
    forall x | x in t.ios && x != id ensures Data(c, t, t.ios[x]) {
      OthersKeepData(c, s, t, id, b, x);
    }
  }

  lemma CommitIsGuarded(c: Setup, s: State, id: nat)
    requires WellFormed(c, s) && id in s.ios && Shape(c, s.shifts, s.ios[id]) && s.ios[id].phase.Committing?
    ensures s.ios[id].exclusive && Guarded(s.ios[id].phase)
  {
    hide Locks;
  }

  lemma CommittedCell(c: Setup, s: State, t: State, id: nat)
    requires WellFormed(c, s) && LockInv(c, s) && DataInv(c, s) && id in s.ios
    requires StepEnabled(c, s, id, CommitCell)
    requires WellFormed(c, t) && t.cells == NextCells(c, s, id, CommitCell) && t.content == s.content
    ensures var io := s.ios[id]; var b := Block(c, io, io.phase.done);
      s.cells[b] == 0 && t.cells[b] == io.gens[io.phase.done] && t.content[b] == Expected(c, b, io.gens[io.phase.done])
  {
    hide Shape, Locks, Expected, CellsSafe, LocksExclude, WaitsAlone, Free;
    assert Shape(c, s.shifts, s.ios[id]) && Data(c, s, s.ios[id]);
  }

  lemma CommitOwnData(c: Setup, s: State, t: State, id: nat)
    requires WellFormed(c, s) && LockInv(c, s) && DataInv(c, s) && id in s.ios
    requires StepEnabled(c, s, id, CommitCell)
    requires WellFormed(c, t) && LockInv(c, t) && t.cells == NextCells(c, s, id, CommitCell)
    requires t.content == s.content && t.shifts == s.shifts && t.ios == NextIOs(c, s, id, CommitCell)
    ensures Data(c, t, t.ios[id])
  {
    hide Shape, Locks, Expected, CellsSafe, LocksExclude, WaitsAlone, Free;
    assert Shape(c, s.shifts, s.ios[id]) && Data(c, s, s.ios[id]);
  }

  lemma CommitKeepsData(c: Setup, s: State, t: State, id: nat)
    requires WellFormed(c, s) && LockInv(c, s) && DataInv(c, s) && id in s.ios
    requires StepEnabled(c, s, id, CommitCell)
    requires WellFormed(c, t) && LockInv(c, t) && t.cells == NextCells(c, s, id, CommitCell)
    requires t.content == s.content && t.shifts == s.shifts && t.ios == NextIOs(c, s, id, CommitCell)
    ensures DataInv(c, t)
  {
    hide Locks, Expected, Shape;
    var io := s.ios[id];
    var b := Block(c, io, io.phase.done);
    CommittedCell(c, s, t, id);
    CommitOwnData(c, s, t, id);
    assert forall b' :: BlockSafe(c, s.cells, s.content, b') ==> BlockSafe(c, t.cells, t.content, b');
    hide Data;
    assert Shape(c, s.shifts, io);
    CommitIsGuarded(c, s, id);
    forall x | x in t.ios && x != id ensures Data(c, t, t.ios[x]) {
      OthersKeepData(c, s, t, id, b, x);
    }
  }

  lemma PutKeepsData(c: Setup, s: State, t: State, id: nat, i: nat, k: nat)
    requires WellFormed(c, s) && LockInv(c, s) && DataInv(c, s) && id in s.ios
    requires StepEnabled(c, s, id, PutByte(i, k))
    requires WellFormed(c, t) && LockInv(c, t) && t.content == NextContent(c, s, id, PutByte(i, k))
    requires t.cells == s.cells && t.shifts == s.shifts && t.ios == NextIOs(c, s, id, PutByte(i, k))
    ensures DataInv(c, t)
  {
    hide Locks, Expected, LocksExclude, WaitsAlone, Free;
    var io := s.ios[id];
    var b := Block(c, io, i);
    assert Shape(c, s.shifts, io) && Data(c, s, io);
    assert s.cells[b] == 0;
    assert Data(c, t, t.ios[id]);
    assert forall b' :: BlockSafe(c, s.cells, s.content, b') ==> BlockSafe(c, t.cells, t.content, b');
    forall x | x in t.ios && x != id ensures Data(c, t, t.ios[x]) {
      OthersKeepData(c, s, t, id, b, x);
    }
  }

  lemma DataInvStep(c: Setup, s: State, e: Event)
    requires WellFormed(c, s) && LockInv(c, s) && DataInv(c, s) && Enabled(c, s, e)
    requires !(e.Do? && e.step.Abandon?) && !e.PowerFail?
    ensures WellFormed(c, Apply(c, s, e)) && LockInv(c, Apply(c, s, e)) && DataInv(c, Apply(c, s, e))
  {
    hide StepEnabled, NextIO, CellsSafe, Shape;
    LockInvStep(c, s, e);
    var t := Apply(c, s, e);
    match e
    case Begin(id, io) =>
      forall x | x in t.ios && x != id ensures Data(c, t, t.ios[x]) {
        DataFrame(c, s, t, s.ios[x]);
      }
    case Do(id, step) => DoKeepsData(c, s, t, id, step);
    case WriteBack(_) =>
      forall x | x in t.ios ensures Data(c, t, t.ios[x]) {
        DataFrame(c, s, t, s.ios[x]);
      }
    case Restart(_) =>
  }

  lemma DoKeepsData(c: Setup, s: State, t: State, id: nat, step: Step)
    requires WellFormed(c, s) && LockInv(c, s) && DataInv(c, s) && Enabled(c, s, Do(id, step))
    requires !step.Abandon? && t == Apply(c, s, Do(id, step)) && WellFormed(c, t) && LockInv(c, t)
    ensures DataInv(c, t)
  {
    hide StepEnabled, NextIO, LockInv, DataInv, WellFormed, NextIOs;
    if step.ClaimMark? {
      MarkKeepsData(c, s, t, id);
    } else if step.CommitCell? {
      CommitKeepsData(c, s, t, id);
    } else if step.PutByte? {
      PutKeepsData(c, s, t, id, step.i, step.k);
    } else {
      QuietStepKeepsData(c, s, t, id, step);
    }
  }

  // ---- Whole runs ----

  // Locks are only given up after the device write has ended, and the power stays on.
  predicate Orderly(e: Event) {
    !(e.Do? && e.step.Abandon?) && !e.PowerFail?
  }

  lemma {:induction false} RunKeepsInv(c: Setup, s: State, events: seq<Event>, t: State)
    requires Leads(c, s, events, t) && LockInv(c, s) && DataInv(c, s)
    requires forall e <- events :: Orderly(e)
    ensures WellFormed(c, t) && LockInv(c, t) && DataInv(c, t)
    decreases |events|
  {
    hide LockInv, DataInv, Enabled, Apply, WellFormed;
    if events != [] {
      assert Orderly(events[0]);
      DataInvStep(c, s, events[0]);
      RunKeepsInv(c, Apply(c, s, events[0]), events[1..], t);
    }
  }

  lemma InitInv(c: Setup, s: State)
    requires Init(c, s)
    ensures LockInv(c, s) && DataInv(c, s)
  {
    hide Expected, Shape, Data;
    forall b: BlockId ensures BlockSafe(c, s.cells, s.content, b) {
    }
  }

  // No read in progress has obtained a byte that fails its verification.
  ghost predicate ReadsVerify(c: Setup, ios: map<nat, IO>) {
    forall x | x in ios && ios[x].phase.Reading? ::
      InJournal(c, ios[x]) && |ios[x].gens| == ios[x].num && Verifies(c, ios[x])
  }

  lemma InvVerifiesReads(c: Setup, s: State)
    requires WellFormed(c, s) && LockInv(c, s) && DataInv(c, s)
    ensures ReadsVerify(c, s.ios)
  {
    hide Expected, Locks, Verifies;
    forall x | x in s.ios && s.ios[x].phase.Reading?
      ensures InJournal(c, s.ios[x]) && |s.ios[x].gens| == s.ios[x].num && Verifies(c, s.ios[x])
    {
      assert Shape(c, s.shifts, s.ios[x]) && Data(c, s, s.ios[x]);
    }
  }

  // Crash safety: whatever the interleaving, the failed I/Os and the process crashes and resumes
  // of a run are, every cell that names a generation names complete content, and no read has
  // obtained a byte that fails its verification.
  lemma CrashSafety(c: Setup, s: State, events: seq<Event>, t: State)
    requires Init(c, s) && Leads(c, s, events, t) && forall e <- events :: Orderly(e)
    ensures WellFormed(c, t) && CellsSafe(c, t.cells, t.content) && ReadsVerify(c, t.ios)
  {
    hide Expected, Locks, Verifies, ReadsVerify;
    InitInv(c, s);
    RunKeepsInv(c, s, events, t);
    InvVerifiesReads(c, t);
  }
}
