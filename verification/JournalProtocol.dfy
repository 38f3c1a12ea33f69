/**
 * The write journal as a transition system: any number of threads run journaled I/Os on any
 * number of journals that share one array of stripe locks, and every atomic access to a lock, a
 * journal cell or a byte of a target is a step of its own. Process ends, power failures and page
 * write-back can strike between any two steps.
 */
module JournalProtocol {
  import opened Arith
  import opened Word64
  import opened JournalRegions
  import opened JournalTile

  // ---- Constants of a history: the journals' stored metadata and whether journalsync is on ----

  datatype JournalInfo = JournalInfo(offset: u64, blockSize: nat, numBlocks: nat, seed: u64)

  datatype Setup = Setup(journals: seq<JournalInfo>, journalSync: bool)

  datatype BlockId = BlockId(journal: nat, index: nat)

  predicate IsBlock(c: Setup, b: BlockId) {
    b.journal < |c.journals| && b.index < c.journals[b.journal].numBlocks
  }

  // The complete content of generation g for a block, as the worker fills and verifies it.
  function Expected(c: Setup, b: BlockId, g: Gen): (content: seq<byte>)
    requires IsBlock(c, b)
    ensures |content| == c.journals[b.journal].blockSize
  {
    var j := c.journals[b.journal];
    BlockContent((j.offset + b.index * j.blockSize) % WORD, j.seed, g, j.blockSize)
  }

  // ---- State ----

  datatype Intent = Write | ReadSkipUninit | ReadOrInit

  datatype Phase =
    | Locking(next: nat)     // inside begin(): holds the first `next` of its locks
    | Loading                // inside begin(): snapshots the generations of a read
    | Upgrading              // inside begin(): gives up the shared locks to claim the range
    | Claiming(marked: nat)  // inside begin(): the first `marked` cells are cleared
    | Reading                // ACTION_READ was returned
    | Writing                // ACTION_WRITE was returned
    | Committing(done: nat)  // the device write succeeded; the first `done` cells are committed
    | Releasing              // gives up its locks and then ends
    | Orphan                 // its locks are gone while its device write is still in flight

  datatype IO = IO(
    thread: nat, journal: nat, base: nat, num: nat, intent: Intent, mayBlock: bool,
    exclusive: bool, held: set<nat>, phase: Phase, gens: seq<Gen>, anyWasVerifiable: bool,
    buf: map<(nat, nat), byte>)

  datatype State = State(
    cells: map<BlockId, Gen>,          // the mapped journal, as all processes see it
    disk: map<BlockId, Gen>,           // the journal as it would be found after a power failure
    content: map<BlockId, seq<byte>>,  // the targets
    shifts: seq<nat>,                  // per journal: log2 of the region size of this run
    ios: map<nat, IO>)                 // the I/Os in flight

  ghost predicate WellFormed(c: Setup, s: State) {
    && |s.shifts| == |c.journals|
    && forall b: BlockId {:trigger IsBlock(c, b)} | IsBlock(c, b) ::
         b in s.cells && b in s.disk && b in s.content
         && |s.content[b]| == c.journals[b.journal].blockSize
  }

  predicate InRange(c: Setup, shifts: seq<nat>, io: IO)
    requires |shifts| == |c.journals|
  {
    InJournal(c, io) && 0 < io.num <= Pow2(shifts[io.journal])
  }

  function Locks(c: Setup, shifts: seq<nat>, io: IO): (locks: seq<nat>)
    requires |shifts| == |c.journals| && InRange(c, shifts, io)
    ensures 1 <= |locks| <= 2
    ensures |locks| == 2 ==> locks[0] < locks[1]
    ensures forall l <- locks :: l < NUM_STRIPES
  {
    LockList(io.base, io.num, shifts[io.journal], c.journals[io.journal].seed)
  }

  function Elems(s: seq<nat>): set<nat> {
    set x | x in s
  }

  predicate Covers(io: IO, b: BlockId) {
    io.journal == b.journal && io.base <= b.index < io.base + io.num
  }

  predicate InJournal(c: Setup, io: IO) {
    io.journal < |c.journals| && io.base + io.num <= c.journals[io.journal].numBlocks
  }

  // The i-th journal block of an I/O.
  function Block(c: Setup, io: IO, i: nat): (b: BlockId)
    requires InJournal(c, io) && i < io.num
    ensures IsBlock(c, b) && Covers(io, b)
  {
    BlockId(io.journal, io.base + i)
  }

  // Inside the call of begin(), where a thread may wait for a lock.
  predicate InBegin(p: Phase) {
    p.Locking? || p.Loading? || p.Upgrading? || p.Claiming?
  }

  // Phases in which all locks of the range are held.
  predicate Guarded(p: Phase) {
    p.Loading? || p.Reading? || p.Claiming? || p.Writing? || p.Committing?
  }

  // A shared_mutex can be locked exclusively if nobody holds it and shared if nobody holds it
  // exclusively.
  predicate Free(ios: map<nat, IO>, id: nat, stripe: nat, exclusive: bool) {
    forall y | y in ios && y != id && stripe in ios[y].held :: !exclusive && !ios[y].exclusive
  }

  // ---- Steps ----

  datatype Step =
    | Lock
    | Refuse                     // try_lock did not get the lock
    | LoadCell
    | Decide                     // read, skip, or upgrade to an initializing write
    | ClaimLoad
    | ClaimMark
    | ClaimDone                  // with the msync that claimForWrite() may skip
    | SyncFailed                 // that msync failed, so begin() throws
    | PutByte(i: nat, k: nat)    // one byte of a device write lands
    | WriteDone
    | WriteFailed                // the device write ended without success
    | Abandon                    // release() while the device write is in flight
    | CommitCell
    | CommitDone(synced: bool)   // with its msync, which may fail
    | GetByte(i: nat, k: nat)    // one byte of a device read arrives
    | ReadDone
    | Unlock(stripe: nat)
    | Finish

  datatype Event =
    | Begin(id: nat, io: IO)
    | Do(id: nat, step: Step)
    | WriteBack(block: BlockId)  // the kernel writes a page of the journal back
    | Restart(shifts: seq<nat>)  // the process ends or crashes; the page cache survives
    | PowerFail(shifts: seq<nat>)

  function NewIO(thread: nat, journal: nat, base: nat, num: nat, intent: Intent, mayBlock: bool): IO {
    IO(thread, journal, base, num, intent, mayBlock, intent.Write?, {}, Locking(0), [], false, map[])
  }

  predicate IsNew(io: IO) {
    io == NewIO(io.thread, io.journal, io.base, io.num, io.intent, io.mayBlock)
  }

  // A thread is in one call at a time, and it must not wait while it holds a guard.
  predicate MayBegin(ios: map<nat, IO>, io: IO) {
    forall y | y in ios && ios[y].thread == io.thread ::
      !InBegin(ios[y].phase) && (io.mayBlock ==> ios[y].phase.Orphan?)
  }

  ghost predicate Enabled(c: Setup, s: State, e: Event)
    requires WellFormed(c, s)
  {
    match e
    case Begin(id, io) =>
      id !in s.ios && IsNew(io) && InRange(c, s.shifts, io) && MayBegin(s.ios, io)
    case Do(id, step) => id in s.ios && StepEnabled(c, s, id, step)
    case WriteBack(b) => IsBlock(c, b)
    case Restart(shifts) => |shifts| == |c.journals|
    case PowerFail(shifts) => |shifts| == |c.journals|
  }

  ghost predicate StepEnabled(c: Setup, s: State, id: nat, step: Step)
    requires WellFormed(c, s) && id in s.ios
  {
    var io := s.ios[id];
    InRange(c, s.shifts, io) &&
    match step
    case Lock =>
      io.phase.Locking? && io.phase.next < |Locks(c, s.shifts, io)|
      && Free(s.ios, id, Locks(c, s.shifts, io)[io.phase.next], io.exclusive)
    case Refuse => io.phase.Locking? && !io.mayBlock
    case LoadCell => io.phase.Loading? && |io.gens| < io.num
    case Decide => io.phase.Loading? && |io.gens| == io.num
    case ClaimLoad => io.phase.Claiming? && |io.gens| == io.phase.marked < io.num
    case ClaimMark => io.phase.Claiming? && |io.gens| == io.phase.marked + 1 <= io.num
    case ClaimDone => io.phase.Claiming? && |io.gens| == io.phase.marked == io.num
    case SyncFailed =>
      io.phase.Claiming? && |io.gens| == io.phase.marked == io.num
      && c.journalSync && io.anyWasVerifiable
    case PutByte(i, k) =>
      (io.phase.Writing? || io.phase.Orphan?)
      && i < io.num == |io.gens| && k < c.journals[io.journal].blockSize
    case WriteDone => io.phase.Writing? && |io.gens| == io.num && ContentComplete(c, s, io)
    case WriteFailed => io.phase.Writing?
    case Abandon => io.phase.Writing?
    case CommitCell => io.phase.Committing? && io.phase.done < io.num == |io.gens|
    case CommitDone(synced) =>
      io.phase.Committing? && io.phase.done == io.num && (synced ==> c.journalSync)
    case GetByte(i, k) =>
      io.phase.Reading? && i < io.num == |io.gens| && k < c.journals[io.journal].blockSize
    case ReadDone => io.phase.Reading?
    case Unlock(stripe) => (io.phase.Releasing? || io.phase.Upgrading?) && stripe in io.held
    case Finish => (io.phase.Releasing? || io.phase.Upgrading?) && io.held == {}
  }

  // Every block of the I/O holds the complete content of the I/O's generation for it.
  ghost predicate ContentComplete(c: Setup, s: State, io: IO)
    requires WellFormed(c, s) && InJournal(c, io) && |io.gens| == io.num
  {
    forall b: BlockId | IsBlock(c, b) && Covers(io, b) ::
      s.content[b] == Expected(c, b, io.gens[b.index - io.base])
  }

  ghost function Apply(c: Setup, s: State, e: Event): State
    requires WellFormed(c, s) && Enabled(c, s, e)
  {
    match e
    case Begin(id, io) => s.(ios := s.ios[id := io])
    case Do(id, step) =>
      State(NextCells(c, s, id, step), NextDisk(c, s, id, step), NextContent(c, s, id, step),
            s.shifts, NextIOs(c, s, id, step))
    case WriteBack(b) => s.(disk := s.disk[b := s.cells[b]])
    case Restart(shifts) => s.(shifts := shifts, ios := map[])
    case PowerFail(shifts) => s.(cells := s.disk, shifts := shifts, ios := map[])
  }

  ghost function NextCells(c: Setup, s: State, id: nat, step: Step): map<BlockId, Gen>
    requires WellFormed(c, s) && id in s.ios && StepEnabled(c, s, id, step)
  {
    var io := s.ios[id];
    if step.ClaimMark? then s.cells[Block(c, io, io.phase.marked) := 0]
    else if step.CommitCell? then
      var b := Block(c, io, io.phase.done);
      s.cells[b := OrGen(s.cells[b], io.gens[io.phase.done])]
    else s.cells
  }

  ghost function NextDisk(c: Setup, s: State, id: nat, step: Step): map<BlockId, Gen>
    requires WellFormed(c, s) && id in s.ios && StepEnabled(c, s, id, step)
  {
    var io := s.ios[id];
    if step.ClaimDone? && c.journalSync && io.anyWasVerifiable then Synced(s, io)
    else if step.CommitDone? && step.synced then Synced(s, io)
    else s.disk
  }

  // An msync makes the cells of the I/O durable as they are.
  function Synced(s: State, io: IO): map<BlockId, Gen> {
    map b | b in s.disk :: if Covers(io, b) && b in s.cells then s.cells[b] else s.disk[b]
  }

  ghost function NextContent(c: Setup, s: State, id: nat, step: Step): map<BlockId, seq<byte>>
    requires WellFormed(c, s) && id in s.ios && StepEnabled(c, s, id, step)
  {
    if step.PutByte? then
      var b := Block(c, s.ios[id], step.i);
      s.content[b := s.content[b][step.k := Expected(c, b, s.ios[id].gens[step.i])[step.k]]]
    else s.content
  }

  ghost function NextIOs(c: Setup, s: State, id: nat, step: Step): map<nat, IO>
    requires WellFormed(c, s) && id in s.ios && StepEnabled(c, s, id, step)
  {
    if step.Finish? && s.ios[id].phase.Releasing? then s.ios - {id}
    else s.ios[id := NextIO(c, s, id, step)]
  }

  ghost function NextIO(c: Setup, s: State, id: nat, step: Step): IO
    requires WellFormed(c, s) && id in s.ios && StepEnabled(c, s, id, step)
  {
    var io := s.ios[id];
    match step
    case Lock =>
      var locks := Locks(c, s.shifts, io);
      var next := io.phase.next;
      io.(held := io.held + {locks[next]},
          phase := if next + 1 < |locks| then Locking(next + 1)
                   else if io.exclusive then Claiming(0) else Loading)
    case Refuse => io.(phase := Releasing)
    case LoadCell => io.(gens := io.gens + [s.cells[Block(c, io, |io.gens|)]])
    case Decide =>
      if forall g <- io.gens :: g != 0 then io.(phase := Reading)
      else if io.intent.ReadSkipUninit? then
        if forall g <- io.gens :: g == 0 then io.(phase := Releasing) else io.(phase := Reading)
      else io.(phase := Upgrading)
    case ClaimLoad =>
      var prev := s.cells[Block(c, io, |io.gens|)];
      io.(gens := io.gens + [NextGen(prev)], anyWasVerifiable := io.anyWasVerifiable || prev != 0)
    case ClaimMark => io.(phase := Claiming(io.phase.marked + 1))
    case ClaimDone => io.(phase := Writing)
    case SyncFailed => io.(phase := Releasing)
    case PutByte(_, _) => io
    case WriteDone => io.(phase := Committing(0))
    case WriteFailed => io.(phase := Releasing)
    case Abandon => io.(held := {}, phase := Orphan)
    case CommitCell => io.(phase := Committing(io.phase.done + 1))
    case CommitDone(_) => io.(phase := Releasing)
    case GetByte(i, k) => io.(buf := io.buf[(i, k) := s.content[Block(c, io, i)][k]])
    case ReadDone => io.(phase := Releasing)
    case Unlock(stripe) => io.(held := io.held - {stripe})
    case Finish => io.(phase := Locking(0), exclusive := true, gens := [])
  }

  // ---- Whole runs ----

  // The events lead from s to t.
  ghost predicate Leads(c: Setup, s: State, events: seq<Event>, t: State)
    decreases |events|
  {
    WellFormed(c, s) &&
    if events == [] then s == t
    else Enabled(c, s, events[0]) && Leads(c, Apply(c, s, events[0]), events[1..], t)
  }

  // Fresh journals, on targets with any content.
  ghost predicate Init(c: Setup, s: State) {
    && WellFormed(c, s) && s.ios == map[]
    && forall b: BlockId | IsBlock(c, b) :: s.cells[b] == 0 && s.disk[b] == 0
  }
}
