/**
 * The transition system of the journal on the mapped files themselves: cells are pairs of bits
 * that share bytes, accesses are masked byte operations, and what reaches the disk are whole
 * bytes. Every run on the files is a run on the cells.
 */
module JournalRefinement {
  import opened Word64
  import opened JournalTile
  import opened JournalCells
  import opened JournalObjects
  import L = JournalLocking
  import P = JournalProtocol
  import Power = JournalPower
  import S = JournalSafety
  import Z = JournalHazards

  type Files = seq<seq<bv8>>

  // All threads' view, with the files of all journals in memory and on disk.
  datatype Concrete = Concrete(
    mem: Files, disk: Files, content: map<P.BlockId, seq<byte>>, shifts: seq<nat>, ios: map<nat, P.IO>)

  datatype FileEvent =
    | Step(e: P.Event)                        // any event but the write-back of a single cell
    | PageOut(journal: nat, byteIdx: nat)     // a byte of a journal file reaches the disk

  // ---- The cells of the files ----

  function MapLength(numBlocks: nat): nat {
    (numBlocks * 2 + 7) / 8
  }

  predicate Sized(c: P.Setup, f: Files) {
    |f| == |c.journals| && forall j | 0 <= j < |f| :: |f[j]| == MapLength(c.journals[j].numBlocks)
  }

  // Cells behind the last block are 0.
  predicate SpareZero(c: P.Setup, f: Files)
    requires Sized(c, f)
  {
    forall j, i | 0 <= j < |f| && c.journals[j].numBlocks <= i < 4 * |f[j]| :: CellAt(f[j], i) == 0
  }

  lemma BlocksFit(c: P.Setup, f: Files, b: P.BlockId)
    requires Sized(c, f) && P.IsBlock(c, b)
    ensures b.index < 4 * |f[b.journal]|
  {
  }

  function CellOf(c: P.Setup, f: Files, b: P.BlockId): Gen
    requires Sized(c, f) && P.IsBlock(c, b)
  {
    BlocksFit(c, f, b);
    CellAt(f[b.journal], b.index)
  }

  function AllBlocks(c: P.Setup): (blocks: set<P.BlockId>)
    ensures forall b :: b in blocks <==> P.IsBlock(c, b)
  {
    set j: nat, i: nat | j < |c.journals| && i < c.journals[j].numBlocks :: P.BlockId(j, i)
  }

  function CellsOf(c: P.Setup, f: Files): map<P.BlockId, Gen>
    requires Sized(c, f)
  {
    map b | b in AllBlocks(c) :: CellOf(c, f, b)
  }

  function Abs(c: P.Setup, x: Concrete): P.State
    requires Sized(c, x.mem) && Sized(c, x.disk)
  {
    P.State(CellsOf(c, x.mem), CellsOf(c, x.disk), x.content, x.shifts, x.ios)
  }

  // ---- Steps on the files ----

  ghost predicate Ok(c: P.Setup, x: Concrete) {
    Sized(c, x.mem) && Sized(c, x.disk) && SpareZero(c, x.mem) && SpareZero(c, x.disk) && P.WellFormed(c, Abs(c, x))
  }

  // Whether the step ends with an msync of the I/O's cells.
  predicate Syncs(c: P.Setup, io: P.IO, step: P.Step) {
    (step.ClaimDone? && c.journalSync && io.anyWasVerifiable) || (step.CommitDone? && step.synced)
  }

  predicate OnDisk(c: P.Setup, x: Concrete, io: P.IO)
    requires Sized(c, x.mem) && Sized(c, x.disk)
  {
    forall b | b in AllBlocks(c) && P.Covers(io, b) :: CellOf(c, x.disk, b) == CellOf(c, x.mem, b)
  }

  // An msync writes its bytes one by one and returns when the I/O's own cells are on disk. The
  // cells of other I/Os in its first and last byte may have changed since.
  ghost predicate FileEnabled(c: P.Setup, x: Concrete, fe: FileEvent)
    requires Ok(c, x)
  {
    match fe
    case Step(e) =>
      && !e.WriteBack? && P.Enabled(c, Abs(c, x), e)
      && (e.Do? && Syncs(c, x.ios[e.id], e.step) ==> OnDisk(c, x, x.ios[e.id]))
    case PageOut(j, k) => j < |x.mem| && k < |x.mem[j]|
  }

  function Masked(f: Files, b: P.BlockId, value: bv8): Files
    requires b.journal < |f| && b.index < 4 * |f[b.journal]|
  {
    f[b.journal := f[b.journal][b.index / 4 := value]]
  }

  // fetch_and and fetch_or on the byte that holds the cell.
  ghost function NextMem(c: P.Setup, x: Concrete, id: nat, step: P.Step): Files
    requires Ok(c, x) && id in x.ios && P.StepEnabled(c, Abs(c, x), id, step)
  {
    var io := x.ios[id];
    if step.ClaimMark? then
      var b := P.Block(c, io, io.phase.marked);
      BlocksFit(c, x.mem, b);
      Masked(x.mem, b, Busy(x.mem[b.journal][b.index / 4], b.index % 4))
    else if step.CommitCell? then
      var b := P.Block(c, io, io.phase.done);
      BlocksFit(c, x.mem, b);
      Masked(x.mem, b, Commit(x.mem[b.journal][b.index / 4], b.index % 4, io.gens[io.phase.done]))
    else x.mem
  }

  // Bytes lo..hi of journal j, written from memory to disk.
  function Flushed(mem: Files, disk: Files, j: nat, lo: nat, hi: nat): Files
    requires j < |mem| == |disk| && |mem[j]| == |disk[j]|
  {
    disk[j := seq(|disk[j]|, k requires 0 <= k < |disk[j]| => if lo <= k < hi then mem[j][k] else disk[j][k])]
  }

  ghost function FileApply(c: P.Setup, x: Concrete, fe: FileEvent): Concrete
    requires Ok(c, x) && FileEnabled(c, x, fe)
  {
    match fe
    case PageOut(j, k) => x.(disk := Flushed(x.mem, x.disk, j, k, k + 1))
    case Step(e) =>
      var t := P.Apply(c, Abs(c, x), e);
      var files := match e
        case Do(id, step) => (NextMem(c, x, id, step), x.disk)
        case PowerFail(_) => (x.disk, x.disk)
        case Begin(_, _) => (x.mem, x.disk)
        case Restart(_) => (x.mem, x.disk)
        case WriteBack(_) => (x.mem, x.disk);
      Concrete(files.0, files.1, t.content, t.shifts, t.ios)
  }

  // ---- Masked bytes are single cells ----

  lemma MaskedCells(c: P.Setup, f: Files, b: P.BlockId, value: bv8, g: Gen)
    requires Sized(c, f) && SpareZero(c, f) && P.IsBlock(c, b)
    requires b.index < 4 * |f[b.journal]|
    requires var bytes := f[b.journal]; Cells(bytes[b.index / 4 := value]) == Cells(bytes)[b.index := g]
    ensures Sized(c, Masked(f, b, value)) && SpareZero(c, Masked(f, b, value))
    ensures CellsOf(c, Masked(f, b, value)) == CellsOf(c, f)[b := g]
  {
    hide CellAt;
    var f' := Masked(f, b, value);
    forall j, i | 0 <= j < |f| && 0 <= i < 4 * |f[j]|
      ensures CellAt(f'[j], i) == if j == b.journal && i == b.index then g else CellAt(f[j], i)
    {
      if j == b.journal {
        assert Cells(f'[j])[i] == Cells(f[j])[b.index := g][i];
      }
    }
  }

  lemma MemStep(c: P.Setup, x: Concrete, id: nat, step: P.Step)
    requires Ok(c, x) && id in x.ios && P.StepEnabled(c, Abs(c, x), id, step)
    ensures Sized(c, NextMem(c, x, id, step)) && SpareZero(c, NextMem(c, x, id, step))
    ensures CellsOf(c, NextMem(c, x, id, step)) == P.NextCells(c, Abs(c, x), id, step)
  {
    hide CellAt, Busy, Commit, P.Locks, P.ContentComplete, P.Free;
    var io := x.ios[id];
    if step.ClaimMark? {
      var b := P.Block(c, io, io.phase.marked);
      BlocksFit(c, x.mem, b);
      BusyCells(x.mem[b.journal], b.index);
      MaskedCells(c, x.mem, b, Busy(x.mem[b.journal][b.index / 4], b.index % 4), 0);
    } else if step.CommitCell? {
      var b := P.Block(c, io, io.phase.done);
      var g := io.gens[io.phase.done];
      BlocksFit(c, x.mem, b);
      CommitCells(x.mem[b.journal], b.index, g);
      MaskedCells(c, x.mem, b, Commit(x.mem[b.journal][b.index / 4], b.index % 4, g), OrGen(CellOf(c, x.mem, b), g));
    }
  }

  // ---- Whole bytes on their way to the disk ----

  // The write-back of the cells lo..hi of journal j, as far as they are blocks.
  function WriteBacks(c: P.Setup, j: nat, lo: nat, hi: nat): seq<P.Event>
    requires j < |c.journals|
  {
    if hi <= lo then []
    else if hi - 1 < c.journals[j].numBlocks then
      WriteBacks(c, j, lo, hi - 1) + [P.WriteBack(P.BlockId(j, hi - 1))]
    else WriteBacks(c, j, lo, hi - 1)
  }

  ghost predicate DiskAfter(c: P.Setup, s: P.State, t: P.State, j: nat, lo: nat, hi: nat)
    requires P.WellFormed(c, s)
  {
    && t == s.(disk := t.disk) && t.disk.Keys == s.disk.Keys
    && (forall b | P.IsBlock(c, b) ::
         b in t.disk && t.disk[b] == if b.journal == j && lo <= b.index < hi then s.cells[b] else s.disk[b])
    && (forall b | b in s.disk && !P.IsBlock(c, b) :: t.disk[b] == s.disk[b])
  }

  lemma OneWriteBack(c: P.Setup, s: P.State, m: P.State, j: nat, lo: nat, hi: nat)
    requires P.WellFormed(c, s) && DiskAfter(c, s, m, j, lo, hi) && lo <= hi && P.IsBlock(c, P.BlockId(j, hi))
    ensures var b := P.BlockId(j, hi); DiskAfter(c, s, m.(disk := m.disk[b := m.cells[b]]), j, lo, hi + 1)
  {
    var b := P.BlockId(j, hi);
    var t := m.(disk := m.disk[b := m.cells[b]]);
    assert t.disk.Keys == s.disk.Keys;
  }

  lemma OneMoreWriteBack(c: P.Setup, s: P.State, events: seq<P.Event>, m: P.State, j: nat, lo: nat, hi: nat) returns (t: P.State)
    requires P.Leads(c, s, events, m) && P.WellFormed(c, s) && P.WellFormed(c, m)
    requires DiskAfter(c, s, m, j, lo, hi) && lo <= hi && P.IsBlock(c, P.BlockId(j, hi))
    ensures P.Leads(c, s, events + [P.WriteBack(P.BlockId(j, hi))], t)
    ensures P.WellFormed(c, t) && DiskAfter(c, s, t, j, lo, hi + 1)
  {
    var b := P.BlockId(j, hi);
    t := P.Apply(c, m, P.WriteBack(b));
    OneWriteBack(c, s, m, j, lo, hi);
    hide P.Leads, DiskAfter;
    Z.Append(c, s, events, m, P.WriteBack(b));
  }

  lemma {:induction false} WriteBacksLead(c: P.Setup, s: P.State, j: nat, lo: nat, hi: nat) returns (t: P.State)
    requires P.WellFormed(c, s) && j < |c.journals|
    ensures P.Leads(c, s, WriteBacks(c, j, lo, hi), t) && P.WellFormed(c, t) && DiskAfter(c, s, t, j, lo, hi)
    ensures forall e <- WriteBacks(c, j, lo, hi) :: e.WriteBack?
    decreases hi
  {
    if hi <= lo {
      t := s;
    } else {
      hide P.Leads, DiskAfter, P.WellFormed;
      var m := WriteBacksLead(c, s, j, lo, hi - 1);
      var b := P.BlockId(j, hi - 1);
      if P.IsBlock(c, b) {
        t := OneMoreWriteBack(c, s, WriteBacks(c, j, lo, hi - 1), m, j, lo, hi - 1);
      } else {
        t := m;
        NoSuchBlock(c, s, m, j, lo, hi - 1);
      }
    }
  }

  lemma NoSuchBlock(c: P.Setup, s: P.State, m: P.State, j: nat, lo: nat, hi: nat)
    requires P.WellFormed(c, s) && DiskAfter(c, s, m, j, lo, hi) && !P.IsBlock(c, P.BlockId(j, hi))
    ensures DiskAfter(c, s, m, j, lo, hi + 1)
  {
    forall b | P.IsBlock(c, b) ensures !(b.journal == j && b.index == hi) {
      assert b == P.BlockId(b.journal, b.index);
    }
  }

  lemma FlushedCells(c: P.Setup, x: Concrete, j: nat, lo: nat, hi: nat)
    requires Ok(c, x) && j < |x.mem|
    ensures var d := Flushed(x.mem, x.disk, j, lo, hi);
      && Sized(c, d) && SpareZero(c, d)
      && forall b | P.IsBlock(c, b) ::
           CellOf(c, d, b) == if b.journal == j && 4 * lo <= b.index < 4 * hi
                              then CellOf(c, x.mem, b) else CellOf(c, x.disk, b)
  {
    hide SlotOf, P.WellFormed;
    var d := Flushed(x.mem, x.disk, j, lo, hi);
    forall k: nat, i: nat | k < |d| && i < 4 * |d[k]|
      ensures CellAt(d[k], i) == if k == j && 4 * lo <= i < 4 * hi then CellAt(x.mem[k], i) else CellAt(x.disk[k], i)
    {
      assert lo <= i / 4 < hi <==> 4 * lo <= i < 4 * hi;
    }
  }

  // ---- Every step on the files is a run on the cells ----

  // Abs(y) is what DiskAfter describes.
  lemma DiskIs(c: P.Setup, s: P.State, t: P.State, d: Files, j: nat, lo: nat, hi: nat)
    requires P.WellFormed(c, s) && DiskAfter(c, s, t, j, lo, hi) && Sized(c, d) && s.disk.Keys == AllBlocks(c)
    requires forall b | P.IsBlock(c, b) ::
      CellOf(c, d, b) == if b.journal == j && lo <= b.index < hi then s.cells[b] else s.disk[b]
    ensures t == s.(disk := CellsOf(c, d))
  {
    hide CellOf;
    forall b | b in AllBlocks(c) ensures t.disk[b] == CellOf(c, d, b) {
      assert P.IsBlock(c, b);
    }
  }

  lemma PageOutRefines(c: P.Setup, x: Concrete, j: nat, k: nat) returns (events: seq<P.Event>)
    requires Ok(c, x) && FileEnabled(c, x, PageOut(j, k))
    ensures var y := FileApply(c, x, PageOut(j, k)); Ok(c, y) && P.Leads(c, Abs(c, x), events, Abs(c, y))
    ensures forall e <- events :: e.WriteBack?
  {
    hide P.Leads, CellOf, CellAt, P.Enabled, P.Apply, OnDisk, SpareZero, WriteBacks, DiskAfter;
    var s, y := Abs(c, x), FileApply(c, x, PageOut(j, k));
    events := WriteBacks(c, j, 4 * k, 4 * k + 4);
    var t := WriteBacksLead(c, s, j, 4 * k, 4 * k + 4);
    FlushedCells(c, x, j, k, k + 1);
    DiskIs(c, s, t, y.disk, j, 4 * k, 4 * k + 4);
  }

  lemma LeadsFirst(c: P.Setup, s: P.State, e: P.Event, events: seq<P.Event>, t: P.State)
    requires P.WellFormed(c, s) && P.Enabled(c, s, e) && P.Leads(c, P.Apply(c, s, e), events, t)
    ensures P.Leads(c, s, [e] + events, t)
  {
    hide P.WellFormed, P.Enabled, P.Apply;
    assert ([e] + events)[1..] == events;
  }

  lemma CoveredBytes(io: P.IO, i: nat)
    requires io.base <= i < io.base + io.num
    ensures 4 * (io.base / 4) <= i < 4 * ((io.base + io.num + 3) / 4)
  {
  }

  // What a step with an msync does to the cells.
  lemma SyncOnCells(c: P.Setup, s: P.State, id: nat, step: P.Step)
    requires P.WellFormed(c, s) && P.Enabled(c, s, P.Do(id, step)) && Syncs(c, s.ios[id], step)
    ensures var io, m := s.ios[id], P.Apply(c, s, P.Do(id, step));
      && m.cells == s.cells && m.content == s.content && m.shifts == s.shifts && m.disk.Keys == s.disk.Keys
      && forall b | P.IsBlock(c, b) :: m.disk[b] == if P.Covers(io, b) then s.cells[b] else s.disk[b]
  {
    hide P.Locks, P.ContentComplete, P.Free, P.NextIOs;
  }

  // An msync that returns adds nothing to the disk: its cells have all reached it before.
  lemma SyncRefines(c: P.Setup, x: Concrete, id: nat, step: P.Step)
    requires Ok(c, x) && FileEnabled(c, x, Step(P.Do(id, step))) && Syncs(c, x.ios[id], step)
    ensures P.Apply(c, Abs(c, x), P.Do(id, step)).disk == CellsOf(c, x.disk)
  {
    hide CellOf, P.StepEnabled, P.NextIOs;
    SyncOnCells(c, Abs(c, x), id, step);
    hide P.Apply;
    forall b | b in AllBlocks(c) ensures P.IsBlock(c, b) {
    }
  }

  function PageOuts(j: nat, lo: nat, hi: nat): seq<FileEvent>
    decreases hi - lo
  {
    if hi <= lo then [] else [PageOut(j, lo)] + PageOuts(j, lo + 1, hi)
  }

  lemma FlushedOne(mem: Files, disk: Files, j: nat, lo: nat, hi: nat)
    requires j < |mem| == |disk| && |mem[j]| == |disk[j]| && lo < hi
    ensures Flushed(mem, Flushed(mem, disk, j, lo, lo + 1), j, lo + 1, hi) == Flushed(mem, disk, j, lo, hi)
  {
    var once := Flushed(mem, disk, j, lo, lo + 1);
    assert Flushed(mem, once, j, lo + 1, hi)[j] == Flushed(mem, disk, j, lo, hi)[j];
  }

  lemma {:induction false} PageOutsFlush(c: P.Setup, x: Concrete, j: nat, lo: nat, hi: nat)
    requires Ok(c, x) && j < |x.mem| && hi <= |x.mem[j]|
    ensures FileLeads(c, x, PageOuts(j, lo, hi), x.(disk := Flushed(x.mem, x.disk, j, lo, hi)))
    decreases hi - lo
  {
    hide P.WellFormed, SpareZero, Flushed;
    if hi <= lo {
      assert Flushed(x.mem, x.disk, j, lo, hi) == x.disk by { FlushedNothing(x.mem, x.disk, j, lo, hi); }
    } else {
      var events := PageOutRefines(c, x, j, lo);
      var next := FileApply(c, x, PageOut(j, lo));
      PageOutsFlush(c, next, j, lo + 1, hi);
      FlushedOne(x.mem, x.disk, j, lo, hi);
      assert PageOuts(j, lo, hi)[1..] == PageOuts(j, lo + 1, hi);
    }
  }

  lemma FlushedNothing(mem: Files, disk: Files, j: nat, lo: nat, hi: nat)
    requires j < |mem| == |disk| && |mem[j]| == |disk[j]| && hi <= lo
    ensures Flushed(mem, disk, j, lo, hi) == disk
  {
    assert Flushed(mem, disk, j, lo, hi)[j] == disk[j];
  }

  lemma BytesFit(c: P.Setup, x: Concrete, io: P.IO)
    requires Ok(c, x) && io.journal < |c.journals| && io.base + io.num <= c.journals[io.journal].numBlocks
    ensures (io.base + io.num + 3) / 4 <= |x.mem[io.journal]|
  {
  }

  // The msync of an I/O can always return: the page-outs of its bytes are enough.
  lemma SyncCanReturn(c: P.Setup, x: Concrete, id: nat, step: P.Step) returns (fes: seq<FileEvent>, y: Concrete)
    requires Ok(c, x) && P.Enabled(c, Abs(c, x), P.Do(id, step)) && Syncs(c, x.ios[id], step)
    ensures FileLeads(c, x, fes, y) && (forall fe <- fes :: fe.PageOut?) && y == x.(disk := y.disk)
    ensures Ok(c, y) && FileEnabled(c, y, Step(P.Do(id, step)))
  {
    hide P.WellFormed, SpareZero, CellOf, P.StepEnabled;
    var io := x.ios[id];
    var lo, hi := io.base / 4, (io.base + io.num + 3) / 4;
    InItsJournal(c, Abs(c, x), id, step);
    BytesFit(c, x, io);
    fes := PageOuts(io.journal, lo, hi);
    PageOutsOnly(io.journal, lo, hi);
    y := x.(disk := Flushed(x.mem, x.disk, io.journal, lo, hi));
    PageOutsFlush(c, x, io.journal, lo, hi);
    EndsOk(c, x, fes, y);
    FlushedCells(c, x, io.journal, lo, hi);
    forall b | b in AllBlocks(c) && P.Covers(io, b) ensures CellOf(c, y.disk, b) == CellOf(c, x.mem, b) {
      CoveredBytes(io, b.index);
    }
    StillEnabled(c, Abs(c, x), Abs(c, y), id, step);
  }

  lemma {:induction false} PageOutsOnly(j: nat, lo: nat, hi: nat)
    ensures forall fe <- PageOuts(j, lo, hi) :: fe.PageOut?
    decreases hi - lo
  {
    if lo < hi { PageOutsOnly(j, lo + 1, hi); }
  }

  lemma {:induction false} EndsOk(c: P.Setup, x: Concrete, fes: seq<FileEvent>, y: Concrete)
    requires FileLeads(c, x, fes, y)
    ensures Ok(c, y)
    decreases |fes|
  {
    hide Ok, FileApply, FileEnabled;
    if fes != [] { EndsOk(c, FileApply(c, x, fes[0]), fes[1..], y); }
  }

  lemma StillEnabled(c: P.Setup, s: P.State, t: P.State, id: nat, step: P.Step)
    requires P.WellFormed(c, s) && P.WellFormed(c, t) && t == s.(disk := t.disk)
    requires P.Enabled(c, s, P.Do(id, step)) && Syncs(c, s.ios[id], step)
    ensures P.Enabled(c, t, P.Do(id, step))
  {
    hide P.Locks, P.Free, P.ContentComplete;
  }

  lemma InItsJournal(c: P.Setup, s: P.State, id: nat, step: P.Step)
    requires P.WellFormed(c, s) && P.Enabled(c, s, P.Do(id, step))
    ensures var io := s.ios[id];
      io.journal < |c.journals| && io.base + io.num <= c.journals[io.journal].numBlocks
  {
    hide P.Locks, P.ContentComplete, P.Free;
  }

  // Any event but a page-out is one event on the cells.
  lemma EventRefines(c: P.Setup, x: Concrete, e: P.Event)
    requires Ok(c, x) && FileEnabled(c, x, Step(e))
    ensures var y := FileApply(c, x, Step(e)); Ok(c, y) && P.Leads(c, Abs(c, x), [e], Abs(c, y))
  {
    hide P.Leads, CellOf, CellAt, P.StepEnabled, P.NextIOs, P.NextContent;
    var s, y := Abs(c, x), FileApply(c, x, Step(e));
    L.StaysWellFormed(c, s, e);
    if e.Do? {
      MemStep(c, x, e.id, e.step);
      if Syncs(c, x.ios[e.id], e.step) { SyncRefines(c, x, e.id, e.step); }
    }
    assert Abs(c, y) == P.Apply(c, s, e);
    NoMore(c, Abs(c, y));
    LeadsFirst(c, s, e, [], Abs(c, y));
    assert [e] + [] == [e];
  }

  lemma NoMore(c: P.Setup, s: P.State)
    requires P.WellFormed(c, s)
    ensures P.Leads(c, s, [], s)
  {
  }

  // ---- Whole runs ----

  ghost predicate FileLeads(c: P.Setup, x: Concrete, fes: seq<FileEvent>, y: Concrete)
    decreases |fes|
  {
    && Ok(c, x)
    && (fes == [] ==> x == y)
    && (fes != [] ==> FileEnabled(c, x, fes[0]) && FileLeads(c, FileApply(c, x, fes[0]), fes[1..], y))
  }

  // Guards are given up after the device write, and the power stays on.
  predicate FileOrderly(fe: FileEvent) {
    fe.Step? ==> S.Orderly(fe.e)
  }

  predicate WriteBacksOnly(events: seq<P.Event>) {
    forall e <- events :: e.WriteBack?
  }

  // The events that a file event stands for: the event itself, or write-backs of cells.
  predicate StandsFor(events: seq<P.Event>, fe: FileEvent) {
    match fe
    case PageOut(_, _) => WriteBacksOnly(events)
    case Step(e) => events == [e]
  }

  lemma StepRefines(c: P.Setup, x: Concrete, fe: FileEvent) returns (events: seq<P.Event>)
    requires Ok(c, x) && FileEnabled(c, x, fe)
    ensures var y := FileApply(c, x, fe); Ok(c, y) && P.Leads(c, Abs(c, x), events, Abs(c, y))
    ensures StandsFor(events, fe)
  {
    hide P.Leads, Ok, FileApply;
    match fe
    case PageOut(j, k) => events := PageOutRefines(c, x, j, k);
    case Step(e) =>
      EventRefines(c, x, e);
      events := [e];
  }

  lemma StaysOrderly(events: seq<P.Event>, fe: FileEvent)
    requires StandsFor(events, fe) && FileOrderly(fe)
    ensures forall e <- events :: S.Orderly(e)
  {
  }

  // Guards are given up after the device write, and every cut is clean.
  ghost predicate FileClean(c: P.Setup, x: Concrete, fes: seq<FileEvent>)
    decreases |fes|
  {
    fes == [] ||
    (&& Ok(c, x) && FileEnabled(c, x, fes[0])
     && (fes[0].Step? ==> Power.CleanCut(c, Abs(c, x), fes[0].e) && !(fes[0].e.Do? && fes[0].e.step.Abandon?))
     && FileClean(c, FileApply(c, x, fes[0]), fes[1..]))
  }

  lemma CleanFirst(c: P.Setup, x: Concrete, fe: FileEvent, first: seq<P.Event>, m: P.State, rest: seq<P.Event>)
    requires Ok(c, x) && FileEnabled(c, x, fe) && StandsFor(first, fe)
    requires fe.Step? ==> Power.CleanCut(c, Abs(c, x), fe.e) && !(fe.e.Do? && fe.e.step.Abandon?)
    requires P.Leads(c, Abs(c, x), first, m) && Power.CleanRun(c, m, rest)
    ensures Power.CleanRun(c, Abs(c, x), first + rest)
  {
    hide P.Enabled, P.Apply, Power.CleanCut;
    if fe.PageOut? {
      Z.PlainThenClean(c, Abs(c, x), first, m, rest);
    } else {
      assert (first + rest)[1..] == rest;
    }
  }

  // Every run on the files is a run on the cells that ends in the cells of the files.
  lemma {:induction false} RunRefines(c: P.Setup, x: Concrete, fes: seq<FileEvent>, y: Concrete)
      returns (events: seq<P.Event>)
    requires FileLeads(c, x, fes, y)
    ensures Ok(c, x) && Ok(c, y) && P.Leads(c, Abs(c, x), events, Abs(c, y))
    ensures (forall fe <- fes :: FileOrderly(fe)) ==> forall e <- events :: S.Orderly(e)
    ensures FileClean(c, x, fes) ==> Power.CleanRun(c, Abs(c, x), events)
    decreases |fes|
  {
    hide P.Leads, P.WellFormed, SpareZero, FileApply, FileEnabled, FileOrderly, S.Orderly, Power.CleanCut, StandsFor;
    if fes == [] {
      events := [];
      StartOf(c, x);
    } else {
      var first := StepRefines(c, x, fes[0]);
      var m := FileApply(c, x, fes[0]);
      var rest := RunRefines(c, m, fes[1..], y);
      Z.Join(c, Abs(c, x), first, Abs(c, m), rest, Abs(c, y));
      events := first + rest;
      assert fes[0] in fes && forall fe <- fes[1..] :: fe in fes;
      if FileOrderly(fes[0]) { StaysOrderly(first, fes[0]); }
      if FileClean(c, x, fes) { CleanFirst(c, x, fes[0], first, Abs(c, m), rest); }
    }
  }

  lemma StartOf(c: P.Setup, x: Concrete)
    requires Ok(c, x)
    ensures P.Leads(c, Abs(c, x), [], Abs(c, x))
  {
    NoMore(c, Abs(c, x));
  }

  ghost predicate AllZero(f: Files) {
    forall j, k | 0 <= j < |f| && 0 <= k < |f[j]| :: f[j][k] == 0
  }

  ghost predicate FreshFiles(c: P.Setup, x: Concrete) {
    Ok(c, x) && x.ios == map[] && AllZero(x.mem) && AllZero(x.disk)
  }

  // Every pair of bits that is not 0 names complete content.
  ghost predicate FilesSafe(c: P.Setup, f: Files, content: map<P.BlockId, seq<byte>>)
    requires Sized(c, f)
  {
    forall b | P.IsBlock(c, b) ::
      b in content && (CellOf(c, f, b) != 0 ==> content[b] == P.Expected(c, b, CellOf(c, f, b)))
  }

  lemma FreshIsInit(c: P.Setup, x: Concrete)
    requires FreshFiles(c, x)
    ensures P.Init(c, Abs(c, x))
  {
    hide SlotOf;
    forall b | P.IsBlock(c, b) ensures CellOf(c, x.mem, b) == 0 && CellOf(c, x.disk, b) == 0 {
      BlocksFit(c, x.mem, b);
      BlocksFit(c, x.disk, b);
      ZeroByte(b.index % 4);
    }
  }

  lemma SafeOnFiles(c: P.Setup, f: Files, content: map<P.BlockId, seq<byte>>)
    requires Sized(c, f) && S.CellsSafe(c, CellsOf(c, f), content)
    requires forall b | P.IsBlock(c, b) :: b in content
    ensures FilesSafe(c, f, content)
  {
    hide P.Expected, CellOf;
    forall b | P.IsBlock(c, b)
      ensures CellOf(c, f, b) != 0 ==> content[b] == P.Expected(c, b, CellOf(c, f, b))
    {
      assert S.BlockSafe(c, CellsOf(c, f), content, b);
    }
  }

  // Crash safety on the files: from files full of zeros, the pairs of bits in memory name only
  // complete content, the spare bits are still 0, and no read has obtained a byte that fails its
  // verification.
  lemma FilesCrashSafe(c: P.Setup, x: Concrete, fes: seq<FileEvent>, y: Concrete)
    requires FileLeads(c, x, fes, y) && FreshFiles(c, x) && forall fe <- fes :: FileOrderly(fe)
    ensures Ok(c, y) && FilesSafe(c, y.mem, y.content) && S.ReadsVerify(c, y.ios)
  {
    hide P.Leads, FileLeads, S.CellsSafe, S.ReadsVerify, CellsOf, FreshFiles, FilesSafe;
    var events := RunRefines(c, x, fes, y);
    FreshIsInit(c, x);
    S.CrashSafety(c, Abs(c, x), events, Abs(c, y));
    SafeOnFiles(c, y.mem, y.content);
  }

  // Power-failure safety on the files, where whole bytes reach the disk at any moment.
  lemma FilesPowerSafe(c: P.Setup, x: Concrete, fes: seq<FileEvent>, y: Concrete)
    requires FileLeads(c, x, fes, y) && FreshFiles(c, x) && FileClean(c, x, fes) && c.journalSync
    ensures Ok(c, y) && FilesSafe(c, y.disk, y.content) && FilesSafe(c, y.mem, y.content) && S.ReadsVerify(c, y.ios)
  {
    hide P.Leads, FileLeads, FileClean, S.CellsSafe, S.ReadsVerify, CellsOf, FreshFiles, FilesSafe, Power.CleanRun;
    var events := RunRefines(c, x, fes, y);
    FreshIsInit(c, x);
    Power.PowerSafety(c, Abs(c, x), events, Abs(c, y));
    SafeOnFiles(c, y.disk, y.content);
    SafeOnFiles(c, y.mem, y.content);
  }

  lemma ZeroByte(slot: nat)
    requires slot < 4
    ensures SlotOf(0, slot) == 0
  {
  }
}
