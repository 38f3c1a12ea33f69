/**
 * The journal's classes as one thread drives them: the mapped file, the stripe locks, the guard
 * of a range and the journal side of one I/O.
 */
module JournalObjects {
  import opened Arith
  import opened Word64
  import opened JournalRegions
  import opened JournalTile
  import opened JournalCells

  // ---- Stripe locks ----

  datatype Hold = Shared(count: nat) | Exclusive

  // Every lock that is held is held at least once.
  predicate Counted(h: map<nat, Hold>) {
    forall l | l in h && h[l].Shared? :: h[l].count > 0
  }

  predicate CanLock(h: map<nat, Hold>, l: nat, exclusive: bool) {
    l in h ==> !exclusive && h[l].Shared?
  }

  function Locked(h: map<nat, Hold>, l: nat, exclusive: bool): map<nat, Hold> {
    h[l := if exclusive then Exclusive else if l in h && h[l].Shared? then Shared(h[l].count + 1) else Shared(1)]
  }

  function Unlocked(h: map<nat, Hold>, l: nat): map<nat, Hold> {
    if l in h && h[l].Shared? && h[l].count > 1 then h[l := Shared(h[l].count - 1)] else h - {l}
  }

  function AllLocked(h: map<nat, Hold>, locks: seq<nat>, exclusive: bool): map<nat, Hold> {
    if locks == [] then h
    else Locked(AllLocked(h, locks[..|locks| - 1], exclusive), locks[|locks| - 1], exclusive)
  }

  function AllUnlocked(h: map<nat, Hold>, locks: seq<nat>): map<nat, Hold> {
    if locks == [] then h else Unlocked(AllUnlocked(h, locks[..|locks| - 1]), locks[|locks| - 1])
  }

  predicate IsLockList(locks: seq<nat>) {
    |locks| <= 2 && (|locks| == 2 ==> locks[0] < locks[1])
  }

  lemma TwoLocks(h: map<nat, Hold>, a: nat, b: nat, exclusive: bool)
    ensures AllLocked(h, [a], exclusive) == Locked(h, a, exclusive)
    ensures AllLocked(h, [a, b], exclusive) == Locked(Locked(h, a, exclusive), b, exclusive)
    ensures AllUnlocked(h, [a]) == Unlocked(h, a)
    ensures AllUnlocked(h, [a, b]) == Unlocked(Unlocked(h, a), b)
  {
    hide Locked, Unlocked;
    assert [a][..0] == [] && [a, b][..1] == [a];
    assert AllLocked(h, [], exclusive) == h && AllUnlocked(h, []) == h;
  }

  lemma UnlockUndoesLock(h: map<nat, Hold>, l: nat, exclusive: bool)
    requires Counted(h) && CanLock(h, l, exclusive)
    ensures Unlocked(Locked(h, l, exclusive), l) == h
  {
  }

  lemma UnlockCommutes(h: map<nat, Hold>, a: nat, b: nat, exclusive: bool)
    requires a != b
    ensures Unlocked(Locked(h, b, exclusive), a) == Locked(Unlocked(h, a), b, exclusive)
  {
  }

  // What a guard acquires, its release gives back, although it unlocks in the order of locking.
  lemma ReleaseRestores(h: map<nat, Hold>, locks: seq<nat>, exclusive: bool)
    requires IsLockList(locks) && Counted(h) && forall l <- locks :: CanLock(h, l, exclusive)
    ensures AllUnlocked(AllLocked(h, locks, exclusive), locks) == h
  {
    if |locks| == 0 { return; }
    hide AllLocked, AllUnlocked, Locked, Unlocked;
    var a := locks[0];
    UnlockUndoesLock(h, a, exclusive);
    if |locks| == 1 {
      assert locks == [a];
      TwoLocks(h, a, a, exclusive);
      TwoLocks(Locked(h, a, exclusive), a, a, exclusive);
    } else {
      var b := locks[1];
      assert locks == [a, b] && b in locks;
      TwoLocks(h, a, b, exclusive);
      TwoLocks(Locked(Locked(h, a, exclusive), b, exclusive), a, b, exclusive);
      UnlockCommutes(Locked(h, a, exclusive), a, b, exclusive);
      UnlockUndoesLock(h, b, exclusive);
    }
  }

  class StripeLocks {
    var holders: map<nat, Hold>

    method TryLock(l: nat, exclusive: bool) returns (gotLock: bool)
      modifies this
      ensures gotLock == CanLock(old(holders), l, exclusive)
      ensures holders == if gotLock then Locked(old(holders), l, exclusive) else old(holders)
    {
      gotLock := CanLock(holders, l, exclusive);
      if gotLock {
        holders := Locked(holders, l, exclusive);
      }
    }
  }

  datatype Outcome =
    | Acquired
    | Refused  // try_lock failed; nothing stays locked
    | Parked   // lock() has not returned yet

  class RangeGuard {
    var locks: seq<nat>
    var numLocks: nat
    var isExclusive: bool

    constructor ()
      ensures numLocks == 0
    {
      locks, numLocks, isExclusive := [], 0, false;
    }

    method Release(stripes: StripeLocks)
      requires numLocks <= |locks|
      modifies this`numLocks, stripes
      ensures numLocks == 0
      ensures stripes.holders == AllUnlocked(old(stripes.holders), old(locks[..numLocks]))
    {
      var i := 0;
      while i < numLocks
        invariant i <= numLocks == old(numLocks) && locks == old(locks)
        invariant stripes.holders == AllUnlocked(old(stripes.holders), locks[..i])
      {
        assert locks[..i + 1][..i] == locks[..i];
        stripes.holders := Unlocked(stripes.holders, locks[i]);
        i := i + 1;
      }
      numLocks := 0;
    }

    // acquireRange(): ascending, without duplicates, and holding nothing if it is refused.
    method Acquire(stripes: StripeLocks, firstStripe: nat, lastStripe: nat, exclusive: bool, mayBlock: bool)
        returns (outcome: Outcome)
      requires numLocks == 0 && Counted(stripes.holders)
      modifies this, stripes
      ensures locks == Ascending(firstStripe, lastStripe) && isExclusive == exclusive && numLocks <= |locks|
      ensures outcome.Acquired? <==> forall l <- locks :: CanLock(old(stripes.holders), l, exclusive)
      ensures outcome.Refused? ==> !mayBlock && numLocks == 0
      ensures outcome.Acquired? ==>
        numLocks == |locks| && stripes.holders == AllLocked(old(stripes.holders), locks, exclusive)
      ensures outcome.Parked? ==> mayBlock && numLocks < |locks| && !CanLock(stripes.holders, locks[numLocks], exclusive)
      ensures stripes.holders == AllLocked(old(stripes.holders), locks[..numLocks], exclusive)
    {
      isExclusive := exclusive;
      locks := Ascending(firstStripe, lastStripe);
      numLocks := 0;
      var i := 0;
      while i < |locks|
        invariant i <= |locks| && numLocks == i && isExclusive == exclusive
        invariant locks == Ascending(firstStripe, lastStripe)
        invariant forall k | 0 <= k < i :: CanLock(old(stripes.holders), locks[k], exclusive)
        invariant stripes.holders == AllLocked(old(stripes.holders), locks[..i], exclusive)
      {
        OthersUntouched(old(stripes.holders), locks, i, exclusive);
        var gotLock := stripes.TryLock(locks[i], exclusive);
        if !gotLock {
          if mayBlock {
            return Parked;
          }
          ReleaseRestores(old(stripes.holders), locks[..i], exclusive);
          Release(stripes);
          assert locks[..0] == [];
          return Refused;
        }
        assert locks[..i + 1][..i] == locks[..i];
        i := i + 1;
        numLocks := i;
      }
      assert locks[..|locks|] == locks;
      return Acquired;
    }
  }

  // Taking the earlier locks of a list does not change whether a later one is available.
  lemma OthersUntouched(h: map<nat, Hold>, locks: seq<nat>, i: nat, exclusive: bool)
    requires IsLockList(locks) && i < |locks|
    ensures CanLock(AllLocked(h, locks[..i], exclusive), locks[i], exclusive) == CanLock(h, locks[i], exclusive)
  {
    if i == 1 {
      assert locks[..1][..0] == [];
    }
  }

  // ---- The mapped journal file ----

  function Cells(bytes: seq<bv8>): (cells: seq<Gen>)
    ensures |cells| == 4 * |bytes|
  {
    seq(4 * |bytes|, i requires 0 <= i < 4 * |bytes| => CellAt(bytes, i))
  }

  lemma BusyCells(bytes: seq<bv8>, i: nat)
    requires i < 4 * |bytes|
    ensures Cells(bytes[i / 4 := Busy(bytes[i / 4], i % 4)]) == Cells(bytes)[i := 0]
  {
    hide SlotOf, Busy;
    var after := bytes[i / 4 := Busy(bytes[i / 4], i % 4)];
    forall k | 0 <= k < 4 * |bytes| ensures Cells(after)[k] == Cells(bytes)[i := 0][k] {
      BusyIsLocal(bytes[i / 4], i % 4, k % 4);
    }
  }

  lemma CommitCells(bytes: seq<bv8>, i: nat, g: Gen)
    requires i < 4 * |bytes|
    ensures Cells(bytes[i / 4 := Commit(bytes[i / 4], i % 4, g)]) == Cells(bytes)[i := OrGen(Cells(bytes)[i], g)]
  {
    hide SlotOf, Commit, OrGen;
    var after := bytes[i / 4 := Commit(bytes[i / 4], i % 4, g)];
    forall k | 0 <= k < 4 * |bytes| ensures Cells(after)[k] == Cells(bytes)[i := OrGen(Cells(bytes)[i], g)][k] {
      CommitIsLocal(bytes[i / 4], i % 4, g, k % 4);
    }
  }

  // The cells base..base+|gens| replaced by gens.
  function Overwritten(cells: seq<Gen>, base: nat, gens: seq<Gen>): seq<Gen>
    requires base + |gens| <= |cells|
  {
    cells[..base] + gens + cells[base + |gens|..]
  }

  function Zeros(n: nat): (zeros: seq<Gen>)
    ensures |zeros| == n
  {
    seq(n, _ => 0)
  }

  // What the kernel answers to an msync; after an error, some of the bytes may be on disk.
  datatype SyncAnswer = Synced | SyncError(written: set<nat>)

  class Journal {
    const journalBlockSize: u64
    const targetOffset: nat
    const numJournalBlocks: nat
    const journalSeed: u64
    var mapBase: array<bv8>
    var disk: array<bv8>  // the file as it would be found after a power failure
    var lockRegionShift: nat
    var journalSync: bool

    // The up to three spare cells of the last byte are 0.
    ghost predicate Valid()
      reads this, mapBase, disk
    {
      && journalBlockSize > 0 && mapBase != disk
      && mapBase.Length == disk.Length == (numJournalBlocks * 2 + 7) / 8
      && forall i | numJournalBlocks <= i < 4 * mapBase.Length :: CellAt(mapBase[..], i) == 0
    }

    // The cells of an I/O are cells of the journal; begin() does not check it.
    predicate HasCells(absoluteOffset: nat, ioLen: nat)
      reads this
    {
      && journalBlockSize > 0 && absoluteOffset >= targetOffset
      && (absoluteOffset - targetOffset) / journalBlockSize + CeilDiv(ioLen, journalBlockSize) <= numJournalBlocks
    }

    // The number of blocks and the length of the file are computed in 64-bit arithmetic.
    constructor CreateNew(journalBlockSize: u64, targetOffset: u64, targetSize: u64, journalSeed: u64)
      requires journalBlockSize > 0
      ensures fresh(mapBase) && fresh(disk)
      ensures this.journalBlockSize == journalBlockSize && this.targetOffset == targetOffset
      ensures numJournalBlocks == CeilDiv(targetSize, journalBlockSize) <==> targetSize + journalBlockSize <= WORD
      ensures Valid() <==> numJournalBlocks * 2 + 7 < WORD
      ensures this.journalSeed == journalSeed
      ensures forall i | 0 <= i < 4 * mapBase.Length :: CellAt(mapBase[..], i) == 0
      ensures mapBase[..] == disk[..]
    {
      this.journalBlockSize, this.targetOffset, this.journalSeed := journalBlockSize, targetOffset, journalSeed;
      RoundedSize(targetSize, journalBlockSize);
      if targetSize > 0 { CeilDivPositive(targetSize, journalBlockSize); }
      var n := (targetSize + journalBlockSize - 1) % WORD / journalBlockSize;
      this.numJournalBlocks := n;
      MapLengthWraps(n * 2 + 7);
      this.mapBase := new bv8[(n * 2 + 7) % WORD / 8](_ => 0);
      this.disk := new bv8[(n * 2 + 7) % WORD / 8](_ => 0);
      this.lockRegionShift, this.journalSync := 0, false;
    }

    method InitRunOptions(maxIOSize: u64, journalSync: bool)
      requires Valid()
      requires (maxIOSize + journalBlockSize - 1) % WORD / journalBlockSize <= 0x8000_0000_0000_0000
      modifies this`lockRegionShift, this`journalSync
      ensures Valid() && this.journalSync == journalSync
      ensures CeilDiv(maxIOSize, journalBlockSize) <= Pow2(lockRegionShift)
        <==> maxIOSize + journalBlockSize <= WORD || maxIOSize <= journalBlockSize
    {
      this.journalSync := journalSync;
      lockRegionShift := RegionShift(maxIOSize, journalBlockSize);
    }

    method LoadBlockGen(i: nat) returns (g: Gen)
      requires Valid() && i < numJournalBlocks
      ensures i < 4 * mapBase.Length && g == Cells(mapBase[..])[i]
    {
      g := SlotOf(mapBase[i / 4], i % 4);
    }

    method MarkBlockBusy(i: nat)
      requires Valid() && i < numJournalBlocks
      modifies mapBase
      ensures Valid() && i < 4 * mapBase.Length
      ensures Cells(mapBase[..]) == old(Cells(mapBase[..]))[i := 0]
    {
      BusyCells(mapBase[..], i);
      ghost var was := mapBase[..];
      mapBase[i / 4] := Busy(mapBase[i / 4], i % 4);
      assert mapBase[..] == was[i / 4 := Busy(was[i / 4], i % 4)];
      SpareStays(was, mapBase[..], numJournalBlocks, i, 0);
    }

    method CommitBlockGen(i: nat, newGen: Gen)
      requires Valid() && i < numJournalBlocks
      modifies mapBase
      ensures Valid() && i < 4 * mapBase.Length
      ensures var was := old(Cells(mapBase[..])); Cells(mapBase[..]) == was[i := OrGen(was[i], newGen)]
    {
      CommitCells(mapBase[..], i, newGen);
      ghost var was := mapBase[..];
      mapBase[i / 4] := Commit(mapBase[i / 4], i % 4, newGen);
      assert mapBase[..] == was[i / 4 := Commit(was[i / 4], i % 4, newGen)];
      SpareStays(was, mapBase[..], numJournalBlocks, i, OrGen(Cells(was)[i], newGen));
    }

    // syncRange(): an msync of the pages that hold the cells of the range; if not ok, it throws.
    method SyncRange(firstBlockIdx: nat, numBlocks: nat, pageSize: nat, answer: SyncAnswer) returns (ok: bool)
      requires Valid() && numBlocks > 0 && firstBlockIdx + numBlocks <= numJournalBlocks && pageSize > 0
      modifies disk
      ensures Valid() && (ok <==> !journalSync || answer.Synced?)
      ensures !journalSync ==> disk[..] == old(disk[..])
      ensures ok && journalSync ==> forall i | firstBlockIdx <= i < firstBlockIdx + numBlocks ::
                CellAt(disk[..], i) == CellAt(mapBase[..], i)
      ensures forall k | 0 <= k < disk.Length :: disk[k] == old(disk[k]) || disk[k] == mapBase[k]
    {
      if !journalSync {
        return true;
      }
      var startByteIdx := firstBlockIdx / 4;
      var endByteIdx := if (firstBlockIdx + numBlocks + 3) / 4 < mapBase.Length
                        then (firstBlockIdx + numBlocks + 3) / 4 else mapBase.Length;
      var pageAlignedStart := startByteIdx / pageSize * pageSize;
      PageStart(startByteIdx, pageSize);
      Msync(pageAlignedStart, endByteIdx, pageSize, answer);
      if !answer.Synced? {
        return false;
      }
      hide SlotOf;
      forall i | firstBlockIdx <= i < firstBlockIdx + numBlocks
        ensures CellAt(disk[..], i) == CellAt(mapBase[..], i)
      {
        assert startByteIdx <= i / 4 < endByteIdx;
        assert disk[i / 4] == mapBase[i / 4];
      }
      ok := true;
    }

    // The kernel writes back every page that the given bytes touch.
    method Msync(start: nat, end: nat, pageSize: nat, answer: SyncAnswer)
      requires Valid() && start <= end <= mapBase.Length && pageSize > 0
      modifies disk
      ensures Valid()
      ensures answer.Synced? ==> forall k | start <= k < end :: disk[k] == mapBase[k]
      ensures forall k | 0 <= k < disk.Length :: disk[k] == old(disk[k]) || disk[k] == mapBase[k]
    {
      var stop := CeilDiv(end, pageSize) * pageSize;
      assert stop >= end;
      var k := start;
      while k < stop && k < mapBase.Length
        invariant start <= k <= mapBase.Length
        invariant answer.Synced? ==> forall i | start <= i < k :: disk[i] == mapBase[i]
        invariant forall i | 0 <= i < disk.Length :: disk[i] == old(disk[i]) || disk[i] == mapBase[i]
        invariant mapBase[..] == old(mapBase[..]) && mapBase == old(mapBase) && disk == old(disk)
      {
        if answer.Synced? || k in answer.written {
          disk[k] := mapBase[k];
        }
        k := k + 1;
      }
    }

    // getVerifiablePercent(): whole words first, then the remaining bytes.
    method CountVerifiable() returns (numVerifiable: nat)
      requires Valid()
      ensures numJournalBlocks <= 4 * mapBase.Length
      ensures numVerifiable == CountSet(mapBase[..], numJournalBlocks)
    {
      hide SlotOf, CellsSet, Popcount8, Popcount64, FoldByte, FoldWord, WordOf;
      numVerifiable := 0;
      var byteIdx := 0;
      while byteIdx + 8 <= mapBase.Length
        invariant byteIdx <= mapBase.Length && numVerifiable == CountSet(mapBase[..], 4 * byteIdx)
      {
        var bytes := mapBase[byteIdx..byteIdx + 8];
        WordStep(mapBase[..], byteIdx);
        assert bytes == mapBase[..][byteIdx..byteIdx + 8];
        numVerifiable := numVerifiable + Popcount64(FoldWord(WordOf(bytes)));
        byteIdx := byteIdx + 8;
      }
      while byteIdx < mapBase.Length
        invariant byteIdx <= mapBase.Length && numVerifiable == CountSet(mapBase[..], 4 * byteIdx)
      {
        FoldByteCounts(mapBase[byteIdx]);
        CountNextByte(mapBase[..], byteIdx);
        numVerifiable := numVerifiable + Popcount8(FoldByte(mapBase[byteIdx]));
        byteIdx := byteIdx + 1;
      }
      SpareCountNothing(mapBase[..], numJournalBlocks, 4 * mapBase.Length);
    }

    method GetVerifiablePercent() returns (percent: real)
      requires Valid()
      ensures numJournalBlocks == 0 ==> percent == 0.0
      ensures numJournalBlocks > 0 ==>
        numJournalBlocks <= 4 * mapBase.Length
        && percent == 100.0 * CountSet(mapBase[..], numJournalBlocks) as real / numJournalBlocks as real
    {
      if numJournalBlocks == 0 {
        return 0.0;
      }
      var numVerifiable := CountVerifiable();
      percent := 100.0 * numVerifiable as real / numJournalBlocks as real;
    }
  }

  lemma MapLengthWraps(bits: nat)
    ensures bits % WORD / 8 == bits / 8 <==> bits < WORD
  {
    if bits >= WORD {
      var q := bits / WORD;
      assert bits == q * WORD + bits % WORD;
    }
  }

  lemma PageStart(at: nat, pageSize: nat)
    requires pageSize > 0
    ensures 0 <= at / pageSize * pageSize <= at
  {
  }

  lemma CountNextWord(bytes: seq<bv8>, k: nat)
    requires k + 8 <= |bytes|
    ensures CountSet(bytes, 4 * (k + 8)) == CountSet(bytes, 4 * k)
      + CellsSet(bytes[k]) + CellsSet(bytes[k + 1]) + CellsSet(bytes[k + 2]) + CellsSet(bytes[k + 3])
      + CellsSet(bytes[k + 4]) + CellsSet(bytes[k + 5]) + CellsSet(bytes[k + 6]) + CellsSet(bytes[k + 7])
  {
    hide CellsSet, CountSet;
    CountNextByte(bytes, k);
    CountNextByte(bytes, k + 1);
    CountNextByte(bytes, k + 2);
    CountNextByte(bytes, k + 3);
    CountNextByte(bytes, k + 4);
    CountNextByte(bytes, k + 5);
    CountNextByte(bytes, k + 6);
    CountNextByte(bytes, k + 7);
  }

  lemma WordStep(bytes: seq<bv8>, k: nat)
    requires k + 8 <= |bytes|
    ensures CountSet(bytes, 4 * (k + 8)) == CountSet(bytes, 4 * k) + Popcount64(FoldWord(WordOf(bytes[k..k + 8])))
  {
    hide CellsSet, CountSet, Popcount64, FoldWord, WordOf;
    var word := bytes[k..k + 8];
    FoldWordCounts(word);
    CountNextWord(bytes, k);
    assert forall i | 0 <= i < 8 :: word[i] == bytes[k + i];
  }

  lemma SpareStays(was: seq<bv8>, now: seq<bv8>, n: nat, i: nat, g: Gen)
    requires |now| == |was| && i < n && i < 4 * |was| && Cells(now) == Cells(was)[i := g]
    requires forall k | n <= k < 4 * |was| :: CellAt(was, k) == 0
    ensures forall k | n <= k < 4 * |now| :: CellAt(now, k) == 0
  {
    hide CellAt;
    forall k | n <= k < 4 * |now| ensures CellAt(now, k) == 0 {
      assert Cells(now)[k] == Cells(was)[k];
    }
  }

  // ---- The journal side of one I/O ----

  datatype Intent = IntentWrite | IntentReadSkipUninit | IntentReadOrInit

  datatype Action =
    | ActionRead
    | ActionWrite
    | ActionSkip
    | ActionDefer
    | NotReturned  // the call still waits for a lock
    | Thrown       // an msync failed; the cells are cleared and the guard is held

  function Rotated(gens: seq<Gen>): (next: seq<Gen>)
    ensures |next| == |gens|
  {
    seq(|gens|, i requires 0 <= i < |gens| => NextGen(gens[i]))
  }

  predicate AnySet(gens: seq<Gen>) {
    exists g <- gens :: g != 0
  }

  predicate AnyZero(gens: seq<Gen>) {
    0 in gens
  }

  lemma ClaimNone(was: seq<Gen>, base: nat)
    requires base <= |was|
    ensures Overwritten(was, base, Zeros(0)) == was && Rotated(was[base..base]) == [] && !AnySet(was[base..base])
  {
  }

  lemma ClearedCells(bytes: seq<bv8>, was: seq<Gen>, base: nat, n: nat)
    requires base + n <= |was| && Cells(bytes) == Overwritten(was, base, Zeros(n))
    ensures forall i | base <= i < base + n :: CellAt(bytes, i) == 0
  {
    hide CellAt;
    forall i | base <= i < base + n ensures CellAt(bytes, i) == 0 {
      assert Cells(bytes)[i] == CellAt(bytes, i);
    }
  }

  // One more cell of a range loaded, rotated and cleared.
  lemma ClaimOne(was: seq<Gen>, base: nat, i: nat)
    requires base + i < |was|
    ensures Overwritten(was, base, Zeros(i))[base + i] == was[base + i]
    ensures Overwritten(was, base, Zeros(i))[base + i := 0] == Overwritten(was, base, Zeros(i + 1))
    ensures Rotated(was[base..base + i]) + [NextGen(was[base + i])] == Rotated(was[base..base + i + 1])
    ensures AnySet(was[base..base + i + 1]) <==> AnySet(was[base..base + i]) || was[base + i] != 0
  {
    assert was[base..base + i + 1] == was[base..base + i] + [was[base + i]];
    AnySetSnoc(was[base..base + i], was[base + i]);
  }

  lemma AnySetSnoc(gens: seq<Gen>, g: Gen)
    ensures AnySet(gens + [g]) <==> AnySet(gens) || g != 0
  {
    if h :| h in gens && h != 0 {
      assert h in gens + [g];
    } else if g != 0 {
      assert g in gens + [g];
    }
  }

  // What an I/O with a given intent does, by the generations found in its range.
  function Decision(intent: Intent, found: seq<Gen>): Action {
    match intent
    case IntentWrite => ActionWrite
    case IntentReadSkipUninit => if !AnySet(found) && AnyZero(found) then ActionSkip else ActionRead
    case IntentReadOrInit => if AnyZero(found) then ActionWrite else ActionRead
  }

  // A range is skipped only if none of its blocks was ever written, read to the end otherwise,
  // and initialized if a single block is missing.
  lemma DecisionMeaning(intent: Intent, found: seq<Gen>)
    requires found != []
    ensures var action := Decision(intent, found);
      && (action.ActionSkip? <==> intent.IntentReadSkipUninit? && forall g <- found :: g == 0)
      && (action.ActionWrite? <==> intent.IntentWrite? || (intent.IntentReadOrInit? && exists g <- found :: g == 0))
      && (action.ActionRead? <==> !action.ActionSkip? && !action.ActionWrite?)
  {
    assert found[0] in found;
  }

  lemma DecisionByFlags(intent: Intent, gens: seq<Gen>)
    requires gens != [] && !intent.IntentWrite?
    ensures !AnyZero(gens) ==> Decision(intent, gens).ActionRead? && 0 !in gens && exists g <- gens :: g != 0
    ensures AnyZero(gens) && intent.IntentReadSkipUninit? ==>
      if AnySet(gens) then Decision(intent, gens).ActionRead? && exists g <- gens :: g != 0
      else Decision(intent, gens).ActionSkip? && forall g <- gens :: g == 0
    ensures AnyZero(gens) && intent.IntentReadOrInit? ==> Decision(intent, gens).ActionWrite? && 0 in gens
  {
    assert gens[0] in gens;
    DecisionMeaning(intent, gens);
  }

  class BlockIO {
    var baseBlockIdx: nat
    var numBlocks: nat
    var action: Action
    var gens: seq<Gen>
    const guard: RangeGuard

    constructor ()
      ensures fresh(guard) && guard.numLocks == 0 && action == ActionSkip
    {
      guard := new RangeGuard();
      baseBlockIdx, numBlocks, action, gens := 0, 0, ActionSkip, [];
    }

    ghost predicate InRange(journal: Journal)
      reads this, journal, journal.mapBase, journal.disk
    {
      journal.Valid() && 0 < numBlocks && baseBlockIdx + numBlocks <= journal.numJournalBlocks
    }

    // The cells of this I/O's range.
    ghost function Range(journal: Journal): (cells: seq<Gen>)
      requires InRange(journal)
      reads this, journal, journal.mapBase, journal.disk
      ensures |cells| == numBlocks
    {
      Cells(journal.mapBase[..])[baseBlockIdx..baseBlockIdx + numBlocks]
    }

    function Stripes(journal: Journal): seq<nat>
      requires numBlocks > 0
      reads this, journal
    {
      LockList(baseBlockIdx, numBlocks, journal.lockRegionShift, journal.journalSeed)
    }

    // The loop of claimForWrite(): load, rotate, clear.
    method RotateCells(journal: Journal) returns (anyWasVerifiable: bool)
      requires InRange(journal)
      modifies this`gens, journal.mapBase
      ensures InRange(journal) && gens == Rotated(old(Range(journal)))
      ensures anyWasVerifiable == AnySet(old(Range(journal)))
      ensures Cells(journal.mapBase[..]) == Overwritten(old(Cells(journal.mapBase[..])), baseBlockIdx, Zeros(numBlocks))
    {
      hide Cells, Overwritten, Rotated, AnySet, Zeros, CellAt, NextGen;
      anyWasVerifiable := false;
      gens := [];
      ghost var was := Cells(journal.mapBase[..]);
      ClaimNone(was, baseBlockIdx);
      var i := 0;
      while i < numBlocks
        invariant i <= numBlocks && InRange(journal)
        invariant gens == Rotated(was[baseBlockIdx..baseBlockIdx + i])
        invariant anyWasVerifiable == AnySet(was[baseBlockIdx..baseBlockIdx + i])
        invariant Cells(journal.mapBase[..]) == Overwritten(was, baseBlockIdx, Zeros(i))
      {
        ClaimOne(was, baseBlockIdx, i);
        var oldGen := journal.LoadBlockGen(baseBlockIdx + i);
        gens := gens + [NextGen(oldGen)];
        anyWasVerifiable := anyWasVerifiable || oldGen != 0;
        journal.MarkBlockBusy(baseBlockIdx + i);
        i := i + 1;
      }
    }

    // claimForWrite(), once the exclusive locks are held: load, rotate, clear, sync.
    method ClaimCells(journal: Journal, pageSize: nat, answer: SyncAnswer) returns (ok: bool)
      requires InRange(journal) && pageSize > 0
      modifies this`gens, this`action, journal.mapBase, journal.disk
      ensures InRange(journal) && action == if ok then ActionWrite else old(action)
      ensures ok <==> !(journal.journalSync && AnySet(old(Range(journal))) && answer.SyncError?)
      ensures gens == Rotated(old(Range(journal)))
      ensures Cells(journal.mapBase[..]) == Overwritten(old(Cells(journal.mapBase[..])), baseBlockIdx, Zeros(numBlocks))
      ensures ok && journal.journalSync && AnySet(old(Range(journal))) ==>
        forall i | baseBlockIdx <= i < baseBlockIdx + numBlocks :: CellAt(journal.disk[..], i) == 0
      ensures !journal.journalSync || !AnySet(old(Range(journal))) ==> journal.disk[..] == old(journal.disk[..])
    {
      hide Cells, Overwritten, Rotated, AnySet, Zeros, CellAt;
      ghost var was := Cells(journal.mapBase[..]);
      var anyWasVerifiable := RotateCells(journal);
      ClearedCells(journal.mapBase[..], was, baseBlockIdx, numBlocks);
      ok := true;
      if anyWasVerifiable {
        ok := journal.SyncRange(baseBlockIdx, numBlocks, pageSize, answer);
      }
      if ok {
        action := ActionWrite;
      }
    }

    method ClaimForWrite(journal: Journal, stripes: StripeLocks, mayBlock: bool, pageSize: nat, answer: SyncAnswer)
        returns (result: Action)
      requires InRange(journal) && pageSize > 0 && guard.numLocks == 0 && Counted(stripes.holders)
      modifies this`gens, this`action, guard, stripes, journal.mapBase, journal.disk
      ensures InRange(journal) && !result.ActionRead? && !result.ActionSkip?
      ensures guard.locks == Stripes(journal) && guard.isExclusive && guard.numLocks <= |guard.locks|
      ensures stripes.holders == AllLocked(old(stripes.holders), guard.locks[..guard.numLocks], true)
      ensures result.ActionWrite? || result.Thrown? <==> forall l <- guard.locks :: CanLock(old(stripes.holders), l, true)
      ensures result.Thrown? ==> journal.journalSync && AnySet(old(Range(journal))) && answer.SyncError?
      ensures result.ActionWrite? ==> !(journal.journalSync && AnySet(old(Range(journal))) && answer.SyncError?)
      ensures result.ActionWrite? || result.Thrown? ==>
        && guard.numLocks == |guard.locks| && stripes.holders == AllLocked(old(stripes.holders), guard.locks, true)
        && gens == Rotated(old(Range(journal))) && action == (if result.ActionWrite? then ActionWrite else old(action))
        && Cells(journal.mapBase[..]) == Overwritten(old(Cells(journal.mapBase[..])), baseBlockIdx, Zeros(numBlocks))
      ensures result.ActionWrite? && journal.journalSync && AnySet(old(Range(journal))) ==>
        forall i | baseBlockIdx <= i < baseBlockIdx + numBlocks :: CellAt(journal.disk[..], i) == 0
      ensures !journal.journalSync || !AnySet(old(Range(journal))) ==> journal.disk[..] == old(journal.disk[..])
      ensures result.ActionDefer? || result.NotReturned? ==>
        journal.mapBase[..] == old(journal.mapBase[..]) && journal.disk[..] == old(journal.disk[..]) && action == old(action)
      ensures result.ActionDefer? ==> !mayBlock && guard.numLocks == 0 && stripes.holders == old(stripes.holders)
      ensures result.NotReturned? ==> mayBlock
    {
      hide StripeOf, Cells, Rotated, Overwritten, AnySet;
      var shift, salt := journal.lockRegionShift, journal.journalSeed;
      var outcome := guard.Acquire(stripes, StripeOf(baseBlockIdx, shift, salt),
                                   StripeOf(baseBlockIdx + numBlocks - 1, shift, salt), true, mayBlock);
      if !outcome.Acquired? {
        NothingHeld(old(stripes.holders), guard.locks);
        return Returned(outcome, ActionWrite);
      }
      var ok := ClaimCells(journal, pageSize, answer);
      result := if ok then ActionWrite else Thrown;
    }

    // The snapshot of a read, under its shared guard.
    method LoadGens(journal: Journal) returns (anyUninit: bool, allUninit: bool)
      requires InRange(journal)
      modifies this`gens
      ensures gens == Range(journal) && anyUninit == AnyZero(gens) && allUninit == !AnySet(gens)
    {
      hide Cells;
      anyUninit, allUninit, gens := false, true, [];
      ghost var cells := Cells(journal.mapBase[..]);
      var i := 0;
      while i < numBlocks
        invariant i <= numBlocks && gens == cells[baseBlockIdx..baseBlockIdx + i]
        invariant anyUninit == AnyZero(gens) && allUninit == !AnySet(gens)
      {
        var g := journal.LoadBlockGen(baseBlockIdx + i);
        AnySetSnoc(gens, g);
        assert 0 in gens + [g] <==> 0 in gens || g == 0;
        assert cells[baseBlockIdx..baseBlockIdx + i + 1] == cells[baseBlockIdx..baseBlockIdx + i] + [g];
        gens := gens + [g];
        if g == 0 { anyUninit := true; } else { allUninit := false; }
        i := i + 1;
      }
    }

    // What a read does, by the generations that it finds.
    method DecideRead(journal: Journal, intent: Intent) returns (result: Action)
      requires InRange(journal) && !intent.IntentWrite?
      modifies this`gens
      ensures gens == Range(journal) && result == Decision(intent, gens)
      ensures result.ActionSkip? || result.ActionRead? || result.ActionWrite?
      ensures result.ActionSkip? ==> intent.IntentReadSkipUninit? && forall g <- gens :: g == 0
      ensures result.ActionRead? ==> if intent.IntentReadOrInit? then 0 !in gens else exists g <- gens :: g != 0
      ensures result.ActionWrite? ==> intent.IntentReadOrInit? && 0 in gens
    {
      hide Cells, AnySet, AnyZero, Decision;
      var anyUninit, allUninit := LoadGens(journal);
      DecisionByFlags(intent, gens);
      if !anyUninit {
        return ActionRead;
      }
      if intent.IntentReadSkipUninit? {
        return if allUninit then ActionSkip else ActionRead;
      }
      return ActionWrite;
    }

    // The part of begin() that runs under the shared guard. ActionWrite says that the range has
    // to be claimed; the shared guard is still held then.
    method BeginRead(journal: Journal, stripes: StripeLocks, intent: Intent, mayBlock: bool) returns (result: Action)
      requires InRange(journal) && !intent.IntentWrite? && guard.numLocks == 0 && Counted(stripes.holders)
      modifies this`gens, this`action, guard, stripes
      ensures result.ActionRead? || result.ActionWrite? || result.ActionSkip? ==>
        && result == Decision(intent, Range(journal)) && gens == Range(journal)
        && forall l <- Stripes(journal) :: CanLock(old(stripes.holders), l, false)
      ensures result.ActionSkip? ==> intent.IntentReadSkipUninit? && forall g <- gens :: g == 0
      ensures result.ActionRead? ==> if intent.IntentReadOrInit? then 0 !in gens else exists g <- gens :: g != 0
      ensures result.ActionWrite? ==> intent.IntentReadOrInit? && 0 in gens
      ensures !result.Thrown? && action == if result.ActionRead? || result.ActionSkip? then result else old(action)
      ensures guard.locks == Stripes(journal) && !guard.isExclusive && guard.numLocks <= |guard.locks|
      ensures result.ActionRead? || result.ActionWrite? ==>
        guard.numLocks == |guard.locks| && stripes.holders == AllLocked(old(stripes.holders), guard.locks, false)
      ensures result.ActionSkip? || result.ActionDefer? ==> guard.numLocks == 0 && stripes.holders == old(stripes.holders)
      ensures result.ActionDefer? ==> !mayBlock
      ensures result.NotReturned? ==> mayBlock
      ensures (forall l <- Stripes(journal) :: CanLock(old(stripes.holders), l, false)) ==>
        !result.ActionDefer? && !result.NotReturned?
    {
      hide StripeOf, Cells, AllLocked, AllUnlocked, AnySet, AnyZero, CanLock, CellAt, Decision;
      var shift, salt := journal.lockRegionShift, journal.journalSeed;
      var outcome := guard.Acquire(stripes, StripeOf(baseBlockIdx, shift, salt),
                                   StripeOf(baseBlockIdx + numBlocks - 1, shift, salt), false, mayBlock);
      if !outcome.Acquired? {
        NothingHeld(old(stripes.holders), guard.locks);
        return Returned(outcome, ActionRead);
      }
      result := DecideRead(journal, intent);
      if result.ActionSkip? {
        ReleaseRestores(old(stripes.holders), guard.locks, false);
        assert guard.locks[..guard.numLocks] == guard.locks;
        guard.Release(stripes);
      }
      if !result.ActionWrite? {
        action := result;
      }
    }

    method Begin(journal: Journal, stripes: StripeLocks, absoluteOffset: nat, ioLen: nat, intent: Intent, mayBlock: bool,
                 pageSize: nat, answer: SyncAnswer) returns (result: Action)
      requires journal.Valid() && ioLen > 0 && pageSize > 0 && journal.HasCells(absoluteOffset, ioLen)
      requires guard.numLocks == 0 && Counted(stripes.holders)
      modifies this, guard, stripes, journal.mapBase, journal.disk
      ensures baseBlockIdx == (absoluteOffset - journal.targetOffset) / journal.journalBlockSize
      ensures numBlocks == CeilDiv(ioLen, journal.journalBlockSize) && InRange(journal)
      ensures var found := old(Cells(journal.mapBase[..]))[baseBlockIdx..baseBlockIdx + numBlocks];
        && (result.ActionRead? || result.ActionWrite? || result.ActionSkip? ==> result == Decision(intent, found) == action)
        && ((forall l <- Stripes(journal) :: CanLock(old(stripes.holders), l, true)) ==>
              result == if SyncFails(journal, intent, found, answer) then Thrown else Decision(intent, found))
        && (result.ActionSkip? ==> intent.IntentReadSkipUninit? && forall g <- found :: g == 0)
        && (result.ActionRead? ==>
              !intent.IntentWrite? && if intent.IntentReadOrInit? then 0 !in found else exists g <- found :: g != 0)
        && (result.ActionWrite? || result.Thrown? ==> intent.IntentWrite? || (intent.IntentReadOrInit? && 0 in found))
        && (result.Thrown? ==> SyncFails(journal, intent, found, answer) && action == old(action))
        && (result.ActionWrite? ==> !SyncFails(journal, intent, found, answer))
        && (result.ActionRead? ==> gens == found)
        && (result.ActionWrite? ==> gens == Rotated(found))
        && (result.ActionWrite? && journal.journalSync && AnySet(found) ==>
              forall i | baseBlockIdx <= i < baseBlockIdx + numBlocks :: CellAt(journal.disk[..], i) == 0)
      ensures if result.ActionWrite? || result.Thrown?
        then Cells(journal.mapBase[..]) == Overwritten(old(Cells(journal.mapBase[..])), baseBlockIdx, Zeros(numBlocks))
        else journal.mapBase[..] == old(journal.mapBase[..]) && journal.disk[..] == old(journal.disk[..])
      // For a skipped or deferred I/O nothing stays held.
      ensures result.ActionSkip? || result.ActionDefer? ==> guard.numLocks == 0 && stripes.holders == old(stripes.holders)
      ensures result.ActionRead? || result.ActionWrite? || result.Thrown? ==>
        && guard.locks == Stripes(journal) && guard.numLocks == |guard.locks| && guard.isExclusive == !result.ActionRead?
        && (forall l <- guard.locks :: CanLock(old(stripes.holders), l, guard.isExclusive))
        && stripes.holders == AllLocked(old(stripes.holders), guard.locks, guard.isExclusive)
      ensures result.ActionDefer? ==> !mayBlock
      ensures result.NotReturned? ==> mayBlock
    {
      hide StripeOf, Cells, Rotated, Overwritten, AnySet, AnyZero, AllLocked, AllUnlocked, CellAt, CeilDiv, Zeros,
           LockList, CanLock;
      baseBlockIdx := (absoluteOffset - journal.targetOffset) / journal.journalBlockSize;
      numBlocks := CeilDiv(ioLen, journal.journalBlockSize);
      CeilDivPositive(ioLen, journal.journalBlockSize);
      if intent.IntentWrite? {
        result := ClaimForWrite(journal, stripes, mayBlock, pageSize, answer);
        return;
      }
      FreeForAll(stripes.holders, Stripes(journal));
      result := BeginRead(journal, stripes, intent, mayBlock);
      if result.ActionWrite? {
        // an uninitialized block: upgrade from shared to exclusive
        ReleaseRestores(old(stripes.holders), guard.locks, false);
        assert guard.locks[..guard.numLocks] == guard.locks;
        guard.Release(stripes);
        result := ClaimForWrite(journal, stripes, mayBlock, pageSize, answer);
      }
    }

    // Whether the I/O would claim its range for a write, and the msync that this needs fails.
    ghost predicate SyncFails(journal: Journal, intent: Intent, found: seq<Gen>, answer: SyncAnswer)
      reads journal
    {
      Decision(intent, found).ActionWrite? && journal.journalSync && AnySet(found) && answer.SyncError?
    }

    // commit(): a write's cells get their new generations; then the guard is released. If the
    // msync fails, commit() throws and the guard stays held.
    method Commit(journal: Journal, stripes: StripeLocks, pageSize: nat, answer: SyncAnswer) returns (ok: bool)
      requires InRange(journal) && pageSize > 0 && guard.numLocks <= |guard.locks|
      requires action.ActionWrite? ==> |gens| == numBlocks && Range(journal) == Zeros(numBlocks)
      modifies guard`numLocks, stripes, journal.mapBase, journal.disk
      ensures InRange(journal) && (ok <==> !(action.ActionWrite? && journal.journalSync && answer.SyncError?))
      ensures ok ==> guard.numLocks == 0
      ensures ok ==> stripes.holders == AllUnlocked(old(stripes.holders), old(guard.locks[..guard.numLocks]))
      ensures !ok ==> guard.numLocks == old(guard.numLocks) && stripes.holders == old(stripes.holders)
      ensures action.ActionWrite? ==>
        Cells(journal.mapBase[..]) == Overwritten(old(Cells(journal.mapBase[..])), baseBlockIdx, gens)
      ensures ok && action.ActionWrite? && journal.journalSync ==>
        forall i | baseBlockIdx <= i < baseBlockIdx + numBlocks :: CellAt(journal.disk[..], i) == CellAt(journal.mapBase[..], i)
      ensures !action.ActionWrite? ==>
        journal.mapBase[..] == old(journal.mapBase[..]) && journal.disk[..] == old(journal.disk[..])
    {
      hide Cells, AllUnlocked, Zeros, Overwritten;
      if action.ActionWrite? {
        ghost var was := Cells(journal.mapBase[..]);
        CommitNone(was, baseBlockIdx, gens);
        var i := 0;
        while i < numBlocks
          invariant i <= numBlocks && InRange(journal)
          invariant Cells(journal.mapBase[..]) == Overwritten(was, baseBlockIdx, gens[..i])
          invariant guard.numLocks == old(guard.numLocks) && stripes.holders == old(stripes.holders)
        {
          CommitOne(was, baseBlockIdx, gens, i);
          journal.CommitBlockGen(baseBlockIdx + i, gens[i]);
          i := i + 1;
        }
        assert gens[..numBlocks] == gens;
        ok := journal.SyncRange(baseBlockIdx, numBlocks, pageSize, answer);
        if !ok {
          return;
        }
      }
      ok := true;
      guard.Release(stripes);
    }

    // release(): give up without committing; the cells of a failed write stay 0.
    method Release(stripes: StripeLocks)
      requires guard.numLocks <= |guard.locks|
      modifies guard`numLocks, stripes
      ensures guard.numLocks == 0
      ensures stripes.holders == AllUnlocked(old(stripes.holders), old(guard.locks[..guard.numLocks]))
    {
      guard.Release(stripes);
    }
  }

  lemma CommitNone(was: seq<Gen>, base: nat, gens: seq<Gen>)
    requires base + |gens| <= |was|
    ensures Overwritten(was, base, gens[..0]) == was
  {
  }

  // Committing by or onto a cleared cell yields the new generation.
  lemma CommitOne(was: seq<Gen>, base: nat, gens: seq<Gen>, i: nat)
    requires base + |gens| <= |was| && i < |gens| && was[base..base + |gens|] == Zeros(|gens|)
    ensures Overwritten(was, base, gens[..i])[base + i] == 0
    ensures Overwritten(was, base, gens[..i])[base + i := OrGen(0, gens[i])] == Overwritten(was, base, gens[..i + 1])
  {
    assert was[base + i] == was[base..base + |gens|][i] == 0;
  }

  // What a begin() and its commit() do to the journal together: every cell of the range moves
  // on to its next generation and all others stay.
  lemma WriteRotatesRange(cells: seq<Gen>, base: nat, n: nat)
    requires base + n <= |cells|
    ensures var claimed := Overwritten(cells, base, Zeros(n));
      && claimed[base..base + n] == Zeros(n)
      && var done := Overwritten(claimed, base, Rotated(cells[base..base + n]));
         |done| == |cells|
         && forall i | 0 <= i < |cells| :: done[i] == if base <= i < base + n then NextGen(cells[i]) else cells[i]
  {
  }

  lemma FreeForAll(h: map<nat, Hold>, locks: seq<nat>)
    ensures (forall l <- locks :: CanLock(h, l, true)) ==> forall l <- locks :: CanLock(h, l, false)
  {
  }

  lemma NothingHeld(h: map<nat, Hold>, locks: seq<nat>)
    ensures AllLocked(h, locks[..0], true) == h && AllLocked(h, locks[..0], false) == h
  {
  }

  function Returned(outcome: Outcome, action: Action): Action {
    match outcome
    case Acquired => action
    case Refused => ActionDefer
    case Parked => NotReturned
  }
}
