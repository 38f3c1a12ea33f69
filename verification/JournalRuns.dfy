/**
 * A journaled run from its arguments to the calls of begin(): which I/Os of an accepted run have
 * their cells in the journal that the run creates or resumes.
 */
module JournalRuns {
  import opened Arith
  import opened Options
  import opened Word64
  import opened FileRanges
  import opened JournalRegions
  import A = JournalArgs
  import B = BlockSizeMixes
  import O = JournalObjects

  // The sidecar of a journal that the run creates.
  function Created(args: A.Args, target: string): A.Sidecar
    reads args
  {
    A.Sidecar(target, args.journalBlockSize, args.fileOffset, args.fileSize)
  }

  // The ends of the range, also when rounded up, are below 2^64.
  predicate BelowWord(args: A.Args)
    reads args
  {
    args.fileOffset + args.fileSize < WORD && args.fileSize + args.journalBlockSize <= WORD
  }

  // Accepted runs only ever write sidecars in whole journal blocks.
  lemma CreatedIsAligned(args: A.Args, target: string)
    requires args.Aligned() && BelowWord(args)
    ensures A.CreatedAligned(Created(args, target))
  {
    hide A.IsMixOf, A.AllMultiples;
  }

  // What the run opens for a target by its plan.
  function OpenedBy(args: A.Args, sidecars: seq<A.Sidecar>, target: string, plan: A.Plan): A.Sidecar
    requires plan.Resume? ==> plan.index < |sidecars|
    reads args
  {
    if plan.Resume? then sidecars[plan.index] else Created(args, target)
  }

  predicate IsJournalOf(journal: O.Journal, j: A.Sidecar)
    reads journal
  {
    && j.journalBlockSize > 0 && journal.journalBlockSize == j.journalBlockSize
    && journal.targetOffset == j.targetOffset && journal.numJournalBlocks == A.NumBlocks(j)
  }

  predicate PlannedFor(args: A.Args, sidecars: seq<A.Sidecar>, target: string, plan: A.Plan)
    reads args
  {
    A.PlanFor(sidecars, target, args.journalBlockSize, args.fileOffset, args.fileSize) == Some(plan)
  }

  // The 64-bit computation on the range that the plan depends on does not wrap around: that of the
  // number of blocks for a new journal, that of the end for an existing one.
  predicate EndsFit(args: A.Args, plan: A.Plan)
    reads args
  {
    if plan.Create? then args.fileSize + args.journalBlockSize <= WORD else args.fileOffset + args.fileSize < WORD
  }

  // The run has opened this journal for a target, among sidecars of earlier runs.
  ghost predicate Opened(args: A.Args, sidecars: seq<A.Sidecar>, target: string, plan: A.Plan, journal: O.Journal)
    reads args, journal
  {
    && args.Aligned() && PlannedFor(args, sidecars, target, plan) && (forall j <- sidecars :: A.CreatedAligned(j))
    && (plan.Resume? ==> plan.index < |sidecars|) && IsJournalOf(journal, OpenedBy(args, sidecars, target, plan))
  }

  // An I/O of whole journal blocks inside the file.
  predicate InRun(args: A.Args, pos: nat, ioLen: nat)
    requires args.journalBlockSize > 0
    reads args
  {
    0 < ioLen && pos + ioLen <= args.fileSize && pos % args.journalBlockSize == 0 && ioLen % args.journalBlockSize == 0
  }

  lemma ResumedFits(args: A.Args, sidecars: seq<A.Sidecar>, target: string, plan: A.Plan, journal: O.Journal)
    requires Opened(args, sidecars, target, plan, journal) && plan.Resume?
    ensures var j := sidecars[plan.index];
      A.CreatedAligned(j) && j.journalBlockSize == args.journalBlockSize && A.RangeFits(args.fileOffset, args.fileSize, j)
  {
    hide A.IsMixOf, A.AllMultiples, A.Matches, A.RangeFits;
    A.ResumesOwnJournal(sidecars, target, args.journalBlockSize, args.fileOffset, args.fileSize, plan.index);
    assert sidecars[plan.index] in sidecars;
  }

  // An I/O of an accepted run at an aligned position inside the file has its cells in the
  // journal that the run creates or resumes, and these stand for exactly its bytes.
  lemma AcceptedIOHasCells(args: A.Args, sidecars: seq<A.Sidecar>, target: string, plan: A.Plan, journal: O.Journal,
                           pos: nat, ioLen: nat)
    requires Opened(args, sidecars, target, plan, journal) && EndsFit(args, plan) && InRun(args, pos, ioLen)
    ensures journal.HasCells(args.fileOffset + pos, ioLen)
    ensures var first := (args.fileOffset + pos - journal.targetOffset) / journal.journalBlockSize;
      && journal.targetOffset + first * journal.journalBlockSize == args.fileOffset + pos
      && CeilDiv(ioLen, journal.journalBlockSize) * journal.journalBlockSize == ioLen
  {
    if plan.Resume? {
      ResumedFits(args, sidecars, target, plan, journal);
      hide A.IsMixOf, A.AllMultiples, A.CreatedAligned, A.RangeFits, PlannedFor;
      A.AcceptedRunFits(args.fileOffset, args.fileSize, sidecars[plan.index], args.fileOffset + pos, ioLen);
    } else {
      hide A.IsMixOf, A.AllMultiples, A.CreatedAligned, PlannedFor;
      CellsIffInFile(args, target, journal, pos, ioLen);
      A.ExactQuotient(pos, args.journalBlockSize);
      A.ExactQuotient(ioLen, args.journalBlockSize);
    }
  }

  // The I/Os of an accepted run have their cells if and only if that computation does not wrap
  // around.
  lemma AcceptedRunHasCellsIff(args: A.Args, sidecars: seq<A.Sidecar>, target: string, plan: A.Plan, journal: O.Journal)
    requires Opened(args, sidecars, target, plan, journal)
    ensures (forall pos: nat, ioLen: nat | InRun(args, pos, ioLen) :: journal.HasCells(args.fileOffset + pos, ioLen))
      <==> EndsFit(args, plan)
  {
    if EndsFit(args, plan) {
      hide Opened, InRun, O.Journal.HasCells;
      forall pos: nat, ioLen: nat | InRun(args, pos, ioLen) ensures journal.HasCells(args.fileOffset + pos, ioLen) {
        AcceptedIOHasCells(args, sidecars, target, plan, journal, pos, ioLen);
      }
    } else {
      assert InRun(args, 0, args.fileSize) by { DivUnique(0, args.journalBlockSize, 0); }
      assert !journal.HasCells(args.fileOffset + 0, args.fileSize) by {
        if plan.Resume? {
          ResumedFits(args, sidecars, target, plan, journal);
          WholeFileOutside(args, sidecars[plan.index], journal);
        } else {
          NoBlocksLeft(args, target, journal);
        }
      }
    }
  }

  lemma WholeFileOutside(args: A.Args, j: A.Sidecar, journal: O.Journal)
    requires args.Aligned() && A.CreatedAligned(j) && IsJournalOf(journal, j) && j.journalBlockSize == args.journalBlockSize
    requires A.RangeFits(args.fileOffset, args.fileSize, j) && args.fileOffset + args.fileSize >= WORD
    ensures !journal.HasCells(args.fileOffset, args.fileSize)
  {
    A.FitsIsInside(args.fileOffset, args.fileSize, j);
    hide A.IsMixOf, A.AllMultiples, A.RangeFits, CeilDiv;
    A.AlignedDifference(args.fileOffset, j.targetOffset, args.journalBlockSize);
    BlocksOf(j);
    FitsIff(args.fileOffset - j.targetOffset, args.fileSize, j.targetSize, args.journalBlockSize);
  }

  lemma BlocksOf(j: A.Sidecar)
    requires j.journalBlockSize > 0 && j.targetSize + j.journalBlockSize <= WORD
    ensures A.NumBlocks(j) == CeilDiv(j.targetSize, j.journalBlockSize)
  {
  }

  // For whole blocks, counting blocks is counting bytes.
  lemma FitsIff(lead: nat, len: nat, total: nat, size: nat)
    requires size > 0 && lead % size == 0 && len % size == 0 && total % size == 0
    ensures lead / size + CeilDiv(len, size) <= CeilDiv(total, size) <==> lead + len <= total
  {
    A.ExactQuotient(lead, size);
    A.ExactQuotient(len, size);
    A.ExactQuotient(total, size);
    hide CeilDiv;
    var p, q, n := lead / size, len / size, total / size;
    assert (p + q) * size == lead + len;
    MulLe(p + q, n, size);
    MulLe(n + 1, p + q, size);
    assert (n + 1) * size == n * size + size;
  }

  lemma NoBlocksLeft(args: A.Args, target: string, journal: O.Journal)
    requires args.Aligned() && IsJournalOf(journal, Created(args, target))
    requires args.fileSize + args.journalBlockSize > WORD
    ensures !journal.HasCells(args.fileOffset, args.fileSize)
  {
    hide A.IsMixOf, A.AllMultiples;
    var sum, size := args.fileSize + args.journalBlockSize - 1, args.journalBlockSize;
    AddMultiple(sum - WORD, 1, WORD);
    DivUnique(sum - WORD, size, 0);
    CeilDivPositive(args.fileSize, size);
    DivUnique(0, size, 0);
  }

  // In a journal of the run's own range, an aligned I/O has its cells if and only if it ends in
  // the file.
  lemma CellsIffInFile(args: A.Args, target: string, journal: O.Journal, pos: nat, ioLen: nat)
    requires args.Aligned() && args.fileSize + args.journalBlockSize <= WORD && IsJournalOf(journal, Created(args, target))
    requires pos % args.journalBlockSize == 0 && ioLen % args.journalBlockSize == 0
    ensures journal.HasCells(args.fileOffset + pos, ioLen) <==> pos + ioLen <= args.fileSize
  {
    hide A.IsMixOf, A.AllMultiples, CeilDiv;
    BlocksOf(Created(args, target));
    FitsIff(pos, ioLen, args.fileSize, args.journalBlockSize);
  }

  // ---- The I/Os of sequential runs ----

  // Each I/O of a worker's sequential ranges has its cells.
  lemma SequentialIOsHaveCells(args: A.Args, sidecars: seq<A.Sidecar>, target: string, plan: A.Plan, journal: O.Journal,
                               l: Layout, r: Range, ios: seq<Extent>, end: nat, k: nat)
    requires Opened(args, sidecars, target, plan, journal) && EndsFit(args, plan)
    requires l.Valid() && l.fileSize == args.fileSize && l.blockSize == args.blockSize && l.Has(r)
    requires Tiles(ios, r.start, end) && end <= r.start + r.len && k < |ios|
    requires forall io <- ios :: io.0 % args.journalBlockSize == 0 && io.1 % args.journalBlockSize == 0
    ensures journal.HasCells(args.fileOffset + ios[k].0, ios[k].1)
  {
    hide A.IsMixOf, A.AllMultiples, A.CreatedAligned, PlannedFor, IsJournalOf, Tiles, O.Journal.HasCells;
    TilesInside(ios, r.start, end);
    assert ios[k] in ios;
    AcceptedIOHasCells(args, sidecars, target, plan, journal, ios[k].0, ios[k].1);
  }

  // The journal's lock regions are as large as the largest I/O of the run needs.
  predicate RegionsSized(args: A.Args, journal: O.Journal)
    reads args, journal
  {
    && journal.journalBlockSize > 0
    && CeilDiv(args.blockSizeMix.maxSize, journal.journalBlockSize) <= Pow2(journal.lockRegionShift)
  }

  // An I/O up to the largest size is no longer than a region, so it needs at most two locks, and
  // these protect each of its blocks.
  lemma BlocksAreLocked(args: A.Args, journal: O.Journal, base: nat, ioLen: nat, block: nat)
    requires RegionsSized(args, journal) && 0 < ioLen <= args.blockSizeMix.maxSize
    requires base <= block < base + CeilDiv(ioLen, journal.journalBlockSize)
    ensures var num, shift := CeilDiv(ioLen, journal.journalBlockSize), journal.lockRegionShift;
      && 0 < num <= Pow2(shift)
      && StripeOf(block, shift, journal.journalSeed) in LockList(base, num, shift, journal.journalSeed)
  {
    var num, shift := CeilDiv(ioLen, journal.journalBlockSize), journal.lockRegionShift;
    IOFitsRegion(ioLen, args.blockSizeMix.maxSize, journal.journalBlockSize, shift);
    CeilDivPositive(ioLen, journal.journalBlockSize);
    hide StripeOf, LockList, CeilDiv;
    LocksCoverRange(base, num, shift, journal.journalSeed, block);
  }

  lemma SizeOfMixFits(args: A.Args, size: nat)
    requires A.IsMixOf(args.blockSizeMix) && exists e <- args.blockSizeMix.sizesAndWeights :: e.0 == size
    ensures args.blockSizeMix.minSize <= size <= args.blockSizeMix.maxSize
  {
    hide B.MinOf, B.MaxOf, B.Sum;
    B.ExtremesBound(args.blockSizeMix.sizesAndWeights);
  }

  // The I/Os that a worker submits for sizes drawn from the mix.
  lemma SequentialIOsAreLocked(args: A.Args, journal: O.Journal, draws: seq<nat>, ios: seq<Extent>,
                               k: nat, base: nat, block: nat)
    requires A.IsMixOf(args.blockSizeMix) && RegionsSized(args, journal)
    requires forall d <- draws :: exists e <- args.blockSizeMix.sizesAndWeights :: e.0 == d
    requires k < |ios| <= |draws| && 0 < ios[k].1 <= draws[k]
    requires base <= block < base + CeilDiv(ios[k].1, journal.journalBlockSize)
    ensures var num, shift := CeilDiv(ios[k].1, journal.journalBlockSize), journal.lockRegionShift;
      && 0 < num <= Pow2(shift)
      && StripeOf(block, shift, journal.journalSeed) in LockList(base, num, shift, journal.journalSeed)
  {
    hide StripeOf, LockList, CeilDiv, RegionsSized, A.IsMixOf;
    assert draws[k] in draws;
    SizeOfMixFits(args, draws[k]);
    BlocksAreLocked(args, journal, base, ios[k].1, block);
  }

  // The ranges of a worker are on the grid of the journal's blocks, as SubmitAll requires.
  lemma RangesOnGrid(args: A.Args, l: Layout, r: Range)
    requires args.Aligned() && l.Valid() && l.fileSize == args.fileSize && l.blockSize == args.blockSize && l.Has(r)
    ensures r.start % args.journalBlockSize == 0 && r.len % args.journalBlockSize == 0
  {
    hide A.IsMixOf, A.AllMultiples;
    A.MultipleOfMultiple(r.start, l.blockSize, args.journalBlockSize);
    if r.len % l.blockSize == 0 {
      A.MultipleOfMultiple(r.len, l.blockSize, args.journalBlockSize);
    } else {
      A.AlignedDifference(args.fileSize, r.start, args.journalBlockSize);
    }
  }

  // ---- The I/Os of random runs ----

  lemma ShareOfSets(amount: nat, b: nat, t: nat, size: nat)
    requires b > 0 && t > 0 && size > 0 && b % size == 0 && b * t > 0 && amount % (b * t) == 0
    ensures (amount / t) % size == 0
  {
    var k := amount / (b * t);
    var share := k * b;
    assert amount == k * (b * t);
    assert k * (b * t) == share * t;
    DivUnique(amount, t, share);
    ProductAligned(k, b, size);
  }

  // The share of a thread is on the grid, unless block size times threads wraps around.
  lemma ShareOnGrid(args: A.Args)
    requires args.Aligned() && args.RandomOk() && args.numDataSetThreads > 0
    requires args.blockSize * args.numDataSetThreads < WORD
    ensures (args.randomAmount / args.numDataSetThreads) % args.journalBlockSize == 0
  {
    hide A.IsMixOf, A.AllMultiples;
    var blockSet := args.blockSize * args.numDataSetThreads;
    assert args.BlockSetSize() == blockSet;
    ShareOfSets(args.randomAmount, args.blockSize, args.numDataSetThreads, args.journalBlockSize);
  }

  // What an accepted journaled run with random offsets is; there are paths and threads.
  ghost predicate RandomRun(args: A.Args)
    reads args
  {
    && args.Aligned() && args.RandomOk() && args.numPaths > 0 && args.numDataSetThreads > 0
    && args.fileSize + args.journalBlockSize <= WORD
  }

  function LayoutOf(args: A.Args): Layout
    reads args
  {
    Layout(args.numPaths, args.fileSize, args.blockSize)
  }

  // The run draws from a mix on these files.
  predicate DrawsFrom(args: A.Args, l: Layout)
    reads args
  {
    && l.Valid() && l.numFiles > 0 && l.fileSize == args.fileSize && l.blockSize == args.blockSize
    && 0 < args.blockSizeMix.minSize <= args.blockSizeMix.maxSize <= args.blockSize <= args.fileSize
  }

  lemma RandomRunDraws(args: A.Args)
    requires RandomRun(args)
    ensures DrawsFrom(args, LayoutOf(args))
  {
    A.MixExtremes(args.blockSizeMix);
    hide A.IsMixOf, A.AllMultiples;
  }

  predicate CanDraw(args: A.Args, l: Layout, rank: nat, threads: nat, io: Extent)
    requires DrawsFrom(args, l) && threads > 0 && args.journalBlockSize > 0
    reads args
  {
    && Drawn(l, rank, threads, args.blockSizeMix.minSize, args.blockSizeMix.maxSize, io)
    && io.1 % args.journalBlockSize == 0
  }

  lemma DrawnOnGrid(args: A.Args, l: Layout, rank: nat, threads: nat, io: Extent)
    requires args.Aligned() && DrawsFrom(args, l) && threads > 0 && CanDraw(args, l, rank, threads, io)
    ensures io.0 % args.journalBlockSize == 0 && FilePosition(l, io.0).1 % args.journalBlockSize == 0
  {
    var size, offset := args.journalBlockSize, RandomOffset(l, rank, threads);
    A.MixSizesAligned(args.blockSizeMix, size);
    hide A.IsMixOf, A.AllMultiples, RandomOffset, RandomLen;
    BlockOffset(l, rank, threads);
    A.MultipleOfMultiple(offset, l.blockSize, size);
    A.MultipleOfMultiple(io.0 - offset, args.blockSizeMix.minSize, size);
    A.AlignedSum(offset, io.0 - offset, size);
    PositionAligned(io.0, args.fileSize, size);
  }

  lemma PositionAligned(at: nat, f: nat, size: nat)
    requires size > 0 && f > 0 && at % size == 0 && f % size == 0
    ensures at % f % size == 0
  {
    var k := at / f;
    assert at == k * f + at % f;
    ProductAligned(k, f, size);
    A.AlignedDifference(at, k * f, size);
  }

  lemma DrawnInSomeFile(args: A.Args, l: Layout, rank: nat, threads: nat, io: Extent)
    requires DrawsFrom(args, l) && rank < threads && args.journalBlockSize > 0 && CanDraw(args, l, rank, threads, io)
    ensures FilePosition(l, io.0).0 < l.numFiles
  {
    hide RandomOffset, RandomLen;
    NothingToDraw(l, rank, threads);
    if RandomLen(l, threads) == 0 {
      assert io.0 == 0;
      DivUnique(0, l.fileSize, 0);
    } else {
      RandomInFiles(l, rank, threads, io.0, io.1);
    }
  }

  // A random I/O has its cells in the journal of its file if and only if it ends in that file.
  lemma RandomIOHasCellsIff(args: A.Args, target: string, journal: O.Journal, l: Layout, rank: nat, threads: nat,
                            io: Extent)
    requires args.Aligned() && args.fileSize + args.journalBlockSize <= WORD
    requires IsJournalOf(journal, Created(args, target)) && DrawsFrom(args, l)
    requires rank < threads && CanDraw(args, l, rank, threads, io)
    ensures journal.HasCells(args.fileOffset + FilePosition(l, io.0).1, io.1) <==> InFile(l, io)
  {
    DrawnOnGrid(args, l, rank, threads, io);
    DrawnInSomeFile(args, l, rank, threads, io);
    hide A.IsMixOf, A.AllMultiples, Drawn, FilePosition;
    CellsIffInFile(args, target, journal, FilePosition(l, io.0).1, io.1);
  }

  lemma RandomIOIsLocked(args: A.Args, journal: O.Journal, l: Layout, rank: nat, threads: nat, io: Extent,
                         base: nat, block: nat)
    requires DrawsFrom(args, l) && threads > 0 && args.journalBlockSize > 0 && CanDraw(args, l, rank, threads, io)
    requires RegionsSized(args, journal) && base <= block < base + CeilDiv(io.1, journal.journalBlockSize)
    ensures var num, shift := CeilDiv(io.1, journal.journalBlockSize), journal.lockRegionShift;
      && 0 < num <= Pow2(shift)
      && StripeOf(block, shift, journal.journalSeed) in LockList(base, num, shift, journal.journalSeed)
  {
    hide StripeOf, LockList, CeilDiv, RegionsSized, RandomOffset, RandomLen;
    BlocksAreLocked(args, journal, base, io.1, block);
  }

  // The largest block reaches over the end of a file from the last grid point before it.
  predicate ReachesEnd(args: A.Args, l: Layout, rank: nat, threads: nat, k: nat)
    requires DrawsFrom(args, l) && threads > 0
    reads args
  {
    OverEnd(EndOf(l, k), RandomOffset(l, rank, threads), RandomLen(l, threads),
            args.blockSizeMix.minSize, args.blockSizeMix.maxSize)
  }

  // All random I/Os of a worker of an accepted run have their cells if and only if the largest
  // block reaches over no end of a file.
  lemma RandomRunHasCellsIff(args: A.Args, target: string, journal: O.Journal, rank: nat)
    requires RandomRun(args) && IsJournalOf(journal, Created(args, target)) && rank < args.numDataSetThreads
    ensures DrawsFrom(args, LayoutOf(args))
    ensures var l, threads := LayoutOf(args), args.numDataSetThreads;
      (forall io: Extent | CanDraw(args, l, rank, threads, io) ::
         journal.HasCells(args.fileOffset + FilePosition(l, io.0).1, io.1))
      <==> forall k: nat :: !ReachesEnd(args, l, rank, threads, k)
  {
    var l, threads := LayoutOf(args), args.numDataSetThreads;
    RandomRunDraws(args);
    var minSize, maxSize := args.blockSizeMix.minSize, args.blockSizeMix.maxSize;
    A.MixSizesAligned(args.blockSizeMix, args.journalBlockSize);
    hide A.IsMixOf, A.AllMultiples, Drawn, FilePosition, InFile, OverEnd, O.Journal.HasCells;
    forall io: Extent | CanDraw(args, l, rank, threads, io)
      ensures journal.HasCells(args.fileOffset + FilePosition(l, io.0).1, io.1) <==> InFile(l, io)
    {
      RandomIOHasCellsIff(args, target, journal, l, rank, threads, io);
    }
    RandomFitsIff(l, rank, threads, minSize, maxSize);
    if k: nat :| ReachesEnd(args, l, rank, threads, k) {
      var io := EndReached(l, rank, threads, minSize, maxSize, k);
      assert CanDraw(args, l, rank, threads, io);
    } else {
      forall k: nat ensures
        !OverEnd(EndOf(l, k), RandomOffset(l, rank, threads), RandomLen(l, threads), minSize, maxSize)
      {
        assert !ReachesEnd(args, l, rank, threads, k);
      }
    }
  }

  lemma ShareHoldsBlock(args: A.Args)
    requires RandomRun(args) && args.blockSize * args.numDataSetThreads < WORD
    ensures args.blockSize <= args.randomAmount / args.numDataSetThreads
  {
    hide A.IsMixOf, A.AllMultiples;
    var b, t, amount := args.blockSize, args.numDataSetThreads, args.randomAmount;
    assert args.BlockSetSize() == b * t;
    if amount < b * t { DivUnique(amount, b * t, 0); }
    DivMono(b * t, amount, t);
    DivUnique(b * t, t, b);
  }

  // A worker's first I/O, with a random number and a size of the mix.
  predicate FirstIs(args: A.Args, rank: nat, random: nat, size: nat, io: Extent)
    requires LayoutOf(args).Valid() && args.numDataSetThreads > 0
    reads args
  {
    var mix, share := args.blockSizeMix, args.randomAmount / args.numDataSetThreads;
    && (exists e <- mix.sizesAndWeights :: e.0 == size)
    && ComesFirst(LayoutOf(args), rank, args.numDataSetThreads, mix.minSize, mix.maxSize, share, random, size, io)
  }

  // If it reaches over one, there are a random number and a size of the mix with which already
  // the worker's first I/O has cells behind its journal.
  lemma FirstIOWithoutCells(args: A.Args, target: string, journal: O.Journal, rank: nat, k: nat)
      returns (random: nat, size: nat, io: Extent)
    requires RandomRun(args) && IsJournalOf(journal, Created(args, target)) && rank < args.numDataSetThreads
    requires args.blockSize * args.numDataSetThreads < WORD
    requires DrawsFrom(args, LayoutOf(args)) && ReachesEnd(args, LayoutOf(args), rank, args.numDataSetThreads, k)
    ensures FirstIs(args, rank, random, size, io)
    ensures !journal.HasCells(args.fileOffset + FilePosition(LayoutOf(args), io.0).1, io.1)
  {
    var l, threads, mix := LayoutOf(args), args.numDataSetThreads, args.blockSizeMix;
    A.MixSizesAligned(mix, args.journalBlockSize);
    A.MaxInMix(mix.sizesAndWeights);
    ShareHoldsBlock(args);
    io := EndReached(l, rank, threads, mix.minSize, mix.maxSize, k);
    assert CanDraw(args, l, rank, threads, io) by { hide Drawn, InFile; }
    hide A.AllMultiples, FilePosition, InFile, OverEnd, O.Journal.HasCells, RandomIOs, LastRandom;
    RandomIOHasCellsIff(args, target, journal, l, rank, threads, io);
    size := mix.maxSize;
    random := FirstDraw(l, rank, threads, mix.minSize, mix.maxSize, args.randomAmount / threads, io);
  }

  // With one block size and files of whole blocks, or where a worker's range lies in one file,
  // every random I/O of the worker has its cells.
  lemma OneSizeOrOneFileHasCells(args: A.Args, target: string, journal: O.Journal, l: Layout, rank: nat, threads: nat,
                                 io: Extent)
    requires args.Aligned() && args.fileSize + args.journalBlockSize <= WORD
    requires IsJournalOf(journal, Created(args, target)) && DrawsFrom(args, l)
    requires rank < threads && CanDraw(args, l, rank, threads, io)
    requires (args.blockSizeMix.minSize == args.blockSize && args.fileSize % args.blockSize == 0)
             || WithinOneFile(l, rank, threads)
    ensures journal.HasCells(args.fileOffset + FilePosition(l, io.0).1, io.1)
  {
    hide A.IsMixOf, A.AllMultiples, WithinOneFile, InFile, Drawn;
    RandomIOHasCellsIff(args, target, journal, l, rank, threads, io);
    if WithinOneFile(l, rank, threads) {
      InnerFits(l, rank, threads, args.blockSizeMix.minSize, args.blockSizeMix.maxSize, io);
    } else {
      OneSizeFits(l, rank, threads, io);
    }
  }

  // An accepted run that reaches over the end of a file: two files of 8 KiB, block sizes of 4 and
  // 8 KiB, one thread. It is accepted as it is, by CheckPathDependentArgs.
  ghost predicate TwoFilesTwoSizes(args: A.Args)
    reads args
  {
    && args.journaled && args.journalBlockSize == 4096 && args.pathType.FileOrDevice? && !args.hasTreeFile
    && args.useRandomOffsets && !args.useRandomUnaligned && !args.useDirectIO
    && args.numPaths == 2 && args.numDataSetThreads == 1 && args.fileOffset == 0
    && args.fileSize == 8192 && args.blockSize == 8192 && args.randomAmount == 0
    && args.blockSizeMix == B.MixOf(TWO_SIZES)
  }

  const TWO_SIZES: seq<B.Entry> := [(4096, 1), (8192, 1)]

  lemma TwoSizes()
    ensures B.MaxOf(TWO_SIZES) == 8192 && B.MinOf(TWO_SIZES) == 4096
  {
    assert TWO_SIZES[..1] == [(4096, 1)];
  }

  lemma TwoFilesAreReady(args: A.Args)
    requires TwoFilesTwoSizes(args)
    ensures args.Ready() && args.Amount() == 16384
    ensures A.IsMixOf(args.blockSizeMix) && args.blockSizeMix.maxSize == 8192
  {
    TwoSizes();
  }

  // The arguments as the check leaves them.
  ghost predicate TwoFilesAccepted(args: A.Args)
    reads args
  {
    && RandomRun(args) && args.journalBlockSize == 4096 && args.fileOffset == 0 && args.fileSize == 8192
    && args.blockSize == 8192 && args.blockSizeMix == B.MixOf(TWO_SIZES)
    && args.numPaths == 2 && args.numDataSetThreads == 1 && args.randomAmount == 16384
  }

  method CheckTwoFiles(args: A.Args) returns (r: A.Outcome)
    requires TwoFilesTwoSizes(args) && args.Moves()
    modifies args
    ensures r.Accepted? && TwoFilesAccepted(args)
  {
    TwoFilesAreReady(args);
    hide A.IsMixOf, A.AllMultiples, B.MixOf, A.Args.Ready, A.Args.Amount;
    r := args.CheckPathDependentArgs();
  }

  // The worker's first I/O can be the 8 KiB at 4 KiB in the first file, for which that file's
  // journal has no cells.
  lemma TwoFilesFail(args: A.Args, target: string, journal: O.Journal)
    requires TwoFilesAccepted(args) && IsJournalOf(journal, Created(args, target))
    ensures FirstIs(args, 0, 1, 8192, (4096, 8192))
    ensures FilePosition(LayoutOf(args), 4096) == (0, 4096) && !journal.HasCells(4096, 8192)
  {
    hide A.IsMixOf, A.AllMultiples, B.MaxOf, B.MinOf, RandomIOs;
    TwoSizes();
    FirstIO(0, 4096, 16384, 1, 8192);
    assert TWO_SIZES[1] in TWO_SIZES;
  }
}
