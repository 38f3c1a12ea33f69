/**
 * What a run's size arguments must satisfy before journals are opened: the rounding and rejection
 * of sizes and offsets, the match of targets with existing journals, and what an accepted run
 * guarantees for each of its I/Os.
 */
module JournalArgs {
  import opened Arith
  import opened BlockSizeMixes
  import opened Options
  import opened Text
  import opened Word64

  const DIRECTIO_MINSIZE: nat := 512

  datatype PathType = Dir | FileOrDevice

  datatype Outcome =
    | Accepted
    | TreeNeedsDir
    | BlockSizeZero
    | JournalBlockSizeZero
    | SizeBelowJournalBlock
    | InvalidBlockSize
    | OffsetWithoutSize
    | OffsetUnaligned
    | DirectBlockSize
    | DirectOffset
    | FileBelowBlock
    | StridedOnDir
    | RandomAmountTooSmall
    | TooFewBlocks
    | JournalOnDir
    | JournalUnaligned
    | BlockNotJournalAligned
    | OffsetNotJournalAligned
    | DivisionByZero          // the program stops: the product of block size and threads wrapped to 0

  // ---- Multiples ----

  lemma MultipleOfMultiple(a: nat, b: nat, c: nat)
    requires b > 0 && c > 0 && a % b == 0 && b % c == 0
    ensures a % c == 0
  {
    var q, r := a / b, b / c;
    assert a == q * b && b == r * c;
    assert q * (r * c) == (q * r) * c;
    MulLe(0, q, r);
    AddMultiple(0, q * r, c);
  }

  lemma RoundedDown(a: nat, b: nat)
    requires b > 0
    ensures a - a % b >= 0 && (a - a % b) % b == 0 && (a >= b ==> a - a % b >= b)
  {
    var q := a / b;
    assert a == q * b + a % b;
    AddMultiple(0, q, b);
    MulLe(1, q, b);
    assert a >= b ==> q != 0;
  }

  lemma BlocksRoundUp(a: nat, b: nat)
    requires b > 0
    ensures a / b + (if a % b != 0 then 1 else 0) == CeilDiv(a, b)
  {
    var q := a / b;
    assert a == q * b + a % b && (q + 1) * b == q * b + b;
    DivUnique(a + b - 1, b, if a % b != 0 then q + 1 else q);
  }

  lemma {:induction false} ExtremesInMix(entries: seq<Entry>)
    requires entries != []
    ensures (exists e <- entries :: e.0 == MinOf(entries)) && MinOf(entries) <= MaxOf(entries)
    decreases |entries|
  {
    if |entries| == 1 {
      assert entries[0] in entries;
    } else {
      var init := entries[..|entries| - 1];
      ExtremesInMix(init);
      var e :| e in init && e.0 == MinOf(init);
      assert e in entries && entries[|entries| - 1] in entries;
    }
  }

  predicate IsMixOf(m: Mix) {
    m.sizesAndWeights != [] && m == MixOf(m.sizesAndWeights) && forall e <- m.sizesAndWeights :: e.0 > 0
  }

  predicate AllMultiples(m: Mix, size: nat)
    requires size > 0
  {
    forall e <- m.sizesAndWeights :: e.0 % size == 0
  }

  lemma MixExtremes(m: Mix)
    requires IsMixOf(m)
    ensures 0 < m.minSize <= m.maxSize
  {
    ExtremesInMix(m.sizesAndWeights);
  }

  lemma {:induction false} MaxInMix(entries: seq<Entry>)
    requires entries != []
    ensures exists e <- entries :: e.0 == MaxOf(entries)
    decreases |entries|
  {
    if |entries| == 1 {
      assert entries[0] in entries;
    } else {
      var init := entries[..|entries| - 1];
      MaxInMix(init);
      var e :| e in init && e.0 == MaxOf(init);
      assert e in entries && entries[|entries| - 1] in entries;
    }
  }

  lemma MixSizesAligned(m: Mix, size: nat)
    requires size > 0 && IsMixOf(m) && AllMultiples(m, size)
    ensures m.minSize % size == 0 && m.maxSize % size == 0
  {
    ExtremesInMix(m.sizesAndWeights);
    MaxInMix(m.sizesAndWeights);
  }

  // Parsing can only yield mixes of positive sizes.
  lemma {:induction false} ParsedSizesPositive(tokens: seq<string>)
    ensures Entries(tokens).Some? ==> forall e <- Entries(tokens).value :: e.0 > 0
    decreases |tokens|
  {
    hide Split, SizeOf, ReadUnsigned;
    if tokens != [] { ParsedSizesPositive(tokens[..|tokens| - 1]); }
  }

  lemma ParsedIsMix(s: string)
    ensures Parsed(s).Some? ==> IsMixOf(Parsed(s).value)
  {
    hide Entries, Split, MaxOf, MinOf, Cumulative, Sum;
    ParsedSizesPositive(Split(s, ","));
  }

  lemma ParsedNumber(n: nat)
    requires 0 < n
    ensures Parsed(ToText(n)).Some? && Parsed(ToText(n)).value.maxSize <= n
  {
    hide ToText, SizeOf, Split, ValueOf, AllDigits;
    var s := ToText(n);
    DigitsOnly(s);
    SplitOne(s, ",");
    SplitOne(s, ":");
    TextValue(n);
    PlainSize(s);
    var size := if n > LLONG_MAX then LLONG_MAX else n;
    assert EntryOf(s) == Some((size, 1));
    OneEntry(s, (size, 1));
  }

  lemma OneEntry(s: string, e: Entry)
    requires s != "" && EntryOf(s) == Some(e)
    ensures Entries([s]) == Some([e])
  {
    hide EntryOf;
    assert [s][..0] == [] && Entries([]) == Some([]);
    assert !HasSize([], e.0) && [] + [e] == [e];
  }

  // ---- The check ----

  class Args {
    const journaled: bool
    const journalBlockSize: u64
    const fileOffset: u64
    const useDirectIO: bool
    const noDirectIOCheck: bool
    const useRandomOffsets: bool
    const useStridedAccess: bool
    const doInfiniteIOLoop: bool
    const runCreateFilesPhase: bool
    const runReadPhase: bool
    const hasTreeFile: bool
    const pathType: PathType
    const useS3RandObjSelect: bool
    const hasS3Endpoints: bool
    const numDirs: u64
    const numFiles: u64
    const numPaths: u64
    const numDataSetThreads: u64
    var fileSize: u64
    var blockSize: u64
    var blockSizeMix: Mix
    var randomAmount: u64
    var useRandomUnaligned: bool

    predicate Moves() {
      runCreateFilesPhase || runReadPhase
    }

    // One block for each thread, in 64-bit arithmetic.
    function BlockSetSize(): u64
      reads this`blockSize
    {
      (blockSize * numDataSetThreads) % WORD
    }

    // The bytes of all files of all threads, in 64-bit arithmetic.
    function DatasetSize(): u64
      reads this`fileSize
    {
      (fileSize * (if numDirs != 0 then numDirs else 1) * numFiles * numDataSetThreads) % WORD
    }

    predicate NeedsWholeBlocks() {
      useDirectIO || useRandomOffsets || useStridedAccess
    }

    // The sizes need no rounding.
    ghost predicate SizesReady()
      reads this
    {
      && 0 < blockSize <= fileSize && (journaled ==> journalBlockSize > 0 && fileSize % journalBlockSize == 0)
      && (NeedsWholeBlocks() ==> blockSizeMix.minSize > 0 && fileSize % blockSizeMix.minSize == 0)
    }

    // The random amount of a run on files, as given or by default.
    function Amount(): nat
      reads this
    {
      if randomAmount == 0 && useRandomOffsets then fileSize * numPaths else randomAmount
    }

    // Offset and amounts need no rounding either, and there is a block for every thread.
    ghost predicate BlocksReady()
      reads this
    {
      && pathType.FileOrDevice? && 0 < blockSize <= fileSize && numDataSetThreads > 0 && blockSizeMix.minSize > 0
      && !(useRandomOffsets && useRandomUnaligned)
      && (NeedsWholeBlocks() ==> fileOffset % blockSizeMix.minSize == 0)
      && (useDirectIO ==> fileOffset % DIRECTIO_MINSIZE == 0 && AllMultiples(blockSizeMix, DIRECTIO_MINSIZE))
      && (useRandomOffsets ==> Amount() < WORD && Amount() % blockSizeMix.minSize == 0)
      && ThreadsReady(Amount())
    }

    lemma ReadyThreads(amount: nat)
      requires ThreadsReady(amount)
      ensures numDataSetThreads <= (CeilDiv(fileSize, blockSize) * numPaths) % WORD
      ensures useRandomOffsets ==> 0 < BlockSetSize() <= amount && amount % BlockSetSize() == 0
    {
      hide CeilDiv;
      var blockSet := blockSize * numDataSetThreads;
      if useRandomOffsets {
        assert blockSet % WORD == blockSet;
        if amount < blockSet { DivUnique(amount, blockSet, 0); }
      }
    }

    ghost predicate ThreadsReady(amount: nat)
      reads this`fileSize, this`blockSize
    {
      && 0 < blockSize <= fileSize && numDataSetThreads > 0
      && numDataSetThreads <= CeilDiv(fileSize, blockSize) * numPaths < WORD
      && (useRandomOffsets ==>
            0 < amount && 0 < blockSize * numDataSetThreads < WORD && amount % (blockSize * numDataSetThreads) == 0)
    }

    // Round down to the journal's blocks, limit the block size to the file size, round down to
    // the smallest block size.
    method CheckSizes() returns (r: Outcome)
      requires IsMixOf(blockSizeMix) && blockSize == blockSizeMix.maxSize
      modifies this`fileSize, this`blockSize, this`blockSizeMix
      ensures r.Accepted? ==> IsMixOf(blockSizeMix) && blockSizeMix.minSize > 0 && fileSize <= old(fileSize)
      ensures r.Accepted? && old(fileSize) > 0 && !hasTreeFile ==>
        fileSize > 0 && blockSize > 0 && blockSizeMix.minSize <= fileSize && blockSizeMix.maxSize <= blockSize
      ensures r.Accepted? && journaled ==>
        && journalBlockSize > 0
        && (fileSize % journalBlockSize == 0 || fileSize % blockSizeMix.minSize == 0)
        && (blockSize % journalBlockSize == 0 || blockSize == blockSizeMix.maxSize)
      ensures r.Accepted? && NeedsWholeBlocks() && Moves() ==> fileSize % blockSizeMix.minSize == 0
      ensures r.Accepted? ==> old(fileSize) < fileSize + (if journaled then journalBlockSize else 1) + blockSizeMix.minSize
      ensures old(SizesReady()) ==>
        r.Accepted? && fileSize == old(fileSize) && blockSize == old(blockSize) && blockSizeMix == old(blockSizeMix)
    {
      hide IsMixOf;
      if fileSize != 0 && blockSize == 0 && Moves() {
        return BlockSizeZero;
      }
      if journaled && journalBlockSize == 0 {
        return JournalBlockSizeZero;
      }
      var size := fileSize;
      if journaled && size != 0 && size % journalBlockSize != 0 {
        RoundedDown(size, journalBlockSize);
        var newFileSize := size - size % journalBlockSize;
        if newFileSize == 0 {
          return SizeBelowJournalBlock;
        }
        size := newFileSize;
      }
      assert fileSize < size + (if journaled then journalBlockSize else 1) && (size == 0 ==> fileSize == 0);
      MixExtremes(blockSizeMix);
      if blockSize > size && !hasTreeFile {
        blockSize := size;
        if size != 0 {
          CollapseMix(size);
        }
      }
      var minSize := blockSizeMix.minSize;
      var wholeSize := RoundedToBlocks(size, minSize);
      fileSize := wholeSize;
      return Accepted;
    }

    // A mix with the file size as its only block size.
    method CollapseMix(size: u64)
      requires size > 0
      modifies this`blockSizeMix
      ensures IsMixOf(blockSizeMix) && 0 < blockSizeMix.minSize <= blockSizeMix.maxSize <= size
    {
      hide IsMixOf, Parsed, ToText;
      ParsedNumber(size);
      ParsedIsMix(ToText(size));
      var mix := Parse(ToText(size));
      blockSizeMix := mix.value;
      MixExtremes(blockSizeMix);
    }

    method RoundedToBlocks(size: u64, minSize: u64) returns (whole: u64)
      requires minSize > 0
      ensures whole == size || whole % minSize == 0
      ensures NeedsWholeBlocks() && Moves() ==> whole % minSize == 0
      ensures whole <= size < whole + minSize && (size >= minSize ==> whole >= minSize)
      ensures !NeedsWholeBlocks() || size % minSize == 0 ==> whole == size
    {
      whole := size;
      RoundedDown(size, minSize);
      if NeedsWholeBlocks() && size != 0 && Moves() && size % minSize != 0 {
        whole := size - size % minSize;
      }
      if size == 0 { AddMultiple(0, 0, minSize); }
    }

    // The amount of random I/O, and enough blocks for every thread.
    method CheckOffset() returns (r: Outcome)
      requires blockSizeMix.minSize > 0
      ensures fileOffset == 0 || !Moves() ==> r.Accepted?
      ensures fileOffset != 0 && Moves() ==> (r.Accepted? <==>
        && (fileSize != 0 || hasTreeFile)
        && (blockSize != 0 && (useDirectIO || useRandomOffsets || useStridedAccess) ==>
              fileOffset % blockSizeMix.minSize == 0))
    {
      if fileOffset != 0 && fileSize == 0 && !hasTreeFile && Moves() {
        return OffsetWithoutSize;
      }
      if fileOffset != 0 && blockSize != 0 && NeedsWholeBlocks() && Moves() && fileOffset % blockSizeMix.minSize != 0 {
        return OffsetUnaligned;
      }
      return Accepted;
    }

    // Direct I/O is only accepted in sectors, for all sizes of the mix.
    method CheckDirectIO() returns (r: Outcome)
      modifies this`useRandomUnaligned
      ensures useDirectIO && fileSize != 0 && Moves() && !noDirectIOCheck ==>
        && (r.Accepted? <==> fileOffset % 512 == 0 && forall e <- blockSizeMix.sizesAndWeights :: e.0 % 512 == 0)
        && !(useRandomOffsets && useRandomUnaligned)
      ensures !(useDirectIO && fileSize != 0 && Moves() && !noDirectIOCheck) ==>
        r.Accepted? && useRandomUnaligned == old(useRandomUnaligned)
      ensures useRandomUnaligned ==> old(useRandomUnaligned)
    {
      if useDirectIO && fileSize != 0 && Moves() && !noDirectIOCheck {
        if useRandomOffsets && useRandomUnaligned {
          useRandomUnaligned := false;
        }
        if exists e <- blockSizeMix.sizesAndWeights :: e.0 % DIRECTIO_MINSIZE != 0 {
          return DirectBlockSize;
        }
        if fileOffset % DIRECTIO_MINSIZE != 0 {
          return DirectOffset;
        }
      }
      return Accepted;
    }

    method DefaultAmount()
      modifies this`randomAmount
      ensures pathType.FileOrDevice? && (useRandomOffsets ==> old(Amount()) < WORD) ==> randomAmount == old(Amount())
      ensures pathType.Dir? ==>
        randomAmount == if old(randomAmount) == 0 && hasS3Endpoints && useS3RandObjSelect then DatasetSize()
                        else old(randomAmount)
    {
      hide DatasetSize;
      if randomAmount == 0 {
        if pathType.FileOrDevice? && useRandomOffsets {
          randomAmount := (fileSize * numPaths) % WORD;
        } else if pathType.Dir? && hasS3Endpoints && useS3RandObjSelect {
          randomAmount := DatasetSize();
        }
      }
    }

    // The part about amounts, with the offset and direct I/O in order.
    method CheckAmount() returns (r: Outcome)
      requires blockSizeMix.minSize > 0
      requires pathType.FileOrDevice? ==> fileSize > 0 && blockSize > 0 && numDataSetThreads > 0
      modifies this`randomAmount
      ensures r.Accepted? && pathType.FileOrDevice? && useRandomOffsets && !useRandomUnaligned ==>
        BlockSetSize() > 0 && randomAmount % BlockSetSize() == 0
      ensures r.Accepted? && pathType.FileOrDevice? && useRandomOffsets && Moves() ==>
        randomAmount > 0 && blockSize <= fileSize
      ensures r.Accepted? && pathType.Dir? ==>
        && randomAmount == old(randomAmount) && !useStridedAccess
        && (useRandomOffsets && !hasTreeFile ==> blockSize <= fileSize)
      ensures (pathType.FileOrDevice? && old(ThreadsReady(randomAmount))
               && (useRandomOffsets ==> old(randomAmount) % blockSizeMix.minSize == 0))
              ==> r.Accepted? && randomAmount == old(randomAmount)
    {
      hide BlockSetSize, ThreadsReady;
      var minSize := blockSizeMix.minSize;
      if useRandomOffsets && !useRandomUnaligned && blockSize != 0 && randomAmount % minSize != 0
         && pathType.FileOrDevice? {
        RoundedDown(randomAmount, minSize);
        randomAmount := randomAmount - randomAmount % minSize;
      }
      if pathType.Dir? && useRandomOffsets && fileSize < blockSize && !hasTreeFile {
        return FileBelowBlock;
      }
      if pathType.Dir? && useStridedAccess {
        return StridedOnDir;
      }
      if pathType.FileOrDevice? {
        r := CheckThreads();
        return;
      }
      return Accepted;
    }

    method CheckBlocks() returns (r: Outcome)
      requires IsMixOf(blockSizeMix) && blockSizeMix.minSize > 0
      requires pathType.FileOrDevice? ==> fileSize > 0 && blockSize > 0 && numDataSetThreads > 0
      modifies this`randomAmount, this`useRandomUnaligned
      ensures r.Accepted? && pathType.FileOrDevice? && useRandomOffsets && !useRandomUnaligned ==>
        BlockSetSize() > 0 && randomAmount % BlockSetSize() == 0
      ensures r.Accepted? && pathType.FileOrDevice? && useRandomOffsets && Moves() ==>
        randomAmount > 0 && blockSize <= fileSize
      ensures r.Accepted? && pathType.Dir? ==>
        randomAmount == if old(randomAmount) == 0 && hasS3Endpoints && useS3RandObjSelect then DatasetSize()
                        else old(randomAmount)
      ensures useRandomUnaligned ==> old(useRandomUnaligned)
      ensures r.Accepted? && useDirectIO && fileSize != 0 && Moves() && !noDirectIOCheck ==>
        && fileOffset % 512 == 0 && !(useRandomOffsets && useRandomUnaligned)
        && forall e <- blockSizeMix.sizesAndWeights :: e.0 % 512 == 0
      ensures r.Accepted? && fileOffset != 0 && Moves() ==>
        && (fileSize != 0 || hasTreeFile)
        && (blockSize != 0 && (useDirectIO || useRandomOffsets || useStridedAccess) ==>
              fileOffset % blockSizeMix.minSize == 0)
      ensures r.Accepted? && pathType.Dir? ==>
        !useStridedAccess && (useRandomOffsets && !hasTreeFile ==> blockSize <= fileSize)
      ensures old(BlocksReady()) ==> r.Accepted? && randomAmount == old(Amount())
    {
      hide IsMixOf, BlockSetSize, ThreadsReady, DatasetSize, Amount;
      r := CheckOffset();
      if !r.Accepted? {
        return;
      }
      DefaultAmount();
      r := CheckDirectIO();
      if !r.Accepted? {
        return;
      }
      r := CheckAmount();
    }

    method CheckThreads() returns (r: Outcome)
      requires fileSize > 0 && blockSize > 0 && numDataSetThreads > 0
      modifies this`randomAmount
      ensures r.Accepted? && useRandomOffsets && !useRandomUnaligned ==>
        BlockSetSize() > 0 && randomAmount % BlockSetSize() == 0
      ensures r.Accepted? && useRandomOffsets && Moves() ==> randomAmount > 0 && blockSize <= fileSize
      ensures r.Accepted? && Moves() ==> numDataSetThreads <= (CeilDiv(fileSize, blockSize) * numPaths) % WORD
      ensures r.DivisionByZero? ==> useRandomOffsets && BlockSetSize() == 0
      ensures r.DivisionByZero? && useRandomUnaligned && Moves() ==> blockSize <= fileSize
      ensures old(ThreadsReady(randomAmount)) ==> r.Accepted? && randomAmount == old(randomAmount)
    {
      ghost var ready := ThreadsReady(randomAmount);
      if ready { ReadyThreads(randomAmount); }
      BlocksRoundUp(fileSize, blockSize);
      hide CeilDiv, BlockSetSize, ThreadsReady;
      var blocksPerFile := fileSize / blockSize + if fileSize % blockSize != 0 then 1 else 0;
      var blocksTotal := (blocksPerFile * numPaths) % WORD;
      var blockSetSize := BlockSetSize();
      if useRandomOffsets && randomAmount < blockSetSize && !doInfiniteIOLoop {
        return RandomAmountTooSmall;
      }
      if useRandomOffsets && !useRandomUnaligned {
        if blockSetSize == 0 {
          return DivisionByZero;
        }
        if randomAmount % blockSetSize != 0 {
          RoundedDown(randomAmount, blockSetSize);
          randomAmount := randomAmount - randomAmount % blockSetSize;
        }
      }
      if blocksTotal < numDataSetThreads && Moves() {
        return TooFewBlocks;
      }
      if useRandomOffsets && fileSize < blockSize && Moves() {
        return FileBelowBlock;
      }
      if useRandomOffsets && blockSetSize == 0 {
        return DivisionByZero;  // in the condition of a log message
      }
      if useRandomOffsets && randomAmount == 0 && Moves() {
        return FileBelowBlock;
      }
      return Accepted;
    }

    method CheckJournal() returns (r: Outcome)
      requires journaled && journalBlockSize > 0
      ensures r.Accepted? ==> pathType.FileOrDevice? && !(useRandomOffsets && useRandomUnaligned)
      ensures r.Accepted? ==> AllMultiples(blockSizeMix, journalBlockSize) && fileOffset % journalBlockSize == 0
      ensures (pathType.FileOrDevice? && !(useRandomOffsets && useRandomUnaligned)
               && AllMultiples(blockSizeMix, journalBlockSize) && fileOffset % journalBlockSize == 0) ==> r.Accepted?
    {
      if pathType.Dir? {
        return JournalOnDir;
      }
      if useRandomOffsets && useRandomUnaligned {
        return JournalUnaligned;
      }
      var sizes := blockSizeMix.sizesAndWeights;
      var i := 0;
      while i < |sizes|
        invariant i <= |sizes| && forall k | 0 <= k < i :: sizes[k].0 % journalBlockSize == 0
      {
        if sizes[i].0 % journalBlockSize != 0 {
          return BlockNotJournalAligned;
        }
        i := i + 1;
      }
      if fileOffset % journalBlockSize != 0 {
        return OffsetNotJournalAligned;
      }
      return Accepted;
    }

    // Everything a journaled run relies on.
    ghost predicate Aligned()
      reads this
    {
      && journalBlockSize > 0 && fileSize > 0 && blockSize > 0
      && fileSize % journalBlockSize == 0 && fileOffset % journalBlockSize == 0 && blockSize % journalBlockSize == 0
      && IsMixOf(blockSizeMix) && AllMultiples(blockSizeMix, journalBlockSize)
    }

    // What a journaled run with random offsets relies on besides.
    ghost predicate RandomOk()
      reads this
    {
      && blockSizeMix.maxSize <= blockSize <= fileSize && !useRandomUnaligned
      && randomAmount > 0 && BlockSetSize() > 0 && randomAmount % BlockSetSize() == 0
    }

    // A journaled run on files or devices that needs no rounding.
    ghost predicate Ready()
      reads this
    {
      && journaled && journalBlockSize > 0 && !hasTreeFile && SizesReady() && BlocksReady()
      && AllMultiples(blockSizeMix, journalBlockSize) && fileOffset % journalBlockSize == 0
    }

    // The size of a file or device is known before the check. An accepted journaled run has
    // sizes and offset in whole journal blocks.
    method CheckPathDependentArgs() returns (r: Outcome)
      requires IsMixOf(blockSizeMix) && blockSize == blockSizeMix.maxSize
      requires pathType.FileOrDevice? ==> fileSize > 0 && numDataSetThreads > 0
      modifies this
      ensures r.Accepted? && journaled ==> pathType.FileOrDevice? && Aligned()
      ensures r.Accepted? && journaled && useRandomOffsets && Moves() ==> RandomOk()
      // A run that needs no rounding is accepted as it is.
      ensures old(Ready()) ==>
        && r.Accepted? && fileSize == old(fileSize) && blockSize == old(blockSize)
        && blockSizeMix == old(blockSizeMix) && randomAmount == old(Amount())
    {
      hide IsMixOf, AllMultiples;
      if pathType.FileOrDevice? && hasTreeFile {
        return TreeNeedsDir;
      }
      r := CheckSizes();
      if !r.Accepted? {
        return;
      }
      MixExtremes(blockSizeMix);
      r := CheckBlocks();
      if !r.Accepted? || !journaled {
        return;
      }
      r := CheckJournal();
      if r.Accepted? {
        MixSizesAligned(blockSizeMix, journalBlockSize);
        if fileSize % journalBlockSize != 0 {
          MultipleOfMultiple(fileSize, blockSizeMix.minSize, journalBlockSize);
        }
      }
    }
  }

  // ---- Matching targets with existing journals ----

  datatype Sidecar = Sidecar(target: string, journalBlockSize: u64, targetOffset: u64, targetSize: u64)

  datatype Plan = Create | Resume(index: nat)

  // End offsets are computed in 64-bit arithmetic.
  function EndOffset(offset: u64, size: u64): u64 {
    (offset + size) % WORD
  }

  predicate RangeFits(offset: u64, size: u64, sidecar: Sidecar) {
    offset >= sidecar.targetOffset
    && EndOffset(offset, size) <= EndOffset(sidecar.targetOffset, sidecar.targetSize)
  }

  predicate Inside(offset: nat, size: nat, outerOffset: nat, outerSize: nat) {
    outerOffset <= offset && offset + size <= outerOffset + outerSize
  }

  // Every range inside the journal's range passes the check, and one that passes lies inside if
  // and only if its end does not wrap around.
  lemma FitsIsInside(offset: u64, size: u64, sidecar: Sidecar)
    requires sidecar.targetOffset + sidecar.targetSize < WORD
    ensures Inside(offset, size, sidecar.targetOffset, sidecar.targetSize)
      <==> RangeFits(offset, size, sidecar) && offset + size < WORD
  {
  }

  // A range over the end of the 64-bit space passes the check of a journal of two blocks.
  lemma WrappedRangeFits()
    ensures var offset: u64 := WORD - 4096;
      RangeFits(offset, 8192, Sidecar("t", 4096, 0, 8192)) && !Inside(offset, 8192, 0, 8192)
  {
  }

  function Matches(sidecars: seq<Sidecar>, target: string, n: nat): seq<nat>
    requires n <= |sidecars|
  {
    if n == 0 then []
    else Matches(sidecars, target, n - 1) + if sidecars[n - 1].target == target then [n - 1] else []
  }

  // What the run does for a target, or nothing if it has to stop.
  function PlanFor(sidecars: seq<Sidecar>, target: string, blockSize: u64, offset: u64, size: u64): Option<Plan> {
    var m := Matches(sidecars, target, |sidecars|);
    if |m| > 1 then None
    else if m == [] then Some(Create)
    else
      MatchIndices(sidecars, target, |sidecars|);
      assert m[0] in m;
      var sidecar := sidecars[m[0]];
      if sidecar.journalBlockSize == blockSize && RangeFits(offset, size, sidecar) then Some(Resume(m[0])) else None
  }

  lemma {:induction false} MatchIndices(sidecars: seq<Sidecar>, target: string, n: nat)
    requires n <= |sidecars|
    ensures forall j <- Matches(sidecars, target, n) :: j < n && sidecars[j].target == target
    ensures forall j | 0 <= j < n && sidecars[j].target == target :: j in Matches(sidecars, target, n)
  {
    if n > 0 { MatchIndices(sidecars, target, n - 1); }
  }

  method FindMatches(sidecars: seq<Sidecar>, target: string) returns (m: seq<nat>)
    ensures m == Matches(sidecars, target, |sidecars|)
  {
    m := [];
    var j := 0;
    while j < |sidecars|
      invariant j <= |sidecars| && m == Matches(sidecars, target, j)
    {
      if sidecars[j].target == target {
        m := m + [j];
      }
      j := j + 1;
    }
  }

  // Nothing is created beside a sidecar that names the target, and only the one sidecar that
  // names it is resumed.
  lemma PlanMeaning(sidecars: seq<Sidecar>, target: string, blockSize: u64, offset: u64, size: u64, j: nat)
    ensures var plan := PlanFor(sidecars, target, blockSize, offset, size);
      && (plan == Some(Create) <==> forall k | 0 <= k < |sidecars| :: sidecars[k].target != target)
      && (plan == Some(Resume(j)) <==>
            && j < |sidecars| && (forall k | 0 <= k < |sidecars| :: sidecars[k].target == target <==> k == j)
            && sidecars[j].journalBlockSize == blockSize && RangeFits(offset, size, sidecars[j]))
  {
    hide RangeFits;
    MatchIndices(sidecars, target, |sidecars|);
    MatchesAscend(sidecars, target, |sidecars|);
    var m := Matches(sidecars, target, |sidecars|);
    if |m| > 1 { assert m[0] in m && m[1] in m && m[0] < m[1]; }
    if |m| > 0 { assert m[0] in m; }
  }

  lemma {:induction false} MatchesAscend(sidecars: seq<Sidecar>, target: string, n: nat)
    requires n <= |sidecars|
    ensures var m := Matches(sidecars, target, n); |m| > 1 ==> m[0] < m[1]
  {
    if n > 0 {
      MatchesAscend(sidecars, target, n - 1);
      MatchIndices(sidecars, target, n - 1);
      var m := Matches(sidecars, target, n - 1);
      if |m| == 1 { assert m[0] in m; }
    }
  }

  method PlanTarget(target: string, sidecars: seq<Sidecar>, blockSize: u64, offset: u64, size: u64)
    returns (plan: Option<Plan>)
    ensures plan == PlanFor(sidecars, target, blockSize, offset, size)
  {
    hide RangeFits;
    var m := FindMatches(sidecars, target);
    if |m| > 1 {
      return None;
    }
    if m == [] {
      return Some(Create);
    }
    MatchIndices(sidecars, target, |sidecars|);
    assert m[0] in m;
    var sidecar := sidecars[m[0]];
    if sidecar.journalBlockSize != blockSize || !RangeFits(offset, size, sidecar) {
      return None;
    }
    return Some(Resume(m[0]));
  }

  // One plan for every target, or a stop at the first target that has none.
  method InitJournals(targets: seq<string>, sidecars: seq<Sidecar>, blockSize: u64, offset: u64, size: u64)
    returns (plans: Option<seq<Plan>>)
    ensures plans.Some? <==> forall t <- targets :: PlanFor(sidecars, t, blockSize, offset, size).Some?
    ensures plans.Some? ==> |plans.value| == |targets| && forall i | 0 <= i < |targets| ::
      PlanFor(sidecars, targets[i], blockSize, offset, size) == Some(plans.value[i])
  {
    hide PlanFor;
    var list := [];
    var i := 0;
    while i < |targets|
      invariant |list| == i <= |targets|
      invariant forall k | 0 <= k < i :: PlanFor(sidecars, targets[k], blockSize, offset, size) == Some(list[k])
    {
      var plan := PlanTarget(targets[i], sidecars, blockSize, offset, size);
      assert targets[i] in targets;
      if plan.None? {
        return None;
      }
      list := list + [plan.value];
      i := i + 1;
    }
    return Some(list);
  }

  // A target is resumed exactly with the one sidecar that names it.
  lemma ResumesOwnJournal(sidecars: seq<Sidecar>, target: string, blockSize: u64, offset: u64, size: u64, j: nat)
    requires PlanFor(sidecars, target, blockSize, offset, size) == Some(Resume(j))
    ensures j < |sidecars| && sidecars[j].target == target && sidecars[j].journalBlockSize == blockSize
    ensures RangeFits(offset, size, sidecars[j])
    ensures forall k | 0 <= k < |sidecars| && sidecars[k].target == target :: k == j
  {
    hide RangeFits;
    MatchIndices(sidecars, target, |sidecars|);
  }

  // ---- The cells of an I/O ----

  // A journal as an accepted run creates it: offset and size in whole journal blocks.
  predicate CreatedAligned(j: Sidecar) {
    && j.journalBlockSize > 0 && j.targetOffset + j.targetSize < WORD && j.targetSize + j.journalBlockSize <= WORD
    && j.targetOffset % j.journalBlockSize == 0 && j.targetSize % j.journalBlockSize == 0
  }

  function NumBlocks(j: Sidecar): nat
    requires j.journalBlockSize > 0
  {
    (j.targetSize + j.journalBlockSize - 1) % WORD / j.journalBlockSize
  }

  function MapLength(j: Sidecar): nat
    requires j.journalBlockSize > 0
  {
    (NumBlocks(j) * 2 + 7) / 8
  }

  lemma ExactQuotient(a: nat, b: nat)
    requires b > 0 && a % b == 0
    ensures a / b * b == a && CeilDiv(a, b) == a / b
  {
    var q := a / b;
    assert a == q * b;
    DivUnique(a + b - 1, b, q);
  }

  lemma AlignedDifference(a: nat, b: nat, size: nat)
    requires size > 0 && a % size == 0 && b % size == 0 && b <= a
    ensures (a - b) % size == 0
  {
    var p, q := a / size, b / size;
    assert a == p * size && b == q * size;
    assert (p - q) * size == p * size - q * size;
    DivMono(b, a, size);
    AddMultiple(0, p - q, size);
  }

  lemma AlignedSum(a: nat, b: nat, size: nat)
    requires size > 0 && a % size == 0
    ensures (a + b) / size == a / size + b / size && (a + b) % size == b % size
  {
    var p := a / size;
    assert a == p * size;
    AddMultiple(b, p, size);
  }

  // Every aligned I/O inside the range of a journal uses cells of the journal, and these cells
  // stand for exactly its bytes.
  lemma CellsCoverIO(j: Sidecar, offset: nat, len: nat)
    requires CreatedAligned(j) && len > 0
    requires offset % j.journalBlockSize == 0 && len % j.journalBlockSize == 0
    requires Inside(offset, len, j.targetOffset, j.targetSize)
    ensures var size := j.journalBlockSize;
      var first, num := (offset - j.targetOffset) / size, CeilDiv(len, size);
      && num > 0 && first + num <= NumBlocks(j)
      && j.targetOffset + first * size == offset && num * size == len
      && (first + num - 1) / 4 < MapLength(j)
  {
    var size := j.journalBlockSize;
    var lead := offset - j.targetOffset;
    AlignedDifference(offset, j.targetOffset, size);
    ExactQuotient(lead, size);
    ExactQuotient(len, size);
    CeilDivPositive(len, size);
    ExactQuotient(j.targetSize, size);
    assert NumBlocks(j) == j.targetSize / size;
    AlignedSum(lead, len, size);
    DivMono(lead + len, j.targetSize, size);
  }

  // An accepted run that creates or resumes a journal: the I/Os of its range, cut at its block
  // sizes, fit the journal, also when an earlier run created it for a larger range.
  lemma AcceptedRunFits(offset: u64, size: u64, j: Sidecar, ioOffset: nat, ioLen: nat)
    requires CreatedAligned(j) && offset + size < WORD
    requires RangeFits(offset, size, j) || (j.targetOffset == offset && j.targetSize == size)
    requires Inside(ioOffset, ioLen, offset, size) && ioLen > 0
    requires (ioOffset - offset) % j.journalBlockSize == 0 && ioLen % j.journalBlockSize == 0
    requires offset % j.journalBlockSize == 0
    ensures var num := CeilDiv(ioLen, j.journalBlockSize);
      var first := (ioOffset - j.targetOffset) / j.journalBlockSize;
      && ioOffset >= j.targetOffset && first + num <= NumBlocks(j)
      && j.targetOffset + first * j.journalBlockSize == ioOffset && num * j.journalBlockSize == ioLen
  {
    if RangeFits(offset, size, j) { FitsIsInside(offset, size, j); }
    AlignedSum(offset, ioOffset - offset, j.journalBlockSize);
    CellsCoverIO(j, ioOffset, ioLen);
  }
}
