/**
 * How the workers of a run over files or devices divide the blocks of all files among themselves,
 * and which offsets and lengths the I/Os of a worker get.
 */
module FileRanges {
  import opened Arith
  import L = PathLists

  // ---- The blocks of a worker ----

  // Where the blocks of a worker end; the last worker takes what the division leaves over.
  function EndBlock(rank: nat, total: nat, threads: nat): nat
    requires threads > 0
  {
    L.WorkerStart(total, rank, threads) + L.WorkerBlocks(total, rank, threads)
  }

  function Owner(block: nat, total: nat, threads: nat): nat
    requires threads > 0
  {
    var n := total / threads;
    if n == 0 || block / n >= threads then threads - 1 else block / n
  }

  lemma SlotIff(block: nat, rank: nat, n: nat)
    requires n > 0
    ensures rank * n <= block <==> rank <= block / n
    ensures block < rank * n + n <==> block / n <= rank
  {
    var q := block / n;
    assert q * n <= block < q * n + n && (q + 1) * n == q * n + n && (rank + 1) * n == rank * n + n;
    MulLe(q + 1, rank, n);
    MulLe(rank, q, n);
    MulLe(rank + 1, q, n);
    MulLe(q, rank, n);
  }

  // Every block belongs to exactly one worker.
  lemma OneOwner(rank: nat, block: nat, total: nat, threads: nat)
    requires rank < threads && block < total
    ensures L.WorkerStart(total, rank, threads) <= block < EndBlock(rank, total, threads)
      <==> rank == Owner(block, total, threads)
  {
    var n := total / threads;
    if rank == threads - 1 { L.WorkersTile(total, rank, threads); }
    if n > 0 { SlotIff(block, rank, n); }
  }

  // ---- The ranges of a worker ----

  datatype Range = Range(file: nat, start: nat, len: nat)

  // The run's files, all of one size and processed in blocks.
  datatype Layout = Layout(numFiles: nat, fileSize: nat, blockSize: nat)
  {
    predicate Valid() {
      fileSize > 0 && blockSize > 0
    }

    function BlocksPerFile(): (n: nat)
      requires Valid()
      ensures n > 0
    {
      CeilDivPositive(fileSize, blockSize);
      CeilDiv(fileSize, blockSize)
    }

    function Total(): nat
      requires Valid()
    {
      NatProduct(BlocksPerFile(), numFiles);
      BlocksPerFile() * numFiles
    }

    // The global number of the block of a position.
    function BlockOf(file: nat, pos: nat): nat
      requires Valid()
    {
      NatProduct(file, BlocksPerFile());
      file * BlocksPerFile() + pos / blockSize
    }

    // The range lies in a file, starts at a block, and ends at one or at the end of the file.
    predicate Has(r: Range)
      requires Valid()
    {
      && r.file < numFiles && 0 < r.len && r.start + r.len <= fileSize && r.start % blockSize == 0
      && (r.len % blockSize == 0 || r.start + r.len == fileSize)
    }

    function NumBlocks(r: Range): nat
      requires Valid()
    {
      CeilDiv(r.len, blockSize)
    }

    // The ranges are the blocks from..to, one after the other.
    predicate Chained(ranges: seq<Range>, from: nat, to: int)
      requires Valid()
    {
      if ranges == [] then from == to
      else
        var last := ranges[|ranges| - 1];
        Has(last) && BlockOf(last.file, last.start) + NumBlocks(last) == to
        && Chained(ranges[..|ranges| - 1], from, BlockOf(last.file, last.start))
    }
  }

  predicate Covers(r: Range, file: nat, pos: nat) {
    r.file == file && r.start <= pos < r.start + r.len
  }

  lemma LastBlock(a: nat, b: nat)
    requires a > 0 && b > 0
    ensures var n := CeilDiv(a, b); n > 0 && (n - 1) * b < a <= n * b
  {
    var n := CeilDiv(a, b);
    CeilDivPositive(a, b);
    assert n * b <= a + b - 1 < n * b + b;
    assert (n - 1) * b == n * b - b;
  }

  lemma StartOfBlock(l: Layout, block: nat)
    requires l.Valid() && block < l.Total()
    ensures var n := l.BlocksPerFile();
      var start := block % n * l.blockSize;
      && block / n < l.numFiles && start < l.fileSize && start % l.blockSize == 0
      && l.BlockOf(block / n, start) == block
  {
    var n, b := l.BlocksPerFile(), l.blockSize;
    var k := block % n;
    LastBlock(l.fileSize, b);
    hide Layout.BlocksPerFile;
    MulLe(k, n - 1, b);
    assert n * l.numFiles == l.numFiles * n;
    BeforeMultiple(block, l.numFiles, n);
    DivUnique(k * b, b, k);
    AddMultiple(0, k, b);
  }

  // So many blocks, or what is left of the file.
  lemma LenOfBlocks(blocks: nat, rest: nat, b: nat)
    requires blocks > 0 && rest > 0 && b > 0
    ensures blocks * b > 0
    ensures var len := Min(blocks * b, rest);
      && 0 < len && 0 < CeilDiv(len, b) <= blocks && (len % b == 0 || len == rest)
  {
    MulLe(1, blocks, b);
    var len := Min(blocks * b, rest);
    CeilDivPositive(len, b);
    CeilDivMono(len, blocks * b, b);
    DivUnique(blocks * b + b - 1, b, blocks);
    AddMultiple(0, blocks, b);
  }

  // The range of the next block: to the end of the file or of the worker's blocks.
  lemma NextRange(l: Layout, block: nat, end: nat)
    requires l.Valid() && block < end <= l.Total()
    ensures var n := l.BlocksPerFile();
      var start := block % n * l.blockSize;
      && start < l.fileSize
      && var left, rest := (end - block) * l.blockSize, l.fileSize - start;
         var r := Range(block / n, start, if left < rest then left else rest);
         && l.Has(r) && l.BlockOf(r.file, r.start) == block
         && 0 < l.NumBlocks(r) && block + l.NumBlocks(r) <= end
  {
    hide CeilDiv, Layout.BlocksPerFile, Layout.BlockOf;
    StartOfBlock(l, block);
    LenOfBlocks(end - block, l.fileSize - block % l.BlocksPerFile() * l.blockSize, l.blockSize);
  }

  lemma ChainedNext(l: Layout, ranges: seq<Range>, from: nat, r: Range)
    requires l.Valid() && l.Has(r) && l.Chained(ranges, from, l.BlockOf(r.file, r.start))
    ensures l.Chained(ranges + [r], from, l.BlockOf(r.file, r.start) + l.NumBlocks(r))
  {
    hide Layout.Has, Layout.BlockOf, Layout.NumBlocks;
    assert (ranges + [r])[..|ranges|] == ranges;
  }

  // The range that starts with the given block, for a worker whose blocks end at endBlock.
  method CurrentRange(l: Layout, currentBlockIdx: nat, endBlock: nat) returns (r: Range)
    requires l.Valid() && currentBlockIdx < endBlock <= l.Total()
    ensures l.Has(r) && l.BlockOf(r.file, r.start) == currentBlockIdx
    ensures 0 < l.NumBlocks(r) <= endBlock - currentBlockIdx
  {
    NextRange(l, currentBlockIdx, endBlock);
    var numBlocksPerFile := l.BlocksPerFile();
    hide Layout.Has, Layout.BlockOf, Layout.NumBlocks, Layout.Total, Layout.BlocksPerFile;
    var currentIOStart := currentBlockIdx % numBlocksPerFile * l.blockSize;
    var remainingWorkerLen := (endBlock - currentBlockIdx) * l.blockSize;
    var remainingFileLen := l.fileSize - currentIOStart;
    var len := if remainingWorkerLen < remainingFileLen then remainingWorkerLen else remainingFileLen;
    r := Range(currentBlockIdx / numBlocksPerFile, currentIOStart, len);
  }

  // The worker's loop over the files: its ranges are exactly its blocks, in order.
  method IterateFilesSeq(l: Layout, rank: nat, threads: nat) returns (ranges: seq<Range>)
    requires l.Valid() && rank < threads
    ensures l.Chained(ranges, L.WorkerStart(l.Total(), rank, threads), EndBlock(rank, l.Total(), threads))
  {
    hide Layout.Has, Layout.BlockOf, Layout.NumBlocks, Layout.Total, Layout.BlocksPerFile, L.WorkerStart, L.WorkerBlocks;
    L.StartsAreInRange(l.Total(), rank, threads);
    var startBlock, endBlock := L.WorkerStart(l.Total(), rank, threads), EndBlock(rank, l.Total(), threads);
    ranges := [];
    var currentBlockIdx := startBlock;
    while currentBlockIdx < endBlock
      invariant startBlock <= currentBlockIdx <= endBlock && l.Chained(ranges, startBlock, currentBlockIdx)
    {
      var r := CurrentRange(l, currentBlockIdx, endBlock);
      ChainedNext(l, ranges, startBlock, r);
      ranges := ranges + [r];
      currentBlockIdx := currentBlockIdx + l.NumBlocks(r);
    }
  }

  // ---- Every byte once ----

  lemma BlockNumbers(l: Layout, file: nat, pos: nat)
    requires l.Valid() && pos < l.fileSize
    ensures l.BlockOf(file, pos) / l.BlocksPerFile() == file
    ensures l.BlockOf(file, pos) % l.BlocksPerFile() == pos / l.blockSize
  {
    var n, b := l.BlocksPerFile(), l.blockSize;
    var q := pos / b;
    LastBlock(l.fileSize, b);
    assert q * b <= pos;
    MulLtCancel(q, n, b);
    DivUnique(file * n + q, n, file);
  }

  // A position is before or behind a multiple of the block size as its block is.
  lemma BeforeMultiple(pos: nat, k: nat, b: nat)
    requires b > 0
    ensures pos < k * b <==> pos / b < k
  {
    var q := pos / b;
    assert q * b <= pos < q * b + b && (q + 1) * b == q * b + b;
    MulLe(q + 1, k, b);
    MulLe(k, q, b);
  }

  lemma WholeBlocks(len: nat, b: nat)
    requires b > 0 && len % b == 0
    ensures CeilDiv(len, b) * b == len
  {
    var k := len / b;
    assert len == k * b;
    DivUnique(len + b - 1, b, k);
  }

  lemma InRangeIff(l: Layout, r: Range, pos: nat)
    requires l.Valid() && l.Has(r) && pos < l.fileSize
    ensures r.start <= pos < r.start + r.len
      <==> r.start / l.blockSize <= pos / l.blockSize < r.start / l.blockSize + l.NumBlocks(r)
  {
    var b := l.blockSize;
    var s, n := r.start / b, l.NumBlocks(r);
    assert r.start == s * b;
    BeforeMultiple(pos, s, b);
    BeforeMultiple(pos, s + n, b);
    assert (s + n) * b == s * b + n * b;
    if r.len % b == 0 {
      WholeBlocks(r.len, b);
    } else {
      LastBlock(r.len, b);
    }
  }

  lemma RangeInFile(l: Layout, r: Range)
    requires l.Valid() && l.Has(r)
    ensures r.start / l.blockSize + l.NumBlocks(r) <= l.BlocksPerFile()
  {
    var b := l.blockSize;
    var s := r.start / b;
    assert r.start == s * b;
    DivPlus(r.len + b - 1, s, b);
    CeilDivMono(r.start + r.len, l.fileSize, b);
  }

  lemma CoversIff(l: Layout, r: Range, file: nat, pos: nat)
    requires l.Valid() && l.Has(r) && pos < l.fileSize
    ensures Covers(r, file, pos)
      <==> l.BlockOf(r.file, r.start) <= l.BlockOf(file, pos) < l.BlockOf(r.file, r.start) + l.NumBlocks(r)
  {
    var n := l.BlocksPerFile();
    InRangeIff(l, r, pos);
    RangeInFile(l, r);
    BlockNumbers(l, file, pos);
    hide Layout.BlocksPerFile, Layout.NumBlocks;
    if file < r.file {
      MulLe(file + 1, r.file, n);
      assert (file + 1) * n == file * n + n;
    } else if r.file < file {
      MulLe(r.file + 1, file, n);
      assert (r.file + 1) * n == r.file * n + n;
    }
  }

  ghost predicate CoveredOnce(ranges: seq<Range>, file: nat, pos: nat) {
    exists i :: 0 <= i < |ranges| && Covers(ranges[i], file, pos)
      && forall k | 0 <= k < |ranges| && k != i :: !Covers(ranges[k], file, pos)
  }

  predicate CoveredNever(ranges: seq<Range>, file: nat, pos: nat) {
    forall r <- ranges :: !Covers(r, file, pos)
  }

  lemma {:induction false} ChainCovers(l: Layout, ranges: seq<Range>, from: nat, to: int, file: nat, pos: nat)
    requires l.Valid() && l.Chained(ranges, from, to) && pos < l.fileSize
    ensures from <= to
    ensures from <= l.BlockOf(file, pos) < to ==> CoveredOnce(ranges, file, pos)
    ensures !(from <= l.BlockOf(file, pos) < to) ==> CoveredNever(ranges, file, pos)
    decreases |ranges|
  {
    if ranges != [] {
      var init, last := ranges[..|ranges| - 1], ranges[|ranges| - 1];
      ChainCovers(l, init, from, l.BlockOf(last.file, last.start), file, pos);
      CoversIff(l, last, file, pos);
      hide Layout.BlockOf, Layout.NumBlocks, Covers;
      OnceMore(init, last, file, pos);
      assert ranges == init + [last];
    }
  }

  lemma OnceMore(init: seq<Range>, last: Range, file: nat, pos: nat)
    ensures CoveredOnce(init, file, pos) && !Covers(last, file, pos) ==> CoveredOnce(init + [last], file, pos)
    ensures CoveredNever(init, file, pos) && Covers(last, file, pos) ==> CoveredOnce(init + [last], file, pos)
    ensures CoveredNever(init, file, pos) && !Covers(last, file, pos) ==> CoveredNever(init + [last], file, pos)
  {
    hide Covers;
    var all := init + [last];
    if CoveredOnce(init, file, pos) && !Covers(last, file, pos) {
      var i :| 0 <= i < |init| && Covers(init[i], file, pos)
        && forall k | 0 <= k < |init| && k != i :: !Covers(init[k], file, pos);
      assert Covers(all[i], file, pos);
    }
    if CoveredNever(init, file, pos) && Covers(last, file, pos) {
      assert Covers(all[|init|], file, pos) && forall k | 0 <= k < |init| :: all[k] in init;
    }
  }

  // Every byte of every file is in exactly one range of exactly one worker.
  lemma EveryByteOnce(l: Layout, threads: nat, work: seq<seq<Range>>, file: nat, pos: nat)
    requires l.Valid() && 0 < threads == |work| && file < l.numFiles && pos < l.fileSize
    requires forall rank | 0 <= rank < threads ::
      l.Chained(work[rank], L.WorkerStart(l.Total(), rank, threads), EndBlock(rank, l.Total(), threads))
    ensures var owner := Owner(l.BlockOf(file, pos), l.Total(), threads);
      && owner < threads && CoveredOnce(work[owner], file, pos)
      && forall rank | 0 <= rank < threads && rank != owner :: CoveredNever(work[rank], file, pos)
  {
    var block, total := l.BlockOf(file, pos), l.Total();
    BlockInTotal(l, file, pos);
    hide L.WorkerStart, EndBlock, Layout.Chained, CoveredOnce, CoveredNever, Layout.BlockOf;
    var owner := Owner(block, total, threads);
    OwnerIsWorker(block, total, threads);
    OneOwner(owner, block, total, threads);
    ChainCovers(l, work[owner], L.WorkerStart(total, owner, threads), EndBlock(owner, total, threads), file, pos);
    forall rank | 0 <= rank < threads && rank != owner ensures CoveredNever(work[rank], file, pos) {
      OneOwner(rank, block, total, threads);
      ChainCovers(l, work[rank], L.WorkerStart(total, rank, threads), EndBlock(rank, total, threads), file, pos);
    }
  }

  lemma OwnerIsWorker(block: nat, total: nat, threads: nat)
    requires threads > 0
    ensures Owner(block, total, threads) < threads
  {
  }

  lemma BlockInTotal(l: Layout, file: nat, pos: nat)
    requires l.Valid() && file < l.numFiles && pos < l.fileSize
    ensures l.BlockOf(file, pos) < l.Total()
  {
    var n := l.BlocksPerFile();
    BlockNumbers(l, file, pos);
    MulLe(file + 1, l.numFiles, n);
    assert (file + 1) * n == file * n + n && l.numFiles * n == n * l.numFiles;
  }

  // ---- Sequential I/Os of a range ----

  type Extent = (nat, nat)  // offset and length

  // The extents follow each other from offset to end.
  predicate Tiles(ios: seq<Extent>, offset: nat, end: nat) {
    if ios == [] then offset == end
    else
      var last := ios[|ios| - 1];
      last.1 > 0 && last.0 + last.1 == end && Tiles(ios[..|ios| - 1], offset, last.0)
  }

  class OffsetGenSequential {
    var numBytesTotal: nat
    var numBytesLeft: nat
    var startOffset: nat
    var currentOffset: nat

    predicate Valid()
      reads this
    {
      numBytesLeft <= numBytesTotal && currentOffset + numBytesLeft == startOffset + numBytesTotal
    }

    constructor (len: nat, offset: nat)
      ensures Valid() && numBytesTotal == numBytesLeft == len && startOffset == currentOffset == offset
    {
      numBytesTotal, numBytesLeft, startOffset, currentOffset := len, len, offset, offset;
    }

    method Reset(len: nat, offset: nat)
      modifies this
      ensures Valid() && numBytesTotal == numBytesLeft == len && startOffset == currentOffset == offset
    {
      numBytesTotal, numBytesLeft, startOffset, currentOffset := len, len, offset, offset;
    }

    // The size drawn from the mix, limited to the bytes that are left.
    function NextBlockSizeToSubmit(draw: nat): nat
      reads this
    {
      if numBytesLeft < draw then numBytesLeft else draw
    }

    method AddBytesSubmitted(numBytes: nat)
      requires Valid() && numBytes <= numBytesLeft
      modifies this`numBytesLeft, this`currentOffset
      ensures Valid() && numBytesLeft == old(numBytesLeft) - numBytes && currentOffset == old(currentOffset) + numBytes
    {
      numBytesLeft, currentOffset := numBytesLeft - numBytes, currentOffset + numBytes;
    }

    // The loop of a worker over its generator, for any sizes drawn: the I/Os tile the range as
    // far as the draws go, and keep any grid on which the range and the sizes lie. Each I/O has
    // the size drawn for it, except that the last one is cut at the end of the range.
    method SubmitAll(draws: seq<nat>, ghost grid: nat) returns (ios: seq<Extent>)
      requires Valid() && grid > 0 && forall d <- draws :: d > 0 && d % grid == 0
      requires currentOffset % grid == 0 && numBytesLeft % grid == 0
      modifies this`numBytesLeft, this`currentOffset
      ensures Valid() && Tiles(ios, old(currentOffset), currentOffset) && currentOffset % grid == 0
      ensures forall io <- ios :: io.0 % grid == 0 && io.1 % grid == 0
      ensures |ios| <= |draws| && (numBytesLeft == 0 || |ios| == |draws|)
      ensures forall k | 0 <= k < |ios| ::
        && ios[k].1 <= draws[k] && (k + 1 < |ios| ==> ios[k].1 == draws[k])
        && (ios[k].1 < draws[k] ==> ios[k].0 + ios[k].1 == old(currentOffset + numBytesLeft))
    {
      ios := [];
      var i := 0;
      while numBytesLeft > 0 && i < |draws|
        invariant Valid() && i == |ios| <= |draws| && Tiles(ios, old(currentOffset), currentOffset)
        invariant forall k | 0 <= k < |ios| ::
          && ios[k].1 <= draws[k] && (numBytesLeft > 0 || k + 1 < |ios| ==> ios[k].1 == draws[k])
          && (ios[k].1 < draws[k] ==> ios[k].0 + ios[k].1 == old(currentOffset + numBytesLeft))
        invariant startOffset == old(startOffset) && numBytesTotal == old(numBytesTotal)
        invariant currentOffset % grid == 0 && numBytesLeft % grid == 0
        invariant forall io <- ios :: io.0 % grid == 0 && io.1 % grid == 0
      {
        assert draws[i] in draws;
        var len := NextBlockSizeToSubmit(draws[i]);
        var io := (currentOffset, len);
        assert (ios + [io])[..|ios|] == ios;
        GridKept(currentOffset, numBytesLeft, len, grid);
        ios := ios + [io];
        AddBytesSubmitted(len);
        i := i + 1;
      }
    }
  }

  lemma GridKept(offset: nat, left: nat, len: nat, grid: nat)
    requires grid > 0 && offset % grid == 0 && left % grid == 0 && len % grid == 0 && len <= left
    ensures (offset + len) % grid == 0 && (left - len) % grid == 0
  {
    var p, q, r := offset / grid, left / grid, len / grid;
    assert offset == p * grid && left == q * grid && len == r * grid;
    assert (p + r) * grid == offset + len && (q - r) * grid == left - len;
    MulLtCancelOrEqual(r, q, grid);
    AddMultiple(0, p + r, grid);
    AddMultiple(0, q - r, grid);
  }

  lemma MulLtCancelOrEqual(a: nat, b: nat, p: nat)
    requires p > 0 && a * p <= b * p
    ensures a <= b
  {
    assert (b + 1) * p == b * p + p;
    MulLtCancel(a, b + 1, p);
  }

  lemma {:induction false} TilesInside(ios: seq<Extent>, offset: nat, end: nat)
    requires Tiles(ios, offset, end)
    ensures offset <= end && forall io <- ios :: offset <= io.0 && 0 < io.1 && io.0 + io.1 <= end
    decreases |ios|
  {
    if ios != [] {
      var init, last := ios[..|ios| - 1], ios[|ios| - 1];
      TilesInside(init, offset, last.0);
      assert ios == init + [last];
    }
  }

  // ---- Random I/Os on the grid of the smallest block size ----

  // The largest number of the random range.
  function LastRandom(len: nat, minSize: nat, maxSize: nat): nat {
    if Min(minSize, len) == 0 then 0 else (len - Min(maxSize, len)) / Min(minSize, len)
  }

  lemma RandomInRange(random: nat, len: nat, minSize: nat, maxSize: nat)
    requires 0 < minSize <= maxSize <= len && random <= LastRandom(len, minSize, maxSize)
    ensures random * minSize + maxSize <= len
  {
    MulLe(random, (len - maxSize) / minSize, minSize);
  }

  // The I/Os of a worker, by the random numbers and the sizes drawn.
  function RandomIOs(offset: nat, grid: nat, left: nat, randoms: seq<nat>, draws: seq<nat>): seq<Extent>
    requires |randoms| == |draws|
  {
    if draws == [] || left == 0 then []
    else
      var numBytes := Min(left, draws[0]);
      [(offset + randoms[0] * grid, numBytes)] + RandomIOs(offset, grid, left - numBytes, randoms[1..], draws[1..])
  }

  // The bytes of all extents together.
  function Bytes(ios: seq<Extent>): nat {
    if ios == [] then 0 else Bytes(ios[..|ios| - 1]) + ios[|ios| - 1].1
  }

  // Each random I/O goes where its random number says and has the size drawn for it, except that
  // the last one is cut to the bytes that are left.
  lemma {:induction false} RandomIOsFollowDraws(offset: nat, grid: nat, left: nat, randoms: seq<nat>, draws: seq<nat>)
    requires |randoms| == |draws| && forall d <- draws :: d > 0
    ensures var ios := RandomIOs(offset, grid, left, randoms, draws);
      && |ios| <= |draws|
      && forall k | 0 <= k < |ios| ::
           && ios[k].0 == offset + randoms[k] * grid && ios[k].1 <= draws[k]
           && (k + 1 < |ios| ==> ios[k].1 == draws[k])
    decreases |draws|
  {
    if draws != [] && left > 0 {
      var numBytes := Min(left, draws[0]);
      var rest := RandomIOs(offset, grid, left - numBytes, randoms[1..], draws[1..]);
      assert forall d <- draws[1..] :: d in draws;
      RandomIOsFollowDraws(offset, grid, left - numBytes, randoms[1..], draws[1..]);
      var ios := RandomIOs(offset, grid, left, randoms, draws);
      forall k | 0 < k < |ios| ensures ios[k] == rest[k - 1] && randoms[k] == randoms[1..][k - 1] {}
      if left <= draws[0] { assert rest == []; }
    }
  }

  class OffsetGenRandomAligned {
    const len: nat
    const offset: nat
    const alignGrid: nat
    const maxBlockSize: nat
    const numBytesTotal: nat
    var numBytesLeft: nat

    constructor (numBytesTotal: nat, len: nat, offset: nat, minSize: nat, maxSize: nat)
      ensures this.numBytesTotal == numBytesLeft == numBytesTotal && this.len == len && this.offset == offset
      ensures alignGrid == minSize && maxBlockSize == maxSize
    {
      this.numBytesTotal, this.numBytesLeft, this.len, this.offset := numBytesTotal, numBytesTotal, len, offset;
      this.alignGrid, this.maxBlockSize := minSize, maxSize;
    }

    // The loop of a worker, for any random numbers and sizes drawn: every I/O lies in the range.
    method SubmitAll(randoms: seq<nat>, draws: seq<nat>, ghost grid: nat) returns (ios: seq<Extent>)
      requires |randoms| == |draws| && forall r <- randoms :: r <= LastRandom(len, alignGrid, maxBlockSize)
      requires grid > 0 && forall d <- draws :: 0 < d <= maxBlockSize && d % grid == 0
      requires 0 < alignGrid <= maxBlockSize && (maxBlockSize <= len || len == 0)
      requires offset % grid == 0 && alignGrid % grid == 0 && numBytesLeft % grid == 0
      modifies this`numBytesLeft
      ensures ios == RandomIOs(offset, alignGrid, old(numBytesLeft), randoms, draws)
      ensures |ios| <= |draws| && (numBytesLeft == 0 || |ios| == |draws|)
      ensures Bytes(ios) + numBytesLeft == old(numBytesLeft)
      ensures forall io <- ios :: Placed(offset, len, alignGrid, maxBlockSize, io) && io.0 % grid == 0 && io.1 % grid == 0
    {
      hide RandomIOs, Placed;
      RandomIOsPlaced(offset, len, alignGrid, maxBlockSize, numBytesLeft, randoms, draws, grid);
      ios := [];
      var i := 0;
      assert randoms[0..] == randoms && draws[0..] == draws;
      while numBytesLeft > 0 && i < |draws|
        invariant i == |ios| <= |draws|
        invariant Bytes(ios) + numBytesLeft == old(numBytesLeft)
        invariant ios + RandomIOs(offset, alignGrid, numBytesLeft, randoms[i..], draws[i..])
          == RandomIOs(offset, alignGrid, old(numBytesLeft), randoms, draws)
      {
        RandomIOsStep(offset, alignGrid, numBytesLeft, randoms, draws, i);
        var numBytes := Min(numBytesLeft, draws[i]);
        var io := (offset + randoms[i] * alignGrid, numBytes);
        assert (ios + [io])[..|ios|] == ios;
        ios := ios + [(offset + randoms[i] * alignGrid, numBytes)];
        numBytesLeft := numBytesLeft - numBytes;
        i := i + 1;
      }
      NoMoreIOs(offset, alignGrid, numBytesLeft, randoms[i..], draws[i..]);
    }
  }

  lemma RandomIOsStep(offset: nat, alignGrid: nat, left: nat, randoms: seq<nat>, draws: seq<nat>, i: nat)
    requires |randoms| == |draws| && i < |draws| && left > 0
    ensures var numBytes := Min(left, draws[i]);
      RandomIOs(offset, alignGrid, left, randoms[i..], draws[i..])
      == [(offset + randoms[i] * alignGrid, numBytes)]
         + RandomIOs(offset, alignGrid, left - numBytes, randoms[i + 1..], draws[i + 1..])
  {
    assert randoms[i..][1..] == randoms[i + 1..] && draws[i..][1..] == draws[i + 1..];
  }

  lemma NoMoreIOs(offset: nat, alignGrid: nat, left: nat, randoms: seq<nat>, draws: seq<nat>)
    requires |randoms| == |draws| && (draws == [] || left == 0)
    ensures RandomIOs(offset, alignGrid, left, randoms, draws) == []
  {
  }

  // The I/O starts on the grid, and even the largest block would end in the range.
  predicate Placed(offset: nat, len: nat, alignGrid: nat, maxSize: nat, io: Extent)
    requires alignGrid > 0
  {
    && offset <= io.0 && 0 < io.1 <= maxSize && (io.0 - offset) % alignGrid == 0
    && io.0 + maxSize <= offset + (if len == 0 then maxSize else len)
  }

  lemma {:induction false} RandomIOsPlaced(offset: nat, len: nat, alignGrid: nat, maxSize: nat, left: nat,
                                           randoms: seq<nat>, draws: seq<nat>, grid: nat)
    requires |randoms| == |draws| && forall r <- randoms :: r <= LastRandom(len, alignGrid, maxSize)
    requires grid > 0 && forall d <- draws :: 0 < d <= maxSize && d % grid == 0
    requires 0 < alignGrid <= maxSize && (maxSize <= len || len == 0)
    requires offset % grid == 0 && alignGrid % grid == 0 && left % grid == 0
    ensures forall io <- RandomIOs(offset, alignGrid, left, randoms, draws) ::
      Placed(offset, len, alignGrid, maxSize, io) && io.0 % grid == 0 && io.1 % grid == 0
    decreases |draws|
  {
    hide LastRandom;
    if draws != [] && left > 0 {
      assert draws[0] in draws && randoms[0] in randoms;
      var numBytes := Min(left, draws[0]);
      OnGrid(offset, randoms[0], alignGrid, grid);
      DrawnAt(randoms[0], len, alignGrid, maxSize);
      GridKept(0, left, numBytes, grid);
      assert (forall r <- randoms[1..] :: r in randoms) && forall d <- draws[1..] :: d in draws;
      RandomIOsPlaced(offset, len, alignGrid, maxSize, left - numBytes, randoms[1..], draws[1..], grid);
    }
  }

  lemma SumAligned(a: nat, b: nat, grid: nat)
    requires grid > 0 && a % grid == 0 && b % grid == 0
    ensures (a + b) % grid == 0
  {
    var q := b / grid;
    assert b == q * grid;
    AddMultiple(a, q, grid);
  }

  lemma OnGrid(offset: nat, random: nat, alignGrid: nat, grid: nat)
    requires grid > 0 && alignGrid > 0 && offset % grid == 0 && alignGrid % grid == 0
    ensures random * alignGrid >= 0
    ensures (offset + random * alignGrid) % grid == 0 && (random * alignGrid) % alignGrid == 0
  {
    NatProduct(random, alignGrid);
    AddMultiple(0, random, alignGrid);
    ProductAligned(random, alignGrid, grid);
    SumAligned(offset, random * alignGrid, grid);
  }

  // Several files are one long file to the generator.
  function FilePosition(l: Layout, offset: nat): (nat, nat)
    requires l.fileSize > 0
  {
    if l.numFiles == 1 then (0, offset) else (offset / l.fileSize, offset % l.fileSize)
  }

  // An offset in all files together is the offset in the file behind the files before it.
  lemma PositionMeaning(l: Layout, offset: nat)
    requires l.fileSize > 0 && offset < l.numFiles * l.fileSize
    ensures var (file, pos) := FilePosition(l, offset);
      file < l.numFiles && pos < l.fileSize && file * l.fileSize + pos == offset
  {
    if l.numFiles > 1 {
      var file, pos := offset / l.fileSize, offset % l.fileSize;
      assert offset == file * l.fileSize + pos;
      MulLtCancel(file, l.numFiles, l.fileSize);
    }
  }

  // The part of all whole blocks that a worker draws its random offsets from.
  function RandomLen(l: Layout, threads: nat): nat
    requires l.Valid() && threads > 0
  {
    NatProduct(l.fileSize / l.blockSize, l.numFiles);
    NatProduct(l.blockSize, l.fileSize / l.blockSize * l.numFiles / threads);
    l.blockSize * ((l.fileSize / l.blockSize * l.numFiles) / threads)
  }

  function RandomOffset(l: Layout, rank: nat, threads: nat): nat
    requires l.Valid() && threads > 0
  {
    NatProduct(rank, RandomLen(l, threads));
    rank * RandomLen(l, threads)
  }

  predicate InFile(l: Layout, io: Extent)
    requires l.fileSize > 0
  {
    FilePosition(l, io.0).0 < l.numFiles && FilePosition(l, io.0).1 + io.1 <= l.fileSize
  }

  // The parts of the workers are whole blocks and follow each other, and less than one block for
  // each worker is left of all whole blocks.
  lemma RandomParts(l: Layout, rank: nat, threads: nat)
    requires l.Valid() && threads > 0
    ensures RandomOffset(l, 0, threads) == 0
    ensures RandomOffset(l, rank + 1, threads) == RandomOffset(l, rank, threads) + RandomLen(l, threads)
    ensures var all := l.fileSize / l.blockSize * l.numFiles * l.blockSize;
      RandomOffset(l, threads, threads) <= all < RandomOffset(l, threads, threads) + threads * l.blockSize
  {
    var total := l.fileSize / l.blockSize * l.numFiles;
    NatProduct(l.fileSize / l.blockSize, l.numFiles);
    var n, size := total / threads, l.blockSize;
    assert (rank + 1) * RandomLen(l, threads) == rank * RandomLen(l, threads) + RandomLen(l, threads);
    assert threads * (size * n) == (n * threads) * size;
    assert total < n * threads + threads;
    MulLe(n * threads, total, size);
    MulLe(total + 1, n * threads + threads, size);
    assert (n * threads + threads) * size == (n * threads) * size + threads * size;
    assert (total + 1) * size == total * size + size;
  }

  lemma RandomEnd(l: Layout, rank: nat, threads: nat)
    requires l.Valid() && rank < threads
    ensures RandomOffset(l, rank, threads) + RandomLen(l, threads) <= l.fileSize / l.blockSize * l.blockSize * l.numFiles
    ensures l.fileSize / l.blockSize * l.blockSize <= l.fileSize
  {
    var perFile := l.fileSize / l.blockSize;
    var total := perFile * l.numFiles;
    var n := total / threads;
    MulLe(rank + 1, threads, RandomLen(l, threads));
    assert (rank + 1) * RandomLen(l, threads) == RandomOffset(l, rank, threads) + RandomLen(l, threads);
    assert threads * (l.blockSize * n) == (n * threads) * l.blockSize;
    MulLe(n * threads, total, l.blockSize);
    assert perFile * l.numFiles * l.blockSize == perFile * l.blockSize * l.numFiles;
  }

  // As SubmitAll requires of its range.
  lemma RandomLenWhole(l: Layout, threads: nat)
    requires l.Valid() && threads > 0
    ensures RandomLen(l, threads) == 0 || l.blockSize <= RandomLen(l, threads)
  {
    var n := (l.fileSize / l.blockSize * l.numFiles) / threads;
    if n > 0 {
      MulLe(1, n, l.blockSize);
      assert n * l.blockSize == l.blockSize * n;
    }
  }

  // What SubmitAll says of the I/Os of a worker.
  predicate Drawn(l: Layout, rank: nat, threads: nat, minSize: nat, maxSize: nat, io: Extent)
    requires l.Valid() && threads > 0 && minSize > 0
  {
    Placed(RandomOffset(l, rank, threads), RandomLen(l, threads), minSize, maxSize, io)
  }

  // The first I/O of a worker with these draws and so many bytes to submit.
  predicate ComesFirst(l: Layout, rank: nat, threads: nat, minSize: nat, maxSize: nat, left: nat,
                       random: nat, draw: nat, io: Extent)
    requires l.Valid() && threads > 0
  {
    && random <= LastRandom(RandomLen(l, threads), minSize, maxSize) && 0 < draw <= maxSize
    && RandomIOs(RandomOffset(l, rank, threads), minSize, left, [random], [draw]) == [io]
  }

  // And these are exactly the I/Os that it can draw.
  lemma DrawnIff(l: Layout, rank: nat, threads: nat, minSize: nat, maxSize: nat, left: nat, io: Extent)
    requires l.Valid() && threads > 0 && 0 < minSize <= maxSize <= l.blockSize && 0 < io.1 <= left
    ensures Drawn(l, rank, threads, minSize, maxSize, io)
      <==> exists random: nat, draw: nat :: ComesFirst(l, rank, threads, minSize, maxSize, left, random, draw, io)
  {
    hide RandomOffset, RandomLen, LastRandom;
    var offset, len := RandomOffset(l, rank, threads), RandomLen(l, threads);
    RandomLenWhole(l, threads);
    if Drawn(l, rank, threads, minSize, maxSize, io) {
      var random := FirstDraw(l, rank, threads, minSize, maxSize, left, io);
    }
    if random: nat, draw: nat :| ComesFirst(l, rank, threads, minSize, maxSize, left, random, draw, io) {
      FirstIO(offset, minSize, left, random, draw);
      DrawnAt(random, len, minSize, maxSize);
    }
  }

  lemma FirstDraw(l: Layout, rank: nat, threads: nat, minSize: nat, maxSize: nat, left: nat, io: Extent)
      returns (random: nat)
    requires l.Valid() && threads > 0 && 0 < minSize <= maxSize <= l.blockSize && io.1 <= left
    requires Drawn(l, rank, threads, minSize, maxSize, io)
    ensures ComesFirst(l, rank, threads, minSize, maxSize, left, random, io.1, io)
  {
    hide RandomOffset, RandomLen, LastRandom;
    var offset, len := RandomOffset(l, rank, threads), RandomLen(l, threads);
    RandomLenWhole(l, threads);
    random := DrawnBy(io.0 - offset, len, minSize, maxSize);
    FirstIO(offset, minSize, left, random, io.1);
  }

  lemma FirstIO(offset: nat, grid: nat, left: nat, random: nat, draw: nat)
    requires left > 0
    ensures RandomIOs(offset, grid, left, [random], [draw]) == [(offset + random * grid, Min(left, draw))]
  {
    assert [random][1..] == [] && [draw][1..] == [];
  }

  lemma DrawnBy(at: nat, len: nat, minSize: nat, maxSize: nat) returns (random: nat)
    requires 0 < minSize <= maxSize && (len == 0 || maxSize <= len) && at % minSize == 0
    requires at + maxSize <= if len == 0 then maxSize else len
    ensures random <= LastRandom(len, minSize, maxSize) && random * minSize == at
  {
    random := at / minSize;
    assert random * minSize == at;
    if len > 0 { DivMono(at, len - maxSize, minSize); }
  }

  lemma DrawnAt(random: nat, len: nat, minSize: nat, maxSize: nat)
    requires 0 < minSize <= maxSize && (len == 0 || maxSize <= len) && random <= LastRandom(len, minSize, maxSize)
    ensures var at := random * minSize;
      at >= 0 && at % minSize == 0 && at + maxSize <= if len == 0 then maxSize else len
  {
    MulLe(0, random, minSize);
    AddMultiple(0, random, minSize);
    if len > 0 { RandomInRange(random, len, minSize, maxSize); }
  }

  lemma NothingToDraw(l: Layout, rank: nat, threads: nat)
    requires l.Valid() && threads > 0
    ensures RandomLen(l, threads) == 0 ==> RandomOffset(l, rank, threads) == 0
  {
  }

  lemma BlockOffset(l: Layout, rank: nat, threads: nat)
    requires l.Valid() && threads > 0
    ensures RandomOffset(l, rank, threads) % l.blockSize == 0
  {
    RandomLenAligned(l, threads);
    hide RandomLen;
    ProductAligned(rank, RandomLen(l, threads), l.blockSize);
  }

  lemma RandomLenAligned(l: Layout, threads: nat)
    requires l.Valid() && threads > 0
    ensures RandomLen(l, threads) % l.blockSize == 0
  {
    Aligned(l.blockSize, (l.fileSize / l.blockSize * l.numFiles) / threads);
  }

  lemma Aligned(size: nat, k: nat)
    requires size > 0
    ensures (size * k) % size == 0
  {
    assert size * k == k * size;
    NatProduct(k, size);
    AddMultiple(0, k, size);
  }

  lemma OffsetOnGrid(offset: nat, at: nat, grid: nat)
    requires grid > 0 && offset <= at && offset % grid == 0 && (at - offset) % grid == 0
    ensures at / grid * grid == at
  {
    var p, d := offset / grid, (at - offset) / grid;
    assert offset == p * grid && at - offset == d * grid;
    assert at == (p + d) * grid by { assert (p + d) * grid == p * grid + d * grid; }
    DivUnique(at, grid, p + d);
  }

  lemma RandomInFiles(l: Layout, rank: nat, threads: nat, at: nat, size: nat)
    requires l.Valid() && rank < threads && size > 0
    requires at + size <= RandomOffset(l, rank, threads) + RandomLen(l, threads)
    ensures at / l.fileSize < l.numFiles
  {
    hide RandomOffset, RandomLen;
    RandomEnd(l, rank, threads);
    MulLe(l.fileSize / l.blockSize * l.blockSize, l.fileSize, l.numFiles);
    assert l.fileSize * l.numFiles == l.numFiles * l.fileSize;
    BeforeMultiple(at, l.numFiles, l.fileSize);
  }

  lemma WholeBlockInFile(l: Layout, io: Extent)
    requires l.Valid() && l.fileSize % l.blockSize == 0 && io.1 <= l.blockSize
    requires io.0 / l.blockSize * l.blockSize == io.0 && io.0 / l.fileSize < l.numFiles
    ensures InFile(l, io)
  {
    var b, f, k := l.blockSize, l.fileSize, io.0 / l.blockSize;
    var n := f / b;
    assert n * b == f;
    BlockFits(k, n, b);
    assert io.0 % f + b <= f;
    if l.numFiles == 1 { assert io.0 == io.0 / f * f + io.0 % f; }
  }

  // With one block size, every random I/O lies in one file.
  lemma OneSizeFits(l: Layout, rank: nat, threads: nat, io: Extent)
    requires l.Valid() && rank < threads && l.fileSize % l.blockSize == 0 && l.numFiles > 0
    requires Drawn(l, rank, threads, l.blockSize, l.blockSize, io)
    ensures InFile(l, io)
  {
    hide InFile, RandomOffset, RandomLen;
    NothingToDraw(l, rank, threads);
    if RandomLen(l, threads) == 0 {
      assert io.0 == 0;
      DivUnique(0, l.fileSize, 0);
    } else {
      BlockOffset(l, rank, threads);
      OffsetOnGrid(RandomOffset(l, rank, threads), io.0, l.blockSize);
      RandomInFiles(l, rank, threads, io.0, io.1);
    }
    WholeBlockInFile(l, io);
  }

  // A whole block ends where its file ends, or before.
  lemma BlockFits(k: nat, n: nat, b: nat)
    requires b > 0 && n > 0
    ensures n * b > 0 && (k * b) % (n * b) + b <= n * b
  {
    MulLe(1, n, b);
    var q, r := k / n, k % n;
    assert k == q * n + r;
    assert k * b == q * (n * b) + r * b by { assert (q * n + r) * b == q * n * b + r * b; }
    MulLe(r + 1, n, b);
    assert (r + 1) * b == r * b + b;
    MulLe(0, r, b);
    DivUnique(k * b, n * b, q);
  }

  // The worker's random range does not go over the end of a file.
  predicate WithinOneFile(l: Layout, rank: nat, threads: nat)
    requires l.Valid() && threads > 0
  {
    var offset, len := RandomOffset(l, rank, threads), RandomLen(l, threads);
    offset % l.fileSize + len <= l.fileSize
  }

  lemma SameFile(at: nat, size: nat, offset: nat, len: nat, f: nat)
    requires f > 0 && offset % f + len <= f && offset <= at && 0 < size && at + size <= offset + len
    ensures at % f + size <= f
  {
    var k := offset / f;
    assert offset == k * f + offset % f;
    DivUnique(at, f, k);
    assert at == k * f + at % f;
  }

  lemma InnerFits(l: Layout, rank: nat, threads: nat, minSize: nat, maxSize: nat, io: Extent)
    requires l.Valid() && rank < threads && 0 < minSize <= maxSize <= l.blockSize <= l.fileSize && l.numFiles > 0
    requires WithinOneFile(l, rank, threads) && Drawn(l, rank, threads, minSize, maxSize, io)
    ensures InFile(l, io)
  {
    hide RandomOffset, RandomLen;
    var f := l.fileSize;
    NothingToDraw(l, rank, threads);
    if RandomLen(l, threads) == 0 {
      assert io.0 == 0;
      DivUnique(0, f, 0);
    } else {
      RandomInFiles(l, rank, threads, io.0, io.1);
      SameFile(io.0, io.1, RandomOffset(l, rank, threads), RandomLen(l, threads), f);
      if l.numFiles == 1 { assert io.0 == io.0 / f * f + io.0 % f; }
    }
  }

  // A grid point at most one step before the end.
  lemma LastGridPoint(offset: nat, end: nat, grid: nat) returns (random: nat)
    requires offset < end && grid > 0
    ensures end - grid <= offset + random * grid < end && (random * grid) % grid == 0
  {
    var d := end - 1 - offset;
    random := d / grid;
    assert d == random * grid + d % grid;
    AddMultiple(0, random, grid);
  }

  lemma NextMultipleFits(a: nat, b: nat, size: nat)
    requires size > 0 && a % size == 0 && b % size == 0 && a < b
    ensures a + size <= b
  {
    var p, q := a / size, b / size;
    assert a == p * size && b == q * size;
    MulLtCancel(p, q, size);
    MulLe(p + 1, q, size);
    assert (p + 1) * size == p * size + size;
  }

  lemma ProductAligned(k: nat, f: nat, size: nat)
    requires size > 0 && f % size == 0
    ensures k * f >= 0 && (k * f) % size == 0
  {
    var n := f / size;
    assert f == n * size && k * (n * size) == (k * n) * size;
    MulLe(0, k, n);
    AddMultiple(0, k * n, size);
    MulLe(0, k, f);
  }

  lemma RandomEndAligned(l: Layout, rank: nat, threads: nat)
    requires l.Valid() && threads > 0
    ensures (RandomOffset(l, rank, threads) + RandomLen(l, threads)) % l.blockSize == 0
  {
    BlockOffset(l, rank, threads);
    BlockOffset(l, rank + 1, threads);
    assert (rank + 1) * RandomLen(l, threads) == rank * RandomLen(l, threads) + RandomLen(l, threads);
  }

  lemma OverTheEnd(offset: nat, len: nat, f: nat, minSize: nat, maxSize: nat) returns (at: nat)
    requires 0 < minSize < maxSize && f > 0 && f % maxSize == 0 && (offset + len) % maxSize == 0
    requires offset % f + len > f
    ensures offset <= at && (at - offset) % minSize == 0 && at + maxSize <= offset + len && at % f + maxSize > f
  {
    var k := offset / f;
    assert offset == k * f + offset % f;
    var end := k * f + f;
    assert (k + 1) * f == end;
    ProductAligned(k + 1, f, maxSize);
    NextMultipleFits(end, offset + len, maxSize);
    var random := LastGridPoint(offset, end, minSize);
    at := offset + random * minSize;
    MulLe(0, random, minSize);
    DivUnique(at, f, k);
    assert at == k * f + at % f;
  }

  // If it does, and the sizes differ, the largest block at the last grid point before that end
  // can be drawn and reaches over it.
  lemma ReachesOver(l: Layout, rank: nat, threads: nat, minSize: nat, maxSize: nat) returns (io: Extent)
    requires l.Valid() && rank < threads && 0 < minSize < maxSize == l.blockSize && l.fileSize % maxSize == 0
    requires l.numFiles > 0 && !WithinOneFile(l, rank, threads)
    ensures Drawn(l, rank, threads, minSize, maxSize, io) && io.1 == maxSize && !InFile(l, io)
  {
    hide RandomOffset, RandomLen;
    SeveralFiles(l, rank, threads);
    RandomEndAligned(l, rank, threads);
    var at := OverTheEnd(RandomOffset(l, rank, threads), RandomLen(l, threads), l.fileSize, minSize, maxSize);
    io := (at, maxSize);
  }

  lemma SeveralFiles(l: Layout, rank: nat, threads: nat)
    requires l.Valid() && rank < threads && !WithinOneFile(l, rank, threads)
    ensures l.numFiles != 1 && RandomLen(l, threads) > 0
  {
    var f := l.fileSize;
    var offset, len := RandomOffset(l, rank, threads), RandomLen(l, threads);
    RandomEnd(l, rank, threads);
    NothingToDraw(l, rank, threads);
    hide RandomOffset, RandomLen;
    if len == 0 { DivUnique(0, f, 0); }
    if l.numFiles == 1 && len > 0 { DivUnique(offset, f, 0); }
  }

  // For files of whole blocks: every random I/O of a worker lies in one file if and only if there
  // is one block size or the worker's range goes over no end of a file. With one file, it never
  // does.
  lemma WholeBlocksFitIff(l: Layout, rank: nat, threads: nat, minSize: nat)
    requires l.Valid() && rank < threads && l.fileSize % l.blockSize == 0 && l.numFiles > 0
    requires 0 < minSize <= l.blockSize
    ensures (forall io: Extent | Drawn(l, rank, threads, minSize, l.blockSize, io) :: InFile(l, io))
      <==> minSize == l.blockSize || WithinOneFile(l, rank, threads)
    ensures l.numFiles == 1 ==> WithinOneFile(l, rank, threads)
  {
    hide InFile, Drawn, WithinOneFile;
    if !WithinOneFile(l, rank, threads) { SeveralFiles(l, rank, threads); }
    if minSize == l.blockSize {
      forall io: Extent | Drawn(l, rank, threads, minSize, l.blockSize, io) ensures InFile(l, io) {
        OneSizeFits(l, rank, threads, io);
      }
    } else if WithinOneFile(l, rank, threads) {
      NextMultipleFits(0, l.fileSize, l.blockSize);
      forall io: Extent | Drawn(l, rank, threads, minSize, l.blockSize, io) ensures InFile(l, io) {
        InnerFits(l, rank, threads, minSize, l.blockSize, io);
      }
    } else {
      var io := ReachesOver(l, rank, threads, minSize, l.blockSize);
    }
  }

  // ---- The exact condition for all file sizes ----

  // The last grid point before an end from which the largest block stays in the range.
  function LastPointBefore(end: nat, offset: nat, len: nat, minSize: nat, maxSize: nat): nat
    requires offset < end && maxSize <= len && 0 < minSize
  {
    offset + Min(end - 1 - offset, len - maxSize) / minSize * minSize
  }

  // The largest block reaches over the end from there.
  predicate OverEnd(end: nat, offset: nat, len: nat, minSize: nat, maxSize: nat)
    requires 0 < minSize
  {
    offset < end && maxSize <= len && LastPointBefore(end, offset, len, minSize, maxSize) + maxSize > end
  }

  lemma LastPointIsLast(end: nat, offset: nat, len: nat, minSize: nat, maxSize: nat, at: nat)
    requires offset < end && maxSize <= len && 0 < minSize
    ensures var last := LastPointBefore(end, offset, len, minSize, maxSize);
      && offset <= last < end && last + maxSize <= offset + len && (last - offset) % minSize == 0
      && (offset <= at < end && at + maxSize <= offset + len && (at - offset) % minSize == 0 ==> at <= last)
  {
    var m := Min(end - 1 - offset, len - maxSize);
    var q := m / minSize;
    assert q * minSize <= m;
    AddMultiple(0, q, minSize);
    if offset <= at <= offset + m && (at - offset) % minSize == 0 {
      var d := (at - offset) / minSize;
      assert at - offset == d * minSize;
      DivMono(at - offset, m, minSize);
      MulLe(d, q, minSize);
    }
  }

  lemma EndBehind(at: nat, f: nat)
    requires f > 0
    ensures (at / f + 1) * f == at - at % f + f > at
  {
    var k := at / f;
    assert at == k * f + at % f && (k + 1) * f == k * f + f;
  }

  lemma NoEndReached(l: Layout, rank: nat, threads: nat, minSize: nat, maxSize: nat, io: Extent)
    requires l.Valid() && rank < threads && l.numFiles > 0 && 0 < minSize <= maxSize <= l.blockSize <= l.fileSize
    requires Drawn(l, rank, threads, minSize, maxSize, io)
    requires var end := (io.0 / l.fileSize + 1) * l.fileSize;
      end > 0 && !OverEnd(end, RandomOffset(l, rank, threads), RandomLen(l, threads), minSize, maxSize)
    ensures InFile(l, io)
  {
    hide RandomOffset, RandomLen, LastPointBefore, InFile;
    var f, offset, len := l.fileSize, RandomOffset(l, rank, threads), RandomLen(l, threads);
    NothingToDraw(l, rank, threads);
    EndBehind(io.0, f);
    if len == 0 {
      assert io.0 == 0;
      DivUnique(0, f, 0);
    } else {
      RandomInFiles(l, rank, threads, io.0, io.1);
      LastPointIsLast(io.0 - io.0 % f + f, offset, len, minSize, maxSize, io.0);
    }
    BeforeEndInFile(l, io);
  }

  lemma BeforeEndInFile(l: Layout, io: Extent)
    requires l.Valid() && io.0 / l.fileSize < l.numFiles && io.0 + io.1 <= io.0 - io.0 % l.fileSize + l.fileSize
    ensures InFile(l, io)
  {
    if l.numFiles == 1 { assert io.0 == io.0 / l.fileSize * l.fileSize + io.0 % l.fileSize; }
  }

  lemma EndReached(l: Layout, rank: nat, threads: nat, minSize: nat, maxSize: nat, k: nat) returns (io: Extent)
    requires l.Valid() && rank < threads && l.numFiles > 0 && 0 < minSize <= maxSize && k * l.fileSize >= 0
    requires OverEnd(k * l.fileSize, RandomOffset(l, rank, threads), RandomLen(l, threads), minSize, maxSize)
    ensures Drawn(l, rank, threads, minSize, maxSize, io) && io.1 == maxSize && !InFile(l, io)
  {
    hide RandomOffset, RandomLen;
    var f, offset, len, end := l.fileSize, RandomOffset(l, rank, threads), RandomLen(l, threads), k * l.fileSize;
    var at := LastPointBefore(end, offset, len, minSize, maxSize);
    LastPointIsLast(end, offset, len, minSize, maxSize, at);
    hide LastPointBefore;
    io := (at, maxSize);
    EndBehind(at, f);
    BeforeMultiple(at, k, f);
    MulLe(at / f + 1, k, f);
    MulLe(1, k, f);
  }

  // Every random I/O of a worker lies in one file if and only if the largest block reaches over
  // no end of a file from the last grid point before it.
  lemma RandomFitsIff(l: Layout, rank: nat, threads: nat, minSize: nat, maxSize: nat)
    requires l.Valid() && rank < threads && l.numFiles > 0 && 0 < minSize <= maxSize <= l.blockSize <= l.fileSize
    ensures (forall io: Extent | Drawn(l, rank, threads, minSize, maxSize, io) :: InFile(l, io))
      <==> forall k: nat :: !OverEnd(EndOf(l, k), RandomOffset(l, rank, threads), RandomLen(l, threads), minSize, maxSize)
  {
    hide RandomOffset, RandomLen, Drawn, InFile, OverEnd;
    if k: nat :| OverEnd(EndOf(l, k), RandomOffset(l, rank, threads), RandomLen(l, threads), minSize, maxSize) {
      var io := EndReached(l, rank, threads, minSize, maxSize, k);
    } else {
      forall io: Extent | Drawn(l, rank, threads, minSize, maxSize, io) ensures InFile(l, io) {
        var k := io.0 / l.fileSize + 1;
        assert !OverEnd(EndOf(l, k), RandomOffset(l, rank, threads), RandomLen(l, threads), minSize, maxSize);
        EndBehind(io.0, l.fileSize);
        NoEndReached(l, rank, threads, minSize, maxSize, io);
      }
    }
  }

  // The end of the k-th file in the one long file.
  function EndOf(l: Layout, k: nat): nat {
    k * l.fileSize
  }
}
