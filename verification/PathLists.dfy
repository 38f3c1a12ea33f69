/**
 * Lists of files and file ranges, and what it means to split one among workers: by contiguous
 * ranges of blocks, or by dealing out the elements one by one.
 */
module PathLists {
  import opened Arith
  import opened Counting

  datatype PathElem = PathElem(path: string, totalLen: nat, rangeStart: nat, rangeLen: nat)

  // ---- Blocks and bytes of a list ----

  function FileBlocks(len: nat, blockSize: nat): nat {
    if blockSize == 0 then 0 else len / blockSize + if len % blockSize != 0 then 1 else 0
  }

  function SumBlocks(paths: seq<PathElem>, blockSize: nat): nat {
    if paths == [] then 0
    else SumBlocks(paths[..|paths| - 1], blockSize) + FileBlocks(paths[|paths| - 1].rangeLen, blockSize)
  }

  function SumBytes(paths: seq<PathElem>): nat {
    if paths == [] then 0 else SumBytes(paths[..|paths| - 1]) + paths[|paths| - 1].rangeLen
  }

  // One byte of a file, identified by the file's element in the global list and its offset.
  datatype FileByte = FileByte(path: string, totalLen: nat, offset: nat)

  function ElemBytes(e: PathElem): (bytes: seq<FileByte>)
    ensures |bytes| == e.rangeLen
  {
    seq(e.rangeLen, i requires 0 <= i < e.rangeLen => FileByte(e.path, e.totalLen, e.rangeStart + i))
  }

  // All bytes of the ranges of a list, in order.
  function AllBytes(paths: seq<PathElem>): seq<FileByte> {
    if paths == [] then [] else AllBytes(paths[..|paths| - 1]) + ElemBytes(paths[|paths| - 1])
  }

  function Whole(e: PathElem): PathElem {
    e.(rangeStart := 0, rangeLen := e.totalLen)
  }

  // A list as it is loaded: every range is the whole file.
  predicate IsGlobal(paths: seq<PathElem>) {
    forall e <- paths :: e == Whole(e)
  }

  predicate NonEmptyFiles(paths: seq<PathElem>) {
    forall e <- paths :: e.totalLen > 0
  }

  lemma {:induction false} AllBytesConcat(a: seq<PathElem>, b: seq<PathElem>)
    ensures AllBytes(a + b) == AllBytes(a) + AllBytes(b)
    decreases |b|
  {
    if b == [] {
      assert a + b == a;
    } else {
      hide ElemBytes;
      AllBytesConcat(a, b[..|b| - 1]);
      assert (a + b)[..|a + b| - 1] == a + b[..|b| - 1];
      assert AllBytes(a + b) == AllBytes(a) + AllBytes(b[..|b| - 1]) + ElemBytes(b[|b| - 1]);
    }
  }

  lemma {:induction false} AllBytesLength(paths: seq<PathElem>)
    ensures |AllBytes(paths)| == SumBytes(paths)
    decreases |paths|
  {
    if paths != [] { AllBytesLength(paths[..|paths| - 1]); }
  }

  // ---- The slice of a file that a range of blocks cuts out ----

  // Byte offset of the boundary before the file's k-th block; blocks outside the file are cut off.
  function Boundary(k: int, len: nat, blockSize: nat): nat {
    if k <= 0 then 0 else if k * blockSize < len then k * blockSize else len
  }

  // The part of the file that lies in the global blocks lo..hi, the file starting at block first.
  function Slice(e: PathElem, first: nat, lo: nat, hi: nat, blockSize: nat): (s: PathElem)
    requires lo <= hi
  {
    var start, end := Boundary(lo - first, e.totalLen, blockSize), Boundary(hi - first, e.totalLen, blockSize);
    BoundaryMono(lo - first, hi - first, e.totalLen, blockSize);
    e.(rangeStart := start, rangeLen := end - start)
  }

  function Slices(paths: seq<PathElem>, lo: nat, hi: nat, blockSize: nat): seq<PathElem>
    requires lo <= hi
  {
    if paths == [] then []
    else
      var init := paths[..|paths| - 1];
      var s := Slice(paths[|paths| - 1], SumBlocks(init, blockSize), lo, hi, blockSize);
      Slices(init, lo, hi, blockSize) + if s.rangeLen > 0 then [s] else []
  }

  lemma BoundaryMono(j: int, k: int, len: nat, blockSize: nat)
    requires j <= k
    ensures Boundary(j, len, blockSize) <= Boundary(k, len, blockSize)
  {
    MulLe(j, k, blockSize);
  }

  // The last block of a file may be partial: the boundary after k blocks is the end of the file
  // exactly when the file has no more than k blocks.
  lemma BlocksReachEnd(k: nat, len: nat, blockSize: nat)
    requires blockSize > 0
    ensures k >= FileBlocks(len, blockSize) ==> k * blockSize >= len
    ensures k < FileBlocks(len, blockSize) ==> k * blockSize < len
  {
    var q := len / blockSize;
    assert q * blockSize <= len < q * blockSize + blockSize;
    assert (q + 1) * blockSize == q * blockSize + blockSize;
    MulLe(k, q, blockSize);
    MulLe(q, k, blockSize);
    MulLe(q + 1, k, blockSize);
  }

  // ---- Contiguous ranges of blocks ----

  // A file that lies before the range, or behind it, contributes nothing.
  lemma SliceOutside(e: PathElem, first: nat, lo: nat, hi: nat, blockSize: nat)
    requires lo <= hi && blockSize > 0
    ensures hi <= first ==> Slice(e, first, lo, hi, blockSize).rangeLen == 0
    ensures first + FileBlocks(e.totalLen, blockSize) <= lo ==> Slice(e, first, lo, hi, blockSize).rangeLen == 0
  {
    var n := FileBlocks(e.totalLen, blockSize);
    if first + n <= lo {
      BlocksReachEnd(lo - first, e.totalLen, blockSize);
      BlocksReachEnd(hi - first, e.totalLen, blockSize);
    }
  }

  lemma {:induction false} NothingBehind(paths: seq<PathElem>, lo: nat, hi: nat, blockSize: nat)
    requires IsGlobal(paths) && lo <= hi && blockSize > 0 && SumBlocks(paths, blockSize) <= lo
    ensures Slices(paths, lo, hi, blockSize) == []
    decreases |paths|
  {
    if paths != [] {
      var init, e := paths[..|paths| - 1], paths[|paths| - 1];
      assert e in paths;
      NothingBehind(init, lo, hi, blockSize);
      SliceOutside(e, SumBlocks(init, blockSize), lo, hi, blockSize);
    }
  }

  // Two adjacent slices of one file hold the bytes of the joined slice.
  lemma SliceBytes(e: PathElem, first: nat, lo: nat, mid: nat, hi: nat, blockSize: nat)
    requires lo <= mid <= hi
    ensures ElemBytes(Slice(e, first, lo, mid, blockSize)) + ElemBytes(Slice(e, first, mid, hi, blockSize))
      == ElemBytes(Slice(e, first, lo, hi, blockSize))
  {
    BoundaryMono(lo - first, mid - first, e.totalLen, blockSize);
    BoundaryMono(mid - first, hi - first, e.totalLen, blockSize);
  }

  function SliceOf(e: PathElem, first: nat, lo: nat, hi: nat, blockSize: nat): seq<PathElem>
    requires lo <= hi
  {
    var s := Slice(e, first, lo, hi, blockSize);
    if s.rangeLen > 0 then [s] else []
  }

  lemma SliceOfBytes(e: PathElem, first: nat, lo: nat, hi: nat, blockSize: nat)
    requires lo <= hi
    ensures AllBytes(SliceOf(e, first, lo, hi, blockSize)) == ElemBytes(Slice(e, first, lo, hi, blockSize))
  {
    var s := Slice(e, first, lo, hi, blockSize);
    assert [s][..0] == [];
    assert AllBytes([s]) == [] + ElemBytes(s);
  }

  lemma SlicesSnocBytes(paths: seq<PathElem>, lo: nat, hi: nat, blockSize: nat)
    requires paths != [] && lo <= hi
    ensures var init, e := paths[..|paths| - 1], paths[|paths| - 1];
      AllBytes(Slices(paths, lo, hi, blockSize))
      == AllBytes(Slices(init, lo, hi, blockSize)) + ElemBytes(Slice(e, SumBlocks(init, blockSize), lo, hi, blockSize))
  {
    hide AllBytes, Slice, ElemBytes;
    var init, e := paths[..|paths| - 1], paths[|paths| - 1];
    SliceOfBytes(e, SumBlocks(init, blockSize), lo, hi, blockSize);
    AllBytesConcat(Slices(init, lo, hi, blockSize), SliceOf(e, SumBlocks(init, blockSize), lo, hi, blockSize));
  }

  lemma Regroup<T>(a: seq<T>, b: seq<T>, c: seq<T>, d: seq<T>)
    requires b == [] || c == []
    ensures (a + b) + (c + d) == (a + c) + (b + d)
  {
  }

  // Two adjacent ranges of blocks hold the bytes of the joined range, in order.
  lemma {:induction false} SlicesAdd(paths: seq<PathElem>, lo: nat, mid: nat, hi: nat, blockSize: nat)
    requires IsGlobal(paths) && lo <= mid <= hi && blockSize > 0
    ensures AllBytes(Slices(paths, lo, mid, blockSize)) + AllBytes(Slices(paths, mid, hi, blockSize))
      == AllBytes(Slices(paths, lo, hi, blockSize))
    decreases |paths|
  {
    if paths != [] {
      hide Slices, Slice, FileBlocks, AllBytes, SumBlocks;
      var init, e := paths[..|paths| - 1], paths[|paths| - 1];
      var first := SumBlocks(init, blockSize);
      SlicesAdd(init, lo, mid, hi, blockSize);
      SliceBytes(e, first, lo, mid, hi, blockSize);
      SlicesSnocBytes(paths, lo, mid, blockSize);
      SlicesSnocBytes(paths, mid, hi, blockSize);
      SlicesSnocBytes(paths, lo, hi, blockSize);
      if mid <= first {
        SliceOutside(e, first, lo, mid, blockSize);
      } else {
        NothingBehind(init, mid, hi, blockSize);
        AllBytesLength([]);
      }
      Regroup(AllBytes(Slices(init, lo, mid, blockSize)), ElemBytes(Slice(e, first, lo, mid, blockSize)),
              AllBytes(Slices(init, mid, hi, blockSize)), ElemBytes(Slice(e, first, mid, hi, blockSize)));
    } else {
      assert Slices(paths, lo, mid, blockSize) == [] && Slices(paths, mid, hi, blockSize) == [];
    }
  }

  lemma WholeSlice(e: PathElem, first: nat, hi: nat, blockSize: nat)
    requires e == Whole(e) && blockSize > 0 && first + FileBlocks(e.totalLen, blockSize) <= hi
    ensures Slice(e, first, 0, hi, blockSize) == e
  {
    BlocksReachEnd(hi - first, e.totalLen, blockSize);
  }

  lemma {:induction false} SlicesAll(paths: seq<PathElem>, hi: nat, blockSize: nat)
    requires IsGlobal(paths) && blockSize > 0 && SumBlocks(paths, blockSize) <= hi
    ensures AllBytes(Slices(paths, 0, hi, blockSize)) == AllBytes(paths)
    decreases |paths|
  {
    if paths != [] {
      hide Slices, Slice, FileBlocks, ElemBytes;
      var init, e := paths[..|paths| - 1], paths[|paths| - 1];
      assert e in paths;
      SlicesAll(init, hi, blockSize);
      SlicesSnocBytes(paths, 0, hi, blockSize);
      WholeSlice(e, SumBlocks(init, blockSize), hi, blockSize);
    } else {
      assert Slices(paths, 0, hi, blockSize) == [];
    }
  }

  // ---- The contiguous split ----

  function StandardBlocks(total: nat, threads: nat): nat
    requires threads > 0
  {
    total / threads
  }

  lemma StandardFits(total: nat, threads: nat)
    requires threads > 0
    ensures StandardBlocks(total, threads) * (threads - 1) <= total
  {
    var standard := StandardBlocks(total, threads);
    assert standard * threads <= total;
    assert standard * (threads - 1) == standard * threads - standard;
  }

  function WorkerBlocks(total: nat, rank: nat, threads: nat): nat
    requires threads > 0
  {
    var standard := StandardBlocks(total, threads);
    StandardFits(total, threads);
    if rank == threads - 1 && total % threads != 0 then
      total - standard * (threads - 1)
    else standard
  }

  function WorkerStart(total: nat, rank: nat, threads: nat): nat
    requires threads > 0
  {
    rank * StandardBlocks(total, threads)
  }

  // Every worker starts where the one before it ends, and the last one ends with the last block.
  lemma WorkersTile(total: nat, rank: nat, threads: nat)
    requires rank < threads
    ensures WorkerStart(total, 0, threads) == 0
    ensures WorkerStart(total, rank, threads) + WorkerBlocks(total, rank, threads)
      == if rank == threads - 1 then total else WorkerStart(total, rank + 1, threads)
    ensures StandardBlocks(total, threads) <= WorkerBlocks(total, rank, threads)
      <= StandardBlocks(total, threads) + threads - 1
  {
    var standard := StandardBlocks(total, threads);
    assert total == threads * standard + total % threads;
    assert (threads - 1) * standard + standard == threads * standard;
    assert rank * standard + standard == (rank + 1) * standard;
  }

  function WorkerSlices(paths: seq<PathElem>, rank: nat, threads: nat, blockSize: nat): seq<PathElem>
    requires threads > 0
  {
    var total := SumBlocks(paths, blockSize);
    var start := WorkerStart(total, rank, threads);
    Slices(paths, start, start + WorkerBlocks(total, rank, threads), blockSize)
  }

  // The bytes given to the first workers, in rank order.
  function GivenBytes(paths: seq<PathElem>, ranks: nat, threads: nat, blockSize: nat): seq<FileByte>
    requires ranks <= threads && threads > 0
  {
    if ranks == 0 then []
    else GivenBytes(paths, ranks - 1, threads, blockSize) + AllBytes(WorkerSlices(paths, ranks - 1, threads, blockSize))
  }

  lemma {:induction false} GivenSoFar(paths: seq<PathElem>, ranks: nat, threads: nat, blockSize: nat)
    requires IsGlobal(paths) && ranks < threads && blockSize > 0
    ensures GivenBytes(paths, ranks, threads, blockSize)
      == AllBytes(Slices(paths, 0, WorkerStart(SumBlocks(paths, blockSize), ranks, threads), blockSize))
  {
    hide Slices, AllBytes, WorkerBlocks, WorkerStart, SumBlocks;
    var total := SumBlocks(paths, blockSize);
    WorkersTile(total, ranks, threads);
    if ranks > 0 {
      GivenSoFar(paths, ranks - 1, threads, blockSize);
      WorkersTile(total, ranks - 1, threads);
      SlicesAdd(paths, 0, WorkerStart(total, ranks - 1, threads), WorkerStart(total, ranks, threads), blockSize);
    } else {
      NoSlices(paths, 0, blockSize);
    }
  }

  lemma {:induction false} NoSlices(paths: seq<PathElem>, at: nat, blockSize: nat)
    ensures Slices(paths, at, at, blockSize) == [] && AllBytes(Slices(paths, at, at, blockSize)) == []
  {
    if paths != [] { NoSlices(paths[..|paths| - 1], at, blockSize); }
  }

  // The ranges of all ranks, read in rank order, are exactly the bytes of all files in list order:
  // every byte of every file is given to exactly one worker, exactly once.
  lemma SharedSplitIsExact(paths: seq<PathElem>, threads: nat, blockSize: nat)
    requires IsGlobal(paths) && threads > 0 && blockSize > 0
    ensures GivenBytes(paths, threads, threads, blockSize) == AllBytes(paths)
  {
    hide Slices, AllBytes, WorkerBlocks, WorkerStart, SumBlocks;
    var total := SumBlocks(paths, blockSize);
    GivenSoFar(paths, threads - 1, threads, blockSize);
    WorkersTile(total, threads - 1, threads);
    SlicesAdd(paths, 0, WorkerStart(total, threads - 1, threads), total, blockSize);
    SlicesAll(paths, total, blockSize);
  }

  // ---- The shape of a slice ----

  lemma MulMod(k: nat, blockSize: nat)
    requires blockSize > 0
    ensures (k * blockSize) % blockSize == 0
  {
    DivUnique(k * blockSize, blockSize, k);
  }

  lemma {:induction false} SlicesAligned(paths: seq<PathElem>, lo: nat, hi: nat, blockSize: nat)
    requires lo <= hi && blockSize > 0
    ensures forall s <- Slices(paths, lo, hi, blockSize) ::
      s.rangeStart % blockSize == 0 && s.rangeLen > 0 && s.rangeStart + s.rangeLen <= s.totalLen
    decreases |paths|
  {
    if paths != [] {
      var init, e := paths[..|paths| - 1], paths[|paths| - 1];
      SlicesAligned(init, lo, hi, blockSize);
      var first := SumBlocks(init, blockSize);
      if lo > first { MulMod(lo - first, blockSize); }
    }
  }

  function Clamp(k: int, n: nat): nat {
    if k <= 0 then 0 else if k < n then k else n
  }

  lemma BlocksLeft(len: nat, j: nat, blockSize: nat)
    requires blockSize > 0 && j * blockSize <= len
    ensures FileBlocks(len - j * blockSize, blockSize) == FileBlocks(len, blockSize) - j
  {
    DivPlus(len - j * blockSize, j, blockSize);
    var d := (len - j * blockSize) / blockSize;
    assert (d + j) * blockSize == d * blockSize + j * blockSize;
  }

  lemma FullBlocks(k: nat, blockSize: nat)
    requires blockSize > 0
    ensures FileBlocks(k * blockSize, blockSize) == k
  {
    DivUnique(k * blockSize, blockSize, k);
  }

  // The block count of a slice is the number of the file's blocks inside the range.
  lemma SliceBlocks(e: PathElem, first: nat, lo: nat, hi: nat, blockSize: nat)
    requires lo <= hi && blockSize > 0
    ensures var n := FileBlocks(e.totalLen, blockSize);
      FileBlocks(Slice(e, first, lo, hi, blockSize).rangeLen, blockSize) == Clamp(hi - first, n) - Clamp(lo - first, n)
  {
    hide FileBlocks;
    var n, len := FileBlocks(e.totalLen, blockSize), e.totalLen;
    var j, k := Clamp(lo - first, n), Clamp(hi - first, n);
    BoundaryClamp(lo - first, len, blockSize);
    BoundaryClamp(hi - first, len, blockSize);
    if j == n {
      FullBlocks(0, blockSize);
    } else {
      BlocksReachEnd(j, len, blockSize);
      if k == n {
        BlocksLeft(len, j, blockSize);
      } else {
        BlocksReachEnd(k, len, blockSize);
        assert k * blockSize - j * blockSize == (k - j) * blockSize;
        FullBlocks(k - j, blockSize);
      }
    }
  }

  lemma BoundaryClamp(k: int, len: nat, blockSize: nat)
    requires blockSize > 0
    ensures Boundary(k, len, blockSize) == Boundary(Clamp(k, FileBlocks(len, blockSize)), len, blockSize)
    ensures k >= FileBlocks(len, blockSize) ==> Boundary(k, len, blockSize) == len
  {
    var n := FileBlocks(len, blockSize);
    if k >= n {
      BlocksReachEnd(k, len, blockSize);
      BlocksReachEnd(n, len, blockSize);
    }
  }

  lemma SumBlocksSnoc(head: seq<PathElem>, e: PathElem, blockSize: nat)
    ensures SumBlocks(head + [e], blockSize) == SumBlocks(head, blockSize) + FileBlocks(e.rangeLen, blockSize)
  {
    assert (head + [e])[..|head|] == head;
  }

  lemma SlicesSnocBlocks(paths: seq<PathElem>, lo: nat, hi: nat, blockSize: nat)
    requires paths != [] && lo <= hi && blockSize > 0
    ensures var init, e := paths[..|paths| - 1], paths[|paths| - 1];
      SumBlocks(Slices(paths, lo, hi, blockSize), blockSize) == SumBlocks(Slices(init, lo, hi, blockSize), blockSize)
        + FileBlocks(Slice(e, SumBlocks(init, blockSize), lo, hi, blockSize).rangeLen, blockSize)
  {
    hide Slice, FileBlocks, SumBlocks;
    var init, e := paths[..|paths| - 1], paths[|paths| - 1];
    var head, s := Slices(init, lo, hi, blockSize), Slice(e, SumBlocks(init, blockSize), lo, hi, blockSize);
    SumBlocksSnoc(head, s, blockSize);
    FullBlocks(0, blockSize);
    assert head + [] == head;
  }

  // A worker's block counter is the sum of the blocks of its slices.
  lemma {:induction false} SlicesBlocks(paths: seq<PathElem>, lo: nat, hi: nat, blockSize: nat)
    requires IsGlobal(paths) && lo <= hi && blockSize > 0
    ensures SumBlocks(Slices(paths, lo, hi, blockSize), blockSize)
      == Clamp(hi, SumBlocks(paths, blockSize)) - Clamp(lo, SumBlocks(paths, blockSize))
    decreases |paths|
  {
    if paths != [] {
      var init, e := paths[..|paths| - 1], paths[|paths| - 1];
      assert e in paths && SumBlocks(paths, blockSize) == SumBlocks(init, blockSize) + FileBlocks(e.rangeLen, blockSize);
      hide Slice, Slices, FileBlocks, SumBlocks;
      SlicesBlocks(init, lo, hi, blockSize);
      SliceBlocks(e, SumBlocks(init, blockSize), lo, hi, blockSize);
      SlicesSnocBlocks(paths, lo, hi, blockSize);
    }
  }

  // A worker's block counter is the number of blocks of its ranges, and its ranges start on block
  // boundaries.
  lemma WorkerCounterAgrees(paths: seq<PathElem>, rank: nat, threads: nat, blockSize: nat)
    requires IsGlobal(paths) && rank < threads && blockSize > 0
    ensures SumBlocks(WorkerSlices(paths, rank, threads, blockSize), blockSize)
      == WorkerBlocks(SumBlocks(paths, blockSize), rank, threads)
    ensures forall s <- WorkerSlices(paths, rank, threads, blockSize) ::
      s.rangeStart % blockSize == 0 && s.rangeLen > 0 && s.rangeStart + s.rangeLen <= s.totalLen
  {
    hide Slices, SumBlocks, WorkerStart, WorkerBlocks;
    var total := SumBlocks(paths, blockSize);
    var start, mine := WorkerStart(total, rank, threads), WorkerBlocks(total, rank, threads);
    StartsAreInRange(total, rank, threads);
    SlicesBlocks(paths, start, start + mine, blockSize);
    SlicesAligned(paths, start, start + mine, blockSize);
  }

  lemma StartsAreInRange(total: nat, rank: nat, threads: nat)
    requires rank < threads
    ensures WorkerStart(total, rank, threads) + WorkerBlocks(total, rank, threads) <= total
    decreases threads - rank
  {
    hide WorkerStart, WorkerBlocks;
    WorkersTile(total, rank, threads);
    if rank < threads - 1 { StartsAreInRange(total, rank + 1, threads); }
  }

  // ---- Ranks across services ----

  // The rank offset the coordinator sends to a service when the services share their paths.
  function RemoteRankOffset(pathShared: bool, rankOffset: nat, serviceRank: nat, numThreads: nat): nat {
    if pathShared then rankOffset + serviceRank * numThreads else rankOffset
  }

  // The workers of all services have the ranks from the offset on: every such rank is held by a
  // worker, and a worker's rank tells its service and its place there.
  lemma RankIsTaken(rankOffset: nat, rank: nat, services: nat, numThreads: nat)
    requires numThreads > 0 && rankOffset <= rank < rankOffset + services * numThreads
    ensures var service, local := (rank - rankOffset) / numThreads, (rank - rankOffset) % numThreads;
      service < services && rank == RemoteRankOffset(true, rankOffset, service, numThreads) + local
  {
    var service := (rank - rankOffset) / numThreads;
    assert service * numThreads <= rank - rankOffset;
    MulLtCancel(service, services, numThreads);
  }

  lemma RankIsUnique(rankOffset: nat, services: nat, numThreads: nat, service: nat, local: nat)
    requires service < services && local < numThreads
    ensures var rank := RemoteRankOffset(true, rankOffset, service, numThreads) + local;
      && rankOffset <= rank < rankOffset + services * numThreads
      && service == (rank - rankOffset) / numThreads && local == (rank - rankOffset) % numThreads
  {
    MulLe(service + 1, services, numThreads);
    assert (service + 1) * numThreads == service * numThreads + numThreads;
    DivUnique(service * numThreads + local, numThreads, service);
  }

  // ---- Dealing out elements one by one ----

  // The rank whose turn it is for the element at index i.
  function Turn(i: nat, threads: nat): (rank: nat)
    requires threads > 0
    ensures rank < threads
  {
    i % threads
  }

  // The elements whose index leaves the remainder rank.
  function Dealt<T>(s: seq<T>, rank: nat, threads: nat): seq<T>
    requires threads > 0
  {
    if s == [] then []
    else Dealt(s[..|s| - 1], rank, threads) + if Turn(|s| - 1, threads) == rank then [s[|s| - 1]] else []
  }

  // How often the first ranks hold x, all together.
  function CountDealt<T(==)>(s: seq<T>, x: T, ranks: nat, threads: nat): nat
    requires threads > 0
  {
    if ranks == 0 then 0 else CountDealt(s, x, ranks - 1, threads) + Count(Dealt(s, ranks - 1, threads), x)
  }

  lemma DealtSnoc<T>(init: seq<T>, e: T, rank: nat, threads: nat)
    requires threads > 0
    ensures Dealt(init + [e], rank, threads)
      == Dealt(init, rank, threads) + if Turn(|init|, threads) == rank then [e] else []
  {
    assert (init + [e])[..|init|] == init;
  }

  lemma {:induction false} NoneDealt<T>(x: T, ranks: nat, threads: nat)
    requires threads > 0
    ensures CountDealt([], x, ranks, threads) == 0
  {
    if ranks > 0 { NoneDealt(x, ranks - 1, threads); }
  }

  lemma CountSnoc<T>(init: seq<T>, e: T, x: T, rank: nat, threads: nat)
    requires threads > 0
    ensures Count(Dealt(init + [e], rank, threads), x) == Count(Dealt(init, rank, threads), x)
      + if Turn(|init|, threads) == rank then Count([e], x) else 0
  {
    hide Dealt, Turn, Count;
    DealtSnoc(init, e, rank, threads);
    CountConcat(Dealt(init, rank, threads), [e], x);
    CountConcat(Dealt(init, rank, threads), [], x);
  }

  lemma {:induction false} OneMoreDealt<T>(init: seq<T>, e: T, x: T, ranks: nat, threads: nat)
    requires threads > 0
    ensures CountDealt(init + [e], x, ranks, threads) == CountDealt(init, x, ranks, threads)
      + if Turn(|init|, threads) < ranks then Count([e], x) else 0
    decreases ranks
  {
    hide Dealt, Turn, Count;
    if ranks > 0 {
      OneMoreDealt(init, e, x, ranks - 1, threads);
      CountSnoc(init, e, x, ranks - 1, threads);
    }
  }

  // Every element is dealt to exactly one rank: the ranks together hold every value as often as
  // the list does.
  lemma {:induction false} DealIsExact<T>(s: seq<T>, x: T, threads: nat)
    requires threads > 0
    ensures CountDealt(s, x, threads, threads) == Count(s, x)
    decreases |s|
  {
    hide CountDealt, Turn, Count;
    if s == [] {
      NoneDealt(x, threads, threads);
      CountConcat<T>([], [], x);
    } else {
      var init, e := s[..|s| - 1], s[|s| - 1];
      OneMoreDealt(init, e, x, threads, threads);
      DealIsExact(init, x, threads);
      assert s == init + [e];
      CountConcat(init, [e], x);
    }
  }

  // The ranks' shares differ by at most one element.
  lemma {:induction false} DealIsFair<T>(s: seq<T>, rank: nat, threads: nat)
    requires rank < threads
    ensures |Dealt(s, rank, threads)| == |s| / threads + if rank < |s| % threads then 1 else 0
    decreases |s|
  {
    if s != [] {
      DealIsFair(s[..|s| - 1], rank, threads);
      NextRemainder(|s| - 1, threads);
    } else {
      DivUnique(0, threads, 0);
    }
  }

  lemma NextRemainder(n: nat, d: nat)
    requires d > 0
    ensures n % d == d - 1 ==> (n + 1) / d == n / d + 1 && (n + 1) % d == 0
    ensures n % d != d - 1 ==> (n + 1) / d == n / d && (n + 1) % d == n % d + 1
  {
    var q := n / d;
    assert n == q * d + n % d && (q + 1) * d == q * d + d;
    DivUnique(n + 1, d, if n % d == d - 1 then q + 1 else q);
  }

  // Every n-th element, starting with the k-th.
  function EveryNth<T>(s: seq<T>, k: nat, n: nat): seq<T>
    requires n > 0
    decreases |s| - k
  {
    if k >= |s| then [] else [s[k]] + EveryNth(s, k + n, n)
  }

  lemma {:induction false} EveryNthSnoc<T>(s: seq<T>, k: nat, n: nat)
    requires n > 0 && s != [] && k < |s| + n
    ensures EveryNth(s, k, n) == EveryNth(s[..|s| - 1], k, n)
      + if k <= |s| - 1 && (|s| - 1 - k) % n == 0 then [s[|s| - 1]] else []
    decreases |s| - k
  {
    if k < |s| {
      DivPlus(|s| - 1 - k - n, 1, n);
      EveryNthSnoc(s, k + n, n);
      if k == |s| - 1 {
        DivUnique(0, n, 0);
      } else if k + n > |s| - 1 {
        DivUnique(|s| - 1 - k, n, 0);
      }
    }
  }

  // Taking every n-th element is the same as dealing the elements out one by one.
  lemma {:induction false} StrideIsDeal<T>(s: seq<T>, rank: nat, threads: nat)
    requires rank < threads
    ensures EveryNth(s, rank, threads) == Dealt(s, rank, threads)
    decreases |s|
  {
    if s != [] {
      var init, e := s[..|s| - 1], s[|s| - 1];
      assert s == init + [e];
      StrideIsDeal(init, rank, threads);
      EveryNthSnoc(s, rank, threads);
      SameRemainder(|s| - 1, rank, threads);
      DealtSnoc(init, e, rank, threads);
      hide Dealt, EveryNth;
    }
  }

  lemma SameRemainder(i: nat, rank: nat, threads: nat)
    requires rank < threads
    ensures i % threads == rank <==> rank <= i && (i - rank) % threads == 0
  {
    var q := i / threads;
    assert i == q * threads + i % threads;
    if i % threads == rank {
      DivUnique(i - rank, threads, q);
    }
    if rank <= i && (i - rank) % threads == 0 {
      var d := (i - rank) / threads;
      assert i - rank == d * threads;
      DivUnique(i, threads, d);
    }
  }

  // ---- Single blocks ----

  function BlockOf(e: PathElem, i: nat, blockSize: nat): PathElem {
    var offset := i * blockSize;
    var left := if offset <= e.totalLen then e.totalLen - offset else 0;
    e.(rangeStart := offset, rangeLen := if left < blockSize then left else blockSize)
  }

  // The first n blocks of a file.
  function FileBlockList(e: PathElem, n: nat, blockSize: nat): (blocks: seq<PathElem>)
    ensures |blocks| == n
  {
    if n == 0 then [] else FileBlockList(e, n - 1, blockSize) + [BlockOf(e, n - 1, blockSize)]
  }

  function BlockList(paths: seq<PathElem>, blockSize: nat): seq<PathElem> {
    if paths == [] then []
    else
      var e := paths[|paths| - 1];
      BlockList(paths[..|paths| - 1], blockSize) + FileBlockList(e, FileBlocks(e.totalLen, blockSize), blockSize)
  }

  lemma {:induction false} FileBlockBytes(e: PathElem, n: nat, blockSize: nat)
    requires blockSize > 0 && n <= FileBlocks(e.totalLen, blockSize)
    ensures AllBytes(FileBlockList(e, n, blockSize)) == ElemBytes(Slice(e, 0, 0, n, blockSize))
  {
    if n > 0 {
      hide FileBlocks;
      FileBlockBytes(e, n - 1, blockSize);
      SliceBytes(e, 0, 0, n - 1, n, blockSize);
      var head, last := FileBlockList(e, n - 1, blockSize), BlockOf(e, n - 1, blockSize);
      assert (head + [last])[..|head|] == head;
      BlocksReachEnd(n - 1, e.totalLen, blockSize);
      assert n * blockSize == (n - 1) * blockSize + blockSize;
      assert Slice(e, 0, n - 1, n, blockSize) == last;
    }
  }

  // Cutting all files into single blocks keeps every byte in place, and the block count.
  lemma {:induction false} BlockListIsExact(paths: seq<PathElem>, blockSize: nat)
    requires IsGlobal(paths) && blockSize > 0
    ensures AllBytes(BlockList(paths, blockSize)) == AllBytes(paths)
    ensures |BlockList(paths, blockSize)| == SumBlocks(paths, blockSize)
    decreases |paths|
  {
    if paths != [] {
      hide FileBlocks;
      var init, e := paths[..|paths| - 1], paths[|paths| - 1];
      assert e in paths;
      var n := FileBlocks(e.totalLen, blockSize);
      BlockListIsExact(init, blockSize);
      AllBytesConcat(BlockList(init, blockSize), FileBlockList(e, n, blockSize));
      FileBlockBytes(e, n, blockSize);
      BlocksReachEnd(n, e.totalLen, blockSize);
      assert Slice(e, 0, 0, n, blockSize) == e;
    }
  }

  // How often the blocks of the first ranks hold the byte b, all together.
  function CountDealtBytes(blocks: seq<PathElem>, b: FileByte, ranks: nat, threads: nat): nat
    requires threads > 0
  {
    if ranks == 0 then 0
    else CountDealtBytes(blocks, b, ranks - 1, threads) + Count(AllBytes(Dealt(blocks, ranks - 1, threads)), b)
  }

  lemma {:induction false} NoBytesDealt(b: FileByte, ranks: nat, threads: nat)
    requires threads > 0
    ensures CountDealtBytes([], b, ranks, threads) == 0
  {
    if ranks > 0 { NoBytesDealt(b, ranks - 1, threads); }
  }

  lemma AllBytesSnoc(head: seq<PathElem>, e: PathElem)
    ensures AllBytes(head + [e]) == AllBytes(head) + ElemBytes(e)
  {
    assert (head + [e])[..|head|] == head;
  }

  lemma DealtBytesSnoc(init: seq<PathElem>, x: PathElem, rank: nat, threads: nat)
    requires threads > 0
    ensures AllBytes(Dealt(init + [x], rank, threads))
      == AllBytes(Dealt(init, rank, threads)) + if Turn(|init|, threads) == rank then ElemBytes(x) else []
  {
    hide Dealt, Turn, AllBytes;
    DealtSnoc(init, x, rank, threads);
    var head := Dealt(init, rank, threads);
    AllBytesSnoc(head, x);
    assert head + [] == head;
  }

  lemma CountBytesSnoc(init: seq<PathElem>, e: PathElem, b: FileByte, rank: nat, threads: nat)
    requires threads > 0
    ensures Count(AllBytes(Dealt(init + [e], rank, threads)), b) == Count(AllBytes(Dealt(init, rank, threads)), b)
      + if Turn(|init|, threads) == rank then Count(ElemBytes(e), b) else 0
  {
    hide Dealt, Turn, Count, AllBytes, ElemBytes;
    DealtBytesSnoc(init, e, rank, threads);
    CountConcat(AllBytes(Dealt(init, rank, threads)), ElemBytes(e), b);
    CountConcat(AllBytes(Dealt(init, rank, threads)), [], b);
  }

  lemma {:induction false} OneMoreBlockDealt(init: seq<PathElem>, e: PathElem, b: FileByte, ranks: nat, threads: nat)
    requires threads > 0
    ensures CountDealtBytes(init + [e], b, ranks, threads) == CountDealtBytes(init, b, ranks, threads)
      + if Turn(|init|, threads) < ranks then Count(ElemBytes(e), b) else 0
    decreases ranks
  {
    hide Dealt, Turn, Count, AllBytes, ElemBytes;
    if ranks > 0 {
      OneMoreBlockDealt(init, e, b, ranks - 1, threads);
      CountBytesSnoc(init, e, b, ranks - 1, threads);
    }
  }

  lemma {:induction false} DealtBytesExact(s: seq<PathElem>, b: FileByte, threads: nat)
    requires threads > 0
    ensures CountDealtBytes(s, b, threads, threads) == Count(AllBytes(s), b)
    decreases |s|
  {
    hide CountDealtBytes, Turn, Count, ElemBytes;
    if s == [] {
      NoBytesDealt(b, threads, threads);
      CountConcat<FileByte>([], [], b);
    } else {
      hide AllBytes;
      var init, e := s[..|s| - 1], s[|s| - 1];
      OneMoreBlockDealt(init, e, b, threads, threads);
      DealtBytesExact(init, b, threads);
      assert s == init + [e];
      AllBytesSnoc(init, e);
      CountConcat(AllBytes(init), ElemBytes(e), b);
    }
  }

  // Round-robin gives every byte of every file to exactly one rank, the same bytes and the same
  // number of blocks in all as the contiguous split, and shares that differ by at most one block.
  lemma RoundRobinIsExact(paths: seq<PathElem>, b: FileByte, k: nat, threads: nat, blockSize: nat)
    requires IsGlobal(paths) && k < threads && blockSize > 0
    ensures CountDealtBytes(BlockList(paths, blockSize), b, threads, threads)
      == Count(GivenBytes(paths, threads, threads, blockSize), b)
    ensures |BlockList(paths, blockSize)| == SumBlocks(paths, blockSize)
    ensures |Dealt(BlockList(paths, blockSize), k, threads)| - SumBlocks(paths, blockSize) / threads in {0, 1}
  {
    var blocks := BlockList(paths, blockSize);
    BlockListIsExact(paths, blockSize);
    DealtBytesExact(blocks, b, threads);
    SharedSplitIsExact(paths, threads, blockSize);
    DealIsFair(blocks, k, threads);
  }

  // ---- The workers' counters ----

  // What the first workers count in the contiguous split, all together.
  function GivenBlockCount(total: nat, ranks: nat, threads: nat): nat
    requires ranks <= threads && threads > 0
  {
    if ranks == 0 then 0 else GivenBlockCount(total, ranks - 1, threads) + WorkerBlocks(total, ranks - 1, threads)
  }

  function GivenByteCount(paths: seq<PathElem>, ranks: nat, threads: nat, blockSize: nat): nat
    requires ranks <= threads && threads > 0
  {
    if ranks == 0 then 0
    else GivenByteCount(paths, ranks - 1, threads, blockSize) + SumBytes(WorkerSlices(paths, ranks - 1, threads, blockSize))
  }

  lemma {:induction false} BlockCountSoFar(total: nat, ranks: nat, threads: nat)
    requires ranks <= threads && threads > 0
    ensures GivenBlockCount(total, ranks, threads) == if ranks == threads then total else WorkerStart(total, ranks, threads)
    decreases ranks
  {
    hide WorkerStart, WorkerBlocks;
    if ranks > 0 {
      BlockCountSoFar(total, ranks - 1, threads);
      WorkersTile(total, ranks - 1, threads);
    }
    WorkersTile(total, 0, threads);
  }

  lemma {:induction false} ByteCountSoFar(paths: seq<PathElem>, ranks: nat, threads: nat, blockSize: nat)
    requires ranks <= threads && threads > 0
    ensures GivenByteCount(paths, ranks, threads, blockSize) == |GivenBytes(paths, ranks, threads, blockSize)|
    decreases ranks
  {
    hide WorkerSlices, AllBytes, SumBytes;
    if ranks > 0 {
      ByteCountSoFar(paths, ranks - 1, threads, blockSize);
      AllBytesLength(WorkerSlices(paths, ranks - 1, threads, blockSize));
    }
  }

  // The same for round-robin, where every range is a block.
  function DealtBlockCount(blocks: seq<PathElem>, ranks: nat, threads: nat): nat
    requires threads > 0
  {
    if ranks == 0 then 0 else DealtBlockCount(blocks, ranks - 1, threads) + |Dealt(blocks, ranks - 1, threads)|
  }

  function DealtByteCount(blocks: seq<PathElem>, ranks: nat, threads: nat): nat
    requires threads > 0
  {
    if ranks == 0 then 0 else DealtByteCount(blocks, ranks - 1, threads) + SumBytes(Dealt(blocks, ranks - 1, threads))
  }

  lemma SumBytesSnoc(s: seq<PathElem>, e: PathElem)
    ensures SumBytes(s + [e]) == SumBytes(s) + e.rangeLen && |s + [e]| == |s| + 1
  {
    assert (s + [e])[..|s|] == s;
  }

  lemma {:induction false} OneMoreCounted(init: seq<PathElem>, e: PathElem, ranks: nat, threads: nat)
    requires threads > 0
    ensures var turn := Turn(|init|, threads) < ranks;
      && DealtBlockCount(init + [e], ranks, threads) == DealtBlockCount(init, ranks, threads) + (if turn then 1 else 0)
      && DealtByteCount(init + [e], ranks, threads) == DealtByteCount(init, ranks, threads) + if turn then e.rangeLen else 0
    decreases ranks
  {
    hide Dealt, Turn, SumBytes;
    if ranks > 0 {
      OneMoreCounted(init, e, ranks - 1, threads);
      DealtSnoc(init, e, ranks - 1, threads);
      var head := Dealt(init, ranks - 1, threads);
      SumBytesSnoc(head, e);
      assert head + [] == head;
    }
  }

  lemma {:induction false} NothingCounted(ranks: nat, threads: nat)
    requires threads > 0
    ensures DealtBlockCount([], ranks, threads) == 0 && DealtByteCount([], ranks, threads) == 0
  {
    if ranks > 0 { NothingCounted(ranks - 1, threads); }
  }

  lemma {:induction false} AllCounted(blocks: seq<PathElem>, threads: nat)
    requires threads > 0
    ensures DealtBlockCount(blocks, threads, threads) == |blocks| && DealtByteCount(blocks, threads, threads) == SumBytes(blocks)
    decreases |blocks|
  {
    if blocks == [] {
      NothingCounted(threads, threads);
    } else {
      hide DealtBlockCount, DealtByteCount, Turn;
      var init, e := blocks[..|blocks| - 1], blocks[|blocks| - 1];
      assert blocks == init + [e];
      AllCounted(init, threads);
      OneMoreCounted(init, e, threads, threads);
    }
  }

  // The workers' block and byte counters sum up to those of the whole list, in both splits.
  lemma CountersAddUp(paths: seq<PathElem>, threads: nat, blockSize: nat)
    requires IsGlobal(paths) && threads > 0 && blockSize > 0
    ensures GivenBlockCount(SumBlocks(paths, blockSize), threads, threads) == SumBlocks(paths, blockSize)
    ensures GivenByteCount(paths, threads, threads, blockSize) == SumBytes(paths)
    ensures DealtBlockCount(BlockList(paths, blockSize), threads, threads) == SumBlocks(paths, blockSize)
    ensures DealtByteCount(BlockList(paths, blockSize), threads, threads) == SumBytes(paths)
  {
    hide GivenBlockCount, GivenByteCount, GivenBytes, DealtBlockCount, DealtByteCount, BlockList, SumBlocks, SumBytes, AllBytes;
    BlockCountSoFar(SumBlocks(paths, blockSize), threads, threads);
    ByteCountSoFar(paths, threads, threads, blockSize);
    SharedSplitIsExact(paths, threads, blockSize);
    AllBytesLength(paths);
    BlockListIsExact(paths, blockSize);
    AllCounted(BlockList(paths, blockSize), threads);
    AllBytesLength(BlockList(paths, blockSize));
  }

  // ---- Order does not matter for the totals ----

  lemma {:induction false} SumsConcat(a: seq<PathElem>, b: seq<PathElem>, blockSize: nat)
    ensures SumBlocks(a + b, blockSize) == SumBlocks(a, blockSize) + SumBlocks(b, blockSize)
    ensures SumBytes(a + b) == SumBytes(a) + SumBytes(b)
    decreases |b|
  {
    if b == [] {
      assert a + b == a;
    } else {
      hide FileBlocks;
      SumsConcat(a, b[..|b| - 1], blockSize);
      assert (a + b)[..|a + b| - 1] == a + b[..|b| - 1];
    }
  }

  lemma SumsOne(e: PathElem, blockSize: nat)
    ensures SumBlocks([e], blockSize) == FileBlocks(e.rangeLen, blockSize) && SumBytes([e]) == e.rangeLen
  {
    assert [e][..0] == [];
  }

  lemma RemoveOne(s: seq<PathElem>, i: nat, blockSize: nat)
    requires i < |s|
    ensures var rest := s[..i] + s[i + 1..];
      && SumBlocks(s, blockSize) == SumBlocks(rest, blockSize) + FileBlocks(s[i].rangeLen, blockSize)
      && SumBytes(s) == SumBytes(rest) + s[i].rangeLen
      && multiset(s) == multiset(rest) + multiset{s[i]}
  {
    hide SumBlocks, SumBytes, FileBlocks;
    var a, b := s[..i], s[i + 1..];
    assert s == a + [s[i]] + b;
    SumsOne(s[i], blockSize);
    SumsConcat(a, [s[i]], blockSize);
    SumsConcat(a + [s[i]], b, blockSize);
    SumsConcat(a, b, blockSize);
  }

  lemma CancelOne<T>(a: multiset<T>, b: multiset<T>, x: T)
    requires a + multiset{x} == b + multiset{x}
    ensures a == b
  {
    assert a + multiset{x} - multiset{x} == a;
    assert b + multiset{x} - multiset{x} == b;
  }

  lemma SameFirst(a: seq<PathElem>, b: seq<PathElem>) returns (i: nat)
    requires a != [] && multiset(a) == multiset(b)
    ensures i < |b| && b[i] == a[0]
  {
    assert a[0] in multiset(a);
    assert a[0] in multiset(b);
    i :| 0 <= i < |b| && b[i] == a[0];
  }

  lemma {:induction false} TotalsIgnoreOrder(a: seq<PathElem>, b: seq<PathElem>, blockSize: nat)
    requires multiset(a) == multiset(b)
    ensures |a| == |b| && SumBlocks(a, blockSize) == SumBlocks(b, blockSize) && SumBytes(a) == SumBytes(b)
    decreases |a|
  {
    hide SumBlocks, SumBytes, FileBlocks;
    if a == [] {
      assert |b| == |multiset(b)| == |multiset(a)| == 0;
      assert a == b;
    } else {
      var i := SameFirst(a, b);
      RemoveOne(a, 0, blockSize);
      RemoveOne(b, i, blockSize);
      var restA, restB := a[..0] + a[0 + 1..], b[..i] + b[i + 1..];
      CancelOne(multiset(restA), multiset(restB), a[0]);
      TotalsIgnoreOrder(restA, restB, blockSize);
    }
  }
}
