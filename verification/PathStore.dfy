/**
 * The store of a run's files and the three ways a worker takes its part of it: whole files in
 * strides, a contiguous range of blocks, or single blocks round-robin.
 */
module PathStores {
  import opened Arith
  import opened Counting
  import opened Word64
  import opened PathLists

  datatype Result = Ok | ZeroLengthPath(path: string) | TooSmall(path: string)

  // ---- Lines of a tree file ----

  datatype TreeLine = OtherLine | FileWithoutSize | FileLine(size: u64, path: string)

  datatype LoadResult = Loaded | InvalidLine(lineNum: nat)

  // Rounding up to a multiple is 64-bit arithmetic, so it wraps around for sizes near 2^64.
  function RoundUp(size: u64, multiple: u64): u64 {
    if multiple != 0 && size % multiple != 0 then (size - size % multiple + multiple) % WORD else size
  }

  lemma NextMultiple(size: nat, multiple: nat)
    requires multiple > 0
    ensures (size - size % multiple + multiple) % multiple == 0
    ensures size < size - size % multiple + multiple <= size + multiple
  {
    var q := size / multiple;
    assert size == q * multiple + size % multiple && (q + 1) * multiple == q * multiple + multiple;
    MulMod(q + 1, multiple);
  }

  // The result is the next multiple if and only if there is one below 2^64.
  lemma RoundUpIsNextMultiple(size: u64, multiple: u64)
    requires multiple > 0
    ensures RoundUp(size, multiple) % multiple == 0 && size <= RoundUp(size, multiple) < size + multiple
      <==> size % multiple == 0 || size - size % multiple + multiple < WORD
  {
    NextMultiple(size, multiple);
    var next := size - size % multiple + multiple;
    if next >= WORD {
      AddMultiple(next - WORD, 1, WORD);
      assert next % WORD == next - WORD < size;
    } else {
      assert next % WORD == next;
    }
  }

  predicate Fits(line: TreeLine, min: u64, max: u64, roundUp: u64) {
    line.FileLine? && min <= RoundUp(line.size, roundUp) <= max
  }

  predicate LineOk(line: TreeLine, min: u64, max: u64, roundUp: u64) {
    !line.FileWithoutSize? && (Fits(line, min, max, roundUp) ==> line.path != "")
  }

  function ElemOf(line: TreeLine, roundUp: u64): PathElem
    requires line.FileLine?
  {
    var len := RoundUp(line.size, roundUp);
    PathElem(line.path, len, 0, len)
  }

  function Selected(lines: seq<TreeLine>, min: u64, max: u64, roundUp: u64): seq<PathElem> {
    if lines == [] then []
    else
      var last := lines[|lines| - 1];
      Selected(lines[..|lines| - 1], min, max, roundUp)
      + if Fits(last, min, max, roundUp) then [ElemOf(last, roundUp)] else []
  }

  lemma NoneSelected(min: u64, max: u64, roundUp: u64)
    ensures Selected([], min, max, roundUp) == []
  {
  }

  lemma SelectedStep(lines: seq<TreeLine>, i: nat, min: u64, max: u64, roundUp: u64)
    requires i < |lines|
    ensures lines[..i + 1] == lines[..i] + [lines[i]]
    ensures Selected(lines[..i + 1], min, max, roundUp) == Selected(lines[..i], min, max, roundUp)
      + if Fits(lines[i], min, max, roundUp) then [ElemOf(lines[i], roundUp)] else []
  {
    assert lines[..i + 1][..i] == lines[..i];
  }

  lemma {:induction false} SelectedInWindow(lines: seq<TreeLine>, min: u64, max: u64, roundUp: u64)
    ensures IsGlobal(Selected(lines, min, max, roundUp))
    ensures forall e <- Selected(lines, min, max, roundUp) :: min <= e.totalLen <= max
    decreases |lines|
  {
    hide RoundUp;
    if lines != [] { SelectedInWindow(lines[..|lines| - 1], min, max, roundUp); }
  }

  lemma SelectedSnoc(lines: seq<TreeLine>, min: u64, max: u64, roundUp: u64, x: PathElem)
    requires lines != []
    ensures var last := lines[|lines| - 1];
      Count(Selected(lines, min, max, roundUp), x) == Count(Selected(lines[..|lines| - 1], min, max, roundUp), x)
        + if Fits(last, min, max, roundUp) then Count([ElemOf(last, roundUp)], x) else 0
  {
    hide Count, ElemOf, RoundUp;
    var head, last := Selected(lines[..|lines| - 1], min, max, roundUp), lines[|lines| - 1];
    CountConcat(head, [], x);
    if Fits(last, min, max, roundUp) { CountConcat(head, [ElemOf(last, roundUp)], x); }
  }

  // The store of small files and the store of shared files hold every file line of a tree file
  // exactly once between them, and the shared one holds no empty file.
  lemma {:induction false} WindowsSplitTheTree(lines: seq<TreeLine>, share: u64, roundUp: u64, x: PathElem)
    requires share > 0
    ensures Count(Selected(lines, 0, WORD - 1, roundUp), x)
      == Count(Selected(lines, 0, share - 1, roundUp), x) + Count(Selected(lines, share, WORD - 1, roundUp), x)
    ensures NonEmptyFiles(Selected(lines, share, WORD - 1, roundUp))
    decreases |lines|
  {
    hide Count, Selected, ElemOf, RoundUp;
    SelectedInWindow(lines, share, WORD - 1, roundUp);
    if lines == [] {
      assert Selected(lines, 0, WORD - 1, roundUp) == [] by { NoLines(0, WORD - 1, roundUp); }
      NoLines(0, share - 1, roundUp);
      NoLines(share, WORD - 1, roundUp);
      CountConcat<PathElem>([], [], x);
    } else {
      WindowsSplitTheTree(lines[..|lines| - 1], share, roundUp, x);
      SelectedSnoc(lines, 0, WORD - 1, roundUp, x);
      SelectedSnoc(lines, 0, share - 1, roundUp, x);
      SelectedSnoc(lines, share, WORD - 1, roundUp, x);
    }
  }

  lemma NoLines(min: u64, max: u64, roundUp: u64)
    ensures Selected([], min, max, roundUp) == []
  {
  }

  // ---- When a worker gets its share ----

  // The contiguous split looks at the files that start before the end of the worker's range.
  predicate SharedOk(paths: seq<PathElem>, lo: nat, hi: nat, blockSize: nat, strict: bool)
    requires lo <= hi
  {
    lo < hi ==> forall p | 0 <= p < |paths| && SumBlocks(paths[..p], blockSize) < hi ::
      AcceptsFile(paths[p], SumBlocks(paths[..p], blockSize), lo, hi, blockSize, strict)
  }

  predicate AcceptsFile(e: PathElem, first: nat, lo: nat, hi: nat, blockSize: nat, strict: bool)
    requires lo <= hi
  {
    e.totalLen > 0 && (strict ==> var len := Slice(e, first, lo, hi, blockSize).rangeLen; len == 0 || len >= blockSize)
  }

  function Max(a: nat, b: nat): nat {
    if a < b then b else a
  }

  function BlocksToAssign(current: nat, lo: nat, hi: nat): nat
    requires lo <= hi
  {
    if hi <= current then 0 else hi - Max(lo, current)
  }

  function StartInFile(first: nat, lo: nat, blockSize: nat): nat {
    if lo <= first then 0 else (lo - first) * blockSize
  }

  function BlocksAfterStart(first: nat, n: nat, lo: nat): int {
    if lo <= first then n else n - (lo - first)
  }

  // The loop's case distinctions cut out the slice of the file that lies in the worker's range.
  lemma SharedStep(e: PathElem, first: nat, lo: nat, hi: nat, blockSize: nat)
    requires blockSize > 0 && e.totalLen > 0
    requires lo <= first + FileBlocks(e.totalLen, blockSize) - 1 && lo < hi && first < hi
    ensures var n, start := FileBlocks(e.totalLen, blockSize), StartInFile(first, lo, blockSize);
      var remaining, left := BlocksAfterStart(first, n, lo), BlocksToAssign(first, lo, hi);
      var s := Slice(e, first, lo, hi, blockSize);
      && start < e.totalLen && s.rangeLen > 0
      && s == e.(rangeStart := start, rangeLen := if left < remaining then left * blockSize else e.totalLen - start)
    ensures var n := FileBlocks(e.totalLen, blockSize);
      var remaining, left := BlocksAfterStart(first, n, lo), BlocksToAssign(first, lo, hi);
      BlocksToAssign(first + n, lo, hi) == if left < remaining then 0 else left - remaining
  {
    var n := FileBlocks(e.totalLen, blockSize);
    var j: nat := if lo <= first then 0 else lo - first;
    var k: nat := hi - first;
    BlocksReachEnd(0, e.totalLen, blockSize);
    BlocksReachEnd(j, e.totalLen, blockSize);
    BlocksReachEnd(k, e.totalLen, blockSize);
    assert (k - j) * blockSize == k * blockSize - j * blockSize;
    MulLe(1, k - j, blockSize);
    assert Boundary(lo - first, e.totalLen, blockSize) == j * blockSize;
    assert Boundary(k, e.totalLen, blockSize) == if k < n then k * blockSize else e.totalLen;
    assert BlocksToAssign(first, lo, hi) == k - j && BlocksAfterStart(first, n, lo) == n - j;
    assert StartInFile(first, lo, blockSize) == j * blockSize;
    assert Slice(e, first, lo, hi, blockSize).rangeLen
      == if k < n then (k - j) * blockSize else e.totalLen - j * blockSize;
    assert BlocksToAssign(first + n, lo, hi) == if k < n then 0 else k - n;
  }

  // ---- Files behind the range ----

  lemma {:induction false} RestContributesNothing(paths: seq<PathElem>, p: nat, lo: nat, hi: nat, blockSize: nat)
    requires p <= |paths| && lo <= hi && blockSize > 0 && hi <= SumBlocks(paths[..p], blockSize)
    ensures Slices(paths, lo, hi, blockSize) == Slices(paths[..p], lo, hi, blockSize)
    ensures hi <= SumBlocks(paths, blockSize)
    decreases |paths|
  {
    if p == |paths| {
      assert paths[..p] == paths;
    } else {
      var init := paths[..|paths| - 1];
      assert init[..p] == paths[..p];
      RestContributesNothing(init, p, lo, hi, blockSize);
      hide Slice, FileBlocks;
      SliceOutside(paths[|paths| - 1], SumBlocks(init, blockSize), lo, hi, blockSize);
    }
  }

  lemma SlicesSnoc(paths: seq<PathElem>, p: nat, lo: nat, hi: nat, blockSize: nat)
    requires p < |paths| && lo <= hi
    ensures Slices(paths[..p + 1], lo, hi, blockSize) == Slices(paths[..p], lo, hi, blockSize)
      + SliceOf(paths[p], SumBlocks(paths[..p], blockSize), lo, hi, blockSize)
    ensures SumBlocks(paths[..p + 1], blockSize) == SumBlocks(paths[..p], blockSize) + FileBlocks(paths[p].rangeLen, blockSize)
  {
    hide Slice, FileBlocks;
    assert paths[..p + 1][..p] == paths[..p];
  }

  predicate NoneSmall(files: seq<PathElem>, blockSize: nat) {
    forall e <- files :: e.totalLen >= blockSize
  }

  lemma SmallCases(taken: seq<PathElem>, e: PathElem, rest: seq<PathElem>, blockSize: nat)
    ensures NoneSmall([], blockSize)
    ensures e.totalLen < blockSize ==> !NoneSmall(taken + [e] + rest, blockSize)
    ensures NoneSmall(taken, blockSize) && e.totalLen >= blockSize ==> NoneSmall(taken + [e], blockSize)
  {
    assert (taken + [e] + rest)[|taken|] == e;
  }

  // The files of a list, as wholes.
  function Wholes(paths: seq<PathElem>): seq<PathElem> {
    seq(|paths|, i requires 0 <= i < |paths| => Whole(paths[i]))
  }

  // A store holds what it held before and mine, counted as so many blocks.
  ghost predicate GrownBy(before: Totals, now: Totals, mine: seq<PathElem>, blocks: nat) {
    && now.paths == before.paths + mine && now.numPaths == before.numPaths + |mine|
    && now.numBlocks == before.numBlocks + blocks && now.numBytes == before.numBytes + SumBytes(mine)
  }

  // A store has taken the elements, and counted their whole files.
  ghost predicate Took(before: Totals, now: Totals, taken: seq<PathElem>, size: nat) {
    && now.paths == before.paths + taken && now.numPaths == before.numPaths + |taken|
    && now.numBlocks == before.numBlocks + SumBlocks(Wholes(taken), size)
    && now.numBytes == before.numBytes + SumBytes(Wholes(taken))
  }

  lemma TookNothing(before: Totals, size: nat)
    ensures Took(before, before, [], size)
  {
    assert Wholes([]) == [] && before.paths + [] == before.paths;
  }

  lemma TookNext(before: Totals, now: Totals, taken: seq<PathElem>, e: PathElem, size: nat)
    requires Took(before, now, taken, size)
    ensures var next := Totals(now.paths + [e], now.numPaths + 1, now.numBlocks + FileBlocks(e.totalLen, size),
                               now.numBytes + e.totalLen);
      Took(before, next, taken + [e], size)
  {
    assert Wholes(taken + [e]) == Wholes(taken) + [Whole(e)];
    assert before.paths + (taken + [e]) == (before.paths + taken) + [e];
    hide SumBlocks, SumBytes, FileBlocks, Wholes;
    SumBlocksSnoc(Wholes(taken), Whole(e), size);
    SumBytesSnoc(Wholes(taken), Whole(e));
  }

  // For lists as they are loaded, that is what the elements themselves count.
  lemma TookWhole(before: Totals, now: Totals, paths: seq<PathElem>, k: nat, n: nat, size: nat)
    requires n > 0
    ensures var mine := EveryNth(paths, k, n);
      IsGlobal(paths) && Took(before, now, mine, size) ==> GrownBy(before, now, mine, SumBlocks(mine, size))
  {
    hide SumBlocks, SumBytes, EveryNth, Wholes;
    if IsGlobal(paths) { WholesOfGlobal(paths, k, n); }
  }

  lemma {:induction false} WholesOfGlobal(paths: seq<PathElem>, k: nat, n: nat)
    requires IsGlobal(paths) && n > 0
    ensures Wholes(EveryNth(paths, k, n)) == EveryNth(paths, k, n)
    decreases |paths| - k
  {
    if k < |paths| {
      assert paths[k] in paths;
      WholesOfGlobal(paths, k + n, n);
    }
  }

  lemma EveryNthStep<T>(s: seq<T>, k: nat, n: nat)
    requires n > 0
    ensures EveryNth(s, k, n) == if k < |s| then [s[k]] + EveryNth(s, k + n, n) else []
  {
  }

  lemma TakeNext<T>(s: seq<T>, k: nat, n: nat, taken: seq<T>)
    requires n > 0 && k < |s|
    ensures taken + EveryNth(s, k, n) == (taken + [s[k]]) + EveryNth(s, k + n, n)
  {
    hide EveryNth;
    EveryNthStep(s, k, n);
  }

  lemma TakeNone<T>(s: seq<T>, k: nat, n: nat, taken: seq<T>)
    requires n > 0 && k >= |s|
    ensures taken + EveryNth(s, k, n) == taken
  {
  }

  lemma NoBlocksOfSizeZero(len: nat)
    ensures FileBlocks(len, 0) == 0
  {
  }

  lemma EmptyList(rank: nat, threads: nat, blockSize: nat)
    requires threads > 0
    ensures SumBlocks([], blockSize) == 0 && WorkerBlocks(0, rank, threads) == 0 && WorkerStart(0, rank, threads) == 0
    ensures WorkerSlices([], rank, threads, blockSize) == [] && SumBytes([]) == 0
  {
    DivUnique(0, threads, 0);
  }

  lemma NothingYet(paths: seq<PathElem>, lo: nat, hi: nat, blockSize: nat)
    requires lo <= hi
    ensures SumBlocks(paths[..0], blockSize) == 0 && Slices(paths[..0], lo, hi, blockSize) == []
    ensures SumBytes([]) == 0
  {
  }

  // When the loop ends, no later file matters.
  lemma SharedDone(paths: seq<PathElem>, p: nat, lo: nat, hi: nat, blockSize: nat, strict: bool)
    requires p <= |paths| && lo < hi && blockSize > 0
    requires p == |paths| || hi <= SumBlocks(paths[..p], blockSize)
    requires forall q | 0 <= q < p :: AcceptsFile(paths[q], SumBlocks(paths[..q], blockSize), lo, hi, blockSize, strict)
    ensures Slices(paths, lo, hi, blockSize) == Slices(paths[..p], lo, hi, blockSize)
    ensures SharedOk(paths, lo, hi, blockSize, strict)
  {
    hide SumBlocks, Slices, AcceptsFile;
    if p == |paths| {
      assert paths[..p] == paths;
    } else {
      RestContributesNothing(paths, p, lo, hi, blockSize);
      forall q | p <= q < |paths| ensures hi <= SumBlocks(paths[..q], blockSize) {
        assert paths[..q][..p] == paths[..p];
        RestContributesNothing(paths[..q], p, lo, hi, blockSize);
      }
    }
  }

  predicate AllFull(blocks: seq<PathElem>, blockSize: nat) {
    forall b <- blocks :: b.rangeLen >= blockSize
  }

  datatype Totals = Totals(paths: seq<PathElem>, numPaths: nat, numBlocks: nat, numBytes: nat)

  lemma NothingDealt(rank: nat, threads: nat, blockSize: nat)
    requires threads > 0
    ensures BlockList([], blockSize) == [] && Dealt<PathElem>([], rank, threads) == [] && SumBytes([]) == 0
  {
  }

  lemma BlockListSnoc(paths: seq<PathElem>, p: nat, blockSize: nat)
    requires p < |paths|
    ensures BlockList(paths[..p + 1], blockSize)
      == BlockList(paths[..p], blockSize) + FileBlockList(paths[p], FileBlocks(paths[p].totalLen, blockSize), blockSize)
  {
    assert paths[..p + 1][..p] == paths[..p];
  }

  lemma {:induction false} BlockListPrefix(paths: seq<PathElem>, p: nat, blockSize: nat)
    requires p <= |paths|
    ensures BlockList(paths[..p], blockSize) <= BlockList(paths, blockSize)
    decreases |paths|
  {
    if p == |paths| {
      assert paths[..p] == paths;
    } else {
      hide FileBlocks;
      assert paths[..|paths| - 1][..p] == paths[..p];
      BlockListPrefix(paths[..|paths| - 1], p, blockSize);
    }
  }

  // The elements a rank holds stay the same when more blocks follow.
  lemma {:induction false} DealtPrefix(s: seq<PathElem>, t: seq<PathElem>, rank: nat, threads: nat)
    requires threads > 0 && s <= t
    ensures Dealt(s, rank, threads) <= Dealt(t, rank, threads)
    decreases |t|
  {
    if |s| == |t| {
      assert s == t;
    } else {
      DealtPrefix(s, t[..|t| - 1], rank, threads);
    }
  }

  lemma NotFullLater(s: seq<PathElem>, t: seq<PathElem>, rank: nat, threads: nat, blockSize: nat)
    requires threads > 0 && s <= t && !AllFull(Dealt(s, rank, threads), blockSize)
    ensures !AllFull(Dealt(t, rank, threads), blockSize)
  {
    DealtPrefix(s, t, rank, threads);
    var b :| b in Dealt(s, rank, threads) && b.rangeLen < blockSize;
    assert b in Dealt(t, rank, threads);
  }

  lemma {:induction false} FileBlockListPrefix(e: PathElem, i: nat, n: nat, blockSize: nat)
    requires i <= n
    ensures FileBlockList(e, i, blockSize) <= FileBlockList(e, n, blockSize)
  {
    if i < n { FileBlockListPrefix(e, i, n - 1, blockSize); }
  }

  // A partial block that is the rank's turn shows up in its share of the whole file.
  lemma FullNeverAgain(e: PathElem, blocks: seq<PathElem>, i: nat, rank: nat, threads: nat, blockSize: nat)
    requires threads > 0 && i < FileBlocks(e.totalLen, blockSize)
    requires Turn(|blocks| + i, threads) == rank && BlockOf(e, i, blockSize).rangeLen < blockSize
    ensures var after := blocks + FileBlockList(e, FileBlocks(e.totalLen, blockSize), blockSize);
      !AllFull(Dealt(after, rank, threads), blockSize)
  {
    hide FileBlocks, Turn, Dealt, BlockOf;
    var n := FileBlocks(e.totalLen, blockSize);
    var done, block := blocks + FileBlockList(e, i, blockSize), BlockOf(e, i, blockSize);
    DealtSnoc(done, block, rank, threads);
    var d := Dealt(done + [block], rank, threads);
    assert d[|d| - 1] == block;
    FileBlockListPrefix(e, i + 1, n, blockSize);
    assert done + [block] == blocks + FileBlockList(e, i + 1, blockSize);
    NotFullLater(done + [block], blocks + FileBlockList(e, n, blockSize), rank, threads, blockSize);
  }

  class PathStore {
    var blockSize: nat
    var numBlocksTotal: nat
    var numBytesTotal: nat
    var numPaths: nat
    var paths: seq<PathElem>

    // The counters agree with the list.
    ghost predicate Valid()
      reads this
    {
      && numPaths == |paths|
      && numBlocksTotal == SumBlocks(paths, blockSize)
      && numBytesTotal == SumBytes(paths)
    }

    function Now(): Totals
      reads this
    {
      Totals(paths, numPaths, numBlocksTotal, numBytesTotal)
    }

    // The store holds what it held before and mine, counted as so many blocks.
    ghost predicate Grown(before: Totals, mine: seq<PathElem>, blocks: nat)
      reads this
    {
      GrownBy(before, Now(), mine, blocks)
    }

    constructor (blockSize: nat)
      ensures Valid() && paths == [] && this.blockSize == blockSize
    {
      this.blockSize := blockSize;
      numBlocksTotal, numBytesTotal, numPaths, paths := 0, 0, 0, [];
    }

    // Appends an element and raises the counters.
    method Add(e: PathElem, blocks: nat, bytes: nat)
      modifies this
      ensures paths == old(paths) + [e] && numPaths == old(numPaths) + 1 && blockSize == old(blockSize)
      ensures numBlocksTotal == old(numBlocksTotal) + blocks && numBytesTotal == old(numBytesTotal) + bytes
    {
      paths := paths + [e];
      numPaths := numPaths + 1;
      numBlocksTotal := numBlocksTotal + blocks;
      numBytesTotal := numBytesTotal + bytes;
    }

    method LoadFiles(lines: seq<TreeLine>, min: u64, max: u64, roundUp: u64) returns (r: LoadResult)
      requires Valid() && blockSize > 0
      modifies this
      ensures Valid() && blockSize == old(blockSize)
      ensures r.Loaded? <==> forall line <- lines :: LineOk(line, min, max, roundUp)
      ensures var n := if r.Loaded? then |lines| else r.lineNum;
        n <= |lines| && paths == old(paths) + Selected(lines[..n], min, max, roundUp)
    {
      hide RoundUp, FileBlocks, SumBlocks, SumBytes, Selected;
      NoneSelected(min, max, roundUp);
      var lineNum := 0;
      while lineNum < |lines|
        invariant lineNum <= |lines| && Valid() && blockSize == old(blockSize)
        invariant forall line <- lines[..lineNum] :: LineOk(line, min, max, roundUp)
        invariant paths == old(paths) + Selected(lines[..lineNum], min, max, roundUp)
      {
        var line := lines[lineNum];
        SelectedStep(lines, lineNum, min, max, roundUp);
        if line.FileWithoutSize? {
          assert line in lines;
          return InvalidLine(lineNum);
        }
        if line.FileLine? {
          var len := RoundUp(line.size, roundUp);
          if !(len < min || len > max) {
            if line.path == "" {
              assert line in lines && !LineOk(line, min, max, roundUp);
              return InvalidLine(lineNum);
            }
            var newElem := PathElem(line.path, len, 0, len);
            SumBlocksSnoc(paths, newElem, blockSize);
            SumBytesSnoc(paths, newElem);
            Add(newElem, FileBlocks(len, blockSize), len);
          }
        }
        lineNum := lineNum + 1;
      }
      assert lines[..|lines|] == lines;
      return Loaded;
    }

    // Moves all elements over to a vector.
    method MoveOut() returns (tmp: seq<PathElem>)
      requires numPaths == |paths|
      modifies this`paths, this`numPaths
      ensures tmp == old(paths) && paths == [] && numPaths == 0
    {
      tmp := [];
      while numPaths > 0
        invariant numPaths == |paths| && tmp + paths == old(paths)
      {
        tmp := tmp + [paths[0]];
        paths := paths[1..];
        numPaths := numPaths - 1;
      }
    }

    // Moves the elements of a vector back, from its end to the front of the list.
    method MoveBack(all: seq<PathElem>)
      requires paths == [] && numPaths == 0
      modifies this`paths, this`numPaths
      ensures paths == all && numPaths == |all|
    {
      var tmp := all;
      while |tmp| > 0
        invariant numPaths == |paths| && tmp + paths == all
        decreases |tmp|
      {
        paths := [tmp[|tmp| - 1]] + paths;
        numPaths := numPaths + 1;
        tmp := tmp[..|tmp| - 1];
      }
    }

    // The random order is a parameter; shuffling keeps the counters right.
    method RandomShuffle(shuffled: seq<PathElem>)
      requires Valid() && multiset(shuffled) == multiset(paths)
      modifies this
      ensures Valid() && paths == shuffled && blockSize == old(blockSize)
      ensures numBlocksTotal == old(numBlocksTotal) && numBytesTotal == old(numBytesTotal)
    {
      hide SumBlocks, SumBytes;
      TotalsIgnoreOrder(paths, shuffled, blockSize);
      var _ := MoveOut();
      MoveBack(shuffled);
    }

    // Every threads-th path, as a whole. The block size can be zero for a store of directories.
    method GetWorkerSublistNonShared(rank: nat, threads: nat, strict: bool, out: PathStore) returns (r: Result)
      requires Valid() && threads > 0 && out != this
      modifies out
      ensures out.blockSize == old(out.blockSize)
      ensures r.Ok? <==> (strict ==> NoneSmall(EveryNth(paths, rank, threads), blockSize))
      ensures r.Ok? ==> Took(old(out.Now()), out.Now(), EveryNth(paths, rank, threads), blockSize)
      ensures r.Ok? && IsGlobal(paths) ==> var mine := EveryNth(paths, rank, threads);
        out.Grown(old(out.Now()), mine, SumBlocks(mine, blockSize))
    {
      hide FileBlocks, SumBlocks, SumBytes, EveryNth, NoneSmall, IsGlobal, Took;
      var list, size := paths, blockSize;
      ghost var before := out.Now();
      TookNothing(before, size);
      TakeNone(list, |list|, threads, []);
      SmallCases([], PathElem("", 0, 0, 0), [], size);
      if rank >= numPaths {
        TakeNone(list, rank, threads, []);
        TookWhole(before, out.Now(), list, rank, threads, size);
        return Ok;
      }
      var currentIdx := rank;
      ghost var taken := [];
      assert [] + EveryNth(list, rank, threads) == EveryNth(list, rank, threads);
      while true
        invariant currentIdx < |list| && out.blockSize == old(out.blockSize)
        invariant taken + EveryNth(list, currentIdx, threads) == EveryNth(list, rank, threads)
        invariant Took(before, out.Now(), taken, size) && (strict ==> NoneSmall(taken, size))
        decreases |list| - currentIdx
      {
        var e := list[currentIdx];
        TakeNext(list, currentIdx, threads, taken);
        SmallCases(taken, e, EveryNth(list, currentIdx + threads, threads), size);
        var fileSize := e.totalLen;
        var numFileBlocks := 0;
        if size != 0 {
          numFileBlocks := FileBlocks(fileSize, size);
        }
        if strict && fileSize < size {
          return TooSmall(e.path);
        }
        NoBlocksOfSizeZero(fileSize);
        TookNext(before, out.Now(), taken, e, size);
        out.Add(e, numFileBlocks, fileSize);
        taken := taken + [e];
        if currentIdx + threads >= |list| {
          TakeNone(list, currentIdx + threads, threads, taken);
          break;
        }
        currentIdx := currentIdx + threads;
      }
      TookWhole(before, out.Now(), list, rank, threads, size);
      return Ok;
    }

    // The first block of a worker and its number of blocks.
    method WorkerRange(rank: nat, threads: nat) returns (start: nat, mine: nat)
      requires threads > 0
      ensures start == WorkerStart(numBlocksTotal, rank, threads) && mine == WorkerBlocks(numBlocksTotal, rank, threads)
    {
      StandardFits(numBlocksTotal, threads);
      var standard := numBlocksTotal / threads;
      mine := standard;
      if rank == threads - 1 && numBlocksTotal % threads != 0 {
        mine := numBlocksTotal - standard * (threads - 1);
      }
      start := rank * standard;
    }

    // The part of a file that the worker's range cuts out, and the blocks left after it.
    method SliceFile(e: PathElem, numFileBlocks: nat, firstFileBlock: nat, start: nat, end: nat, blocksLeft: nat)
      returns (pathElem: PathElem, left: nat)
      requires blockSize > 0 && e.totalLen > 0 && numFileBlocks == FileBlocks(e.totalLen, blockSize)
      requires start <= firstFileBlock + numFileBlocks - 1 && start < end && firstFileBlock < end
      requires blocksLeft == BlocksToAssign(firstFileBlock, start, end)
      ensures pathElem == Slice(e, firstFileBlock, start, end, blockSize) && pathElem.rangeLen > 0
      ensures left == BlocksToAssign(firstFileBlock + numFileBlocks, start, end)
    {
      hide Slice, FileBlocks;
      SharedStep(e, firstFileBlock, start, end, blockSize);
      var remaining, rangeStart, rangeLen;
      if start <= firstFileBlock {
        rangeStart := 0;
        remaining := numFileBlocks;
      } else {
        var inner := start - firstFileBlock;
        rangeStart := inner * blockSize;
        remaining := numFileBlocks - inner;
      }
      if blocksLeft < remaining {
        rangeLen := blocksLeft * blockSize;
        left := 0;
      } else {
        rangeLen := e.totalLen - rangeStart;
        left := blocksLeft - remaining;
      }
      pathElem := e.(rangeStart := rangeStart, rangeLen := rangeLen);
    }

    // The worker's contiguous range of blocks.
    method GetWorkerSublistShared(rank: nat, threads: nat, strict: bool, out: PathStore) returns (r: Result)
      requires Valid() && IsGlobal(paths) && threads > 0 && blockSize > 0 && out != this
      modifies out
      ensures var start, mine := WorkerStart(numBlocksTotal, rank, threads), WorkerBlocks(numBlocksTotal, rank, threads);
        r.Ok? <==> SharedOk(paths, start, start + mine, blockSize, strict)
      ensures r.Ok? ==> var slices := WorkerSlices(paths, rank, threads, blockSize);
        out.Grown(old(out.Now()), slices, WorkerBlocks(numBlocksTotal, rank, threads))
      ensures out.blockSize == old(out.blockSize)
    {
      hide Slice, Slices, FileBlocks, SumBlocks, SumBytes;
      if paths == [] {
        EmptyList(rank, threads, blockSize);
        return Ok;
      }
      hide WorkerBlocks, WorkerStart;
      var start, mine := WorkerRange(rank, threads);
      var end := start + mine;
      NothingYet(paths, start, end, blockSize);
      if mine == 0 {
        NoSlices(paths, start, blockSize);
        return Ok;
      }
      var p, current, left := 0, 0, mine;
      ghost var slices := [];
      while p < |paths| && current < end
        invariant p <= |paths| && current == SumBlocks(paths[..p], blockSize)
        invariant left == BlocksToAssign(current, start, end)
        invariant slices == Slices(paths[..p], start, end, blockSize)
        invariant out.Grown(old(out.Now()), slices, 0) && out.blockSize == old(out.blockSize)
        invariant forall q | 0 <= q < p :: AcceptsFile(paths[q], SumBlocks(paths[..q], blockSize), start, end, blockSize, strict)
      {
        var e := paths[p];
        assert e in paths;
        var fileSize := e.totalLen;
        var numFileBlocks := FileBlocks(fileSize, blockSize);
        var firstFileBlock := current;
        var lastFileBlock := firstFileBlock as int + numFileBlocks as int - 1;
        if fileSize == 0 {
          assert !AcceptsFile(paths[p], SumBlocks(paths[..p], blockSize), start, end, blockSize, strict);
          return ZeroLengthPath(e.path);
        }
        SlicesSnoc(paths, p, start, end, blockSize);
        if lastFileBlock < start {
          SliceOutside(e, current, start, end, blockSize);
          p, current := p + 1, current + numFileBlocks;
          continue;
        }
        var pathElem;
        pathElem, left := SliceFile(e, numFileBlocks, firstFileBlock, start, end, left);
        if strict && pathElem.rangeLen < blockSize {
          assert !AcceptsFile(paths[p], SumBlocks(paths[..p], blockSize), start, end, blockSize, strict);
          return TooSmall(e.path);
        }
        SumBytesSnoc(slices, pathElem);
        out.Add(pathElem, 0, pathElem.rangeLen);
        slices := slices + [pathElem];
        p, current := p + 1, current + numFileBlocks;
      }
      SharedDone(paths, p, start, end, blockSize, strict);
      out.numBlocksTotal := out.numBlocksTotal + mine;
      return Ok;
    }

    // One block after the other of a file; the worker takes those whose turn is its rank.
    method DealFile(e: PathElem, rank: nat, threads: nat, strict: bool, firstIdx: nat, ghost blocks: seq<PathElem>,
                    out: PathStore, ghost before: Totals)
      returns (nextIdx: nat, tooSmall: bool)
      requires threads > 0 && blockSize > 0 && out != this && firstIdx == |blocks|
      requires var mine := Dealt(blocks, rank, threads); out.Grown(before, mine, |mine|)
      requires strict ==> AllFull(Dealt(blocks, rank, threads), blockSize)
      modifies out
      ensures out.blockSize == old(out.blockSize)
      ensures var after := blocks + FileBlockList(e, FileBlocks(e.totalLen, blockSize), blockSize);
        var mine := Dealt(after, rank, threads);
        && (tooSmall <==> strict && !AllFull(mine, blockSize))
        && (!tooSmall ==> out.Grown(before, mine, |mine|) && nextIdx == |after|)
    {
      hide FileBlocks, Dealt, SumBytes, Turn;
      ghost var n := FileBlocks(e.totalLen, blockSize);
      nextIdx := firstIdx;
      var offset := 0;
      ghost var i, mine := 0, Dealt(blocks, rank, threads);
      assert blocks + FileBlockList(e, 0, blockSize) == blocks;
      while offset < e.totalLen
        invariant offset == i * blockSize && i <= n
        invariant nextIdx == |blocks| + i && out.blockSize == old(out.blockSize)
        invariant mine == Dealt(blocks + FileBlockList(e, i, blockSize), rank, threads)
        invariant out.Grown(before, mine, |mine|)
        invariant strict ==> AllFull(mine, blockSize)
        decreases e.totalLen - offset
      {
        ghost var done, block := blocks + FileBlockList(e, i, blockSize), BlockOf(e, i, blockSize);
        BlocksReachEnd(i, e.totalLen, blockSize);
        DealtSnoc(done, block, rank, threads);
        assert blocks + FileBlockList(e, i + 1, blockSize) == done + [block];
        if rank == Turn(nextIdx, threads) {
          var left := e.totalLen - offset;
          if strict && left < blockSize {
            FullNeverAgain(e, blocks, i, rank, threads, blockSize);
            return nextIdx, true;
          }
          var pathElem := e.(rangeStart := offset, rangeLen := if left < blockSize then left else blockSize);
          SumBytesSnoc(mine, pathElem);
          out.Add(pathElem, 1, pathElem.rangeLen);
          mine := mine + [pathElem];
        }
        nextIdx := nextIdx + 1;
        offset := offset + blockSize;
        i := i + 1;
      }
      BlocksReachEnd(i, e.totalLen, blockSize);
      return nextIdx, false;
    }

    // The blocks whose index leaves the worker's rank as remainder, one range for each.
    method GetWorkerSublistSharedRoundRobin(rank: nat, threads: nat, strict: bool, out: PathStore) returns (r: Result)
      requires threads > 0 && blockSize > 0 && out != this
      modifies out
      ensures out.blockSize == old(out.blockSize)
      ensures var mine := Dealt(BlockList(paths, blockSize), rank, threads);
        && (r.Ok? <==> NonEmptyFiles(paths) && (strict ==> AllFull(mine, blockSize)))
        && (r.Ok? ==> out.Grown(old(out.Now()), mine, |mine|))
    {
      hide FileBlocks, BlockList, Dealt, SumBytes;
      var currentBlockIdx := 0;
      NothingDealt(rank, threads, blockSize);
      var p := 0;
      while p < |paths|
        invariant p <= |paths| && NonEmptyFiles(paths[..p]) && out.blockSize == old(out.blockSize)
        invariant currentBlockIdx == |BlockList(paths[..p], blockSize)|
        invariant var mine := Dealt(BlockList(paths[..p], blockSize), rank, threads);
          out.Grown(old(out.Now()), mine, |mine|) && (strict ==> AllFull(mine, blockSize))
      {
        var e := paths[p];
        if e.totalLen == 0 {
          assert e in paths;
          return ZeroLengthPath(e.path);
        }
        assert paths[..p + 1] == paths[..p] + [e];
        BlockListSnoc(paths, p, blockSize);
        var tooSmall;
        currentBlockIdx, tooSmall := DealFile(e, rank, threads, strict, currentBlockIdx,
                                              BlockList(paths[..p], blockSize), out, old(out.Now()));
        if tooSmall {
          BlockListPrefix(paths, p + 1, blockSize);
          NotFullLater(BlockList(paths[..p + 1], blockSize), BlockList(paths, blockSize), rank, threads, blockSize);
          return TooSmall(e.path);
        }
        p := p + 1;
      }
      assert paths[..|paths|] == paths;
      return Ok;
    }
  }
}
