# A verified model of elbencho's core logic

elbencho is a distributed storage benchmark for files, block devices and objects. This project models the parts of it
whose correctness is hardest to see and proves what they promise. `dafny verify dfyconfig.toml` checks all of it with
Dafny 4.11.

**The write journal** (`Journal*.dfy`). Two bits per target block say whether the block holds complete content and of
which of three rotating generations. `JournalProtocol` is a transition system over any number of threads, journals and
I/Os in flight: every lock, every cell access, every byte of a device read or write and every msync is a step of its own,
and page write-back, process crashes with resume, and power failures strike between any two steps. On it are proved mutual
exclusion and freedom from deadlock (`JournalLocking`), crash safety (`JournalSafety`) and power-failure safety
(`JournalPower`). `JournalHazards` gives the exact limits of the last two, and `JournalDetection` what the verification of a
read finds. `JournalRefinement` carries them over to the mapped
files, where cells share bytes and whole bytes reach the disk. `JournalRegions`, `JournalTile` and `JournalCells`
are the lock regions, the 64-bit content hash and the packed bytes; `JournalObjects` holds the classes of `Journal.h` with
their in-place updates, which `JournalAgreement` ties to the transition system; `JournalArgs` is the argument check that supplies alignment and containment, and `JournalRuns` leads
from an accepted run to its calls of `begin()`.

**Work splitting and shared uploads.** `PathLists` and `PathStore` are the three ways to divide a list of files among
workers, and `TreeFile` the lines such lists are loaded from. `FileRanges` is the division of large files and devices, and
the offsets of a worker's I/Os in its part. `UploadStore` is the store of multipart uploads that workers share.

**Limiter, histogram, text.** `RWMixLimiter` is the balance between readers and writers as a transition system of single
loads and additions. `HistogramBuckets` and `Histogram` are the log-linear latency histogram. `Base64`, `BlockSizeMix`,
`Brackets` and `BracketLaws` are the codecs; `Text`, `Arith`, `Word64`, `Counting` and `Options` are shared by them.

What the proofs found where the code does not do what its comments say:

- Power safety (`Journal.cpp:529-531`) takes for granted that a cell which is 0 in memory is 0 on disk. A process that
  crashes between clearing a cell and the msync, or an msync that fails, leaves such a cell with an old generation on disk;
  the next writer then skips the sync. `RestartSafeIffNothingExposed` and `SyncFailureSafeIffNothingExposed` say exactly when
  this matters (generation 1 on disk does not, because the next writer writes generation 1 again), and
  `CrashInsideClaimBreaksPowerSafety` and `FailedSyncBreaksPowerSafety` are runs that get there.
- Random I/O with several block sizes on several files treats the files as one long file, and keeps an I/O inside the
  worker's range of it but not inside one file (`LocalWorker.cpp:2731-2747`). An I/O that reaches over the end of its file
  uses cells behind those of its journal, which `begin()` does not check. `RandomRunHasCellsIff` says exactly when this can
  happen; it cannot with one block size on files of whole blocks, or on a single file (`OneSizeOrOneFileHasCells`). It does
  happen in an accepted run on two files of 8 KiB with block sizes of 4 and 8 KiB (`CheckTwoFiles`, `TwoFilesFail`).
- The balance of readers and writers multiplies a sum of bytes by a percentage in 64 bits. Once the products of
  both groups have wrapped around, both are blocked for ever (`BothBlockedIff`, `WrappedIsForever`, `WrappedAddsOneBlock`), so no run at any
  percentage gets beyond about 2^64/50 bytes (`BytesAreCapped`), and at 50 percent runs stop there (`StallIsReached`,
  `StallIsForever`). The bound on the imbalance holds all the same (`BoundedImbalance`).
- A guard that is given up while its device write is in flight (`LocalWorker.h:453-471`) breaks crash safety
  (`AbandonBreaks`), so `CrashSafety` and `PowerSafety` are about runs in which device writes end first.
- The look-ahead of the bracket pattern (`TranslatorTk.cpp:402-414`) is meant to skip addresses with colons inside. In
  the ECMAScript grammar of `std::regex`, `[^]` is any character, so the look-ahead is one character, closing brackets, a
  colon: `h[1]:80` is not expanded while `h[12]:80` is. The model follows the code; `ExpandUndoesPrint` has the exact condition.
- Two targets can share a stripe at equal offsets (`SeedsCanShareStripe`), although `Journal.h:84-87` says that different seeds
  keep them apart: one of 65536 seeds does (`SeedsOfStripe`, `SeedsPerStripe`). It costs contention only.
- The end offsets compared by `JournalStore::init` and the total weight of a block size mix wrap around modulo 2^64
  (`FitsIsInside`, `DrawsFollowWeights`).

## Model

| member | source | states |
|---|---|---|
| JournalRegions.RegionShift | source/toolkits/Journal.cpp:234-239 | the loop ends with the smallest power of two for the block count as computed in 64 bits; it holds one maximum-size I/O if and only if the rounded size does not wrap around, or one block is enough anyway |
| JournalRegions.RegionHolds | source/toolkits/Journal.h:170-176 | a region is a run of 2^shift blocks, and the regions follow each other |
| JournalRegions.IOFitsRegion | source/toolkits/Journal.cpp:219-239 | every I/O no longer than the maximum size has at most as many blocks as one region |
| JournalRegions.LockList | source/toolkits/Journal.cpp:263-273 | the locks of an I/O are one or two stripes of the array, ascending and without duplicates |
| JournalRegions.LocksCoverRange | source/toolkits/Journal.h:74-80 | an I/O no longer than a region reaches at most two regions, and its locks include the stripe of every block it covers |
| JournalRegions.SeedsOfStripe | source/toolkits/Journal.h:82-90 | for every region and stripe, the seeds that map the region to the stripe are exactly those given by one formula for the 2^48 low parts of the hash |
| JournalRegions.SeedsPerStripe | source/toolkits/Journal.h:82-90 | of the 2^64 seeds exactly 2^48 map a given region to a given stripe, whatever region and stripe are |
| JournalRegions.RegionsPerStripe | source/toolkits/Journal.h:82-90 | of the 2^64 region numbers exactly 2^48 are mapped to a given stripe, whatever the seed is: a seed leaves no stripe out and favours none |
| JournalRegions.SeedsCanShareStripe | source/toolkits/Journal.h:84-89 | so for every region two different seeds share a stripe, and equal offsets of two targets are not always kept apart |
| JournalTile.RotationVisitsAll | source/toolkits/Journal.h:136-137 | from any non-zero generation, three consecutive generations are 1, 2 and 3 in some order, and the fourth is the first again |
| JournalTile.AvalancheInjective | source/toolkits/Journal.cpp:429-431 | the three xor-shifts and two multiplications modulo 2^64 map different words to different words |
| JournalTile.TileInjectiveInGen | source/toolkits/Journal.cpp:423-434 | for one seed and offset, different generations give different tile values |
| JournalTile.TileInjectiveInOffset | source/toolkits/Journal.cpp:423-434 | for one seed and generation, different offsets give different tile values |
| JournalTile.TileInjectiveInSeed | source/toolkits/Journal.cpp:423-434 | for one offset and generation, different seeds give different tile values |
| JournalTile.TileInjectiveInBoth | source/toolkits/Journal.cpp:423-434 | for one seed and offsets below 2 EiB, tile values agree only if offset and generation both do |
| JournalTile.ContentWord | source/workers/LocalWorker.cpp:2873-2882 | every whole word of a filled block is the tile value of its offset, seed and generation |
| JournalTile.ContentGoesOn | source/workers/LocalWorker.cpp:2873-2882 | the content repeats after 8 bytes, and a shorter block holds the beginning of a longer one |
| JournalTile.ContentWordsMeet | source/workers/LocalWorker.cpp:2873-2882 | words of two filled blocks, wherever they are in their blocks, agree if and only if the tile values do |
| JournalTile.ContentTellsGenerationsApart | source/workers/LocalWorker.cpp:2873-2882 | the contents of two generations of a block differ in every whole word of 8 bytes |
| JournalLocking.LockInvStep | source/toolkits/Journal.cpp:258-303 | every step of every I/O keeps: held stripes are those of the range, taken in ascending order; a stripe held exclusively is held once; a thread that may wait holds no guard |
| JournalLocking.RunKeepsLockInv | source/toolkits/Journal.cpp:247-303 | the same over whole runs, with process crashes and power failures at any moment |
| JournalLocking.GuardsExclude | source/toolkits/Journal.h:65-89 | two guards that cover a common block of one journal are both shared, through all stripe collisions |
| JournalLocking.MutualExclusion | source/toolkits/Journal.h:65-89 | the same in every state reachable from fresh journals |
| JournalLocking.WaitingClimbs | source/toolkits/Journal.cpp:250-253 | a thread that is waited for and waits itself waits for a later lock, also with waiting writers blocking readers |
| JournalLocking.NoCircularWait | source/toolkits/Journal.cpp:250-253 | no chain of threads in which each waits for the next is closed |
| JournalLocking.NeverStuck | source/toolkits/Journal.h:220-234 | from any I/O in flight a chain of waits, those behind waiting writers included, leads to an I/O that waits for nobody and can take a step |
| JournalLocking.DeadlockFreedom | source/toolkits/Journal.h:220-234 | in every state reachable from fresh journals by any number of threads and journals: no closed chain of waits, and from every I/O in flight the waits lead to one that waits for nobody and can take a step |
| JournalSafety.DataInvStep | source/toolkits/Journal.cpp:437-551 | every step keeps: a non-zero cell names complete content; a claimed range stays 0 until it is committed; a read holds a snapshot that its content verifies against |
| JournalSafety.RunKeepsInv | source/toolkits/Journal.cpp:437-551 | the same over whole runs without power failures in which no guard is given up before its device write has ended |
| JournalSafety.CrashSafety | source/toolkits/Journal.cpp:495-503 | in every interleaving of claims, single bytes of device writes, single-cell commits, failed I/Os, process crashes and resumes: every non-zero cell names complete content, and no byte a read obtained fails its verification |
| JournalDetection.GenerationsApart | source/workers/LocalWorker.cpp:2864-2882 | no word of the content of one generation of a block is a word of another generation of it |
| JournalDetection.BlocksApart | source/workers/LocalWorker.cpp:2864-2882 | no word of the content of a block is a word of another block of the journal: of the same generation on any target, of any generation on a target that ends below 2 EiB |
| JournalDetection.SeedsApart | source/workers/LocalWorker.cpp:2864-2882 | no word of the content of a block is what a journal with another seed has at the same offset and generation |
| JournalDetection.MisplacedWordIsFound | source/workers/LocalWorker.cpp:2864-2882 | a read that got one word of such other content, in any block of a non-zero generation, does not pass its verification |
| JournalPower.PowerInvStep | source/toolkits/Journal.cpp:507-551 | every step of a journalsync run keeps: a non-zero cell on disk names content complete on the target, and a cleared cell is 0 on disk (or harmlessly 1) unless the claim that cleared it has yet to sync |
| JournalPower.RunKeepsPowerInv | source/toolkits/Journal.cpp:507-551 | the same over whole runs, with write-back of any page at any moment |
| JournalPower.PowerSafety | source/toolkits/Journal.cpp:526-533 | through any number of power failures of a clean journalsync run from fresh journals, the journal on disk and the one in memory name only complete content, although the sync is skipped when no covered cell was verifiable; and no byte a read obtained fails its verification |
| JournalHazards.ExposureBreaks | source/toolkits/Journal.cpp:529-533 | from any state with a cell that is 0 in memory and 2 or 3 on disk, the next writer skips the sync, and a power failure brings back a generation that is torn |
| JournalHazards.RestartSafeIffNothingExposed | source/toolkits/Journal.cpp:529-533 | a process of a journalsync run may end or crash at a moment without risk to power safety if and only if no cell is 0 in memory and 2 or 3 on disk at that moment |
| JournalHazards.SyncFailureSafeIffNothingExposed | source/toolkits/Journal.cpp:373-378 | the same exact condition for a claim whose msync fails, over the cells of the claim |
| JournalHazards.CrashInsideClaimBreaksPowerSafety | source/toolkits/Journal.cpp:514-533 | for every journal a run that reaches such a moment: two writes, a write-back, a crash between clearing and sync, a resume, a power failure, a false report of corruption |
| JournalHazards.FailedSyncBreaksPowerSafety | source/toolkits/Journal.cpp:373-378 | for every journal a run without any crash before it: two writes, a write-back, a claim whose msync fails, a write, a power failure, a false report of corruption |
| JournalHazards.AbandonBreaks | source/workers/LocalWorker.h:453-471 | giving up a guard while its device write is in flight is never harmless: from every such state a run leads to a cell that names content that is not there |
| JournalRefinement.MemStep | source/toolkits/Journal.cpp:331-351 | on files of packed bytes, the masked and/or of a step changes the cells exactly as the protocol says, and the spare bits stay 0 |
| JournalRefinement.SyncRefines | source/toolkits/Journal.cpp:358-379 | an msync that has returned, its bytes having reached the disk one by one, is the sync of its cells; cells of others in the same bytes may be stale on disk |
| JournalRefinement.SyncCanReturn | source/toolkits/Journal.cpp:366-373 | from every state, writing out the bytes that the msync covers lets it return |
| JournalRefinement.RunRefines | source/toolkits/Journal.cpp:317-379 | every run on the files, with whole bytes reaching the disk at any moment, is a run of the protocol on their cells |
| JournalRefinement.FilesCrashSafe | source/toolkits/Journal.cpp:495-503 | crash safety of the packed files, from files of zeros, and no byte a read obtained fails its verification |
| JournalRefinement.FilesPowerSafe | source/toolkits/Journal.cpp:501-533 | power-failure safety of the packed files in memory and on disk, over clean journalsync runs, and no byte a read obtained fails its verification |
| JournalCells.BusyIsLocal | source/toolkits/Journal.cpp:331-340 | clearing a cell by a masked and leaves the three other cells of the byte as they are |
| JournalCells.CommitIsLocal | source/toolkits/Journal.cpp:342-351 | committing by a masked or changes only its own cell |
| JournalCells.CellIsDigit | source/toolkits/Journal.h:178-184 | the cell in a slot of a byte is the digit of the byte to the base 4 at that place |
| JournalCells.PlacedIsDigit | source/toolkits/Journal.h:178-184 | the bits that commit a generation to a slot are the generation times the power of 4 of that slot |
| JournalCells.FoldWordCounts | source/toolkits/Journal.cpp:397-409 | the word-wide fold and popcount counts the non-zero cells of its eight bytes |
| JournalCells.SpareCountNothing | source/toolkits/Journal.cpp:400-402 | cells that are 0 behind the last block add nothing to the count |
| JournalCells.CountIsCardinality | source/toolkits/Journal.cpp:381-421 | the count of verifiable cells is the number of blocks whose cell is not 0 |
| JournalObjects.ReleaseRestores | source/toolkits/Journal.h:32-43 | releasing a guard restores the lock state before its acquisition, with shared counts, although it unlocks in locking order |
| JournalObjects.RangeGuard.Acquire | source/toolkits/Journal.cpp:258-303 | succeeds if and only if every stripe is available; a refusal leaves nothing locked; a call that has to wait holds exactly the stripes before the one it waits for |
| JournalObjects.RangeGuard.Release | source/toolkits/Journal.h:32-43 | unlocks exactly the stripes that are held |
| JournalObjects.Journal.CreateNew | source/toolkits/Journal.cpp:65-80 | the number of blocks is the rounded up quotient if and only if the 64-bit sum does not wrap around; the file holds all cells if and only if their number of bits does not; all bytes are 0 in memory and on disk |
| JournalObjects.Journal.InitRunOptions | source/toolkits/Journal.cpp:230-245 | a region holds one maximum-size I/O of the run, if and only if the 64-bit rounding of its size does not wrap around or one block is enough |
| JournalObjects.Journal.LoadBlockGen | source/toolkits/Journal.cpp:317-329 | the byte, mask and shift read the cell of the block |
| JournalObjects.Journal.MarkBlockBusy | source/toolkits/Journal.cpp:331-340 | on the mapped bytes: this cell becomes 0, every other cell and the spare cells stay |
| JournalObjects.Journal.CommitBlockGen | source/toolkits/Journal.cpp:342-351 | on the mapped bytes: this cell is or-ed with the generation, every other cell and the spare cells stay |
| JournalObjects.Journal.SyncRange | source/toolkits/Journal.cpp:358-379 | fails exactly if journalsync is on and the kernel reports an error; otherwise the cells of the range are on disk as they are in memory; in either case every byte on disk is as before or as in memory |
| JournalObjects.Journal.CountVerifiable | source/toolkits/Journal.cpp:394-418 | whole words and then bytes: the number of non-zero cells among the journal's blocks |
| JournalObjects.Journal.GetVerifiablePercent | source/toolkits/Journal.cpp:389-421 | the percentage of verifiable blocks, 0 for a journal without blocks |
| JournalObjects.BlockIO.ClaimForWrite | source/toolkits/Journal.cpp:507-538 | under the exclusive guard the generations to write are the rotated old ones, the cells of the range become 0 and no others change, and they are 0 on disk if journalsync is on and one of them was verifiable; if that msync fails, the guard is held and the action stays; without the guard nothing changes |
| JournalObjects.BlockIO.DecideRead | source/toolkits/Journal.cpp:455-488 | snapshots the generations of the range and decides by them: skip exactly with the intent to skip and all of them 0, write exactly with the intent to initialize and a 0 among them |
| JournalObjects.BlockIO.BeginRead | source/toolkits/Journal.cpp:451-492 | skips exactly the ranges in which every generation found is 0, if the intent is to skip; with the intent to initialize, reads exactly if no generation found is 0 and asks for a write otherwise; skip and defer leave nothing locked |
| JournalObjects.BlockIO.Begin | source/toolkits/Journal.cpp:437-493 | skips only with the intent to skip and all generations found 0; reads only with an intent to read, and with no 0 found if the intent is to initialize, one non-zero found otherwise; writes only with that intent or to initialize a range with a 0; an exception exactly if a write needs an msync and it fails; a guard is held for read (shared) and write or exception (exclusive), nothing is held for skip and defer; defer only if waiting is not allowed |
| JournalObjects.DecisionMeaning | source/toolkits/Journal.cpp:446-492 | skip, write and read, each if and only if intent and found generations call for it |
| JournalAgreement.DecideAgrees | source/toolkits/Journal.cpp:463-492 | with the same generations loaded, begin() and the step of the transition system go the same way: read, skip or upgrade |
| JournalAgreement.CanLockIsFree | source/toolkits/Journal.cpp:275-303 | where the lock array stands for the guards of all threads, a stripe can be locked in the array if and only if the transition system lets the thread lock it |
| JournalAgreement.StepAgrees | source/toolkits/Journal.cpp:258-303 | every step of every thread keeps the lock array, with its shared counts, in agreement with the guards that all threads hold |
| JournalObjects.BlockIO.Commit | source/toolkits/Journal.cpp:540-551 | a write's cells hold its generations (and are durable with journalsync), nothing else changes, and the guard is released; if the msync fails the guard stays held |
| JournalObjects.BlockIO.Release | source/toolkits/Journal.h:242-247 | releases the guard and leaves the cells of a failed write at 0 |
| JournalObjects.WriteRotatesRange | source/toolkits/Journal.cpp:514-545 | claim and commit together move every cell of the range to its next generation and leave all others |
| JournalArgs.Args.CheckSizes | source/ProgArgs.cpp:1786-1849 | sizes only shrink, by less than one journal block and one smallest block, and stay positive; the file size is a multiple of the journal block size or of the smallest block size; sizes that need no rounding stay |
| JournalArgs.Args.CheckOffset | source/ProgArgs.cpp:1851-1867 | a run with a file offset is accepted if and only if there is a size or a tree file and, for direct, random or strided I/O, the offset is in smallest blocks |
| JournalArgs.Args.CheckDirectIO | source/ProgArgs.cpp:1878-1907 | direct I/O is accepted if and only if the offset and every size of the mix are multiples of 512; random offsets become aligned |
| JournalArgs.Args.DefaultAmount | source/ProgArgs.cpp:1865-1873 | without a random amount, that of a random run on files is the size of all files and that of S3 object selection the size of the data set |
| JournalArgs.Args.CheckAmount | source/ProgArgs.cpp:1908-1989 | accepted random runs on files have an amount in whole blocks per thread; accepted runs on directories keep their amount, are not strided and have files of at least one block for random offsets |
| JournalArgs.Args.CheckBlocks | source/ProgArgs.cpp:1851-1927 | an accepted aligned random run has an amount that is a positive multiple of one block per thread and files of at least one block; for directories the amount is as given or, for S3 object selection, the size of the data set; an accepted run has an offset only with a size, in whole blocks where those are needed; strided access is not accepted on directories |
| JournalArgs.Args.CheckThreads | source/ProgArgs.cpp:1929-1989 | the same for the part about threads, and there is a block for every thread; the division by a product that wrapped to 0 is an outcome, and for unaligned offsets only after the rejections that come first |
| JournalArgs.Args.CheckJournal | source/ProgArgs.cpp:1994-2016 | accepts only files and devices, aligned random I/O, and block sizes and an offset in whole journal blocks |
| JournalArgs.Args.CheckPathDependentArgs | source/ProgArgs.cpp:1786-2020 | whenever a journaled run is accepted, file size, offset, scalar block size and every size of the mix are multiples of the journal block size; and with random offsets the amount is a multiple of one block per thread and no size exceeds the file; a run that needs no rounding is accepted as it is |
| JournalArgs.InitJournals | source/toolkits/JournalStore.cpp:111-184 | every target gets a new journal, or the one existing journal that names it; stops exactly if a target is ambiguous, has another block size or exceeds the range |
| JournalArgs.PlanMeaning | source/toolkits/JournalStore.cpp:111-184 | a journal is created if and only if no sidecar names the target, and a sidecar is resumed if and only if it is the only one that names it, with the same block size and a range that fits |
| JournalArgs.ResumesOwnJournal | source/toolkits/JournalStore.cpp:121-166 | a target is resumed with the only sidecar that names it, of the same block size |
| JournalArgs.FitsIsInside | source/toolkits/JournalStore.cpp:114-158 | a range lies inside the journal's range if and only if it passes the check and its end does not wrap around 2^64 |
| JournalArgs.WrappedRangeFits | source/toolkits/JournalStore.cpp:114-158 | a range over the end of the 64-bit space passes the check of a journal of two blocks |
| JournalArgs.CellsCoverIO | source/toolkits/Journal.cpp:440-444 | an aligned I/O inside a journal's range uses cells inside the binary file, and these stand for exactly its bytes |
| JournalArgs.AcceptedRunFits | source/toolkits/JournalStore.cpp:133-181 | every aligned I/O of an accepted run meets what begin() needs of its journal, also in a larger journal that an earlier run created |
| JournalRuns.CreatedIsAligned | source/toolkits/JournalStore.cpp:133-181 | an accepted run creates sidecars in whole journal blocks only, so that all later runs find such |
| JournalRuns.AcceptedIOHasCells | source/toolkits/JournalStore.cpp:133-181 | from the accepted arguments and the plan for a target, where the 64-bit end that the plan depends on does not wrap around: every I/O on the journal's grid inside the file meets what begin() requires of the journal that the run creates or resumes, and its cells stand for exactly its bytes |
| JournalRuns.AcceptedRunHasCellsIff | source/toolkits/JournalStore.cpp:133-181 | all such I/Os have their cells if and only if the number of blocks of a new journal, or the end offset compared for an existing one, does not wrap around 2^64 |
| JournalRuns.CellsIffInFile | source/toolkits/Journal.cpp:437-444 | in a journal of the run's own range, an I/O on the grid has its cells if and only if it ends inside the file |
| JournalRuns.RangesOnGrid | source/workers/LocalWorker.cpp:4663-4672 | the ranges of a sequential worker start and end on the grid of the journal's blocks |
| JournalRuns.SequentialIOsHaveCells | source/workers/LocalWorker.cpp:1962-2012 | each I/O of a sequential worker has its cells in the journal of its file |
| JournalRuns.SequentialIOsAreLocked | source/toolkits/Journal.cpp:219-273 | each I/O that a sequential worker submits for sizes of the mix is no longer than a lock region, and its one or two locks include the stripe of each of its blocks |
| JournalRuns.RandomIOIsLocked | source/toolkits/Journal.cpp:219-273 | the same for each I/O that a random worker can draw |
| JournalRuns.ShareOnGrid | source/workers/LocalWorker.cpp:4512-4513 | a thread's share of the random amount is on the grid of the journal's blocks |
| JournalRuns.RandomIOHasCellsIff | source/workers/LocalWorker.cpp:2731-2747 | a random I/O has its cells in the journal of its file if and only if it ends inside that file |
| JournalRuns.RandomRunHasCellsIff | source/workers/LocalWorker.cpp:4517-4532 | all random I/Os of a worker of an accepted run have their cells if and only if the largest block reaches over no end of a file from the last grid point before that end |
| JournalRuns.FirstIOWithoutCells | source/workers/LocalWorker.cpp:4517-4532 | if it reaches over one, a random number and a size of the mix for which already the worker's first I/O has no cells in the journal of its file |
| JournalRuns.CheckTwoFiles | source/ProgArgs.cpp:1786-2020 | a run on two files of 8 KiB with block sizes of 4 and 8 KiB and one thread is accepted as it is |
| JournalRuns.TwoFilesFail | source/workers/LocalWorker.cpp:2731-2747 | its first I/O can be 8 KiB at 4 KiB in the first file, for which the journal of that file has no cells |
| JournalRuns.OneSizeOrOneFileHasCells | source/workers/LocalWorker.cpp:4517-4532 | with one block size and files of whole blocks, or where a worker's range lies in one file, every random I/O of the worker has its cells |
| FileRanges.OneOwner | source/workers/LocalWorker.cpp:4613-4626 | every block of all files together belongs to exactly one worker, whatever their numbers are |
| FileRanges.IterateFilesSeq | source/workers/LocalWorker.cpp:4649-4741 | the loop over files yields ranges inside single files that are exactly the worker's blocks, one after the other |
| FileRanges.EveryByteOnce | source/workers/LocalWorker.cpp:4613-4741 | every byte of every file is in exactly one range of exactly one worker |
| FileRanges.OffsetGenSequential.SubmitAll | source/toolkits/offsetgen/OffsetGenerator.h:49-105 | for any sizes drawn, the I/Os tile the range from its start, and keep every grid on which the range and the sizes lie; each has the size drawn for it, except that the last one is cut exactly at the end of the range |
| FileRanges.OffsetGenRandomAligned.SubmitAll | source/toolkits/offsetgen/OffsetGenerator.h:260-334 | the I/Os are exactly those of the numbers and sizes drawn, shortened to the bytes left, and their lengths add up to the bytes submitted; every I/O lies in the range, on the grid of the smallest size, also with the largest size in its place |
| FileRanges.RandomIOsFollowDraws | source/toolkits/offsetgen/OffsetGenerator.h:260-334 | each random I/O is at the place of its random number and has the size drawn for it, except that the last one may be shorter |
| FileRanges.DrawnIff | source/toolkits/offsetgen/OffsetGenerator.h:260-334 | conversely, every such place in the range is that of the first I/O for some number and size drawn |
| FileRanges.PositionMeaning | source/workers/LocalWorker.cpp:2731-2747 | an offset in all files together is an offset in one file behind all the files before it |
| FileRanges.RandomParts | source/workers/LocalWorker.cpp:4509-4532 | the random ranges of the workers follow each other in whole blocks, and less than one block for each worker is left over |
| FileRanges.RandomLenWhole | source/workers/LocalWorker.cpp:4509-4517 | the random range of a worker is empty or holds the largest block, as the generator needs |
| FileRanges.RandomFitsIff | source/workers/LocalWorker.cpp:2731-2747 | for all file and block sizes: every random I/O of a worker lies in one file if and only if the largest block reaches over no end of a file from the last grid point before that end |
| FileRanges.WholeBlocksFitIff | source/workers/LocalWorker.cpp:4517-4532 | for files of whole blocks this is the case if and only if there is one block size or the worker's range goes over no end of a file; with one file it never does |
| PathLists.SlicesAdd | source/PathStore.cpp:335-447 | the bytes of two adjacent block ranges, one after the other, are the bytes of the joined range |
| PathLists.WorkersTile | source/PathStore.cpp:341-351 | every worker starts where the one before ends, the last ends with the last block, and gets at most one block per other worker more |
| PathLists.SharedSplitIsExact | source/PathStore.cpp:317-447 | the ranges of ranks 0..T-1, in rank order, are exactly the bytes of all files in list order: each byte once, contiguous per worker |
| PathLists.WorkerCounterAgrees | source/PathStore.cpp:398-446 | a worker's block counter is the number of blocks of its ranges; ranges start on block boundaries, are not empty and end inside the file |
| PathLists.DealIsExact | source/PathStore.cpp:260-315 | dealing out a list gives every element to exactly one rank |
| PathLists.DealIsFair | source/PathStore.cpp:449-523 | the ranks' shares differ by at most one |
| PathLists.StrideIsDeal | source/PathStore.cpp:275-315 | walking the list in strides from the rank on gives the elements whose index leaves the rank as remainder |
| PathLists.BlockListIsExact | source/PathStore.cpp:480-521 | cutting all files into single blocks keeps every byte in order, and the block count |
| PathLists.RoundRobinIsExact | source/PathStore.cpp:466-523 | round-robin gives every byte to exactly one rank, the same bytes and block total as the contiguous split, in shares that differ by at most one block |
| PathLists.CountersAddUp | source/PathStore.cpp:422-446 | the workers' block and byte counters sum up to those of the whole list, in the contiguous and in the round-robin split |
| PathLists.RankIsTaken | source/ProgArgs.cpp:4536-4541 | every rank from the offset on is held by a worker of some service |
| PathLists.RankIsUnique | source/ProgArgs.cpp:4536-4541 | a worker's rank tells its service and its place there, so no two workers share a rank |
| PathLists.TotalsIgnoreOrder | source/PathStore.cpp:232-258 | reordering a list keeps its length and its block and byte totals |
| PathStores.RoundUpIsNextMultiple | source/PathStore.cpp:134-140 | rounding up gives the next multiple if and only if the size is one or the next one is below 2^64 |
| PathStores.WindowsSplitTheTree | source/ProgArgs.cpp:3346-3393 | the size windows of the two stores hold every file line exactly once between them, and the shared store holds no empty file |
| PathStores.PathStore.LoadFiles | source/PathStore.cpp:97-170 | the lines in the size window are appended, rounded up, with counters that agree with the list; fails exactly at a line without size or, inside the window, without path |
| PathStores.PathStore.RandomShuffle | source/PathStore.cpp:232-258 | whatever the order drawn, the list is that order and the counters still agree |
| PathStores.PathStore.GetWorkerSublistNonShared | source/PathStore.cpp:275-315 | appends every T-th path from the rank on; the counters grow by the whole files, whatever the ranges; fails exactly if one of them is smaller than a block and that is not allowed |
| PathStores.PathStore.SliceFile | source/PathStore.cpp:392-425 | the branches compute the part of the file that lies in the worker's range and the blocks still to assign |
| PathStores.PathStore.GetWorkerSublistShared | source/PathStore.cpp:335-447 | appends exactly the worker's slices, with counters; fails exactly if a file it looks at is empty or, where not allowed, a slice is smaller than a block |
| PathStores.PathStore.DealFile | source/PathStore.cpp:488-521 | of one file, takes exactly the blocks whose global index leaves the rank as remainder |
| PathStores.PathStore.GetWorkerSublistSharedRoundRobin | source/PathStore.cpp:466-523 | appends exactly the rank's blocks of all files, with counters; fails exactly if a file is empty or, where not allowed, one of them is partial |
| TreeFiles.LineRead | source/PathStore.cpp:110-157 | a line with any text behind the size is read as that size with that text, trimmed, as its path |
| TreeFiles.PlainRoundTrip | source/PathStore.cpp:525-539 | a generated line is read back as written if and only if the path has no newline and no white space at its ends |
| TreeFiles.Base64RoundTrip | source/PathStore.cpp:154-157 | with Base64 every path is read back, whatever bytes it has |
| UploadStores.KeyOrder | source/S3UploadStore.h:29-56 | the map's order of keys is a strict total order: by the length of the object name, then by the name, then by the bucket |
| UploadStores.StringLessIff | source/S3UploadStore.h:29-56 | names are compared at the first position where they differ, and a name comes before its extensions |
| UploadStores.UploadStore.GetMultipartUploadID | source/S3UploadStore.cpp:95-146 | returns the known ID, or stores and returns the one the server created, or fails and changes nothing |
| UploadStores.UploadStore.AddCompletedPart | source/S3UploadStore.cpp:157-197 | ignores a part of an unknown upload; otherwise appends it, and hands the list out and forgets the upload exactly if the bytes suffice and completion is on |
| UploadStores.UploadStore.GetNextUnfinishedUpload | source/S3UploadStore.cpp:210-225 | hands out and forgets the upload with the first key |
| UploadStores.CompletesExactlyOnce | source/S3UploadStore.cpp:148-197 | in any interleaving with other objects: if positive parts add up to the total and IDs are fetched first, the last add gets the list with every part once in order, and every earlier add gets nothing |
| UploadStores.UploadsConserved | source/S3UploadStore.cpp:95-235 | every upload ever created is still stored or was handed out, never both; a reset only loses uploads |
| UploadStores.HandedOutOnce | source/S3UploadStore.cpp:148-225 | with distinct server IDs, no upload is handed out twice, for completion or abort, in runs with aborts and resets |
| UploadStores.FetchHolds | source/S3UploadStore.cpp:95-146 | after a fetch that got an ID the store holds the key with that ID; it gets none if and only if there was no upload and the server created none |
| UploadStores.FetchesAgree | source/S3UploadStore.cpp:102-104 | in any run, all fetches of a key get one ID until its upload is handed out or the store is reset, whatever the server would create |
| UploadStores.HandsOutFetched | source/S3UploadStore.cpp:148-225 | the upload that ends, by completion or abort, is the one whose ID every fetch got |
| UploadStores.CompletesFetched | source/S3UploadStore.cpp:148-197 | the last add of an object gets all its parts for exactly the upload ID that every fetch before got |
| UploadStores.NoCompletionKeepsAll | source/S3UploadStore.cpp:187-188 | with completion switched off nothing is ever handed out for completion, and an upload keeps its ID and all its parts in order |
| UploadStores.DrainTakesEverything | source/S3UploadStore.cpp:199-225 | asking until nothing is left hands out every stored upload, in the order of the keys |
| RWMixLimiter.ProceedsWithinShare | source/toolkits/RateLimiterRWMixThreads.h:77-84 | if the product does not wrap around, a group may proceed exactly if its bytes, weighted by the other percentage, do not exceed the others' bytes with headroom, weighted by its own |
| RWMixLimiter.NeverBothBlocked | source/toolkits/RateLimiterRWMixThreads.h:144-153 | for every percentage and all counter values whose products do not wrap around, readers or writers may proceed |
| RWMixLimiter.ProceedsIff | source/toolkits/RateLimiterRWMixThreads.h:77-84 | also where products wrap around, as long as the other group is not ahead by more than a bound far below 2^64: a group may proceed if and only if its product does not wrap and it is within its share |
| RWMixLimiter.StepKeepsInv | source/toolkits/RateLimiterRWMixThreads.h:75-91 | every load, comparison and addition keeps: what a thread remembers is no more than the counters give, the bytes added or granted stay within the bound and the cap, and no counter wraps around or sinks |
| RWMixLimiter.BoundedImbalance | source/toolkits/RateLimiterRWMixThreads.h:65-160 | in every interleaving of separate loads, comparison and addition, and however often products wrap around: abs(R(100-p) - Wp) <= B(nW p + nR(100-p)) |
| RWMixLimiter.BytesAreCapped | source/toolkits/RateLimiterRWMixThreads.h:77-91 | in every run, at every percentage: a group is let through no more than (2^64-1)/100 bytes and one block of each of its threads, and both together no more than about 2^64/p, p being the larger percentage |
| RWMixLimiter.NoStall | source/toolkits/RateLimiterRWMixThreads.h:115-124 | of a reader and a writer in their loops, the next undisturbed round of one of them is granted, if and only if not both groups are blocked; they never are while no product wraps around |
| RWMixLimiter.BothBlockedIff | source/toolkits/RateLimiterRWMixThreads.h:77-84 | in every reachable state both groups are blocked if and only if both products wrap around, or one does while the other group is over its share |
| RWMixLimiter.StallIsForever | source/toolkits/RateLimiterRWMixThreads.h:75-91 | once both groups are blocked and no thread holds a grant or an older load of a counter, no run adds a byte or is granted another I/O |
| RWMixLimiter.WrappedIsForever | source/toolkits/RateLimiterRWMixThreads.h:75-91 | once both products have wrapped around, both groups are blocked in every later state of every run, whatever threads have loaded before |
| RWMixLimiter.WrappedAddsOneBlock | source/toolkits/RateLimiterRWMixThreads.h:75-91 | and each thread adds at most one more block, the one for which it had loaded a counter before, however long the run goes on |
| RWMixLimiter.StallIsReached | source/toolkits/RateLimiterRWMixThreads.h:65-91 | for every block size a run of one reader and one writer at 50 percent that is blocked for ever when the bytes come to 2^64/50 |
| HistogramBuckets.ValueInSlot | source/LatencyHistogram.h:220-239 | a value is at least its slot's lower bound, below 2^45 less than its upper bound, and from 2^45 on in the last slot |
| HistogramBuckets.SlotsTile | source/LatencyHistogram.h:216-256 | below 2^45, slot i holds exactly the values from the upper bound of slot i-1 up to its own |
| HistogramBuckets.IndexMono | source/LatencyHistogram.h:220-239 | a larger value is never in an earlier slot |
| HistogramBuckets.RelativeError | source/LatencyHistogram.h:28-33 | the upper bound of a value's slot exceeds it by at most one microsecond or a 64th |
| Histograms.HistogramCounts | source/LatencyHistogram.h:60-76 | every slot counts its samples, and totals, minimum and maximum are those of the samples |
| Histograms.MergeIsConcat | source/LatencyHistogram.h:175-190 | merging two histograms gives the histogram of all their samples |
| Histograms.PercentileAccuracy | source/LatencyHistogram.h:132-143 | the slot found is that of the true nearest-rank percentile q, so for q below 2^45 the result is above q and at most q + max(1, q/64) |
| Histograms.NearestRankExists | source/LatencyHistogram.h:132-143 | for percentages above 0 up to 100 the nearest-rank percentile of samples exists |
| Histograms.NearestRankUnique | source/LatencyHistogram.h:132-143 | and is unique |
| Histograms.WireRoundTrip | source/LatencyHistogram.cpp:142-193 | sending the sparse form and receiving it gives back buckets, counters, minimum and maximum |
| Histograms.DecadeExponent | source/LatencyHistogram.cpp:16-24 | the loop finds the decade of the value |
| Histograms.GroupsConserve | source/LatencyHistogram.cpp:207-218 | the lines of the summary together count every stored value once |
| Histograms.ValueOnOwnLineOrNext | source/LatencyHistogram.cpp:211-218 | a value below 2^45 is counted on the line of its own decade or on the next |
| Histograms.LatencyHistogram.AddLatency | source/LatencyHistogram.h:60-76 | the histogram of one more sample |
| Histograms.LatencyHistogram.Reset | source/LatencyHistogram.h:97-106 | the histogram of no samples |
| Histograms.LatencyHistogram.Merge | source/LatencyHistogram.h:175-190 | slot-wise sums, summed totals, the smaller minimum and the larger maximum, also when merged with itself |
| Histograms.LatencyHistogram.FindPercentileBucketIndex | source/LatencyHistogram.h:199-214 | the first slot at which the cumulative count reaches the percentage |
| Histograms.LatencyHistogram.GetPercentile | source/LatencyHistogram.h:140-143 | for a histogram of samples: the accuracy bound against their nearest-rank percentile |
| Histograms.LatencyHistogram.GetAsPropertyTreeForService | source/LatencyHistogram.cpp:142-161 | the sparse form: one pair for every slot that is not empty |
| Histograms.LatencyHistogram.SetFromPropertyTreeForService | source/LatencyHistogram.cpp:166-193 | the received counters, and cleared buckets with the received pairs applied, pairs out of range skipped |
| Histograms.LatencyHistogram.CategorySums | source/LatencyHistogram.cpp:207-218 | every line's sum is that of the slots whose upper bound lies in its decade |
| Base64.Encode | source/toolkits/Base64Encoder.cpp:15-40 | the 32-bit accumulator yields the encoding of section 4 of RFC 4648: groups of three bytes as four digits, zero bits and padding at the end |
| Base64.GroupValue | source/toolkits/Base64Encoder.cpp:20-30 | the four digits of a group are, to the base 64, the number that its three bytes are to the base 256 |
| Base64.TailIsPrefix | source/toolkits/Base64Encoder.cpp:32-33 | one or two last bytes give the first two or three digits of the group filled up with zeros |
| Base64.EncodedLength | source/toolkits/Base64Encoder.cpp:32-37 | the encoding has four characters for every three bytes begun, and one = for each byte missing from the last group |
| Base64.Shifted8Bits | source/toolkits/Base64Encoder.cpp:20-30 | the bits still to be emitted survive the wrap-around of the accumulator |
| Base64.DigitTable | source/toolkits/Base64Encoder.cpp:48-51 | the table gives the digit of every alphabet character and -1 for all others |
| Base64.Decode | source/toolkits/Base64Encoder.cpp:45-71 | for every text: the bytes of the digits before the first character outside the alphabet |
| Base64.RoundTrip | source/toolkits/Base64Encoder.cpp:15-71 | decoding the encoding of any bytes gives them back |
| BlockSizeMixes.Parse | source/toolkits/BlockSizeMix.cpp:19-93 | the mix of the list, with cumulative weights, total modulo 2^64 and extremes, or nothing for a malformed, empty or duplicate list |
| BlockSizeMixes.ToString | source/toolkits/BlockSizeMix.cpp:98-112 | size and weight of every entry, joined by commas |
| BlockSizeMixes.ParseUndoesPrint | source/toolkits/BlockSizeMix.cpp:95-112 | printing and parsing gives back every mix of distinct positive sizes below 2^63 with positive weights |
| BlockSizeMixes.SizeWithUnit | source/toolkits/UnitTk.cpp:18-78 | digits with a unit letter are the number times another 1024 per step of K, M, G, T, P, E, upper or lower case, modulo 2^64 |
| BlockSizeMixes.EntryWithoutWeight | source/toolkits/BlockSizeMix.cpp:32-66 | an entry without a colon is its size with weight 1, or invalid if the size is 0 or malformed |
| BlockSizeMixes.EntryWithWeight | source/toolkits/BlockSizeMix.cpp:32-66 | an entry with a number after the colon has that weight, or is invalid if size or weight is 0 |
| BlockSizeMixes.ExtremesBound | source/toolkits/BlockSizeMix.cpp:83-91 | smallest and largest size are sizes of the mix and bound all others |
| BlockSizeMixes.GetNextSize | source/toolkits/BlockSizeMix.h:53-67 | the size of the entry drawn for the residue; the only size without a draw |
| BlockSizeMixes.DrawnInterval | source/toolkits/BlockSizeMix.h:58-64 | an entry is drawn exactly for the residues between the weights before it and those up to it |
| BlockSizeMixes.DrawsFollowWeights | source/toolkits/BlockSizeMix.h:49-67 | exactly weight_i of the totalWeight residues draw size_i, for all entries, if and only if the sum of the weights is below 2^64 |
| BlockSizeMixes.WeightsCanVanish | source/toolkits/BlockSizeMix.cpp:75-81 | two weights of 2^63 are accepted and leave a total weight of 0 |
| Text.TextValue | source/toolkits/TranslatorTk.cpp:495-497 | reading back the decimal text of a number gives the number, and only zero starts with a zero |
| Text.SplitJoin | source/toolkits/TranslatorTk.cpp:665 | splitting joined words at any of the delimiters gives back the words |
| Text.SplitRun | source/toolkits/TranslatorTk.cpp:665 | a whole run of delimiters ends one token, also at the end of the text |
| Brackets.IntVecToHumanStr | source/toolkits/TranslatorTk.cpp:345-382 | the maximal runs of the list, as single numbers or ranges, joined by commas |
| Brackets.ExpandSquareBracketsStr | source/toolkits/TranslatorTk.cpp:400-528 | the strings that replace the input when its first bracket pair is expanded, none if it has none, or a failure |
| Brackets.ExpansionShrinks | source/toolkits/TranslatorTk.cpp:433-526 | every replacement has one opening bracket less than the string it replaces |
| Brackets.ExpandSquareBrackets | source/toolkits/TranslatorTk.cpp:538-565 | the in-place index loop ends for every list and equals the recursive expansion; nothing is left to expand in the result; it reports an expansion exactly if one of the strings expands |
| BracketLaws.RunsFlat | source/toolkits/TranslatorTk.cpp:354-372 | the runs hold the numbers of the list in order, sorted or not |
| BracketLaws.RunsMaximal | source/toolkits/TranslatorTk.cpp:354-372 | no run could be joined with the next one |
| BracketLaws.RangeExpands | source/toolkits/TranslatorTk.cpp:470-526 | for any two digit texts a and b of values below INT_MAX, a-b expands to b - a + 1 texts of digits; the i-th has value a + i and the larger of the lengths of a and of the number itself |
| BracketLaws.SameDigits | source/toolkits/TranslatorTk.cpp:483-515 | a digit text is determined by its value and its length |
| BracketLaws.PaddedContentsExpand | source/toolkits/TranslatorTk.cpp:345-526 | expanding a list of numbers and ranges written with leading zeros to any width gives each number in order, filled with zeros to that width |
| BracketLaws.ContentsExpand | source/toolkits/TranslatorTk.cpp:345-526 | expanding the printed form of any non-empty list of numbers below INT_MAX gives each number in order |
| BracketLaws.ExpandUndoesPadding | source/toolkits/TranslatorTk.cpp:392-526 | with any prefix, suffix and width, expanding such a list in brackets gives prefix, filled number, suffix for each number, if and only if the prefix holds no pair that is expanded first and the list is not one digit followed by closing brackets and a colon |
| BracketLaws.ExpandUndoesPrint | source/toolkits/TranslatorTk.cpp:402-434 | with any prefix and suffix, expanding the printed list in brackets gives prefix, number, suffix for each number, if and only if the prefix holds no pair that is expanded first and the list is not one digit followed by closing brackets and a colon |
| BracketLaws.ListsExpand | source/toolkits/TranslatorTk.cpp:538-565 | any number of printed lists in one string expand to their product, the first list varying slowest, if there is no other bracket and none is taken for an address |
| BracketLaws.PortAfterOneDigit | source/toolkits/TranslatorTk.cpp:402-414 | one digit in brackets before a port is not expanded, two digits are |
| BracketLaws.ReplaceCommas | source/toolkits/TranslatorTk.cpp:577-624 | the scan replaces exactly the commas at bracket depth 0 and reports whether there was one |
| BracketLaws.SplitAndExpandStr | source/toolkits/TranslatorTk.cpp:651-673 | replaces, splits and expands, or fails without a delimiter other than the comma |
| BracketLaws.SplitExpandsSpecs | source/toolkits/TranslatorTk.cpp:642-667 | splitting a comma-joined list of balanced, delimiter-free, non-empty specs expands each spec in order |

## Left out

- File creation, mmap, JSON sidecars and file naming of journals: the file is a byte array, its metadata are parameters, msync copies bytes to a second array that stands for the disk.
- `LocalWorker` and the other workers, apart from the division of files into ranges and I/Os: their duties are step guards of the transition systems (one call at a time, no waiting while holding a guard, I/O length at most the maximum, generations filled and verified byte by byte) or parameters.
- Memory ordering, fairness of lock wake-up, condition variables, sleeping and timeouts: each atomic access is one step, and progress means that some step is possible.
- JournalPower.PowerSafety: target writes are durable when they complete and journalsync is on from the creation of the journal, because nothing else could be promised.
- JournalHazards.RestartSafeIffNothingExposed: blocks of at least 8 bytes, because smaller ones hold only a part of the tile value and two generations can agree on it; the same for the other lemmas of this module.
- JournalTile.ContentTellsGenerationsApart: speaks of whole words, so not of blocks below 8 bytes, for the same reason.
- JournalDetection.BlocksApart: another generation of another block only below 2 EiB, because beyond that an offset can undo the difference of two generations.
- RWMixLimiter.BoundedImbalance: for blocks whose size times the number of threads of a group is below 99/100 of 2^64, so that no counter can wrap around; `BothBlockedIff` and the lemmas after it where 300 times size and threads of both groups stay below 2^64.
- JournalSafety.CrashSafety: a crash also ends the device writes in flight, so the writes of a dead process are taken to have landed or failed before the resume; `AbandonBreaks` shows what a later one does. Unlike the end of a process, it does not sync the journal.
- JournalObjects.Journal.CreateNew: the constructor gives a valid journal only below 2^63 blocks, and the other methods require one.
- JournalRuns.ShareOnGrid: for a product of block size and threads below 2^64, as `CheckThreads` divides by the wrapped one.
- FileRanges.IterateFilesSeq: offsets and block numbers are unbounded; the data set is taken to be smaller than 2^64 bytes.
- The reverse, strided and full-coverage offset generators.
- 64-bit wrap-around of byte and block totals in `PathStore` and of offsets in `getWorkerSublistSharedRoundRobin`: totals are unbounded numbers.
- Sorting of path lists, directory lists and the header lines of tree files; `LoadFiles` takes lines as `TreeFiles.ParseLine` reads them.
- Loading upload IDs from the sharing file and the S3 requests themselves: the server's answer is part of the operation.
- Rounding of `double` in percentiles and percentages: exact rationals; the live counters of the histogram, JSON output and label texts of the summary.
- Histograms.LatencyHistogram.CategorySums: sums are unbounded numbers, since the values stored in all slots together stay below 2^64.
- Histograms.DecadeExponent: values below 10^19, because the threshold wraps beyond; it is only asked for upper bounds up to 2^45.
- Brackets.ExpandSquareBracketsStr: a range that ends at INT_MAX counts as a failure; the source's loop counter overflows there.
- The bracket pattern for macOS, which has no look-ahead.
- HTTP services, coordinator, statistics output, option parsing, NUMA, GPU and SPDK support, `RateLimiter`, `HashTk`, `StringTk` and the formatting part of `UnitTk`: plumbing, foreign calls or easy members.
