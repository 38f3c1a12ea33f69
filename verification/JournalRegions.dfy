/** Lock regions and stripes: how a range of journal blocks is mapped to at most two locks. */
module JournalRegions {
  import opened Arith
  import opened Word64

  // Number of stripe locks, shared by all journals of the process.
  const NUM_STRIPES: nat := 65536

  // The factor of the hash, its inverse modulo 2^64, and the range of the bits that are dropped.
  const HASH_FACTOR: u64 := 0x9E37_79B9_7F4A_7C15
  const HASH_INVERSE: u64 := 0xF1DE_83E1_9937_733D
  const LOW_RANGE: nat := 0x1_0000_0000_0000

  // A region holds 2^shift consecutive journal blocks, aligned to its own size.
  function RegionOf(block: nat, shift: nat): nat {
    Quotient(block, Pow2(shift))
  }

  // A region is a run of 2^shift blocks, and the regions follow each other.
  lemma RegionHolds(block: nat, shift: nat, region: nat)
    ensures RegionOf(block, shift) == region <==> region * Pow2(shift) <= block < region * Pow2(shift) + Pow2(shift)
  {
    var p := Pow2(shift);
    hide Pow2;
    if region * p <= block < region * p + p { DivUnique(block, p, region); }
  }

  // Fibonacci hashing of the salted region index, keeping the 16 high bits of the 64-bit product.
  function StripeOfRegion(region: nat, salt: u64): (stripe: nat)
    ensures stripe < NUM_STRIPES
  {
    WrapMul(Xor64(region % WORD, salt), HASH_FACTOR) / LOW_RANGE
  }

  function StripeOf(block: nat, shift: nat, salt: u64): (stripe: nat)
    ensures stripe < NUM_STRIPES
  {
    StripeOfRegion(RegionOf(block, shift), salt)
  }

  // One or two locks in ascending order and without duplicates.
  function Ascending(first: nat, last: nat): (locks: seq<nat>)
    ensures 1 <= |locks| <= 2 && first in locks && last in locks
    ensures |locks| == 2 ==> locks[0] < locks[1]
    ensures forall l <- locks :: l == first || l == last
  {
    if first == last then [first] else if first < last then [first, last] else [last, first]
  }

  // The locks of one I/O: the stripes of its first and its last block.
  function LockList(base: nat, num: nat, shift: nat, salt: u64): (locks: seq<nat>)
    requires num > 0
    ensures 1 <= |locks| <= 2
    ensures |locks| == 2 ==> locks[0] < locks[1]
    ensures forall l <- locks :: l < NUM_STRIPES
  {
    Ascending(StripeOf(base, shift, salt), StripeOf(base + num - 1, shift, salt))
  }

  /**
   * The loop that sizes a region: the smallest power of two that holds one maximum-size I/O. The
   * rounded size is computed in 64-bit arithmetic, and so is the power, which limits the blocks.
   */
  method RegionShift(maxIOSize: u64, journalBlockSize: u64) returns (shift: nat)
    requires journalBlockSize > 0
    requires (maxIOSize + journalBlockSize - 1) % WORD / journalBlockSize <= 0x8000_0000_0000_0000
    ensures CeilDiv(maxIOSize, journalBlockSize) <= Pow2(shift)
      <==> maxIOSize + journalBlockSize <= WORD || maxIOSize <= journalBlockSize
    ensures shift > 0 ==> Pow2(shift - 1) < CeilDiv(maxIOSize, journalBlockSize)
    ensures shift <= 63
  {
    var maxBlocksPerIO := (maxIOSize + journalBlockSize - 1) % WORD / journalBlockSize;
    RoundedSize(maxIOSize, journalBlockSize);
    OneBlockSuffices(maxIOSize, journalBlockSize);
    Pow2Of63();
    shift := 0;
    while Pow2(shift) < maxBlocksPerIO
      invariant shift <= 63 && (shift > 0 ==> Pow2(shift - 1) < maxBlocksPerIO)
      decreases maxBlocksPerIO - Pow2(shift)
    {
      shift := shift + 1;
    }
  }

  lemma Pow2Of63()
    ensures Pow2(63) == 0x8000_0000_0000_0000
  {
    Pow2Of64();
    assert Pow2(64) == 2 * Pow2(63);
  }

  // If the rounded size wraps around, nothing is left of it, and a region gets one block.
  lemma RoundedSize(maxIOSize: u64, journalBlockSize: u64)
    requires journalBlockSize > 0
    ensures maxIOSize + journalBlockSize <= WORD ==>
      (maxIOSize + journalBlockSize - 1) % WORD / journalBlockSize == CeilDiv(maxIOSize, journalBlockSize)
    ensures maxIOSize + journalBlockSize > WORD ==>
      (maxIOSize + journalBlockSize - 1) % WORD / journalBlockSize == 0
  {
    var sum := maxIOSize + journalBlockSize - 1;
    if sum >= WORD {
      AddMultiple(sum - WORD, 1, WORD);
      DivUnique(sum - WORD, journalBlockSize, 0);
    }
  }

  lemma OneBlockSuffices(maxIOSize: u64, journalBlockSize: u64)
    requires journalBlockSize > 0
    ensures CeilDiv(maxIOSize, journalBlockSize) <= 1 <==> maxIOSize <= journalBlockSize
  {
    var sum := maxIOSize + journalBlockSize - 1;
    var q := sum / journalBlockSize;
    assert q * journalBlockSize <= sum < q * journalBlockSize + journalBlockSize;
    if q <= 1 { MulLe(q, 1, journalBlockSize); } else { MulLe(2, q, journalBlockSize); }
  }

  // No I/O of the run is longer than one region.
  lemma IOFitsRegion(ioLen: nat, maxIOSize: nat, journalBlockSize: nat, shift: nat)
    requires journalBlockSize > 0 && ioLen <= maxIOSize
    requires CeilDiv(maxIOSize, journalBlockSize) <= Pow2(shift)
    ensures CeilDiv(ioLen, journalBlockSize) <= Pow2(shift)
  {
    CeilDivMono(ioLen, maxIOSize, journalBlockSize);
  }

  // An I/O no longer than a region reaches at most two regions, so its one or two locks
  // include the stripe of every block that it covers.
  lemma LocksCoverRange(base: nat, num: nat, shift: nat, salt: u64, block: nat)
    requires 0 < num <= Pow2(shift) && base <= block < base + num
    ensures RegionOf(block, shift) == RegionOf(base, shift)
         || RegionOf(block, shift) == RegionOf(base + num - 1, shift) == RegionOf(base, shift) + 1
    ensures StripeOf(block, shift, salt) in LockList(base, num, shift, salt)
  {
    var p := Pow2(shift);
    DivMono(base, block, p);
    DivMono(block, base + num - 1, p);
    DivMono(base + num - 1, base + 1 * p, p);
    DivPlus(base, 1, p);
  }

  // ---- Which seeds share a stripe ----

  // The seed whose hash of the region has the given stripe as its high and low as its low bits.
  function SeedFor(region: nat, stripe: nat, low: nat): u64 {
    Xor64(region % WORD, WrapMul(stripe * LOW_RANGE + low, HASH_INVERSE))
  }

  lemma XorUndone(r: u64, x: u64)
    ensures Xor64(r, Xor64(r, x)) == x && Xor64(r, 0) == r
  {
    XorCommutes(r, x);
    XorCommutes(r, Xor(r, x));
    XorCancels(x, r);
    XorZero(r);
  }

  lemma HashInverts()
    ensures (HASH_FACTOR * HASH_INVERSE) % WORD == 1 && (HASH_INVERSE * HASH_FACTOR) % WORD == 1
  {
  }

  lemma StripeOfSeed(region: nat, stripe: nat, low: nat)
    requires stripe < NUM_STRIPES && low < LOW_RANGE
    ensures WrapMul(Xor64(region % WORD, SeedFor(region, stripe, low)), HASH_FACTOR) == stripe * LOW_RANGE + low
    ensures StripeOfRegion(region, SeedFor(region, stripe, low)) == stripe
  {
    hide Xor64, WrapMul;
    var h: u64 := stripe * LOW_RANGE + low;
    XorUndone(region % WORD, WrapMul(h, HASH_INVERSE));
    HashInverts();
    WrapMulUndone(h, HASH_INVERSE, HASH_FACTOR);
  }

  lemma SeedOfStripe(region: nat, seed: u64)
    ensures var hash := WrapMul(Xor64(region % WORD, seed), HASH_FACTOR);
      SeedFor(region, StripeOfRegion(region, seed), hash % LOW_RANGE) == seed
  {
    hide Xor64, WrapMul;
    var x := Xor64(region % WORD, seed);
    var hash := WrapMul(x, HASH_FACTOR);
    assert hash / LOW_RANGE * LOW_RANGE + hash % LOW_RANGE == hash;
    HashInverts();
    WrapMulUndone(x, HASH_FACTOR, HASH_INVERSE);
    XorUndone(region % WORD, seed);
  }

  // For every region and every stripe, the seeds that map the region to the stripe are exactly
  // those of the 2^48 low parts of the hash. So a journal's seed can put a region on any stripe.
  lemma SeedsOfStripe(region: nat, seed: u64, stripe: nat)
    requires stripe < NUM_STRIPES
    ensures StripeOfRegion(region, seed) == stripe
      <==> exists low: nat | low < LOW_RANGE :: seed == SeedFor(region, stripe, low)
  {
    hide StripeOfRegion, SeedFor;
    if StripeOfRegion(region, seed) == stripe {
      SeedOfStripe(region, seed);
    }
    if low: nat :| low < LOW_RANGE && seed == SeedFor(region, stripe, low) {
      StripeOfSeed(region, stripe, low);
    }
  }

  lemma SeedsAreDistinct(region: nat, stripe: nat, low: nat, low': nat)
    requires stripe < NUM_STRIPES && low < LOW_RANGE && low' < LOW_RANGE
    ensures SeedFor(region, stripe, low) == SeedFor(region, stripe, low') ==> low == low'
  {
    hide SeedFor, Xor64, WrapMul;
    StripeOfSeed(region, stripe, low);
    StripeOfSeed(region, stripe, low');
  }

  // The seeds of the first low parts, and all seeds, that map the region to the stripe.
  ghost function FirstSeeds(region: nat, stripe: nat, count: nat): set<u64> {
    set low: nat | low < count :: SeedFor(region, stripe, low)
  }

  ghost function AllSeeds(region: nat, stripe: nat): set<u64> {
    set seed: u64 | seed < WORD && StripeOfRegion(region, seed) == stripe
  }

  lemma {:induction false} FirstSeedsCount(region: nat, stripe: nat, count: nat)
    requires stripe < NUM_STRIPES && count <= LOW_RANGE
    ensures |FirstSeeds(region, stripe, count)| == count
  {
    hide SeedFor;
    if count > 0 {
      FirstSeedsCount(region, stripe, count - 1);
      var seed := SeedFor(region, stripe, count - 1);
      forall low: nat | low < count - 1 ensures SeedFor(region, stripe, low) != seed {
        SeedsAreDistinct(region, stripe, low, count - 1);
      }
      assert FirstSeeds(region, stripe, count) == FirstSeeds(region, stripe, count - 1) + {seed};
    }
  }

  // Every region shares every stripe with equally many seeds: of the 2^64 seeds, exactly 2^48.
  lemma SeedsPerStripe(region: nat, stripe: nat)
    requires stripe < NUM_STRIPES
    ensures |AllSeeds(region, stripe)| == LOW_RANGE
  {
    hide SeedFor, StripeOfRegion;
    forall seed: u64 ensures seed in AllSeeds(region, stripe) <==> seed in FirstSeeds(region, stripe, LOW_RANGE) {
      SeedsOfStripe(region, seed, stripe);
    }
    assert AllSeeds(region, stripe) == FirstSeeds(region, stripe, LOW_RANGE);
    FirstSeedsCount(region, stripe, LOW_RANGE);
  }

  lemma RegionsAreSeeds(region: u64, seed: u64)
    ensures StripeOfRegion(region, seed) == StripeOfRegion(seed, region)
  {
    hide WrapMul, Xor64;
    Xor64Commutes(region, seed);
  }

  // The same the other way round: the seed of a journal spreads its regions over all stripes,
  // each stripe being that of exactly 2^48 of the 2^64 region numbers.
  lemma RegionsPerStripe(seed: u64, stripe: nat)
    requires stripe < NUM_STRIPES
    ensures |set region: u64 | region < WORD && StripeOfRegion(region, seed) == stripe| == LOW_RANGE
  {
    hide StripeOfRegion;
    forall region: u64 ensures StripeOfRegion(region, seed) == StripeOfRegion(seed, region) {
      RegionsAreSeeds(region, seed);
    }
    assert (set region: u64 | region < WORD && StripeOfRegion(region, seed) == stripe) == AllSeeds(seed, stripe);
    SeedsPerStripe(seed, stripe);
  }

  // Two seeds that share a stripe, for every region.
  lemma SeedsCanShareStripe(region: nat) returns (a: u64, b: u64)
    ensures a != b && StripeOfRegion(region, a) == StripeOfRegion(region, b)
  {
    hide StripeOfRegion, SeedFor;
    a, b := SeedFor(region, 0, 0), SeedFor(region, 0, 1);
    StripeOfSeed(region, 0, 0);
    StripeOfSeed(region, 0, 1);
    SeedsAreDistinct(region, 0, 0, 1);
  }
}
