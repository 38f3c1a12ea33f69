/**
 * The slots of the latency histogram: log-linear buckets over microseconds. Slot i holds the
 * values from the upper bound of the slot before it up to its own upper bound.
 */
module HistogramBuckets {
  import opened Arith
  import opened Word64

  const SUBBUCKET_BITS: nat := 7
  const SUBBUCKET_COUNT: nat := 128
  const SUBBUCKET_HALFCOUNT: nat := 64
  const MAX_BUCKET_IDX: nat := 38
  const NUM_BUCKETS: nat := SUBBUCKET_COUNT + MAX_BUCKET_IDX * SUBBUCKET_HALFCOUNT

  // The position of the highest set bit.
  function HighBit(v: nat): nat
    requires v > 0
  {
    if v == 1 then 0 else 1 + HighBit(v / 2)
  }

  lemma {:induction false} HighBitBounds(v: nat)
    requires v > 0
    ensures Pow2(HighBit(v)) <= v < Pow2(HighBit(v) + 1)
  {
    if v > 1 { HighBitBounds(v / 2); }
  }

  lemma {:induction false} Pow2Mono(a: nat, b: nat)
    requires a <= b
    ensures Pow2(a) <= Pow2(b)
    decreases b
  {
    if a < b { Pow2Mono(a, b - 1); }
  }

  lemma HighBitOf(v: nat, k: nat)
    requires v > 0
    ensures Pow2(k) <= v ==> k <= HighBit(v)
    ensures v < Pow2(k) ==> HighBit(v) < k
  {
    HighBitBounds(v);
    if HighBit(v) < k { Pow2Mono(HighBit(v) + 1, k); } else { Pow2Mono(k, HighBit(v)); }
  }

  lemma SmallPowers()
    ensures Pow2(6) == 64 && Pow2(7) == 128 && Pow2(45) == 0x2000_0000_0000
  {
    assert Pow2(7) == 128;
    Pow2Add(7, 7);
    Pow2Add(14, 14);
    Pow2Add(28, 14);
    assert Pow2(45) == 8 * Pow2(42);
  }

  // The octave of a value of at least SUBBUCKET_COUNT.
  function Octave(v: nat): (b: nat)
    requires v >= SUBBUCKET_COUNT
    ensures 1 <= b <= MAX_BUCKET_IDX
  {
    SmallPowers();
    HighBitOf(v, 7);
    Min(HighBit(v) - (SUBBUCKET_BITS - 1), MAX_BUCKET_IDX)
  }

  function SubBucket(v: nat): (sub: nat)
    requires v >= SUBBUCKET_COUNT
    ensures SUBBUCKET_HALFCOUNT <= sub < SUBBUCKET_COUNT
  {
    var b := Octave(v);
    OctaveHoldsValue(v);
    DivBounds(v, Pow2(b), SUBBUCKET_HALFCOUNT);
    Min(ShiftRight(v, b), SUBBUCKET_COUNT - 1)
  }

  lemma DivBounds(v: nat, p: nat, k: nat)
    requires p > 0
    ensures k * p <= v ==> k <= v / p
    ensures v < k * p ==> v / p < k
  {
    var q := v / p;
    assert q * p <= v < q * p + p && (q + 1) * p == q * p + p;
    MulLe(q + 1, k, p);
    MulLe(k, q, p);
  }

  lemma OctaveHoldsValue(v: nat)
    requires v >= SUBBUCKET_COUNT
    ensures SUBBUCKET_HALFCOUNT * Pow2(Octave(v)) <= v
    ensures v < 0x2000_0000_0000 ==> v < SUBBUCKET_COUNT * Pow2(Octave(v))
  {
    hide Pow2, HighBit;
    SmallPowers();
    HighBitOf(v, 7);
    HighBitOf(v, 45);
    HighBitBounds(v);
    var b := Octave(v);
    Pow2Mono(b + 6, HighBit(v));
    SplitPowers(b);
  }

  lemma SplitPowers(b: nat)
    ensures Pow2(b + 6) == SUBBUCKET_HALFCOUNT * Pow2(b) && Pow2(b + 7) == SUBBUCKET_COUNT * Pow2(b)
  {
    SmallPowers();
    hide Pow2;
    Pow2Add(6, b);
    Pow2Add(7, b);
  }

  function ValueToIndex(v: u64): (i: nat)
    ensures i < NUM_BUCKETS
  {
    if v < SUBBUCKET_COUNT then v
    else SUBBUCKET_COUNT + (Octave(v) - 1) * SUBBUCKET_HALFCOUNT + (SubBucket(v) - SUBBUCKET_HALFCOUNT)
  }

  function UpperBound(i: nat): nat {
    if i < SUBBUCKET_COUNT then i + 1
    else
      var octave := 1 + (i - SUBBUCKET_COUNT) / SUBBUCKET_HALFCOUNT;
      var sub := SUBBUCKET_HALFCOUNT + (i - SUBBUCKET_COUNT) % SUBBUCKET_HALFCOUNT;
      (sub + 1) * Pow2(octave)
  }

  function LowerBound(i: nat): nat {
    if i == 0 then 0 else UpperBound(i - 1)
  }

  // The slot that is sub-bucket sub of octave b.
  function Slot(b: nat, sub: nat): nat
    requires 1 <= b && SUBBUCKET_HALFCOUNT <= sub < SUBBUCKET_COUNT
  {
    SUBBUCKET_COUNT + (b - 1) * SUBBUCKET_HALFCOUNT + (sub - SUBBUCKET_HALFCOUNT)
  }

  lemma SlotUpper(b: nat, sub: nat)
    requires 1 <= b && SUBBUCKET_HALFCOUNT <= sub < SUBBUCKET_COUNT
    ensures UpperBound(Slot(b, sub)) == (sub + 1) * Pow2(b)
  {
    hide Pow2;
    assert (Slot(b, sub) - SUBBUCKET_COUNT) / 64 == b - 1 && (Slot(b, sub) - SUBBUCKET_COUNT) % 64 == sub - 64;
  }

  lemma SlotBounds(b: nat, sub: nat)
    requires 1 <= b && SUBBUCKET_HALFCOUNT <= sub < SUBBUCKET_COUNT
    ensures LowerBound(Slot(b, sub)) == sub * Pow2(b) && UpperBound(Slot(b, sub)) == (sub + 1) * Pow2(b)
  {
    hide UpperBound, Pow2;
    SlotUpper(b, sub);
    if sub > 64 {
      SlotUpper(b, sub - 1);
      assert Slot(b, sub) - 1 == Slot(b, sub - 1);
    } else if b == 1 {
      LinearEnd();
      assert Slot(b, sub) - 1 == 127;
    } else {
      SlotUpper(b - 1, 127);
      Doubles(b);
      assert Slot(b, sub) - 1 == Slot(b - 1, 127);
    }
  }

  lemma LinearEnd()
    ensures UpperBound(127) == 128 && Pow2(1) == 2
  {
  }

  lemma Doubles(b: nat)
    requires b > 0
    ensures Pow2(b) == 2 * Pow2(b - 1)
  {
  }

  lemma IndexIsSlot(v: u64)
    requires v >= SUBBUCKET_COUNT
    ensures ValueToIndex(v) == Slot(Octave(v), SubBucket(v))
  {
    hide Octave, SubBucket;
  }

  lemma SubBucketHoldsValue(v: nat)
    requires v >= SUBBUCKET_COUNT
    ensures SubBucket(v) * Pow2(Octave(v)) <= v
    ensures v < 0x2000_0000_0000 ==> v < (SubBucket(v) + 1) * Pow2(Octave(v))
  {
    OctaveHoldsValue(v);
    var sub, p := SubBucket(v), Pow2(Octave(v));
    assert sub == Min(v / p, 127);
    hide Pow2, Octave, SubBucket;
    QuotientHolds(v, p, sub);
  }

  lemma QuotientHolds(v: nat, p: nat, sub: nat)
    requires p > 0 && sub == Min(v / p, 127)
    ensures sub * p <= v && (v < 128 * p ==> v < (sub + 1) * p)
  {
    var q := v / p;
    assert q * p <= v < q * p + p && (q + 1) * p == q * p + p;
    MulLe(sub, q, p);
    DivBounds(v, p, 128);
  }

  // A value lies in its slot; everything from 2^45 on is in the last slot.
  lemma ValueInSlot(v: u64)
    ensures LowerBound(ValueToIndex(v)) <= v
    ensures v < 0x2000_0000_0000 ==> v < UpperBound(ValueToIndex(v))
    ensures v >= 0x2000_0000_0000 ==> ValueToIndex(v) == NUM_BUCKETS - 1
  {
    if v >= SUBBUCKET_COUNT {
      hide Pow2, Octave, SubBucket, ValueToIndex, UpperBound, LowerBound;
      IndexIsSlot(v);
      SubBucketHoldsValue(v);
      SlotBounds(Octave(v), SubBucket(v));
      if v >= 0x2000_0000_0000 { TopSlot(v); }
    }
  }

  lemma TopSlot(v: nat)
    requires v >= 0x2000_0000_0000
    ensures Octave(v) == MAX_BUCKET_IDX && SubBucket(v) == SUBBUCKET_COUNT - 1
  {
    SmallPowers();
    HighBitOf(v, 45);
    hide Pow2, HighBit;
    Pow2Add(7, 38);
    DivBounds(v, Pow2(38), 128);
  }

  lemma UpperGrows(i: nat)
    ensures LowerBound(i) < UpperBound(i)
  {
    if i >= SUBBUCKET_COUNT {
      hide Pow2;
      var b, sub := 1 + (i - 128) / 64, 64 + (i - 128) % 64;
      assert Slot(b, sub) == i;
      SlotBounds(b, sub);
      assert (sub + 1) * Pow2(b) == sub * Pow2(b) + Pow2(b);
    }
  }

  lemma {:induction false} UpperMono(i: nat, j: nat)
    requires i < j
    ensures UpperBound(i) < UpperBound(j)
    decreases j
  {
    hide UpperBound;
    UpperGrows(j);
    if i + 1 < j { UpperMono(i, j - 1); }
  }

  // The slots tile the range: below 2^45 slot i holds exactly the values between its bounds.
  lemma SlotsTile(v: u64, i: nat)
    requires v < 0x2000_0000_0000 && i < NUM_BUCKETS
    ensures ValueToIndex(v) == i <==> LowerBound(i) <= v < UpperBound(i)
  {
    hide UpperBound, ValueToIndex;
    ValueInSlot(v);
    var j := ValueToIndex(v);
    if j + 1 < i { UpperMono(j, i - 1); }
    if i + 1 < j { UpperMono(i, j - 1); }
  }

  lemma TopBound()
    ensures UpperBound(NUM_BUCKETS - 1) == 0x2000_0000_0000
  {
    SmallPowers();
    Pow2Add(7, 38);
    SlotBounds(38, 127);
  }

  // Larger values are in the same slot or a later one.
  lemma IndexMono(v: u64, w: u64)
    requires v <= w
    ensures ValueToIndex(v) <= ValueToIndex(w)
  {
    hide UpperBound, ValueToIndex;
    ValueInSlot(v);
    ValueInSlot(w);
    var i, j := ValueToIndex(v), ValueToIndex(w);
    TopBound();
    if j + 1 < i { UpperMono(j, i - 1); }
  }

  // The upper bound of a value's slot exceeds it by at most one microsecond or a 64th.
  lemma RelativeError(v: u64)
    requires v < 0x2000_0000_0000
    ensures var upper := UpperBound(ValueToIndex(v)); v < upper <= v + if v / 64 > 1 then v / 64 else 1
  {
    ValueInSlot(v);
    if v >= SUBBUCKET_COUNT {
      hide Pow2, ValueToIndex, UpperBound, Octave, SubBucket;
      var b, sub := Octave(v), SubBucket(v);
      OctaveHoldsValue(v);
      SubBucketHoldsValue(v);
      IndexIsSlot(v);
      SlotBounds(b, sub);
      NextSlotIsNear(v, sub, Pow2(b));
    }
  }

  lemma NextSlotIsNear(v: nat, sub: nat, width: nat)
    requires width >= 1 && sub * width <= v && 64 * width <= v
    ensures (sub + 1) * width <= v + v / 64
  {
    assert (sub + 1) * width == sub * width + width;
  }
}
