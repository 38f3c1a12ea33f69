/**
 * The latency histogram: adding samples, merging histograms, percentiles, the sparse form that
 * services send to the coordinator, and the summary by powers of ten.
 */
module Histograms {
  import opened Word64
  import opened HistogramBuckets

  // ---- The value of a histogram ----

  datatype Hist = Hist(numStored: u64, microSecTotal: u64, minLat: u64, maxLat: u64, buckets: seq<u64>)

  predicate IsHist(h: Hist) {
    |h.buckets| == NUM_BUCKETS
  }

  function Zeros(): (b: seq<u64>)
    ensures |b| == NUM_BUCKETS && forall i | 0 <= i < |b| :: b[i] == 0
  {
    seq(NUM_BUCKETS, _ => 0)
  }

  function Fresh(): Hist {
    Hist(0, 0, WORD - 1, 0, Zeros())
  }

  function Plus(a: u64, b: u64): u64 {
    (a + b) % WORD
  }

  function Lesser(a: u64, b: u64): u64 {
    if b < a then b else a
  }

  function Greater(a: u64, b: u64): u64 {
    if b > a then b else a
  }

  function Added(h: Hist, v: u64): (h': Hist)
    requires IsHist(h)
    ensures IsHist(h')
  {
    var i := ValueToIndex(v);
    Hist(Plus(h.numStored, 1), Plus(h.microSecTotal, v), Lesser(h.minLat, v), Greater(h.maxLat, v),
         h.buckets[i := Plus(h.buckets[i], 1)])
  }

  // The histogram of a list of samples.
  function Of(samples: seq<u64>): (h: Hist)
    ensures IsHist(h)
  {
    if samples == [] then Fresh() else Added(Of(samples[..|samples| - 1]), samples[|samples| - 1])
  }

  function Merged(h: Hist, g: Hist): (m: Hist)
    requires IsHist(h) && IsHist(g)
    ensures IsHist(m)
  {
    Hist(Plus(h.numStored, g.numStored), Plus(h.microSecTotal, g.microSecTotal), Lesser(h.minLat, g.minLat),
         Greater(h.maxLat, g.maxLat),
         seq(NUM_BUCKETS, i requires 0 <= i < NUM_BUCKETS => Plus(h.buckets[i], g.buckets[i])))
  }

  // ---- What it counts ----

  function CountIn(samples: seq<u64>, i: nat): nat {
    if samples == [] then 0
    else CountIn(samples[..|samples| - 1], i) + if ValueToIndex(samples[|samples| - 1]) == i then 1 else 0
  }

  function Sum(samples: seq<u64>): nat {
    if samples == [] then 0 else Sum(samples[..|samples| - 1]) + samples[|samples| - 1]
  }

  lemma PlusCounts(a: nat, b: u64)
    ensures Plus(a % WORD, b) == (a + b) % WORD
  {
  }

  lemma {:induction false} SlotCounts(samples: seq<u64>, i: nat)
    requires i < NUM_BUCKETS
    ensures Of(samples).buckets[i] == CountIn(samples, i) % WORD
    decreases |samples|
  {
    hide ValueToIndex, Plus, Zeros;
    if samples != [] {
      SlotCounts(samples[..|samples| - 1], i);
      PlusCounts(CountIn(samples[..|samples| - 1], i), 1);
    }
  }

  lemma {:induction false} TotalsCount(samples: seq<u64>)
    ensures Of(samples).numStored == |samples| % WORD && Of(samples).microSecTotal == Sum(samples) % WORD
    decreases |samples|
  {
    hide ValueToIndex, Plus, Zeros;
    if samples != [] {
      var init := samples[..|samples| - 1];
      TotalsCount(init);
      PlusCounts(|init|, 1);
      PlusCounts(Sum(init), samples[|samples| - 1]);
    }
  }

  lemma {:induction false} Extremes(samples: seq<u64>)
    ensures forall v <- samples :: Of(samples).minLat <= v <= Of(samples).maxLat
    ensures samples != [] ==> Of(samples).minLat in samples && Of(samples).maxLat in samples
    decreases |samples|
  {
    hide ValueToIndex, Plus, Zeros;
    if samples != [] {
      var init, v := samples[..|samples| - 1], samples[|samples| - 1];
      Extremes(init);
      assert samples == init + [v];
    }
  }

  // Every slot counts its samples; the totals and the extremes are those of the samples.
  lemma HistogramCounts(samples: seq<u64>, i: nat)
    requires i < NUM_BUCKETS
    ensures var h := Of(samples);
      && h.buckets[i] == CountIn(samples, i) % WORD
      && h.numStored == |samples| % WORD && h.microSecTotal == Sum(samples) % WORD
      && (forall v <- samples :: h.minLat <= v <= h.maxLat)
      && (samples != [] ==> h.minLat in samples && h.maxLat in samples)
  {
    hide Of, CountIn, Sum;
    SlotCounts(samples, i);
    TotalsCount(samples);
    Extremes(samples);
  }

  lemma PlusLaws(a: u64, b: u64, c: u64)
    ensures Plus(a, Plus(b, c)) == Plus(Plus(a, b), c) && Plus(a, 0) == a
  {
    PlusCounts(a + b, c);
    PlusCounts(b + c, a);
  }

  lemma MergeAdded(h: Hist, g: Hist, v: u64)
    requires IsHist(h) && IsHist(g)
    ensures Merged(h, Added(g, v)) == Added(Merged(h, g), v)
  {
    hide ValueToIndex, Plus;
    PlusLaws(h.numStored, g.numStored, 1);
    PlusLaws(h.microSecTotal, g.microSecTotal, v);
    var i := ValueToIndex(v);
    PlusLaws(h.buckets[i], g.buckets[i], 1);
    assert Merged(h, Added(g, v)).buckets == Added(Merged(h, g), v).buckets;
  }

  lemma MergeFresh(h: Hist)
    requires IsHist(h)
    ensures Merged(h, Fresh()) == h
  {
    hide Plus;
    forall i | 0 <= i < NUM_BUCKETS ensures Merged(h, Fresh()).buckets[i] == h.buckets[i] {
      PlusLaws(h.buckets[i], 0, 0);
    }
    assert Merged(h, Fresh()).buckets == h.buckets;
    PlusLaws(h.numStored, 0, 0);
    PlusLaws(h.microSecTotal, 0, 0);
  }

  // Merging two histograms gives the histogram of all samples.
  lemma {:induction false} MergeIsConcat(a: seq<u64>, b: seq<u64>)
    ensures Merged(Of(a), Of(b)) == Of(a + b)
    decreases |b|
  {
    hide Added, Merged;
    if b == [] {
      MergeFresh(Of(a));
      assert a + b == a;
    } else {
      var init, v := b[..|b| - 1], b[|b| - 1];
      MergeIsConcat(a, init);
      MergeAdded(Of(a), Of(init), v);
      assert (a + b)[..|a + b| - 1] == a + init;
    }
  }

  // ---- Percentiles ----

  // Sum of the first n slots.
  function SumUpTo(buckets: seq<u64>, n: nat): nat
    requires n <= |buckets|
  {
    if n == 0 then 0 else SumUpTo(buckets, n - 1) + buckets[n - 1]
  }

  predicate Reaches(count: nat, numStored: u64, percentage: real)
    requires numStored > 0
  {
    count as real / numStored as real >= percentage / 100.0
  }

  // The first slot, from i on, at which the cumulative count reaches the percentage.
  function FirstReaching(h: Hist, percentage: real, i: nat): (r: nat)
    requires IsHist(h) && h.numStored > 0 && i <= NUM_BUCKETS
    ensures r < NUM_BUCKETS
    decreases NUM_BUCKETS - i
  {
    if i == NUM_BUCKETS then NUM_BUCKETS - 1
    else if Reaches(SumUpTo(h.buckets, i + 1) % WORD, h.numStored, percentage) then i
    else FirstReaching(h, percentage, i + 1)
  }

  function CountLe(samples: seq<u64>, q: nat): nat {
    if samples == [] then 0
    else CountLe(samples[..|samples| - 1], q) + if samples[|samples| - 1] <= q then 1 else 0
  }

  function CountLt(samples: seq<u64>, q: nat): nat {
    if q == 0 then 0 else CountLe(samples, q - 1)
  }

  // q is the sample at the nearest rank: at least the given percentage of all samples are no
  // larger, and the smaller ones are fewer than that.
  ghost predicate IsNearestRank(samples: seq<u64>, percentage: real, q: u64) {
    && q in samples
    && 100.0 * CountLe(samples, q) as real >= percentage * |samples| as real
    && 100.0 * CountLt(samples, q) as real < percentage * |samples| as real
  }

  // Samples in the slots up to i.
  function CountUpTo(samples: seq<u64>, i: nat): nat {
    if samples == [] then 0
    else CountUpTo(samples[..|samples| - 1], i) + if ValueToIndex(samples[|samples| - 1]) < i then 1 else 0
  }

  lemma {:induction false} CountUpToStep(samples: seq<u64>, i: nat)
    ensures CountUpTo(samples, i + 1) == CountUpTo(samples, i) + CountIn(samples, i)
    ensures CountUpTo(samples, 0) == 0 && CountIn(samples, i) <= |samples| && CountUpTo(samples, i) <= |samples|
    decreases |samples|
  {
    hide ValueToIndex;
    if samples != [] { CountUpToStep(samples[..|samples| - 1], i); }
  }

  lemma {:induction false} CumulativeCount(samples: seq<u64>, n: nat)
    requires |samples| < WORD && n <= NUM_BUCKETS
    ensures SumUpTo(Of(samples).buckets, n) == CountUpTo(samples, n)
    decreases n
  {
    hide Of, CountUpTo, CountIn;
    if n > 0 {
      CumulativeCount(samples, n - 1);
      CountUpToStep(samples, n - 1);
      HistogramCounts(samples, n - 1);
    } else {
      CountUpToStep(samples, 0);
    }
  }

  // Up to the slot of q are at least the samples no larger than q; before it, only smaller ones.
  lemma {:induction false} CountsAround(samples: seq<u64>, q: u64, i: nat)
    ensures ValueToIndex(q) < i ==> CountLe(samples, q) <= CountUpTo(samples, i)
    ensures i <= ValueToIndex(q) ==> CountUpTo(samples, i) <= CountLt(samples, q)
    decreases |samples|
  {
    hide ValueToIndex;
    if samples != [] {
      var v := samples[|samples| - 1];
      CountsAround(samples[..|samples| - 1], q, i);
      if v <= q { IndexMono(v, q); } else { IndexMono(q, v); }
    } else {
      assert CountLt(samples, q) == 0;
    }
  }

  lemma ReachesIsShare(count: nat, numStored: u64, percentage: real)
    requires numStored > 0
    ensures Reaches(count, numStored, percentage) <==> 100.0 * count as real >= percentage * numStored as real
  {
    var c, n := count as real, numStored as real;
    var ratio := c / n;
    assert ratio * n == c;
    if ratio >= percentage / 100.0 {
      ScaleUp(percentage / 100.0, ratio, n);
    } else {
      ScaleUp(ratio, percentage / 100.0, n);
      ScaleStrict(ratio, percentage / 100.0, n);
    }
  }

  lemma ScaleUp(a: real, b: real, n: real)
    requires a <= b && n > 0.0
    ensures a * n <= b * n
  {
    assert (b - a) * n >= 0.0;
  }

  lemma ScaleStrict(a: real, b: real, n: real)
    requires a < b && n > 0.0
    ensures a * n < b * n
  {
    assert (b - a) * n > 0.0;
  }

  // Up to q's slot, the percentage is reached at q's slot only.
  lemma ReachedAtSlot(samples: seq<u64>, percentage: real, q: u64, i: nat)
    requires 0 < |samples| < WORD && IsNearestRank(samples, percentage, q) && i <= ValueToIndex(q)
    ensures Reaches(CountUpTo(samples, i + 1), |samples|, percentage) <==> i == ValueToIndex(q)
  {
    hide ValueToIndex, Reaches, CountUpTo, CountLe, CountLt;
    var n := |samples|;
    CountsAround(samples, q, i + 1);
    ReachesIsShare(CountUpTo(samples, i + 1), n, percentage);
  }

  lemma CumulativeIs(samples: seq<u64>, n: nat)
    requires |samples| < WORD && n <= NUM_BUCKETS
    ensures SumUpTo(Of(samples).buckets, n) % WORD == CountUpTo(samples, n)
  {
    hide Of, CountUpTo, SumUpTo;
    CumulativeCount(samples, n);
    CountUpToStep(samples, n);
  }

  // From any slot up to q's, the search ends at q's slot.
  lemma {:induction false} SearchFindsSlot(samples: seq<u64>, percentage: real, q: u64, i: nat)
    requires 0 < |samples| < WORD && IsNearestRank(samples, percentage, q) && i <= ValueToIndex(q)
    requires Of(samples).numStored == |samples|
    ensures FirstReaching(Of(samples), percentage, i) == ValueToIndex(q)
    decreases NUM_BUCKETS - i
  {
    hide Of, ValueToIndex, Reaches, CountUpTo, SumUpTo, IsNearestRank;
    CumulativeIs(samples, i + 1);
    ReachedAtSlot(samples, percentage, q, i);
    if i < ValueToIndex(q) {
      SearchFindsSlot(samples, percentage, q, i + 1);
    }
  }

  lemma RankedSamples(samples: seq<u64>, percentage: real, q: u64)
    requires |samples| < WORD && IsNearestRank(samples, percentage, q)
    ensures samples != [] && Of(samples).numStored == |samples|
  {
    hide Of, CountLe;
    TotalsCount(samples);
  }

  // The percentile found is that of the slot holding the true nearest-rank percentile, hence at
  // most a 64th (or one microsecond) above it.
  lemma PercentileAccuracy(samples: seq<u64>, percentage: real, q: u64)
    requires |samples| < WORD && IsNearestRank(samples, percentage, q)
    ensures Of(samples).numStored > 0
    ensures FirstReaching(Of(samples), percentage, 0) == ValueToIndex(q)
    ensures q < 0x2000_0000_0000 ==>
      var p := UpperBound(FirstReaching(Of(samples), percentage, 0)); q < p <= q + if q / 64 > 1 then q / 64 else 1
    ensures q >= 0x2000_0000_0000 ==> FirstReaching(Of(samples), percentage, 0) == NUM_BUCKETS - 1
  {
    hide Of, ValueToIndex, UpperBound, FirstReaching, IsNearestRank;
    RankedSamples(samples, percentage, q);
    SearchFindsSlot(samples, percentage, q, 0);
    ValueInSlot(q);
    if q < 0x2000_0000_0000 { RelativeError(q); }
  }

  // ---- The nearest rank is well defined ----

  lemma {:induction false} CountLeFacts(samples: seq<u64>, q: nat, r: nat)
    ensures CountLe(samples, q) <= |samples|
    ensures q <= r ==> CountLe(samples, q) <= CountLe(samples, r)
    ensures (forall v <- samples :: v <= q) ==> CountLe(samples, q) == |samples|
    ensures (forall v <- samples :: v <= q || r < v) && q <= r ==> CountLe(samples, q) == CountLe(samples, r)
    decreases |samples|
  {
    if samples != [] {
      var init := samples[..|samples| - 1];
      assert samples[|samples| - 1] in samples && forall v <- init :: v in samples;
      CountLeFacts(init, q, r);
    }
  }

  lemma {:induction false} LargestUpTo(samples: seq<u64>, r: nat) returns (w: u64)
    requires CountLe(samples, r) > 0
    ensures w in samples && w <= r && forall v <- samples :: v <= w || r < v
    decreases |samples|
  {
    var init, last := samples[..|samples| - 1], samples[|samples| - 1];
    assert samples == init + [last];
    if CountLe(init, r) == 0 {
      w := last;
      NoneUpTo(init, r);
    } else {
      w := LargestUpTo(init, r);
      if w < last <= r { w := last; }
    }
  }

  lemma {:induction false} NoneUpTo(samples: seq<u64>, r: nat)
    requires CountLe(samples, r) == 0
    ensures forall v <- samples :: r < v
    decreases |samples|
  {
    if samples != [] {
      NoneUpTo(samples[..|samples| - 1], r);
      assert samples == samples[..|samples| - 1] + [samples[|samples| - 1]];
    }
  }

  // Descending from a sample that reaches the percentage, the nearest rank is found.
  lemma {:induction false} RankBelow(samples: seq<u64>, percentage: real, start: u64) returns (q: u64)
    requires start in samples && percentage > 0.0
    requires 100.0 * CountLe(samples, start) as real >= percentage * |samples| as real
    ensures IsNearestRank(samples, percentage, q)
    decreases start
  {
    hide CountLe;
    if 100.0 * CountLt(samples, start) as real < percentage * |samples| as real {
      q := start;
    } else {
      ScaleStrict(0.0, percentage, |samples| as real);
      var w := LargestUpTo(samples, start - 1);
      CountLeFacts(samples, w, start - 1);
      q := RankBelow(samples, percentage, w);
    }
  }

  lemma NearestRankExists(samples: seq<u64>, percentage: real) returns (q: u64)
    requires samples != [] && 0.0 < percentage <= 100.0
    ensures IsNearestRank(samples, percentage, q)
  {
    hide CountLe;
    var n := |samples| as real;
    ScaleUp(percentage, 100.0, n);
    CountLeFacts(samples, WORD, WORD);
    var w := LargestUpTo(samples, WORD);
    CountLeFacts(samples, w, WORD);
    q := RankBelow(samples, percentage, w);
  }

  lemma NearestRankUnique(samples: seq<u64>, percentage: real, q: u64, r: u64)
    requires IsNearestRank(samples, percentage, q) && IsNearestRank(samples, percentage, r)
    ensures q == r
  {
    hide CountLe;
    if q < r { CountLeFacts(samples, q, r - 1); }
    if r < q { CountLeFacts(samples, r, q - 1); }
  }

  // ---- The sparse form ----

  // One pair of index and count for each slot that is not empty.
  function Sparse(buckets: seq<u64>, n: nat): seq<(nat, u64)>
    requires n <= |buckets|
  {
    if n == 0 then [] else Sparse(buckets, n - 1) + if buckets[n - 1] != 0 then [(n - 1, buckets[n - 1])] else []
  }

  // Pairs with an index out of range are skipped.
  function Applied(buckets: seq<u64>, entries: seq<(nat, u64)>): (b: seq<u64>)
    ensures |b| == |buckets|
  {
    if entries == [] then buckets
    else
      var b, entry := Applied(buckets, entries[..|entries| - 1]), entries[|entries| - 1];
      if entry.0 >= |buckets| then b else b[entry.0 := entry.1]
  }

  datatype Wire = Wire(numStored: u64, microSecTotal: u64, minLat: u64, maxLat: u64, entries: seq<(nat, u64)>)

  function ToWire(h: Hist): Wire {
    Wire(h.numStored, h.microSecTotal, h.minLat, h.maxLat, Sparse(h.buckets, |h.buckets|))
  }

  function FromWire(w: Wire): Hist {
    Hist(w.numStored, w.microSecTotal, w.minLat, w.maxLat, Applied(Zeros(), w.entries))
  }

  lemma {:induction false} AppliedSparse(buckets: seq<u64>, n: nat)
    requires |buckets| == NUM_BUCKETS && n <= NUM_BUCKETS
    ensures Applied(Zeros(), Sparse(buckets, n)) == buckets[..n] + Zeros()[n..]
    decreases n
  {
    hide Sparse, Applied, Zeros;
    if n > 0 {
      AppliedSparse(buckets, n - 1);
      SparseStep(buckets, n - 1);
      FilledStep(buckets, n - 1);
    } else {
      NothingApplied(buckets);
    }
  }

  lemma NothingApplied(buckets: seq<u64>)
    ensures Applied(Zeros(), Sparse(buckets, 0)) == buckets[..0] + Zeros()[0..]
  {
    hide Zeros;
    assert buckets[..0] == [] && Zeros()[0..] == Zeros();
  }

  lemma SparseStep(buckets: seq<u64>, n: nat)
    requires n < |buckets| == NUM_BUCKETS
    ensures var before := Applied(Zeros(), Sparse(buckets, n));
      Applied(Zeros(), Sparse(buckets, n + 1)) == if buckets[n] == 0 then before else before[n := buckets[n]]
  {
    hide Zeros;
    var entries, entry := Sparse(buckets, n), (n, buckets[n]);
    assert (entries + [entry])[..|entries|] == entries && entries + [] == entries;
  }

  lemma FilledStep(buckets: seq<u64>, n: nat)
    requires n < |buckets| == NUM_BUCKETS
    ensures var before := buckets[..n] + Zeros()[n..];
      buckets[..n + 1] + Zeros()[n + 1..] == if buckets[n] == 0 then before else before[n := buckets[n]]
  {
  }

  // Sending and receiving a histogram gives back the same histogram.
  lemma WireRoundTrip(h: Hist)
    requires IsHist(h)
    ensures FromWire(ToWire(h)) == h
  {
    AppliedSparse(h.buckets, NUM_BUCKETS);
  }

  // ---- Powers of ten ----

  function Pow10(n: nat): (p: nat)
    ensures p >= 1
  {
    if n == 0 then 1 else 10 * Pow10(n - 1)
  }

  // The number of digits after the first.
  function Decade(v: nat): nat {
    if v < 10 then 0 else 1 + Decade(v / 10)
  }

  lemma {:induction false} DecadeBounds(v: nat)
    ensures v < Pow10(Decade(v) + 1) && (v > 0 ==> Pow10(Decade(v)) <= v)
  {
    if v >= 10 { DecadeBounds(v / 10); } else { assert Decade(v) == 0 && Pow10(0) == 1 && Pow10(1) == 10; }
  }

  lemma {:induction false} Pow10Mono(a: nat, b: nat)
    requires a <= b
    ensures Pow10(a) <= Pow10(b)
    decreases b
  {
    if a < b { Pow10Mono(a, b - 1); }
  }

  lemma DecadeIs(v: nat, d: nat)
    requires v < Pow10(d + 1) && (d > 0 ==> Pow10(d) <= v)
    ensures Decade(v) == d
  {
    DecadeBounds(v);
    DecadeOfZero();
    hide Pow10, Decade;
    if Decade(v) < d { Pow10Mono(Decade(v) + 1, d); }
    if d < Decade(v) { Pow10Mono(d + 1, Decade(v)); }
  }

  lemma DecadeOfZero()
    ensures Decade(0) == 0
  {
  }

  method DecadeExponent(v: u64) returns (exponent: nat)
    requires v < Pow10(19)
    ensures exponent == Decade(v)
  {
    hide Decade;
    exponent := 0;
    var threshold := 10;
    assert Pow10(1) == 10;
    while v >= threshold
      invariant threshold == Pow10(exponent + 1) && exponent < 19 && (exponent > 0 ==> Pow10(exponent) <= v)
      decreases 19 - exponent
    {
      if exponent + 1 >= 19 { Pow10Mono(19, exponent + 1); }
      exponent := exponent + 1;
      threshold := threshold * 10;
    }
    DecadeIs(v, exponent);
  }

  // The samples counted on a line of the summary: those in the slots whose upper bound has that
  // many digits.
  function GroupSum(buckets: seq<u64>, n: nat, decade: nat): nat
    requires n <= |buckets|
  {
    if n == 0 then 0
    else GroupSum(buckets, n - 1, decade) + if Decade(UpperBound(n - 1)) == decade then buckets[n - 1] else 0
  }

  function GroupTotal(buckets: seq<u64>, n: nat, decades: nat): nat
    requires n <= |buckets|
  {
    if decades == 0 then 0 else GroupTotal(buckets, n, decades - 1) + GroupSum(buckets, n, decades - 1)
  }

  lemma {:induction false} GroupTotalStep(buckets: seq<u64>, n: nat, decades: nat)
    requires 0 < n <= |buckets|
    ensures GroupTotal(buckets, n, decades)
      == GroupTotal(buckets, n - 1, decades) + if Decade(UpperBound(n - 1)) < decades then buckets[n - 1] else 0
    decreases decades
  {
    hide Decade, UpperBound;
    if decades > 0 { GroupTotalStep(buckets, n, decades - 1); }
  }

  lemma {:induction false} NoGroups(buckets: seq<u64>, decades: nat)
    ensures GroupTotal(buckets, 0, decades) == 0
  {
    if decades > 0 { NoGroups(buckets, decades - 1); }
  }

  // The lines of the summary hold every stored value exactly once.
  lemma {:induction false} GroupsConserve(buckets: seq<u64>, n: nat)
    requires n <= |buckets| == NUM_BUCKETS
    ensures GroupTotal(buckets, n, 20) == SumUpTo(buckets, n)
    decreases n
  {
    hide Decade, UpperBound, GroupTotal;
    if n > 0 {
      GroupsConserve(buckets, n - 1);
      GroupTotalStep(buckets, n, 20);
      SlotDecade(n - 1);
    } else {
      NoGroups(buckets, 20);
    }
  }

  lemma BigPower()
    ensures 0x2000_0000_0000 < Pow10(14) && Pow10(14) < Pow10(19)
  {
    assert Pow10(5) == 100000;
    assert Pow10(10) == 100000 * Pow10(5);
    assert Pow10(14) == 10000 * Pow10(10);
    assert Pow10(19) == 100000 * Pow10(14);
  }

  lemma SlotDecade(i: nat)
    requires i < NUM_BUCKETS
    ensures UpperBound(i) <= 0x2000_0000_0000 && UpperBound(i) < Pow10(19) && Decade(UpperBound(i)) < 20
  {
    BigPower();
    TopBound();
    DecadeBounds(UpperBound(i));
    hide Decade, UpperBound, Pow10;
    if i < NUM_BUCKETS - 1 { UpperMono(i, NUM_BUCKETS - 1); }
    if Decade(UpperBound(i)) >= 20 {
      Pow10Mono(14, Decade(UpperBound(i)));
      DecadeOfZero();
    }
  }

  // A value below 2^45 is counted on its own line or on the next one.
  lemma ValueOnOwnLineOrNext(v: u64)
    requires v < 0x2000_0000_0000
    ensures Decade(UpperBound(ValueToIndex(v))) in {Decade(v), Decade(v) + 1}
  {
    var d, upper := Decade(v), UpperBound(ValueToIndex(v));
    RelativeError(v);
    DecadeBounds(v);
    assert upper < Pow10(d + 2) by { assert Pow10(d + 2) == 10 * Pow10(d + 1); }
    hide ValueToIndex, UpperBound, Decade;
    if upper < Pow10(d + 1) {
      DecadeOfZero();
      DecadeIs(upper, d);
    } else {
      DecadeIs(upper, d + 1);
    }
  }

  // ---- The object ----

  class LatencyHistogram {
    var numStoredValues: u64
    var numMicroSecTotal: u64
    var minMicroSecLat: u64
    var maxMicroSecLat: u64
    var buckets: seq<u64>

    ghost predicate Valid()
      reads this
    {
      |buckets| == NUM_BUCKETS
    }

    function Value(): (h: Hist)
      reads this
    {
      Hist(numStoredValues, numMicroSecTotal, minMicroSecLat, maxMicroSecLat, buckets)
    }

    constructor ()
      ensures Valid() && Value() == Of([])
    {
      numStoredValues, numMicroSecTotal, minMicroSecLat, maxMicroSecLat := 0, 0, WORD - 1, 0;
      buckets := Zeros();
    }

    method AddLatency(latency: u64)
      requires Valid()
      modifies this
      ensures Valid() && Value() == Added(old(Value()), latency)
    {
      numStoredValues := (numStoredValues + 1) % WORD;
      numMicroSecTotal := (numMicroSecTotal + latency) % WORD;
      if latency < minMicroSecLat {
        minMicroSecLat := latency;
      }
      if latency > maxMicroSecLat {
        maxMicroSecLat := latency;
      }
      var i := ValueToIndex(latency);
      buckets := buckets[i := (buckets[i] + 1) % WORD];
    }

    method ResetBuckets()
      requires Valid()
      modifies this`buckets
      ensures buckets == Zeros()
    {
      var i := 0;
      while i < NUM_BUCKETS
        invariant i <= NUM_BUCKETS && |buckets| == NUM_BUCKETS && forall k | 0 <= k < i :: buckets[k] == 0
      {
        buckets := buckets[i := 0];
        i := i + 1;
      }
      assert buckets == Zeros();
    }

    method Reset()
      requires Valid()
      modifies this
      ensures Valid() && Value() == Of([])
    {
      ResetBuckets();
      numStoredValues, numMicroSecTotal, minMicroSecLat, maxMicroSecLat := 0, 0, WORD - 1, 0;
    }

    method Merge(rhs: LatencyHistogram)
      requires Valid() && rhs.Valid()
      modifies this
      ensures Valid() && Value() == Merged(old(Value()), old(rhs.Value()))
    {
      var i := 0;
      while i < NUM_BUCKETS
        invariant i <= NUM_BUCKETS && |buckets| == NUM_BUCKETS
        invariant forall k | 0 <= k < i :: buckets[k] == Plus(old(buckets)[k], old(rhs.buckets)[k])
        invariant forall k | i <= k < NUM_BUCKETS :: buckets[k] == old(buckets)[k]
        invariant rhs != this ==> unchanged(rhs)
        invariant unchanged(this`numStoredValues, this`numMicroSecTotal, this`minMicroSecLat, this`maxMicroSecLat)
      {
        buckets := buckets[i := (buckets[i] + rhs.buckets[i]) % WORD];
        i := i + 1;
      }
      assert buckets == Merged(old(Value()), old(rhs.Value())).buckets;
      numStoredValues := (numStoredValues + rhs.numStoredValues) % WORD;
      numMicroSecTotal := (numMicroSecTotal + rhs.numMicroSecTotal) % WORD;
      if rhs.minMicroSecLat < minMicroSecLat {
        minMicroSecLat := rhs.minMicroSecLat;
      }
      if rhs.maxMicroSecLat > maxMicroSecLat {
        maxMicroSecLat := rhs.maxMicroSecLat;
      }
    }

    method FindPercentileBucketIndex(percentage: real) returns (index: nat)
      requires Valid() && numStoredValues > 0
      ensures index == FirstReaching(Value(), percentage, 0)
    {
      hide Plus, Reaches;
      var numValuesSoFar := 0;
      index := 0;
      while index < NUM_BUCKETS
        invariant index <= NUM_BUCKETS && numValuesSoFar == SumUpTo(buckets, index) % WORD
        invariant FirstReaching(Value(), percentage, 0) == FirstReaching(Value(), percentage, index)
      {
        PlusCounts(SumUpTo(buckets, index), buckets[index]);
        numValuesSoFar := Plus(numValuesSoFar, buckets[index]);
        if Reaches(numValuesSoFar, numStoredValues, percentage) {
          return;
        }
        index := index + 1;
      }
      index := NUM_BUCKETS - 1;
    }

    // The percentile shown for a histogram of given samples.
    method GetPercentile(percentage: real, ghost samples: seq<u64>, ghost q: u64) returns (p: nat)
      requires Valid() && Value() == Of(samples) && |samples| < WORD && IsNearestRank(samples, percentage, q)
      ensures q < 0x2000_0000_0000 ==> q < p <= q + if q / 64 > 1 then q / 64 else 1
      ensures q >= 0x2000_0000_0000 ==> p == 0x2000_0000_0000
    {
      hide FirstReaching, Of, IsNearestRank, UpperBound;
      PercentileAccuracy(samples, percentage, q);
      TopBound();
      var index := FindPercentileBucketIndex(percentage);
      p := UpperBound(index);
    }

    method GetAsPropertyTreeForService() returns (w: Wire)
      requires Valid()
      ensures w == ToWire(Value())
    {
      var entries := [];
      var i := 0;
      while i < NUM_BUCKETS
        invariant i <= NUM_BUCKETS && entries == Sparse(buckets, i)
      {
        if buckets[i] != 0 {
          entries := entries + [(i, buckets[i])];
        }
        i := i + 1;
      }
      w := Wire(numStoredValues, numMicroSecTotal, minMicroSecLat, maxMicroSecLat, entries);
    }

    method SetFromPropertyTreeForService(w: Wire)
      requires Valid()
      modifies this
      ensures Valid() && Value() == FromWire(w)
    {
      numStoredValues, numMicroSecTotal := w.numStored, w.microSecTotal;
      minMicroSecLat, maxMicroSecLat := w.minLat, w.maxLat;
      ResetBuckets();
      var i := 0;
      while i < |w.entries|
        invariant i <= |w.entries| && buckets == Applied(Zeros(), w.entries[..i])
        invariant numStoredValues == w.numStored && numMicroSecTotal == w.microSecTotal
        invariant minMicroSecLat == w.minLat && maxMicroSecLat == w.maxLat
      {
        assert w.entries[..i + 1][..i] == w.entries[..i];
        var (bucketIndex, bucketCount) := w.entries[i];
        if bucketIndex < NUM_BUCKETS {
          buckets := buckets[bucketIndex := bucketCount];
        }
        i := i + 1;
      }
      assert w.entries[..|w.entries|] == w.entries;
    }

    // The counts of the summary's lines.
    method CategorySums() returns (sums: seq<nat>)
      requires Valid()
      ensures |sums| == 20 && forall d | 0 <= d < 20 :: sums[d] == GroupSum(buckets, NUM_BUCKETS, d)
    {
      hide Decade, UpperBound;
      sums := seq(20, _ => 0);
      var i := 0;
      while i < NUM_BUCKETS
        invariant i <= NUM_BUCKETS && |sums| == 20
        invariant forall d | 0 <= d < 20 :: sums[d] == GroupSum(buckets, i, d)
      {
        if buckets[i] != 0 {
          SlotDecade(i);
          var decade := DecadeExponent(UpperBound(i));
          sums := sums[decade := sums[decade] + buckets[i]];
        }
        i := i + 1;
      }
    }
  }
}
