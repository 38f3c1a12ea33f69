/**
 * The balance between reader and writer threads: every thread compares the bytes of its own group
 * with a limit computed from both groups' counters, and adds its block if it may. Each load of a
 * shared counter and each addition is a step of its own, so any number of threads interleave.
 */
module RWMixLimiter {
  import opened Arith
  import opened Word64

  // ---- The limit ----

  // 64-bit arithmetic as written: headroom, sum and product can wrap around.
  function WithHeadroom(otherBytes: nat, maxBlock: nat, otherThreads: nat): u64 {
    (otherBytes + (maxBlock * otherThreads) % WORD) % WORD
  }

  function Allowed(withHeadroom: nat, ownBytes: nat, percent: nat): u64 {
    ((withHeadroom + ownBytes) % WORD * percent) % WORD / 100
  }

  predicate MayProceed(ownBytes: nat, otherBytes: nat, percent: nat, maxBlock: nat, otherThreads: nat) {
    ownBytes <= Allowed(WithHeadroom(otherBytes, maxBlock, otherThreads), ownBytes, percent)
  }

  // Neither the sum of the bytes nor its product with the percentage reaches 2^64.
  predicate NoOverflow(ownBytes: nat, otherBytes: nat, percent: nat, maxBlock: nat, otherThreads: nat) {
    var sum := otherBytes + maxBlock * otherThreads + ownBytes;
    sum < WORD && sum * percent < WORD
  }

  lemma SmallSum(other: nat, headroom: nat, own: nat)
    requires other + headroom + own < WORD
    ensures (other + headroom % WORD) % WORD == other + headroom
    ensures (other + headroom + own) % WORD == other + headroom + own
  {
  }

  // As long as the sum does not wrap around, only the product can.
  lemma AllowedIs(ownBytes: nat, otherBytes: nat, percent: nat, maxBlock: nat, otherThreads: nat)
    requires otherBytes + maxBlock * otherThreads + ownBytes < WORD
    ensures Allowed(WithHeadroom(otherBytes, maxBlock, otherThreads), ownBytes, percent)
      == ((otherBytes + maxBlock * otherThreads + ownBytes) * percent) % WORD / 100
  {
    SmallSum(otherBytes, maxBlock * otherThreads, ownBytes);
  }

  lemma Spread(own: nat, limit: nat, percent: nat)
    requires percent <= 100
    ensures (limit + own) * percent == limit * percent + own * percent
    ensures own * (100 - percent) == own * 100 - own * percent
  {
  }

  // A group may proceed exactly if it has not yet used more than its share.
  lemma ProceedsWithinShare(ownBytes: nat, otherBytes: nat, percent: nat, maxBlock: nat, otherThreads: nat)
    requires percent <= 100 && NoOverflow(ownBytes, otherBytes, percent, maxBlock, otherThreads)
    ensures MayProceed(ownBytes, otherBytes, percent, maxBlock, otherThreads)
      <==> ownBytes * (100 - percent) <= (otherBytes + maxBlock * otherThreads) * percent
  {
    hide Allowed, WithHeadroom;
    var limit := otherBytes + maxBlock * otherThreads;
    AllowedIs(ownBytes, otherBytes, percent, maxBlock, otherThreads);
    MulLe(0, limit + ownBytes, percent);
    Spread(ownBytes, limit, percent);
  }

  // At no moment are both groups over their share.
  lemma NeverBothBlocked(read: nat, written: nat, percent: nat, maxBlock: nat, readers: nat, writers: nat)
    requires percent <= 100
    requires NoOverflow(read, written, percent, maxBlock, writers)
    requires NoOverflow(written, read, 100 - percent, maxBlock, readers)
    ensures MayProceed(read, written, percent, maxBlock, writers)
      || MayProceed(written, read, 100 - percent, maxBlock, readers)
  {
    hide MayProceed, NoOverflow;
    ProceedsWithinShare(read, written, percent, maxBlock, writers);
    ProceedsWithinShare(written, read, 100 - percent, maxBlock, readers);
    OneWithinShare(read, written, percent, maxBlock * readers, maxBlock * writers);
  }

  lemma OneWithinShare(read: nat, written: nat, percent: nat, readHeadroom: nat, writeHeadroom: nat)
    requires percent <= 100
    ensures read * (100 - percent) <= (written + writeHeadroom) * percent
      || written * percent <= (read + readHeadroom) * (100 - percent)
  {
    MulLe(written, written + writeHeadroom, percent);
    MulLe(read, read + readHeadroom, 100 - percent);
  }

  // What is left of a product that wrapped around is below the group's own bytes, unless the
  // other group is far ahead of its share.
  lemma WrappedIsLess(product: nat, own: nat)
    requires WORD <= product < WORD + own * 100
    ensures product % WORD / 100 < own
  {
    AddMultiple(product - WORD, 1, WORD);
    assert product % WORD <= product - WORD;
  }

  // The exact condition, also where the product wraps around: as long as the other group is
  // ahead by no more than a bound far below 2^64, a group may proceed if and only if its product
  // does not wrap around and it is within its share.
  lemma ProceedsIff(ownBytes: nat, otherBytes: nat, percent: nat, maxBlock: nat, otherThreads: nat, bound: int)
    requires percent <= 100 && otherBytes + maxBlock * otherThreads + ownBytes < WORD
    requires otherBytes * percent - ownBytes * (100 - percent) <= bound
    requires maxBlock * otherThreads * percent + bound < WORD
    ensures MayProceed(ownBytes, otherBytes, percent, maxBlock, otherThreads)
      <==> NoOverflow(ownBytes, otherBytes, percent, maxBlock, otherThreads)
           && ownBytes * (100 - percent) <= (otherBytes + maxBlock * otherThreads) * percent
  {
    var h := maxBlock * otherThreads;
    var product := (otherBytes + h + ownBytes) * percent;
    if product < WORD {
      ProceedsWithinShare(ownBytes, otherBytes, percent, maxBlock, otherThreads);
    } else {
      hide Allowed, WithHeadroom;
      AllowedIs(ownBytes, otherBytes, percent, maxBlock, otherThreads);
      Spread(ownBytes, otherBytes + h, percent);
      Spread(otherBytes, h, percent);
      WrappedIsLess(product, ownBytes);
    }
  }

  // ---- Threads ----

  datatype Phase =
    | Idle
    | Calling(block: nat)                     // in the retry loop, nothing loaded yet
    | SawOther(block: nat, withHeadroom: nat) // has loaded the other group's counter
    | SawOwn(block: nat, allowed: nat)        // has loaded its own group's counter
    | Granted(block: nat)                     // has passed the comparison, not yet added

  datatype Group = Group(bytes: nat, threads: seq<Phase>)

  datatype Action = Call(block: nat) | LoadOther | LoadOwn | Compare | Add | GiveUp

  // What a group needs to know about the run: its percentage and the size of a block.
  datatype Share = Share(percent: nat, maxBlock: nat)

  predicate CanDo(s: Share, own: Group, i: nat, a: Action) {
    i < |own.threads| && match a
      case Call(block) => own.threads[i].Idle? && block <= s.maxBlock
      case LoadOther => own.threads[i].Calling?
      case LoadOwn => own.threads[i].SawOther?
      case Compare => own.threads[i].SawOwn?
      case Add => own.threads[i].Granted?
      case GiveUp => own.threads[i].Calling?
  }

  function NextPhase(s: Share, own: Group, other: Group, i: nat, a: Action): Phase
    requires CanDo(s, own, i, a)
  {
    var t := own.threads[i];
    match a
    case Call(block) => Calling(block)
    case LoadOther => SawOther(t.block, WithHeadroom(other.bytes, s.maxBlock, |other.threads|))
    case LoadOwn => SawOwn(t.block, Allowed(t.withHeadroom, own.bytes, s.percent))
    case Compare => if own.bytes <= t.allowed then Granted(t.block) else Calling(t.block)
    case Add => Idle
    case GiveUp => Idle
  }

  function NextBytes(own: Group, i: nat, a: Action): nat
    requires i < |own.threads| && (a.Add? ==> own.threads[i].Granted?)
  {
    if a.Add? then (own.bytes + own.threads[i].block) % WORD else own.bytes
  }

  function NextGroup(s: Share, own: Group, other: Group, i: nat, a: Action): Group
    requires CanDo(s, own, i, a)
  {
    Group(NextBytes(own, i, a), own.threads[i := NextPhase(s, own, other, i, a)])
  }

  datatype State = State(readers: Group, writers: Group)

  datatype Config = Config(readPercent: nat, maxBlock: nat)

  datatype Event = Reader(i: nat, a: Action) | Writer(i: nat, a: Action)

  function ReadShare(c: Config): Share {
    Share(c.readPercent, c.maxBlock)
  }

  function WriteShare(c: Config): Share
    requires c.readPercent <= 100
  {
    Share(100 - c.readPercent, c.maxBlock)
  }

  predicate Enabled(c: Config, s: State, e: Event)
    requires c.readPercent <= 100
  {
    match e
    case Reader(i, a) => CanDo(ReadShare(c), s.readers, i, a)
    case Writer(i, a) => CanDo(WriteShare(c), s.writers, i, a)
  }

  function Apply(c: Config, s: State, e: Event): State
    requires c.readPercent <= 100 && Enabled(c, s, e)
  {
    match e
    case Reader(i, a) => s.(readers := NextGroup(ReadShare(c), s.readers, s.writers, i, a))
    case Writer(i, a) => s.(writers := NextGroup(WriteShare(c), s.writers, s.readers, i, a))
  }

  // The events lead from s to t.
  ghost predicate Leads(c: Config, s: State, events: seq<Event>, t: State)
    requires c.readPercent <= 100
    decreases |events|
  {
    && (events == [] ==> s == t)
    && (events != [] ==> Enabled(c, s, events[0]) && Leads(c, Apply(c, s, events[0]), events[1..], t))
  }

  predicate Init(s: State) {
    && s.readers.bytes == 0 && s.writers.bytes == 0
    && (forall t <- s.readers.threads :: t.Idle?) && (forall t <- s.writers.threads :: t.Idle?)
  }

  // ---- The invariant of one group ----

  function PendingOf(t: Phase): nat {
    if t.Granted? then t.block else 0
  }

  function Pending(threads: seq<Phase>): nat {
    if threads == [] then 0 else Pending(threads[..|threads| - 1]) + PendingOf(threads[|threads| - 1])
  }

  lemma {:induction false} PendingUpdate(threads: seq<Phase>, i: nat, t: Phase)
    requires i < |threads|
    ensures Pending(threads[i := t]) == Pending(threads) - PendingOf(threads[i]) + PendingOf(t)
    decreases |threads|
  {
    var init := threads[..|threads| - 1];
    if i == |threads| - 1 {
      assert threads[i := t][..|threads| - 1] == init;
    } else {
      PendingUpdate(init, i, t);
      assert threads[i := t][..|threads| - 1] == init[i := t];
    }
  }

  lemma PendingOfOne(threads: seq<Phase>, i: nat)
    requires i < |threads|
    ensures PendingOf(threads[i]) <= Pending(threads)
  {
    PendingUpdate(threads, i, Idle);
  }

  lemma {:induction false} PendingBound(threads: seq<Phase>, maxBlock: nat)
    requires forall t <- threads :: t.Idle? || t.block <= maxBlock
    ensures Pending(threads) <= |threads| * maxBlock
    decreases |threads|
  {
    if threads != [] {
      PendingBound(threads[..|threads| - 1], maxBlock);
      assert threads[|threads| - 1] in threads;
      assert |threads| * maxBlock == (|threads| - 1) * maxBlock + maxBlock;
    }
  }

  // What a thread remembers from its loads is no more than the current counters give.
  predicate Remembers(s: Share, own: nat, limit: nat, t: Phase) {
    match t
    case Idle => true
    case Calling(block) => block <= s.maxBlock
    case SawOther(block, withHeadroom) => block <= s.maxBlock && withHeadroom <= limit
    case SawOwn(block, allowed) => block <= s.maxBlock && allowed * 100 <= (limit + own) * s.percent
    case Granted(block) => block <= s.maxBlock
  }

  function Limit(s: Share, other: Group): nat {
    other.bytes + s.maxBlock * |other.threads|
  }

  // Counting the blocks that were granted but not yet added, the group is within its bound.
  ghost predicate Balanced(s: Share, own: Group, limit: nat)
    requires s.percent <= 100
  {
    (own.bytes + Pending(own.threads)) * (100 - s.percent)
      <= limit * s.percent + |own.threads| * s.maxBlock * (100 - s.percent)
  }

  // The limit is a 64-bit product divided by 100.
  const CAP: nat := (WORD - 1) / 100

  // So no more than this is granted, but for the blocks of threads that were granted at once.
  ghost predicate Capped(s: Share, own: Group) {
    && (forall t <- own.threads :: t.SawOwn? ==> t.allowed <= CAP)
    && own.bytes + Pending(own.threads) <= CAP + |own.threads| * s.maxBlock
  }

  ghost predicate GroupInv(s: Share, own: Group, other: Group)
    requires s.percent <= 100
  {
    && (forall t <- own.threads :: Remembers(s, own.bytes, Limit(s, other), t))
    && Balanced(s, own, Limit(s, other)) && Capped(s, own)
  }

  // Block size and number of threads leave room for the cap. Then no addition wraps around.
  predicate Room(s: Share, threads: nat) {
    CAP + threads * s.maxBlock < WORD
  }

  lemma AddFits(s: Share, own: Group, i: nat)
    requires Capped(s, own) && Room(s, |own.threads|) && i < |own.threads| && own.threads[i].Granted?
    ensures own.bytes + own.threads[i].block < WORD
  {
    hide Pending;
    PendingOfOne(own.threads, i);
  }

  lemma RemembersMono(s: Share, own: nat, limit: nat, own': nat, limit': nat, t: Phase)
    requires Remembers(s, own, limit, t) && own <= own' && limit <= limit'
    ensures Remembers(s, own', limit', t)
  {
    MulLe(limit + own, limit' + own', s.percent);
  }

  lemma BalancedMono(s: Share, own: Group, limit: nat, limit': nat)
    requires s.percent <= 100 && Balanced(s, own, limit) && limit <= limit'
    ensures Balanced(s, own, limit')
  {
    MulLe(limit, limit', s.percent);
  }

  // A group keeps its invariant while the other one moves.
  lemma OtherGrows(s: Share, own: Group, other: Group, other': Group)
    requires s.percent <= 100 && GroupInv(s, own, other)
    requires other.bytes <= other'.bytes && |other.threads| == |other'.threads|
    ensures GroupInv(s, own, other')
  {
    hide Remembers, Balanced, Capped;
    forall t | t in own.threads ensures Remembers(s, own.bytes, Limit(s, other'), t) {
      RemembersMono(s, own.bytes, Limit(s, other), own.bytes, Limit(s, other'), t);
    }
    BalancedMono(s, own, Limit(s, other), Limit(s, other'));
  }

  lemma StepRemembers(s: Share, own: Group, other: Group, i: nat, a: Action)
    requires s.percent <= 100 && CanDo(s, own, i, a) && GroupInv(s, own, other)
    ensures Remembers(s, own.bytes, Limit(s, other), NextPhase(s, own, other, i, a))
  {
    hide Balanced, Pending, Capped;
    var t := own.threads[i];
    assert t in own.threads;
    var limit := Limit(s, other);
    match a
    case Call(_) =>
    case LoadOther => WrapLowers(other.bytes, s.maxBlock * |other.threads|);
    case LoadOwn => LoadedLimit(t.withHeadroom, limit, own.bytes, s.percent);
    case Compare =>
    case Add =>
    case GiveUp =>
  }

  // Wrapping around only ever lowers what a thread computes.
  lemma ModLowers(x: nat)
    ensures 0 <= x % WORD <= x
  {
  }

  lemma WrapLowers(other: nat, headroom: nat)
    ensures (other + headroom % WORD) % WORD <= other + headroom
  {
    ModLowers(headroom);
    ModLowers(other + headroom % WORD);
  }

  lemma LoadedLimit(withHeadroom: nat, limit: nat, own: nat, percent: nat)
    requires withHeadroom <= limit
    ensures Allowed(withHeadroom, own, percent) * 100 <= (limit + own) * percent
  {
    var sum := (withHeadroom + own) % WORD;
    ModLowers(withHeadroom + own);
    MulLe(0, sum, percent);
    ModLowers(sum * percent);
    MulLe(sum, limit + own, percent);
  }

  // A granted block keeps the bound, because the group was within its share at the comparison.
  lemma GrantKeepsBound(s: Share, own: Group, limit: nat, threads: seq<Phase>, allowed: nat)
    requires s.percent <= 100 && allowed * 100 <= (limit + own.bytes) * s.percent && own.bytes <= allowed
    requires |threads| == |own.threads| && forall t <- threads :: t.Idle? || t.block <= s.maxBlock
    ensures Balanced(s, Group(own.bytes, threads), limit)
  {
    hide Pending;
    var q, pending := 100 - s.percent, Pending(threads);
    PendingBound(threads, s.maxBlock);
    MulLe(pending, |threads| * s.maxBlock, q);
    Spread(own.bytes, limit, s.percent);
    assert (own.bytes + pending) * q == own.bytes * q + pending * q;
  }

  // No step but a granted comparison raises the bytes that are added or pending.
  lemma OwnTotal(s: Share, own: Group, other: Group, i: nat, a: Action)
    requires s.percent <= 100 && CanDo(s, own, i, a) && GroupInv(s, own, other) && Room(s, |own.threads|)
    ensures var own' := NextGroup(s, own, other, i, a);
      && own.bytes <= own'.bytes
      && (own'.bytes + Pending(own'.threads) <= own.bytes + Pending(own.threads)
          || (a.Compare? && own.bytes <= own.threads[i].allowed))
  {
    hide Pending, Balanced, Capped, Room;
    assert own.threads[i] in own.threads;
    PendingUpdate(own.threads, i, NextPhase(s, own, other, i, a));
    if a.Add? { AddFits(s, own, i); }
  }

  lemma AllowedIsCapped(withHeadroom: nat, own: nat, percent: nat)
    ensures Allowed(withHeadroom, own, percent) <= CAP
  {
    var sum := (withHeadroom + own) % WORD;
    MulLe(0, sum, percent);
    DivMono(sum * percent % WORD, WORD - 1, 100);
  }

  lemma StepCapped(s: Share, own: Group, other: Group, i: nat, a: Action)
    requires s.percent <= 100 && CanDo(s, own, i, a) && GroupInv(s, own, other) && Room(s, |own.threads|)
    ensures Capped(s, NextGroup(s, own, other, i, a))
  {
    hide Pending, Balanced, Remembers, Room, Allowed, WithHeadroom;
    var own', t := NextGroup(s, own, other, i, a), own.threads[i];
    assert t in own.threads;
    OwnTotal(s, own, other, i, a);
    if a.LoadOwn? { AllowedIsCapped(t.withHeadroom, own.bytes, s.percent); }
    if own'.bytes + Pending(own'.threads) > own.bytes + Pending(own.threads) {
      StepRemembers(s, own, other, i, a);
      BlocksBounded(s, own'.threads, own.bytes, Limit(s, other));
      PendingBound(own'.threads, s.maxBlock);
    }
  }

  lemma OwnStep(s: Share, own: Group, other: Group, i: nat, a: Action)
    requires s.percent <= 100 && CanDo(s, own, i, a) && GroupInv(s, own, other) && Room(s, |own.threads|)
    ensures var own' := NextGroup(s, own, other, i, a);
      GroupInv(s, own', other) && own.bytes <= own'.bytes && |own'.threads| == |own.threads|
  {
    hide Remembers, NextPhase, Pending, Room, Capped;
    var own', limit := NextGroup(s, own, other, i, a), Limit(s, other);
    OwnTotal(s, own, other, i, a);
    StepRemembers(s, own, other, i, a);
    StepCapped(s, own, other, i, a);
    forall t | t in own'.threads ensures Remembers(s, own'.bytes, limit, t) {
      RemembersMono(s, own.bytes, limit, own'.bytes, limit, t);
    }
    if own'.bytes + Pending(own'.threads) <= own.bytes + Pending(own.threads) {
      MulLe(own'.bytes + Pending(own'.threads), own.bytes + Pending(own.threads), 100 - s.percent);
    } else {
      BlocksBounded(s, own'.threads, own'.bytes, limit);
      assert own.threads[i] in own.threads;
      CompareLimit(s, own.bytes, limit, own.threads[i]);
      GrantKeepsBound(s, own, limit, own'.threads, own.threads[i].allowed);
    }
  }

  lemma BlocksBounded(s: Share, threads: seq<Phase>, own: nat, limit: nat)
    requires forall t <- threads :: Remembers(s, own, limit, t)
    ensures forall t <- threads :: t.Idle? || t.block <= s.maxBlock
  {
  }

  lemma CompareLimit(s: Share, own: nat, limit: nat, t: Phase)
    requires Remembers(s, own, limit, t) && t.SawOwn?
    ensures t.allowed * 100 <= (limit + own) * s.percent
  {
  }

  // ---- Whole runs ----

  ghost predicate Inv(c: Config, s: State)
    requires c.readPercent <= 100
  {
    GroupInv(ReadShare(c), s.readers, s.writers) && GroupInv(WriteShare(c), s.writers, s.readers)
  }

  lemma InitInv(c: Config, s: State)
    requires c.readPercent <= 100 && Init(s)
    ensures Inv(c, s)
  {
    hide Pending;
    NothingPending(s.readers.threads);
    NothingPending(s.writers.threads);
    StartsBalanced(ReadShare(c), s.readers, Limit(ReadShare(c), s.writers));
    StartsBalanced(WriteShare(c), s.writers, Limit(WriteShare(c), s.readers));
    MulLe(0, |s.readers.threads|, c.maxBlock);
    MulLe(0, |s.writers.threads|, c.maxBlock);
    hide Balanced, Limit;
  }

  lemma StartsBalanced(s: Share, own: Group, limit: nat)
    requires s.percent <= 100 && own.bytes == 0 && Pending(own.threads) == 0
    ensures Balanced(s, own, limit)
  {
    MulLe(0, limit, s.percent);
    MulLe(0, |own.threads|, s.maxBlock);
    MulLe(0, |own.threads| * s.maxBlock, 100 - s.percent);
  }

  lemma {:induction false} NothingPending(threads: seq<Phase>)
    requires forall t <- threads :: t.Idle?
    ensures Pending(threads) == 0
    decreases |threads|
  {
    if threads != [] {
      assert threads[|threads| - 1] in threads;
      NothingPending(threads[..|threads| - 1]);
    }
  }

  // Both groups have room for the cap.
  predicate BothRoom(c: Config, readers: nat, writers: nat)
    requires c.readPercent <= 100
  {
    Room(ReadShare(c), readers) && Room(WriteShare(c), writers)
  }

  lemma StepKeepsInv(c: Config, s: State, e: Event)
    requires c.readPercent <= 100 && Inv(c, s) && Enabled(c, s, e)
    requires BothRoom(c, |s.readers.threads|, |s.writers.threads|)
    ensures var s' := Apply(c, s, e);
      && Inv(c, s') && |s'.readers.threads| == |s.readers.threads| && |s'.writers.threads| == |s.writers.threads|
      && s.readers.bytes <= s'.readers.bytes && s.writers.bytes <= s'.writers.bytes
  {
    hide GroupInv, CanDo, NextPhase, NextBytes, Room;
    match e
    case Reader(i, a) =>
      OwnStep(ReadShare(c), s.readers, s.writers, i, a);
      OtherGrows(WriteShare(c), s.writers, s.readers, Apply(c, s, e).readers);
    case Writer(i, a) =>
      OwnStep(WriteShare(c), s.writers, s.readers, i, a);
      OtherGrows(ReadShare(c), s.readers, s.writers, Apply(c, s, e).writers);
  }

  lemma {:induction false} RunKeepsInv(c: Config, s: State, events: seq<Event>, t: State)
    requires c.readPercent <= 100 && Inv(c, s) && Leads(c, s, events, t)
    requires BothRoom(c, |s.readers.threads|, |s.writers.threads|)
    ensures Inv(c, t) && s.readers.bytes <= t.readers.bytes && s.writers.bytes <= t.writers.bytes
    ensures |t.readers.threads| == |s.readers.threads| && |t.writers.threads| == |s.writers.threads|
    decreases |events|
  {
    hide Inv, Enabled, Apply, Room;
    if events != [] {
      StepKeepsInv(c, s, events[0]);
      RunKeepsInv(c, Apply(c, s, events[0]), events[1..], t);
    }
  }

  // In every reachable state, the bytes read and written are in the given ratio up to one block
  // of every thread, weighted by the other group's percentage.
  lemma BoundedImbalance(c: Config, s: State, events: seq<Event>, t: State)
    requires c.readPercent <= 100 && Init(s) && Leads(c, s, events, t)
    requires BothRoom(c, |s.readers.threads|, |s.writers.threads|)
    ensures var p, nR, nW := c.readPercent, |s.readers.threads|, |s.writers.threads|;
      var imbalance := t.readers.bytes * (100 - p) - t.writers.bytes * p;
      var bound := c.maxBlock * (nW * p + nR * (100 - p));
      -bound <= imbalance <= bound
    ensures |t.readers.threads| == |s.readers.threads| && |t.writers.threads| == |s.writers.threads|
  {
    hide Leads, Init, Remembers, Room, Capped;
    InitInv(c, s);
    RunKeepsInv(c, s, events, t);
    var p, nR, nW, b := c.readPercent, |s.readers.threads|, |s.writers.threads|, c.maxBlock;
    GroupBound(ReadShare(c), t.readers, t.writers);
    GroupBound(WriteShare(c), t.writers, t.readers);
    hide GroupInv;
    Weighted(b, nW, p, nR, 100 - p);
  }

  lemma Weighted(b: nat, nW: nat, p: nat, nR: nat, q: nat)
    ensures b * (nW * p + nR * q) == b * nW * p + nR * b * q
    ensures b * (nW * p + nR * q) == b * nR * q + nW * b * p
  {
    assert b * (nW * p + nR * q) == b * (nW * p) + b * (nR * q);
    assert b * (nW * p) == b * nW * p && b * (nR * q) == b * nR * q;
  }

  lemma GroupBound(s: Share, own: Group, other: Group)
    requires s.percent <= 100 && GroupInv(s, own, other)
    ensures own.bytes * (100 - s.percent) - other.bytes * s.percent
      <= s.maxBlock * |other.threads| * s.percent + |own.threads| * s.maxBlock * (100 - s.percent)
  {
    MulLe(own.bytes, own.bytes + Pending(own.threads), 100 - s.percent);
    assert Limit(s, other) * s.percent == other.bytes * s.percent + s.maxBlock * |other.threads| * s.percent;
  }

  lemma GroupsCapped(c: Config, s: State)
    requires c.readPercent <= 100 && Inv(c, s)
    ensures s.readers.bytes <= CAP + |s.readers.threads| * c.maxBlock
    ensures s.writers.bytes <= CAP + |s.writers.threads| * c.maxBlock
  {
    hide Pending, Balanced, Remembers;
  }

  lemma TotalOfCapped(own: nat, other: nat, percent: nat, blocks: nat, bound: int)
    requires percent <= 100 && own <= CAP + blocks && other * percent - own * (100 - percent) <= bound
    ensures (own + other) * percent < WORD + 100 * blocks + bound
  {
    Spread(own, other, percent);
  }

  // In every run at every percentage, the limiter lets through no more than about 2^64 / 100 bytes
  // of a group, and so no more than about 2^64 / p in all, p being the larger percentage.
  lemma BytesAreCapped(c: Config, s: State, events: seq<Event>, t: State)
    requires c.readPercent <= 100 && Init(s) && Leads(c, s, events, t)
    requires BothRoom(c, |s.readers.threads|, |s.writers.threads|)
    ensures var p, nR, nW, bytes := c.readPercent, |s.readers.threads|, |s.writers.threads|, t.readers.bytes + t.writers.bytes;
      var bound := c.maxBlock * (nW * p + nR * (100 - p));
      && t.readers.bytes <= CAP + nR * c.maxBlock && t.writers.bytes <= CAP + nW * c.maxBlock
      && bytes * p < WORD + 100 * (nR * c.maxBlock) + bound
      && bytes * (100 - p) < WORD + 100 * (nW * c.maxBlock) + bound
  {
    hide Leads, Init, Room, Inv;
    BoundedImbalance(c, s, events, t);
    InitInv(c, s);
    RunKeepsInv(c, s, events, t);
    GroupsCapped(c, t);
    var p, nR, nW := c.readPercent, |s.readers.threads|, |s.writers.threads|;
    var bound := c.maxBlock * (nW * p + nR * (100 - p));
    TotalOfCapped(t.readers.bytes, t.writers.bytes, p, nR * c.maxBlock, bound);
    TotalOfCapped(t.writers.bytes, t.readers.bytes, 100 - p, nW * c.maxBlock, bound);
  }

  // ---- Progress ----

  predicate ReadersMay(c: Config, s: State) {
    MayProceed(s.readers.bytes, s.writers.bytes, c.readPercent, c.maxBlock, |s.writers.threads|)
  }

  predicate WritersMay(c: Config, s: State)
    requires c.readPercent <= 100
  {
    MayProceed(s.writers.bytes, s.readers.bytes, 100 - c.readPercent, c.maxBlock, |s.readers.threads|)
  }

  predicate BothBlocked(c: Config, s: State)
    requires c.readPercent <= 100
  {
    !ReadersMay(c, s) && !WritersMay(c, s)
  }

  predicate ReadersFit(c: Config, s: State) {
    NoOverflow(s.readers.bytes, s.writers.bytes, c.readPercent, c.maxBlock, |s.writers.threads|)
  }

  predicate WritersFit(c: Config, s: State)
    requires c.readPercent <= 100
  {
    NoOverflow(s.writers.bytes, s.readers.bytes, 100 - c.readPercent, c.maxBlock, |s.readers.threads|)
  }

  // A thread's next round through its loop, if no other thread interferes.
  function Round(s: Share, own: Group, other: Group, i: nat): Group
    requires i < |own.threads| && own.threads[i].Calling?
  {
    var own1 := NextGroup(s, own, other, i, LoadOther);
    var own2 := NextGroup(s, own1, other, i, LoadOwn);
    NextGroup(s, own2, other, i, Compare)
  }

  // Of a reader and a writer that are both in their loops, the next undisturbed round of one is
  // granted, if and only if not both groups are blocked. Without an overflow they never are.
  lemma NoStall(c: Config, s: State, i: nat, j: nat)
    requires c.readPercent <= 100
    requires i < |s.readers.threads| && s.readers.threads[i].Calling?
    requires j < |s.writers.threads| && s.writers.threads[j].Calling?
    ensures (|| Round(ReadShare(c), s.readers, s.writers, i).threads[i].Granted?
             || Round(WriteShare(c), s.writers, s.readers, j).threads[j].Granted?) <==> !BothBlocked(c, s)
    ensures ReadersFit(c, s) && WritersFit(c, s) ==> !BothBlocked(c, s)
  {
    hide Allowed, WithHeadroom, NoOverflow;
    var nR, nW := |s.readers.threads|, |s.writers.threads|;
    if ReadersFit(c, s) && WritersFit(c, s) {
      NeverBothBlocked(s.readers.bytes, s.writers.bytes, c.readPercent, c.maxBlock, nR, nW);
    }
  }

  // ---- Exactly when both groups are blocked ----

  // The bound on the imbalance, the headroom, and the sums of capped bytes are below 2^64.
  predicate SmallBlocks(c: Config, readers: nat, writers: nat)
    requires c.readPercent <= 100
  {
    var p, q, r, w := c.readPercent, 100 - c.readPercent, readers * c.maxBlock, writers * c.maxBlock;
    var bound := c.maxBlock * (writers * p + readers * q);
    && c.maxBlock * writers * p + bound < WORD && c.maxBlock * readers * q + bound < WORD
    && 2 * CAP + r + w + r < WORD && 2 * CAP + r + w + w < WORD
  }

  lemma SmallBlocksHaveRoom(c: Config, readers: nat, writers: nat)
    requires c.readPercent <= 100 && SmallBlocks(c, readers, writers)
    ensures BothRoom(c, readers, writers)
  {
    MulLe(0, readers, c.maxBlock);
    MulLe(0, writers, c.maxBlock);
  }

  predicate ReadersAhead(c: Config, s: State)
    requires c.readPercent <= 100
  {
    s.readers.bytes * (100 - c.readPercent) > (s.writers.bytes + c.maxBlock * |s.writers.threads|) * c.readPercent
  }

  predicate WritersAhead(c: Config, s: State)
    requires c.readPercent <= 100
  {
    s.writers.bytes * c.readPercent > (s.readers.bytes + c.maxBlock * |s.readers.threads|) * (100 - c.readPercent)
  }

  // In every reachable state: both groups are blocked if and only if the products of both wrap
  // around, or that of one does while the other group is over its share.
  lemma BothBlockedIff(c: Config, s: State, events: seq<Event>, t: State)
    requires c.readPercent <= 100 && Init(s) && Leads(c, s, events, t)
    requires SmallBlocks(c, |s.readers.threads|, |s.writers.threads|)
    ensures BothBlocked(c, t) <==>
      || (!ReadersFit(c, t) && !WritersFit(c, t))
      || (!ReadersFit(c, t) && WritersAhead(c, t))
      || (!WritersFit(c, t) && ReadersAhead(c, t))
  {
    hide MayProceed, NoOverflow, Leads, Init, BothRoom;
    var p, nR, nW := c.readPercent, |s.readers.threads|, |s.writers.threads|;
    var bound := c.maxBlock * (nW * p + nR * (100 - p));
    SmallBlocksHaveRoom(c, nR, nW);
    BoundedImbalance(c, s, events, t);
    BytesAreCapped(c, s, events, t);
    assert c.maxBlock * nR == nR * c.maxBlock && c.maxBlock * nW == nW * c.maxBlock;
    ProceedsIff(t.readers.bytes, t.writers.bytes, p, c.maxBlock, nW, bound);
    ProceedsIff(t.writers.bytes, t.readers.bytes, 100 - p, c.maxBlock, nR, bound);
    OneWithinShare(t.readers.bytes, t.writers.bytes, p, c.maxBlock * nR, c.maxBlock * nW);
  }

  // ---- Being blocked is for ever ----

  // What a thread that is not granted remembers is what the counters give.
  predicate UpToDate(s: Share, own: nat, other: nat, otherThreads: nat, t: Phase) {
    match t
    case Idle => true
    case Calling(_) => true
    case SawOther(_, withHeadroom) => withHeadroom == WithHeadroom(other, s.maxBlock, otherThreads)
    case SawOwn(_, allowed) => allowed == Allowed(WithHeadroom(other, s.maxBlock, otherThreads), own, s.percent)
    case Granted(_) => false
  }

  predicate Frozen(s: Share, own: Group, other: Group) {
    && !MayProceed(own.bytes, other.bytes, s.percent, s.maxBlock, |other.threads|)
    && forall t <- own.threads :: UpToDate(s, own.bytes, other.bytes, |other.threads|, t)
  }

  lemma FrozenStep(s: Share, own: Group, other: Group, i: nat, a: Action)
    requires CanDo(s, own, i, a) && Frozen(s, own, other)
    ensures var own' := NextGroup(s, own, other, i, a);
      own'.bytes == own.bytes && |own'.threads| == |own.threads| && Frozen(s, own', other)
  {
    hide Allowed, WithHeadroom;
    assert own.threads[i] in own.threads;
    assert UpToDate(s, own.bytes, other.bytes, |other.threads|, own.threads[i]);
  }

  lemma {:induction false} FrozenRun(c: Config, s: State, events: seq<Event>, t: State)
    requires c.readPercent <= 100 && Leads(c, s, events, t)
    requires Frozen(ReadShare(c), s.readers, s.writers) && Frozen(WriteShare(c), s.writers, s.readers)
    ensures t.readers.bytes == s.readers.bytes && t.writers.bytes == s.writers.bytes
    ensures Frozen(ReadShare(c), t.readers, t.writers) && Frozen(WriteShare(c), t.writers, t.readers)
    decreases |events|
  {
    hide MayProceed, UpToDate, CanDo, NextPhase, NextBytes;
    if events != [] {
      match events[0] {
        case Reader(i, a) => FrozenStep(ReadShare(c), s.readers, s.writers, i, a);
        case Writer(i, a) => FrozenStep(WriteShare(c), s.writers, s.readers, i, a);
      }
      FrozenRun(c, Apply(c, s, events[0]), events[1..], t);
    }
  }

  // No thread is granted, and what threads have loaded is what the counters are.
  predicate Settled(c: Config, s: State)
    requires c.readPercent <= 100
  {
    && (forall t <- s.readers.threads :: UpToDate(ReadShare(c), s.readers.bytes, s.writers.bytes, |s.writers.threads|, t))
    && (forall t <- s.writers.threads :: UpToDate(WriteShare(c), s.writers.bytes, s.readers.bytes, |s.readers.threads|, t))
  }

  // Once both groups are blocked and no thread holds a grant or an older load, no run adds another
  // byte: calls end by giving up only.
  lemma StallIsForever(c: Config, s: State, events: seq<Event>, t: State)
    requires c.readPercent <= 100 && BothBlocked(c, s) && Settled(c, s) && Leads(c, s, events, t)
    ensures t.readers.bytes == s.readers.bytes && t.writers.bytes == s.writers.bytes && BothBlocked(c, t)
    ensures forall th <- t.readers.threads + t.writers.threads :: !th.Granted?
  {
    hide MayProceed, Leads;
    FrozenRun(c, s, events, t);
    FrozenThreads(c, s, events, t);
  }

  lemma OverflowStays(own: nat, other: nat, percent: nat, maxBlock: nat, threads: nat, own': nat, other': nat)
    requires !NoOverflow(own, other, percent, maxBlock, threads) && own <= own' && other <= other'
    ensures !NoOverflow(own', other', percent, maxBlock, threads)
  {
    var h := maxBlock * threads;
    MulLe(other + h + own, other' + h + own', percent);
  }

  // Once the products of both groups have wrapped around, both groups are blocked in every later
  // state of every run, whatever threads have loaded before.
  lemma WrappedIsForever(c: Config, s: State, first: seq<Event>, m: State, second: seq<Event>, t: State)
    requires c.readPercent <= 100 && Init(s) && Leads(c, s, first, m) && Leads(c, m, second, t)
    requires SmallBlocks(c, |s.readers.threads|, |s.writers.threads|)
    requires !ReadersFit(c, m) && !WritersFit(c, m)
    ensures BothBlocked(c, t)
  {
    hide MayProceed, NoOverflow, Leads, Init, SmallBlocks, Inv;
    var p, nR, nW := c.readPercent, |s.readers.threads|, |s.writers.threads|;
    SmallBlocksHaveRoom(c, nR, nW);
    InitInv(c, s);
    RunKeepsInv(c, s, first, m);
    RunKeepsInv(c, m, second, t);
    OverflowStays(m.readers.bytes, m.writers.bytes, p, c.maxBlock, nW, t.readers.bytes, t.writers.bytes);
    OverflowStays(m.writers.bytes, m.readers.bytes, 100 - p, c.maxBlock, nR, t.writers.bytes, t.readers.bytes);
    LeadsJoin(c, s, first, m, second, t);
    BothBlockedIff(c, s, first + second, t);
  }

  lemma {:induction false} FrozenThreads(c: Config, s: State, events: seq<Event>, t: State)
    requires c.readPercent <= 100 && Leads(c, s, events, t)
    ensures |t.readers.threads| == |s.readers.threads| && |t.writers.threads| == |s.writers.threads|
    decreases |events|
  {
    hide NextPhase, NextBytes;
    if events != [] { FrozenThreads(c, Apply(c, s, events[0]), events[1..], t); }
  }

  // ---- What is still added after both products have wrapped around ----

  // The block of a thread that has loaded a counter, or passed the comparison, before.
  function OwedOf(t: Phase, stale: bool): nat {
    if stale && (t.SawOther? || t.SawOwn? || t.Granted?) then t.block else 0
  }

  function Owed(threads: seq<Phase>, stale: seq<bool>): nat
    requires |stale| == |threads|
  {
    if threads == [] then 0
    else
      var n := |threads| - 1;
      Owed(threads[..n], stale[..n]) + OwedOf(threads[n], stale[n])
  }

  lemma {:induction false} OwedUpdate(threads: seq<Phase>, stale: seq<bool>, i: nat, t: Phase, b: bool)
    requires |stale| == |threads| && i < |threads|
    ensures Owed(threads[i := t], stale[i := b]) == Owed(threads, stale) - OwedOf(threads[i], stale[i]) + OwedOf(t, b)
    decreases |threads|
  {
    var n := |threads| - 1;
    if i == n {
      assert threads[i := t][..n] == threads[..n] && stale[i := b][..n] == stale[..n];
    } else {
      OwedUpdate(threads[..n], stale[..n], i, t, b);
      assert threads[i := t][..n] == threads[..n][i := t] && stale[i := b][..n] == stale[..n][i := b];
    }
  }

  lemma {:induction false} OwedBound(threads: seq<Phase>, stale: seq<bool>, maxBlock: nat)
    requires |stale| == |threads| && forall t <- threads :: t.Idle? || t.block <= maxBlock
    ensures Owed(threads, stale) <= |threads| * maxBlock
    decreases |threads|
  {
    if threads != [] {
      var n := |threads| - 1;
      OwedBound(threads[..n], stale[..n], maxBlock);
      assert threads[n] in threads;
      assert |threads| * maxBlock == n * maxBlock + maxBlock;
    }
  }

  // What a thread has loaded since the other group had so many bytes cannot be granted.
  ghost predicate Dead(s: Share, own: Group, other: Group, since: nat, t: Phase) {
    match t
    case Idle => true
    case Calling(_) => true
    case SawOther(_, withHeadroom) =>
      exists o: nat | since <= o <= other.bytes :: withHeadroom == WithHeadroom(o, s.maxBlock, |other.threads|)
    case SawOwn(_, allowed) => allowed < own.bytes
    case Granted(_) => false
  }

  ghost predicate DeadGroup(s: Share, own: Group, other: Group, since: nat, stale: seq<bool>) {
    |stale| == |own.threads| && forall i | 0 <= i < |stale| :: stale[i] || Dead(s, own, other, since, own.threads[i])
  }

  ghost predicate BlockedSince(s: Share, own: Group, other: Group, since: nat) {
    since <= other.bytes
    && forall o: nat | since <= o <= other.bytes :: !MayProceed(own.bytes, o, s.percent, s.maxBlock, |other.threads|)
  }

  lemma DeadPhase(s: Share, own: Group, other: Group, i: nat, a: Action, since: nat)
    requires CanDo(s, own, i, a) && Dead(s, own, other, since, own.threads[i]) && BlockedSince(s, own, other, since)
    ensures Dead(s, own, other, since, NextPhase(s, own, other, i, a)) && !NextPhase(s, own, other, i, a).Granted?
  {
    hide Allowed, WithHeadroom;
    var t := own.threads[i];
    if a.LoadOwn? {
      var o: nat :| since <= o <= other.bytes && t.withHeadroom == WithHeadroom(o, s.maxBlock, |other.threads|);
      assert !MayProceed(own.bytes, o, s.percent, s.maxBlock, |other.threads|);
    }
  }

  // A step keeps that, and adds no more than is owed.
  lemma DeadStep(s: Share, own: Group, other: Group, i: nat, a: Action, since: nat, stale: seq<bool>)
      returns (stale': seq<bool>)
    requires CanDo(s, own, i, a) && DeadGroup(s, own, other, since, stale) && BlockedSince(s, own, other, since)
    requires own.threads[i].Granted? ==> own.bytes + own.threads[i].block < WORD
    ensures var own' := NextGroup(s, own, other, i, a);
      && DeadGroup(s, own', other, since, stale')
      && own'.bytes + Owed(own'.threads, stale') <= own.bytes + Owed(own.threads, stale)
  {
    hide MayProceed, Owed, Allowed, WithHeadroom;
    var own', t' := NextGroup(s, own, other, i, a), NextPhase(s, own, other, i, a);
    var b := stale[i] && !own.threads[i].Idle? && !own.threads[i].Calling?;
    stale' := stale[i := b];
    if !b { DeadPhase(s, own, other, i, a, since); }
    OwedUpdate(own.threads, stale, i, t', b);
    forall k | 0 <= k < |stale'| ensures stale'[k] || Dead(s, own', other, since, own'.threads[k]) {
      assert stale[k] || Dead(s, own, other, since, own.threads[k]);
    }
  }

  lemma DeadMono(s: Share, own: Group, other: Group, other': Group, since: nat, stale: seq<bool>)
    requires DeadGroup(s, own, other, since, stale)
    requires other.bytes <= other'.bytes && |other.threads| == |other'.threads|
    ensures DeadGroup(s, own, other', since, stale)
  {
    hide WithHeadroom;
    forall k | 0 <= k < |stale| ensures stale[k] || Dead(s, own, other', since, own.threads[k]) {
      assert stale[k] || Dead(s, own, other, since, own.threads[k]);
    }
  }

  lemma LateLoad(own: nat, other: nat, percent: nat, maxBlock: nat, threads: nat, bound: int, own0: nat, other0: nat, o: nat)
    requires percent <= 100 && own0 <= own && other0 <= o <= other && other + maxBlock * threads + own < WORD
    requires other * percent - own * (100 - percent) <= bound && maxBlock * threads * percent + bound < WORD
    requires !NoOverflow(own0, other0, percent, maxBlock, threads)
    ensures !MayProceed(own, o, percent, maxBlock, threads)
  {
    hide MayProceed, NoOverflow;
    MulLe(o, other, percent);
    OverflowStays(own0, other0, percent, maxBlock, threads, own, o);
    ProceedsIff(own, o, percent, maxBlock, threads, bound);
  }

  // What the invariant says about the sums and the imbalance.
  lemma InvBounds(c: Config, s: State)
    requires c.readPercent <= 100 && Inv(c, s) && SmallBlocks(c, |s.readers.threads|, |s.writers.threads|)
    ensures var p, nR, nW := c.readPercent, |s.readers.threads|, |s.writers.threads|;
      var bytes, bound := s.readers.bytes + s.writers.bytes, c.maxBlock * (nW * p + nR * (100 - p));
      && bytes + c.maxBlock * nR < WORD && bytes + c.maxBlock * nW < WORD
      && -bound <= s.readers.bytes * (100 - p) - s.writers.bytes * p <= bound
  {
    var p, nR, nW, b := c.readPercent, |s.readers.threads|, |s.writers.threads|, c.maxBlock;
    GroupsCapped(c, s);
    GroupBound(ReadShare(c), s.readers, s.writers);
    GroupBound(WriteShare(c), s.writers, s.readers);
    hide Inv;
    Weighted(b, nW, p, nR, 100 - p);
    assert b * nR == nR * b && b * nW == nW * b;
  }

  ghost predicate BothWrapped(c: Config, m: State, s: State)
    requires c.readPercent <= 100
  {
    && !ReadersFit(c, m) && !WritersFit(c, m)
    && m.readers.bytes <= s.readers.bytes && m.writers.bytes <= s.writers.bytes
    && |m.readers.threads| == |s.readers.threads| && |m.writers.threads| == |s.writers.threads|
  }

  lemma BothBlockedSince(c: Config, m: State, s: State)
    requires c.readPercent <= 100 && Inv(c, s) && SmallBlocks(c, |s.readers.threads|, |s.writers.threads|)
    requires BothWrapped(c, m, s)
    ensures BlockedSince(ReadShare(c), s.readers, s.writers, m.writers.bytes)
    ensures BlockedSince(WriteShare(c), s.writers, s.readers, m.readers.bytes)
  {
    hide Inv, NoOverflow, MayProceed;
    InvBounds(c, s);
    var p, q, b, nR, nW := c.readPercent, 100 - c.readPercent, c.maxBlock, |s.readers.threads|, |s.writers.threads|;
    var bound := b * (nW * p + nR * q);
    forall o: nat | m.writers.bytes <= o <= s.writers.bytes ensures !MayProceed(s.readers.bytes, o, p, b, nW) {
      LateLoad(s.readers.bytes, s.writers.bytes, p, b, nW, bound, m.readers.bytes, m.writers.bytes, o);
    }
    forall o: nat | m.readers.bytes <= o <= s.readers.bytes ensures !MayProceed(s.writers.bytes, o, q, b, nR) {
      LateLoad(s.writers.bytes, s.readers.bytes, q, b, nR, bound, m.writers.bytes, m.readers.bytes, o);
    }
  }

  lemma GrantFits(c: Config, s: State, e: Event)
    requires c.readPercent <= 100 && Inv(c, s) && BothRoom(c, |s.readers.threads|, |s.writers.threads|)
    requires Enabled(c, s, e)
    ensures var own := if e.Reader? then s.readers else s.writers;
      own.threads[e.i].Granted? ==> own.bytes + own.threads[e.i].block < WORD
  {
    hide Balanced, Remembers, Capped, Room;
    match e
    case Reader(i, _) => if s.readers.threads[i].Granted? { AddFits(ReadShare(c), s.readers, i); }
    case Writer(i, _) => if s.writers.threads[i].Granted? { AddFits(WriteShare(c), s.writers, i); }
  }

  lemma WrappedStep(c: Config, m: State, s: State, e: Event, staleR: seq<bool>, staleW: seq<bool>)
      returns (staleR': seq<bool>, staleW': seq<bool>)
    requires c.readPercent <= 100 && Inv(c, s) && SmallBlocks(c, |s.readers.threads|, |s.writers.threads|)
    requires BothWrapped(c, m, s) && Enabled(c, s, e)
    requires DeadGroup(ReadShare(c), s.readers, s.writers, m.writers.bytes, staleR)
    requires DeadGroup(WriteShare(c), s.writers, s.readers, m.readers.bytes, staleW)
    ensures var s' := Apply(c, s, e);
      && Inv(c, s') && BothWrapped(c, m, s')
      && DeadGroup(ReadShare(c), s'.readers, s'.writers, m.writers.bytes, staleR')
      && DeadGroup(WriteShare(c), s'.writers, s'.readers, m.readers.bytes, staleW')
      && s'.readers.bytes + Owed(s'.readers.threads, staleR') <= s.readers.bytes + Owed(s.readers.threads, staleR)
      && s'.writers.bytes + Owed(s'.writers.threads, staleW') <= s.writers.bytes + Owed(s.writers.threads, staleW)
  {
    hide Inv, NoOverflow, Owed, NextPhase, NextBytes, Dead, BothRoom;
    SmallBlocksHaveRoom(c, |s.readers.threads|, |s.writers.threads|);
    BothBlockedSince(c, m, s);
    GrantFits(c, s, e);
    StepKeepsInv(c, s, e);
    hide SmallBlocks, BlockedSince, CanDo, DeadGroup;
    var s' := Apply(c, s, e);
    staleR', staleW' := staleR, staleW;
    match e
    case Reader(i, a) =>
      staleR' := DeadStep(ReadShare(c), s.readers, s.writers, i, a, m.writers.bytes, staleR);
      DeadMono(WriteShare(c), s.writers, s.readers, s'.readers, m.readers.bytes, staleW);
    case Writer(i, a) =>
      staleW' := DeadStep(WriteShare(c), s.writers, s.readers, i, a, m.readers.bytes, staleW);
      DeadMono(ReadShare(c), s.readers, s.writers, s'.writers, m.writers.bytes, staleR);
  }

  lemma {:induction false} WrappedRun(c: Config, m: State, s: State, events: seq<Event>, t: State,
                                      staleR: seq<bool>, staleW: seq<bool>)
    requires c.readPercent <= 100 && Inv(c, s) && SmallBlocks(c, |s.readers.threads|, |s.writers.threads|)
    requires BothWrapped(c, m, s) && Leads(c, s, events, t)
    requires DeadGroup(ReadShare(c), s.readers, s.writers, m.writers.bytes, staleR)
    requires DeadGroup(WriteShare(c), s.writers, s.readers, m.readers.bytes, staleW)
    ensures t.readers.bytes <= s.readers.bytes + Owed(s.readers.threads, staleR)
    ensures t.writers.bytes <= s.writers.bytes + Owed(s.writers.threads, staleW)
    decreases |events|
  {
    hide Inv, Enabled, Apply, SmallBlocks, Owed, Dead, NoOverflow;
    if events != [] {
      var staleR', staleW' := WrappedStep(c, m, s, events[0], staleR, staleW);
      WrappedRun(c, m, Apply(c, s, events[0]), events[1..], t, staleR', staleW');
    }
  }

  // Once the products of both groups have wrapped around, each thread adds at most one more block,
  // the one for which it had loaded a counter before, however long the run goes on.
  lemma WrappedAddsOneBlock(c: Config, s: State, first: seq<Event>, m: State, second: seq<Event>, t: State)
    requires c.readPercent <= 100 && Init(s) && Leads(c, s, first, m) && Leads(c, m, second, t)
    requires SmallBlocks(c, |s.readers.threads|, |s.writers.threads|)
    requires !ReadersFit(c, m) && !WritersFit(c, m)
    ensures t.readers.bytes <= m.readers.bytes + |s.readers.threads| * c.maxBlock
    ensures t.writers.bytes <= m.writers.bytes + |s.writers.threads| * c.maxBlock
  {
    hide NoOverflow, Leads, Init, SmallBlocks, Dead, Owed, Remembers, Balanced, Capped, BothRoom;
    var nR, nW := |s.readers.threads|, |s.writers.threads|;
    SmallBlocksHaveRoom(c, nR, nW);
    InitInv(c, s);
    RunKeepsInv(c, s, first, m);
    var staleR, staleW := seq(nR, _ => true), seq(nW, _ => true);
    WrappedRun(c, m, m, second, t, staleR, staleW);
    BlocksBounded(ReadShare(c), m.readers.threads, m.readers.bytes, Limit(ReadShare(c), m.writers));
    BlocksBounded(WriteShare(c), m.writers.threads, m.writers.bytes, Limit(WriteShare(c), m.readers));
    OwedBound(m.readers.threads, staleR, c.maxBlock);
    OwedBound(m.writers.threads, staleW, c.maxBlock);
  }

  // ---- A run that gets there ----

  // One reader and one writer, half and half.
  function At(read: nat, written: nat): State {
    State(Group(read, [Idle]), Group(written, [Idle]))
  }

  function Half(block: nat): Config {
    Config(50, block)
  }

  lemma LeadsFirst(c: Config, s: State, e: Event, rest: seq<Event>, t: State)
    requires c.readPercent <= 100 && Enabled(c, s, e) && Leads(c, Apply(c, s, e), rest, t)
    ensures Leads(c, s, [e] + rest, t)
  {
    hide Enabled, Apply;
    assert ([e] + rest)[1..] == rest;
  }

  lemma {:induction false} LeadsJoin(c: Config, s: State, first: seq<Event>, m: State, second: seq<Event>, t: State)
    requires c.readPercent <= 100 && Leads(c, s, first, m) && Leads(c, m, second, t)
    ensures Leads(c, s, first + second, t)
    decreases |first|
  {
    hide Enabled, Apply;
    if first == [] {
      assert first + second == second;
    } else {
      LeadsJoin(c, Apply(c, s, first[0]), first[1..], m, second, t);
      assert (first + second)[1..] == first[1..] + second;
    }
  }

  // A whole call of the reader, or of the writer, by itself.
  lemma ReaderTurn(block: nat, read: nat, written: nat) returns (events: seq<Event>)
    requires MayProceed(read, written, 50, block, 1) && read + block < WORD
    ensures Leads(Half(block), At(read, written), events, At(read + block, written))
  {
    hide Leads, Allowed, WithHeadroom;
    var c, w := Half(block), Group(written, [Idle]);
    var limit := WithHeadroom(written, block, 1);
    var t := At(read + block, written);
    var s4 := State(Group(read, [Granted(block)]), w);
    var s3 := State(Group(read, [SawOwn(block, Allowed(limit, read, 50))]), w);
    var s2 := State(Group(read, [SawOther(block, limit)]), w);
    var s1 := State(Group(read, [Calling(block)]), w);
    events := [];
    LeadsNothing(c, t);
    assert Apply(c, s4, Reader(0, Add)) == t;
    LeadsFirst(c, s4, Reader(0, Add), events, t);
    events := [Reader(0, Add)] + events;
    assert Apply(c, s3, Reader(0, Compare)) == s4;
    LeadsFirst(c, s3, Reader(0, Compare), events, t);
    events := [Reader(0, Compare)] + events;
    assert Apply(c, s2, Reader(0, LoadOwn)) == s3;
    LeadsFirst(c, s2, Reader(0, LoadOwn), events, t);
    events := [Reader(0, LoadOwn)] + events;
    assert Apply(c, s1, Reader(0, LoadOther)) == s2;
    LeadsFirst(c, s1, Reader(0, LoadOther), events, t);
    events := [Reader(0, LoadOther)] + events;
    assert Apply(c, At(read, written), Reader(0, Call(block))) == s1;
    LeadsFirst(c, At(read, written), Reader(0, Call(block)), events, t);
    events := [Reader(0, Call(block))] + events;
  }

  lemma WriterTurn(block: nat, read: nat, written: nat) returns (events: seq<Event>)
    requires MayProceed(written, read, 50, block, 1) && written + block < WORD
    ensures Leads(Half(block), At(read, written), events, At(read, written + block))
  {
    hide Leads, Allowed, WithHeadroom;
    var c, r := Half(block), Group(read, [Idle]);
    var limit := WithHeadroom(read, block, 1);
    var t := At(read, written + block);
    var s4 := State(r, Group(written, [Granted(block)]));
    var s3 := State(r, Group(written, [SawOwn(block, Allowed(limit, written, 50))]));
    var s2 := State(r, Group(written, [SawOther(block, limit)]));
    var s1 := State(r, Group(written, [Calling(block)]));
    events := [];
    LeadsNothing(c, t);
    assert Apply(c, s4, Writer(0, Add)) == t;
    LeadsFirst(c, s4, Writer(0, Add), events, t);
    events := [Writer(0, Add)] + events;
    assert Apply(c, s3, Writer(0, Compare)) == s4;
    LeadsFirst(c, s3, Writer(0, Compare), events, t);
    events := [Writer(0, Compare)] + events;
    assert Apply(c, s2, Writer(0, LoadOwn)) == s3;
    LeadsFirst(c, s2, Writer(0, LoadOwn), events, t);
    events := [Writer(0, LoadOwn)] + events;
    assert Apply(c, s1, Writer(0, LoadOther)) == s2;
    LeadsFirst(c, s1, Writer(0, LoadOther), events, t);
    events := [Writer(0, LoadOther)] + events;
    assert Apply(c, At(read, written), Writer(0, Call(block))) == s1;
    LeadsFirst(c, At(read, written), Writer(0, Call(block)), events, t);
    events := [Writer(0, Call(block))] + events;
  }

  lemma LeadsNothing(c: Config, t: State)
    requires c.readPercent <= 100
    ensures Leads(c, t, [], t)
  {
  }

  // While the product does not wrap around, both sides take turns.
  lemma {:induction false} TakeTurns(block: nat, k: nat) returns (events: seq<Event>)
    requires 100 * (k * block) < WORD
    ensures Leads(Half(block), At(0, 0), events, At(k * block, k * block))
    decreases k
  {
    hide Leads, MayProceed;
    if k == 0 {
      events := [];
      LeadsNothing(Half(block), At(0, 0));
    } else {
      var c, b := Half(block), (k - 1) * block;
      assert k * block == b + block;
      MulLe(0, k - 1, block);
      events := TakeTurns(block, k - 1);
      ProceedsWithinShare(b, b, 50, block, 1);
      var read := ReaderTurn(block, b, b);
      LeadsJoin(c, At(0, 0), events, At(b, b), read, At(b + block, b));
      ProceedsWithinShare(b, b + block, 50, block, 1);
      var write := WriterTurn(block, b + block, b);
      LeadsJoin(c, At(0, 0), events + read, At(b + block, b), write, At(b + block, b + block));
      events := events + read + write;
    }
  }

  // With one reader and one writer at 50% and any block size, a run reaches, when the bytes read
  // and written come to 2^64 / 50, a state in which both are blocked for ever.
  lemma StallIsReached(block: nat) returns (events: seq<Event>, t: State)
    requires 0 < block && 200 * block < WORD
    ensures Init(At(0, 0)) && Leads(Half(block), At(0, 0), events, t)
    ensures BothBlocked(Half(block), t) && Settled(Half(block), t)
    ensures var bytes := t.readers.bytes + t.writers.bytes; bytes * 50 < WORD <= (bytes + block) * 50
  {
    hide Leads, MayProceed, Init;
    assert Init(At(0, 0)) by { InitAt(); }
    var c := Half(block);
    var k := (WORD - 1) / (100 * block);
    LastTurn(block, k);
    var b := k * block;
    events := TakeTurns(block, k);
    t := At(b, b);
    if (2 * b + block) * 50 < WORD {
      ProceedsWithinShare(b, b, 50, block, 1);
      var read := ReaderTurn(block, b, b);
      LeadsJoin(c, At(0, 0), events, At(b, b), read, At(b + block, b));
      events, t := events + read, At(b + block, b);
    }
    ProceedsIff(t.readers.bytes, t.writers.bytes, 50, block, 1, 50 * block);
    ProceedsIff(t.writers.bytes, t.readers.bytes, 50, block, 1, 50 * block);
  }

  lemma InitAt()
    ensures Init(At(0, 0))
  {
  }

  lemma LastTurn(block: nat, k: nat)
    requires block > 0 && k == (WORD - 1) / (100 * block)
    ensures 100 * (k * block) < WORD <= 100 * (k * block) + 100 * block
  {
    var d := 100 * block;
    assert k * d <= WORD - 1 < k * d + d;
    assert k * d == 100 * (k * block);
  }
}
