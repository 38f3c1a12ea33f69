/**
 * What ties the journal's classes to the transition system: the map of stripe locks stands for
 * the locks that the I/Os of all threads hold, and begin() decides as the protocol does.
 */
module JournalAgreement {
  import opened JournalTile
  import opened JournalObjects
  import L = JournalLocking
  import P = JournalProtocol

  // ---- Stripe locks ----

  ghost function Holders(ios: map<nat, P.IO>, l: nat): set<nat> {
    set y | y in ios && l in ios[y].held
  }

  ghost predicate StandsFor(h: map<nat, Hold>, ios: map<nat, P.IO>, l: nat) {
    var ys := Holders(ios, l);
    if l !in h then ys == {}
    else if h[l].Exclusive? then |ys| == 1 && forall y <- ys :: ios[y].exclusive
    else |ys| == h[l].count > 0 && forall y <- ys :: !ios[y].exclusive
  }

  // The lock array and the guards of all threads agree.
  ghost predicate Agree(h: map<nat, Hold>, ios: map<nat, P.IO>) {
    forall l: nat :: StandsFor(h, ios, l)
  }

  // A thread gets a stripe exactly if the protocol lets it.
  lemma CanLockIsFree(h: map<nat, Hold>, ios: map<nat, P.IO>, id: nat, l: nat, exclusive: bool)
    requires StandsFor(h, ios, l) && id in ios && l !in ios[id].held
    ensures CanLock(h, l, exclusive) <==> P.Free(ios, id, l, exclusive)
  {
    var ys := Holders(ios, l);
    if l in h {
      var y :| y in ys;
      assert y in ios && y != id && l in ios[y].held;
    }
    forall y | y in ios && y != id && l in ios[y].held ensures y in ys {}
  }

  lemma HoldersAfter(ios: map<nat, P.IO>, id: nat, io: P.IO, l: nat)
    requires id in ios
    ensures Holders(ios[id := io], l) == Holders(ios, l) - {id} + if l in io.held then {id} else {}
  {
  }

  lemma TakenHere(h: map<nat, Hold>, ios: map<nat, P.IO>, id: nat, io: P.IO, l: nat)
    requires StandsFor(h, ios, l) && id in ios && l !in ios[id].held && CanLock(h, l, ios[id].exclusive)
    requires io.held == ios[id].held + {l} && io.exclusive == ios[id].exclusive
    ensures StandsFor(Locked(h, l, io.exclusive), ios[id := io], l)
  {
    var ys := Holders(ios, l);
    assert id !in ys;
    HoldersAfter(ios, id, io, l);
    assert Holders(ios[id := io], l) == ys + {id};
    hide Holders;
    assert |ys + {id}| == |ys| + 1;
  }

  lemma GivenBackHere(h: map<nat, Hold>, ios: map<nat, P.IO>, id: nat, io: P.IO, l: nat)
    requires StandsFor(h, ios, l) && id in ios && l in ios[id].held
    requires io.held == ios[id].held - {l} && io.exclusive == ios[id].exclusive
    ensures StandsFor(Unlocked(h, l), ios[id := io], l)
  {
    var ys := Holders(ios, l);
    assert id in ys;
    HoldersAfter(ios, id, io, l);
    assert Holders(ios[id := io], l) == ys - {id};
    hide Holders;
    assert |ys - {id}| == |ys| - 1;
  }

  lemma SameElsewhere(h: map<nat, Hold>, ios: map<nat, P.IO>, h': map<nat, Hold>, id: nat, io: P.IO, l: nat)
    requires StandsFor(h, ios, l) && id in ios && (l in ios[id].held <==> l in io.held)
    requires io.exclusive == ios[id].exclusive && (l in h <==> l in h') && (l in h ==> h'[l] == h[l])
    ensures StandsFor(h', ios[id := io], l)
  {
    HoldersAfter(ios, id, io, l);
    var ys := Holders(ios, l);
    assert id in ys <==> l in ios[id].held;
    hide Holders;
    assert Holders(ios[id := io], l) == ys;
  }

  // Taking and giving back a stripe, in the lock array and in the protocol.
  lemma LockAgrees(h: map<nat, Hold>, ios: map<nat, P.IO>, id: nat, io: P.IO, l: nat)
    requires Agree(h, ios) && id in ios && l !in ios[id].held && P.Free(ios, id, l, ios[id].exclusive)
    requires io.held == ios[id].held + {l} && io.exclusive == ios[id].exclusive
    ensures Agree(Locked(h, l, io.exclusive), ios[id := io])
  {
    var h', next := Locked(h, l, io.exclusive), ios[id := io];
    assert StandsFor(h, ios, l);
    CanLockIsFree(h, ios, id, l, io.exclusive);
    TakenHere(h, ios, id, io, l);
    hide StandsFor, CanLock, P.Free;
    forall k: nat ensures StandsFor(h', next, k) {
      assert StandsFor(h, ios, k);
      if k != l { SameElsewhere(h, ios, h', id, io, k); }
    }
  }

  lemma UnlockAgrees(h: map<nat, Hold>, ios: map<nat, P.IO>, id: nat, io: P.IO, l: nat)
    requires Agree(h, ios) && id in ios && l in ios[id].held
    requires io.held == ios[id].held - {l} && io.exclusive == ios[id].exclusive
    ensures Agree(Unlocked(h, l), ios[id := io])
  {
    var h', next := Unlocked(h, l), ios[id := io];
    assert StandsFor(h, ios, l);
    GivenBackHere(h, ios, id, io, l);
    hide StandsFor;
    forall k: nat ensures StandsFor(h', next, k) {
      assert StandsFor(h, ios, k);
      if k != l { SameElsewhere(h, ios, h', id, io, k); }
    }
  }

  lemma SameLocksAgree(h: map<nat, Hold>, ios: map<nat, P.IO>, id: nat, io: P.IO)
    requires Agree(h, ios) && id in ios && io.held == ios[id].held
    requires io.exclusive == ios[id].exclusive || io.held == {}
    ensures Agree(h, ios[id := io])
  {
    var next := ios[id := io];
    forall l: nat ensures StandsFor(h, next, l) {
      assert StandsFor(h, ios, l);
      HoldersAfter(ios, id, io, l);
      assert Holders(next, l) == Holders(ios, l);
    }
  }

  lemma GoneAgrees(h: map<nat, Hold>, ios: map<nat, P.IO>, id: nat)
    requires Agree(h, ios) && id in ios && ios[id].held == {}
    ensures Agree(h, ios - {id})
  {
    var next := ios - {id};
    forall l: nat ensures StandsFor(h, next, l) {
      assert StandsFor(h, ios, l);
      assert Holders(next, l) == Holders(ios, l);
    }
  }

  // Giving up a guard during its device write releases all its stripes at once.
  lemma AbandonAgrees(h: map<nat, Hold>, ios: map<nat, P.IO>, id: nat, locks: seq<nat>, io: P.IO)
    requires Agree(h, ios) && id in ios && 1 <= |locks| <= 2 && (|locks| == 2 ==> locks[0] < locks[1])
    requires ios[id].held == P.Elems(locks) && io.held == {}
    ensures Agree(AllUnlocked(h, locks), ios[id := io])
  {
    hide Agree, Unlocked, AllUnlocked;
    var a, was := locks[0], ios[id];
    var one := was.(held := was.held - {a});
    UnlockAgrees(h, ios, id, one, a);
    var h1 := Unlocked(h, a);
    var ios1: map<nat, P.IO> := ios[id := one];
    TwoLocks(h, a, locks[|locks| - 1], true);
    if |locks| == 1 {
      assert locks == [a] && one.held == {};
      SameLocksAgree(h1, ios1, id, io);
      assert ios1[id := io] == ios[id := io];
    } else {
      var b := locks[1];
      assert locks == [a, b] && was.held == {a, b};
      var none := one.(held := one.held - {b});
      UnlockAgrees(h1, ios1, id, none, b);
      assert none.held == {};
      var ios2: map<nat, P.IO> := ios1[id := none];
      SameLocksAgree(Unlocked(h1, b), ios2, id, io);
      assert ios2[id := io] == ios[id := io];
    }
  }

  // The lock array after a step.
  ghost function HoldsAfter(c: P.Setup, s: P.State, h: map<nat, Hold>, id: nat, step: P.Step): map<nat, Hold>
    requires P.WellFormed(c, s) && id in s.ios && P.StepEnabled(c, s, id, step)
  {
    var io := s.ios[id];
    if step.Lock? then Locked(h, P.Locks(c, s.shifts, io)[io.phase.next], io.exclusive)
    else if step.Unlock? then Unlocked(h, step.stripe)
    else if step.Abandon? then AllUnlocked(h, P.Locks(c, s.shifts, io))
    else h
  }

  lemma NextLockIsNew(c: P.Setup, s: P.State, id: nat)
    requires P.WellFormed(c, s) && L.LockInv(c, s) && id in s.ios && P.StepEnabled(c, s, id, P.Lock)
    ensures P.Locks(c, s.shifts, s.ios[id])[s.ios[id].phase.next] !in s.ios[id].held
  {
    var io := s.ios[id];
    assert L.Shape(c, s.shifts, io);
    hide L.Shape, L.LockInv, P.Free;
    var locks, k := P.Locks(c, s.shifts, io), io.phase.next;
    assert io.held == P.Elems(locks[..k]);
  }

  lemma OtherStepLocks(c: P.Setup, s: P.State, id: nat, step: P.Step)
    requires P.WellFormed(c, s) && id in s.ios && P.StepEnabled(c, s, id, step)
    requires !step.Lock? && !step.Unlock? && !step.Abandon?
    ensures var io, next := s.ios[id], P.NextIO(c, s, id, step);
      next.held == io.held && (next.exclusive == io.exclusive || next.held == {})
    ensures P.NextIOs(c, s, id, step) == (if step.Finish? && s.ios[id].phase.Releasing? then s.ios - {id}
                                           else s.ios[id := P.NextIO(c, s, id, step)])
    ensures step.Finish? ==> s.ios[id].held == {}
  {
    hide P.Locks, P.Expected, P.Free, P.ContentComplete;
  }

  // Every step of every thread keeps the lock array in agreement with the guards.
  lemma StepAgrees(c: P.Setup, s: P.State, h: map<nat, Hold>, id: nat, step: P.Step)
    requires P.WellFormed(c, s) && L.LockInv(c, s) && id in s.ios && P.StepEnabled(c, s, id, step)
    requires Agree(h, s.ios)
    ensures Agree(HoldsAfter(c, s, h, id, step), P.NextIOs(c, s, id, step))
  {
    hide Agree, Locked, Unlocked, AllUnlocked, P.Locks, P.Free, P.ContentComplete;
    var io := s.ios[id];
    if step.Lock? {
      NextLockIsNew(c, s, id);
      LockAgrees(h, s.ios, id, P.NextIO(c, s, id, step), P.Locks(c, s.shifts, io)[io.phase.next]);
    } else if step.Unlock? {
      UnlockAgrees(h, s.ios, id, P.NextIO(c, s, id, step), step.stripe);
    } else if step.Abandon? {
      assert L.Shape(c, s.shifts, io);
      AbandonAgrees(h, s.ios, id, P.Locks(c, s.shifts, io), P.NextIO(c, s, id, step));
    } else {
      OtherStepLocks(c, s, id, step);
      hide P.NextIO, P.NextIOs, P.StepEnabled;
      if step.Finish? && io.phase.Releasing? {
        GoneAgrees(h, s.ios, id);
      } else {
        SameLocksAgree(h, s.ios, id, P.NextIO(c, s, id, step));
      }
    }
  }

  // ---- The decision of begin() ----

  function IntentOf(intent: P.Intent): Intent {
    match intent
    case Write => IntentWrite
    case ReadSkipUninit => IntentReadSkipUninit
    case ReadOrInit => IntentReadOrInit
  }

  // With the same generations loaded, begin() and the protocol's step go the same way.
  lemma DecideAgrees(c: P.Setup, s: P.State, id: nat)
    requires P.WellFormed(c, s) && id in s.ios && P.StepEnabled(c, s, id, P.Decide) && !s.ios[id].intent.Write?
    ensures var io, next := s.ios[id], P.NextIO(c, s, id, P.Decide);
      var action := Decision(IntentOf(io.intent), io.gens);
      && next.gens == io.gens && next.held == io.held
      && (action.ActionRead? <==> next.phase.Reading?)
      && (action.ActionSkip? <==> next.phase.Releasing?)
      && (action.ActionWrite? <==> next.phase.Upgrading?)
  {
    var gens := s.ios[id].gens;
    assert gens != [] by { assert P.InRange(c, s.shifts, s.ios[id]); }
    DecisionMeaning(IntentOf(s.ios[id].intent), gens);
    assert gens[0] in gens;
  }
}
