/** Safety of the locking protocol over every run, and freedom from deadlock. */
module LockTheorems {
  import opened Records
  import opened Addressing
  import opened BucketSteps
  import opened LockProtocol
  import opened LockInvariant
  import opened LockSteps
  import opened LockResize
  import opened LockTrims

  // ------------------------------------------------------------------ whole-table operations

  predicate Whole(p: Phase) {
    p.LockingAll? || p.Sweeping? || p.InBucket?
  }

  lemma WholeFacts(s: State, t: nat)
    requires Inv(s) && t < |s.threads| && Whole(s.threads[t])
    ensures var p := s.threads[t];
      && p.j <= |s.subs| && (!p.LockingAll? ==> p.j == |s.subs|)
      && (p.InBucket? ==> p.k < |s.subs| && PhaseOk(p, p.k, s.subs[p.k]))
      && Left(p) == {}
      && (forall i :: 0 <= i < |s.subs| && i < p.j && p.w ==> s.subs[i].a == s.subs[i].home)
  {
    InvFacts(s);
    var p := s.threads[t];
    assert ThreadOk(p, s.subs);
    assert p.InBucket? ==> InSub(p, p.k);
    forall i | 0 <= i < |s.subs| && i < p.j && p.w ensures s.subs[i].a == s.subs[i].home {
      assert TableMode(p, i).Write?;
    }
    hide PhaseOk, Inv, Exclusive, Settled, SubOk;
  }

  lemma WholeThread(q: Phase, subs: seq<Sub>)
    requires Whole(q) && q.j <= |subs| && (!q.LockingAll? ==> q.j == |subs|)
    requires q.InBucket? ==> q.k < |subs| && q.b < subs[q.k].home.active
    requires forall i :: 0 <= i < |subs| && i < q.j && q.w ==> subs[i].a == subs[i].home
    ensures ThreadOk(q, subs) && Left(q) == {}
  {
    hide Addr.BucketAddress, InHand;
  }

  /** Between phases of a whole-table operation. */
  lemma WholeGoes(s: State, t: nat, q: Phase, s': State)
    requires Inv(s) && Goes(s, t, q, s') && Whole(s.threads[t]) && (Whole(q) || q.Idle?)
    requires Compatible(s, t, q) && ThreadOk(q, s.subs) && Left(q) == {}
    requires Left(s.threads[t]) == {}
    requires forall i :: 0 <= i < |s.subs| && i < s.threads[t].j && s.threads[t].w ==> s.subs[i].a == s.subs[i].home
    ensures Inv(s')
  {
    var p := s.threads[t];
    forall i | 0 <= i < |s.subs| && TableMode(p, i).Write? && !TableMode(q, i).Write?
      ensures s.subs[i].a == s.subs[i].home
    {
      assert i < p.j && p.w;
    }
    hide *;
    GoesStep(s, t, q, s');
  }

  lemma LockNextCompatible(s: State, t: nat, q: Phase)
    requires t < |s.threads| && s.threads[t].LockingAll? && q == LockingAll(s.threads[t].j + 1, s.threads[t].w)
    requires TableFree(s, t, s.threads[t].j, SweepMode(q.w))
    ensures Compatible(s, t, q)
  {
    hide TableFree, BucketFree;
  }

  lemma LockNextKeeps(s: State, t: nat, s': State)
    requires Inv(s) && t < |s.threads| && LockNext(s, t, s.threads[t], s')
    ensures Inv(s')
  {
    var p := s.threads[t];
    var q := LockingAll(p.j + 1, p.w);
    assert p.LockingAll? && p.j < |s.subs| && TableFree(s, t, p.j, SweepMode(p.w)) && Goes(s, t, q, s');
    assert p.w ==> SweepMode(p.w) == Write && !TableMode(p, p.j).Write?;
    assert Whole(p) && Whole(q);
    hide *;
    WholeFacts(s, t);
    if p.w { NoWriter(s, t, p.j); }
    WholeThread(q, s.subs);
    LockNextCompatible(s, t, q);
    WholeGoes(s, t, q, s');
  }

  /** Giving locks up. */
  lemma WholeReleases(s: State, t: nat, q: Phase)
    requires t < |s.threads| && Whole(s.threads[t])
    requires (q.Sweeping? && q.j == s.threads[t].j && q.w == s.threads[t].w) || q.Idle?
    ensures Compatible(s, t, q)
  {
    forall i: nat ensures TableFree(s, t, i, Free) && forall b: nat :: BucketFree(s, t, i, b, Free) {
      FreeIsCompatible(s, t, i);
    }
    hide TableFree, BucketFree;
  }

  lemma SweepGoesKeeps(s: State, t: nat, q: Phase, s': State)
    requires Inv(s) && t < |s.threads| && Whole(s.threads[t]) && Goes(s, t, q, s')
    requires (q.Sweeping? && q.j == s.threads[t].j == |s.subs| && q.w == s.threads[t].w) || q.Idle?
    ensures Inv(s')
  {
    assert Whole(q) || q.Idle?;
    hide *;
    WholeFacts(s, t);
    IdleThread(s.subs);
    if q.Sweeping? { WholeThread(q, s.subs); }
    WholeReleases(s, t, q);
    WholeGoes(s, t, q, s');
  }

  lemma SweepLockCompatible(s: State, t: nat, q: Phase)
    requires t < |s.threads| && s.threads[t].Sweeping?
    requires var p := s.threads[t]; q == InBucket(p.j, p.k, p.b, p.w) && BucketFree(s, t, p.k, p.b, SweepMode(p.w))
    ensures Compatible(s, t, q)
  {
    forall i: nat, b: nat ensures BucketFree(s, t, i, b, Free) {
      FreeIsCompatible(s, t, i);
    }
    hide TableFree, BucketFree;
  }

  lemma SweepLockKeeps(s: State, t: nat, s': State)
    requires Inv(s) && t < |s.threads| && SweepLock(s, t, s.threads[t], s')
    ensures Inv(s')
  {
    var p := s.threads[t];
    var q := InBucket(p.j, p.k, p.b, p.w);
    WholeFacts(s, t);
    HolderSees(s, t, p.k);
    assert Whole(p) && Whole(q);
    assert BucketFree(s, t, p.k, p.b, SweepMode(p.w)) && p.k < |s.subs| && p.b < s.subs[p.k].a.active && Goes(s, t, q, s');
    hide *;
    WholeThread(q, s.subs);
    SweepLockCompatible(s, t, q);
    WholeGoes(s, t, q, s');
  }

  lemma SweepDeleteKeeps(s: State, t: nat, r: Record, s': State)
    requires Inv(s) && t < |s.threads| && SweepDelete(s, t, s.threads[t], r, s')
    ensures Inv(s')
  {
    var p := s.threads[t];
    WholeFacts(s, t);
    InvFacts(s);
    var sub := s.subs[p.k];
    assert InStore(sub, p.b, r) && SubOk(sub);
    assert sub.home.BucketAddress(Sig(r)) == p.b;
    assert !BucketMode(p, p.k, p.b).Free?;
    TakeRewrites(sub, p.b, r.key.cls);
    hide Inv, ThreadOk, TableFree, BucketFree, Take, SubOk, Settled, Exclusive, Addr.BucketAddress;
    WholeThread(p, s'.subs);
    RewriteStep(s, t, p.k, p.b, r.key.cls, Take(sub, p.b, r.key.cls), p, s');
  }

  // ------------------------------------------------------------------ every step, every run

  lemma KeyStepKeeps(s: State, t: nat, s': State)
    requires Inv(s) && t < |s.threads| && KeyStep(s, t, s.threads[t], s')
    ensures Inv(s')
  {
    var p := s.threads[t];
    if LockBucket(s, t, p, s') { LockBucketKeeps(s, t, s'); }
    else if UnlockTable(s, t, p, s') { UnlockTableKeeps(s, t, s'); }
    else if Act(s, t, p, s') { ActKeeps(s, t, s'); }
    else { UnlockBucketKeeps(s, t, s'); }
    hide *;
  }

  lemma ExpandStepKeeps(s: State, t: nat, s': State)
    requires Inv(s) && t < |s.threads| && ExpandStep(s, t, s.threads[t], s')
    ensures Inv(s')
  {
    hide Inv, ExRefuse, ExActivate, ExNoSegment, ExLockOld, ExLockNew, ExNoClump, ExAdvance, ExUnlockTable, ExMove,
      ExUnlockNew, ExUnlockOld;
    var p := s.threads[t];
    if ExRefuse(s, t, p, s') { ExRefuseKeeps(s, t, s'); }
    else if ExActivate(s, t, p, s') { ExActivateKeeps(s, t, s'); }
    else if ExNoSegment(s, t, p, s') { ExNoSegmentKeeps(s, t, s'); }
    else if ExLockOld(s, t, p, s') { ExLockOldKeeps(s, t, s'); }
    else if ExLockNew(s, t, p, s') { ExLockNewKeeps(s, t, s'); }
    else if ExNoClump(s, t, p, s') { ExNoClumpKeeps(s, t, s'); }
    else if ExAdvance(s, t, p, s') { ExAdvanceKeeps(s, t, s'); }
    else if ExUnlockTable(s, t, p, s') { ExUnlockTableKeeps(s, t, s'); }
    else if ExUnlockNew(s, t, p, s') { ExUnlockNewKeeps(s, t, s'); }
    else if ExUnlockOld(s, t, p, s') { ExUnlockOldKeeps(s, t, s'); }
    else {
      var r :| ExMove(s, t, p, r, s');
      ExMoveKeeps(s, t, r, s');
    }
  }

  lemma ContractStepKeeps(s: State, t: nat, s': State)
    requires Inv(s) && t < |s.threads| && ContractStep(s, t, s.threads[t], s')
    ensures Inv(s')
  {
    hide Inv, CoRefuse, CoStep, CoLockLast, CoLockBuddy, CoUndo, CoTake, CoTrim, CoUnlockTable, CoMove,
      CoUnlockBuddy;
    var p := s.threads[t];
    if CoRefuse(s, t, p, s') { CoRefuseKeeps(s, t, s'); }
    else if CoStep(s, t, p, s') { CoStepKeeps(s, t, s'); }
    else if CoLockLast(s, t, p, s') { CoLockLastKeeps(s, t, s'); }
    else if CoLockBuddy(s, t, p, s') { CoLockBuddyKeeps(s, t, s'); }
    else if CoUndo(s, t, p, s') { CoUndoKeeps(s, t, s'); }
    else if CoTake(s, t, p, s') { CoTakeKeeps(s, t, s'); }
    else if CoTrim(s, t, p, s') { CoTrimKeeps(s, t, s'); }
    else if CoUnlockTable(s, t, p, s') { CoUnlockTableKeeps(s, t, s'); }
    else if CoUnlockBuddy(s, t, p, s') { CoUnlockBuddyKeeps(s, t, s'); }
    else {
      var r :| CoMove(s, t, p, r, s');
      CoMoveKeeps(s, t, r, s');
    }
  }

  lemma SweepStepKeeps(s: State, t: nat, s': State)
    requires Inv(s) && t < |s.threads| && SweepStep(s, t, s.threads[t], s')
    ensures Inv(s')
  {
    var p := s.threads[t];
    assert Whole(p);
    WholeFacts(s, t);
    hide Inv, LockNext, SweepLock, SweepDelete, PhaseOk, Goes;
    if LockNext(s, t, p, s') { LockNextKeeps(s, t, s'); }
    else if SweepLock(s, t, p, s') { SweepLockKeeps(s, t, s'); }
    else if r :| SweepDelete(s, t, p, r, s') { SweepDeleteKeeps(s, t, r, s'); }
    else if SweepStart(s, t, p, s') { SweepGoesKeeps(s, t, Sweeping(p.j, 0, 0, p.w), s'); }
    else if SweepUnlock(s, t, p, s') { SweepGoesKeeps(s, t, Sweeping(p.j, p.k, p.b + 1, p.w), s'); }
    else if SweepNext(s, t, p, s') { SweepGoesKeeps(s, t, Sweeping(p.j, p.k + 1, 0, p.w), s'); }
    else { SweepGoesKeeps(s, t, Idle, s'); }
  }

  /** Every step of every thread keeps the invariant. */
  lemma StepKeeps(s: State, t: nat, s': State)
    requires Inv(s) && Step(s, t, s')
    ensures Inv(s')
  {
    hide Inv, Begin, KeyStep, ExpandStep, ContractStep, SweepStep;
    var p := s.threads[t];
    if q :| Begin(s, t, q, s') { BeginKeeps(s, t, q, s'); }
    else if KeyStep(s, t, p, s') { KeyStepKeeps(s, t, s'); }
    else if ExpandStep(s, t, p, s') { ExpandStepKeeps(s, t, s'); }
    else if ContractStep(s, t, p, s') { ContractStepKeeps(s, t, s'); }
    else { SweepStepKeeps(s, t, s'); }
  }

  lemma InitialInv(s: State)
    requires Initial(s)
    ensures Inv(s)
  {
    forall i | 0 <= i < |s.subs| ensures SubOk(s.subs[i]) && Settled(s.threads, i, s.subs[i]) {
      RestingSub(s.threads, i, s.subs[i]);
    }
    forall t | 0 <= t < |s.threads| ensures ThreadOk(s.threads[t], s.subs) {
      IdleThread(s.subs);
    }
    hide SubOk, Settled, AtRest, ThreadOk;
  }

  lemma RestingSub(threads: seq<Phase>, i: nat, sub: Sub)
    requires AtRest(sub)
    ensures SubOk(sub) && Settled(threads, i, sub)
  {
    hide Addr.BucketAddress, Addr.WellFormed, SomeoneHas, WriteHeld, SegOk;
    forall c | c in sub.m ensures Located(threads, i, sub, sub.m[c]) {
      assert Holds(sub.m, sub.m[c]);
      assert InStore(sub, sub.home.BucketAddress(Sig(sub.m[c])), sub.m[c]);
    }
  }

  /** Every state of every run satisfies the invariant. */
  lemma {:induction false} RunKeeps(run: seq<State>, n: nat)
    requires IsRun(run) && n < |run|
    ensures Inv(run[n])
  {
    hide Inv, Initial, Step;
    if n == 0 {
      InitialInv(run[0]);
    } else {
      RunKeeps(run, n - 1);
      assert Moves(run[n - 1], run[n]);
      var t :| Step(run[n - 1], t, run[n]);
      StepKeeps(run[n - 1], t, run[n]);
    }
  }
}
