/** Expansion, contraction and whole-table operations, step by step. */
module LockResize {
  import opened Bits
  import opened Records
  import opened Addressing
  import opened Directories
  import opened Contents
  import opened LockProtocol
  import opened LockInvariant
  import opened LockSteps
  import opened LockRelocation

  // ------------------------------------------------------------------ expansion

  lemma ExRefuseKeeps(s: State, t: nat, s': State)
    requires Inv(s) && t < |s.threads| && ExRefuse(s, t, s.threads[t], s')
    ensures Inv(s')
  {
    SingleFacts(s, t);
    hide Inv, Addr.BucketAddress, Exclusive, Settled, SubOk, TableFree, BucketFree, Addr.WellFormed;
    IdleThread(s.subs);
    SingleCompatible(s, t, Idle);
    SingleGoes(s, t, Idle, s');
  }

  /** A table within its size limit has a low level. */
  lemma LowLevel(home: Addr)
    requires home.WellFormed() && home.active < MAX_DIRSIZE * Pow2(SEG_BITS)
    ensures home.level < 29
  {
    MaxDirSize();
    Pow2Add(20, SEG_BITS);
    Pow2Monotone(20 + SEG_BITS, 29);
    if home.level >= 29 { Pow2Monotone(29, home.level); }
  }

  lemma SegmentHasBuckets()
    ensures Pow2(SEG_BITS) >= 8
  {
    Pow2Monotone(3, SEG_BITS);
    assert Pow2(3) == 8;
  }

  /** The active buckets never outnumber the directory's. */
  lemma WithinSpan(sub: Sub)
    requires SegOk(sub)
    ensures 0 < sub.home.active <= sub.dir * Pow2(SEG_BITS)
  {
    SegmentHasBuckets();
    assert HasSegment(sub, sub.home.active - 1);
    ShiftBelow(sub.home.active - 1, sub.dir, SEG_BITS);
  }

  /** Making room in the directory for one more bucket. */
  lemma ActivatedOk(sub: Sub, q: Phase)
    requires SegOk(sub) && sub.home.WellFormed() && sub.a == sub.home && q.ExOpen?
    requires sub.a.active < MAX_DIRSIZE * Pow2(SEG_BITS) - 1
    ensures SegOk(Activated(sub)) && SegPhase(q, Activated(sub)) && sub.home.level < 29
  {
    LowLevel(sub.home);
    WithinSpan(sub);
    if sub.a.active >= sub.dir * Pow2(SEG_BITS) {
      SegmentHasBuckets();
      FewerThanMax(sub.dir, Pow2(SEG_BITS), sub.a.active);
      DoubledSize(sub.dir);
      TwiceTheSpan(sub.dir, Pow2(SEG_BITS));
    }
    hide Pow2, DirSize, SegmentIndex, Addr.WellFormed;
    assert forall b: nat :: HasSegment(Activated(sub), b) == HasSegment(sub, b);
  }

  lemma TwiceTheSpan(n: nat, p: nat)
    ensures 2 * n * p == n * p + n * p
  {}

  lemma ExActivateKeeps(s: State, t: nat, s': State)
    requires Inv(s) && t < |s.threads| && ExActivate(s, t, s.threads[t], s')
    ensures Inv(s')
  {
    var p := s.threads[t];
    var q := ExOpen(p.k);
    SingleFacts(s, t);
    var sub := s.subs[p.k];
    ActivatedOk(sub, q);
    hide Inv, Addr.BucketAddress, Exclusive, Settled, SubOk, TableFree, BucketFree, Addr.WellFormed, SegOk, SegPhase;
    SingleThread(q, s'.subs);
    SingleCompatible(s, t, q);
    AddressStep(s, t, p.k, Activated(sub), q, s');
  }

  lemma ExNoSegmentKeeps(s: State, t: nat, s': State)
    requires Inv(s) && t < |s.threads| && ExNoSegment(s, t, s.threads[t], s')
    ensures Inv(s')
  {
    var p := s.threads[t];
    SingleFacts(s, t);
    var sub, sub' := s.subs[p.k], s'.subs[p.k];
    SegSame(sub, sub');
    hide Inv, Addr.BucketAddress, Exclusive, Settled, TableFree, BucketFree, Addr.WellFormed, SegOk, SegPhase, Addr.NewBucket;
    IdleThread(s'.subs);
    SingleCompatible(s, t, Idle);
    AddressStep(s, t, p.k, sub', Idle, s');
  }

  /** The new bucket's segment goes into the directory. */
  lemma SegmentAdded(sub: Sub, q: Phase)
    requires SegOk(sub) && q.ExOld? && sub.home.active < MAX_DIRSIZE * Pow2(SEG_BITS) - 1
    requires sub.home.active < sub.dir * Pow2(SEG_BITS)
    ensures SegOk(WithSegment(sub, sub.home.active)) && SegPhase(q, WithSegment(sub, sub.home.active))
  {
    ShiftBelow(sub.home.active, sub.dir, SEG_BITS);
    hide Pow2, DirSize, ShiftRight;
    assert forall b: nat :: HasSegment(sub, b) ==> HasSegment(WithSegment(sub, sub.home.active), b);
  }

  lemma ExLockOldKeeps(s: State, t: nat, s': State)
    requires Inv(s) && t < |s.threads| && ExLockOld(s, t, s.threads[t], s')
    ensures Inv(s')
  {
    var p := s.threads[t];
    SingleFacts(s, t);
    var sub := s.subs[p.k];
    NewBucketIsActive(sub.home);
    var q := ExOld(p.k, sub.a.expansionIdx);
    SegmentAdded(sub, q);
    hide Inv, Addr.BucketAddress, Exclusive, Settled, TableFree, BucketFree, SegOk, SegPhase, Addr.NewBucket, Addr.WellFormed;
    SingleThread(q, s'.subs);
    SingleCompatible(s, t, q);
    AddressStep(s, t, p.k, WithSegment(sub, sub.home.active), q, s');
  }

  lemma NewBucketIsActive(home: Addr)
    requires home.WellFormed() && home.level < 29
    ensures home.(active := home.active + 1).NewBucket() == home.active
    ensures home.expansionIdx < home.active
  {
    ExpandedWellFormed(home);
  }

  /** The bucket locked second is the first one not yet active. */
  lemma ExLockNewFacts(s: State, t: nat, s': State)
    requires Inv(s) && t < |s.threads| && ExLockNew(s, t, s.threads[t], s')
    ensures var p := s.threads[t];
      && p.ExOld? && p.k < |s.subs| && s.subs[p.k].home.level < 29
      && p.o == s.subs[p.k].home.expansionIdx < s.subs[p.k].home.active
      && s.subs[p.k].a == Expected(p, s.subs[p.k].home)
      && s.subs[p.k].a == s.subs[p.k].home.(active := s.subs[p.k].home.active + 1)
      && SegPhase(ExBoth(p.k, p.o, s.subs[p.k].home.active), s.subs[p.k])
      && BucketFree(s, t, p.k, s.subs[p.k].home.active, Write)
      && Goes(s, t, ExBoth(p.k, p.o, s.subs[p.k].home.active), s')
  {
    var p := s.threads[t];
    SingleFacts(s, t);
    NewBucketIsActive(s.subs[p.k].home);
    assert s.subs[p.k].a == s.subs[p.k].home.(active := s.subs[p.k].home.active + 1);
    hide Inv, Addr.BucketAddress, Exclusive, Settled, TableFree, BucketFree, SubOk, Addr.NewBucket, Addr.WellFormed, Goes;
  }

  lemma ExLockNewKeeps(s: State, t: nat, s': State)
    requires Inv(s) && t < |s.threads| && ExLockNew(s, t, s.threads[t], s')
    ensures Inv(s')
  {
    ExLockNewFacts(s, t, s');
    var p := s.threads[t];
    var q := ExBoth(p.k, p.o, s.subs[p.k].home.active);
    hide Inv, Addr.BucketAddress, Exclusive, Settled, TableFree, BucketFree, SubOk, ExLockNew, Goes, PhaseOk;
    BothPhase(s.subs[p.k], q);
    SingleThread(q, s.subs);
    SingleCompatible(s, t, q);
    SingleGoes(s, t, q, s');
  }

  lemma BothPhase(sub: Sub, q: Phase)
    requires q.ExBoth? && sub.home.level < 29 && q.o == sub.home.expansionIdx < sub.home.active && q.n == sub.home.active
    requires SegPhase(q, sub)
    ensures PhaseOk(q, q.k, sub) && Left(q) == {}
  {
    hide Addr.BucketAddress, InHand;
  }

  lemma ExNoClumpKeeps(s: State, t: nat, s': State)
    requires Inv(s) && t < |s.threads| && ExNoClump(s, t, s.threads[t], s')
    ensures Inv(s')
  {
    var p := s.threads[t];
    SingleFacts(s, t);
    NewBucketIsActive(s.subs[p.k].home);
    var q := ExFailed(p.k, p.o, p.n, InTable);
    var sub, sub' := s.subs[p.k], s'.subs[p.k];
    SegSame(sub, sub');
    assert SegPhase(q, sub');
    hide Inv, Addr.BucketAddress, Exclusive, Settled, TableFree, BucketFree, Addr.NewBucket, Addr.WellFormed, SegOk, SegPhase,
      RecordsIn;
    FreeIsCompatible(s, t, p.k);
    SingleThread(q, s'.subs);
    SingleCompatible(s, t, q);
    AddressStep(s, t, p.k, sub', q, s');
  }

  lemma ExpansionReaddresses(home: Addr, q: Phase, i: nat)
    requires home.WellFormed() && home.level < 29
    requires q.ExSplit? && q.k == i && q.o == home.expansionIdx && q.n == home.active
    ensures Readdresses(home, Expanded(home), home.expansionIdx, q, i)
    ensures Expanded(home).active == home.active + 1 && home.expansionIdx < home.active
  {
    ExpandedWellFormed(home);
    forall sig: nat
      ensures home.BucketAddress(sig) != home.expansionIdx ==> Expanded(home).BucketAddress(sig) == home.BucketAddress(sig)
      ensures home.BucketAddress(sig) == home.expansionIdx ==> BucketMode(q, i, Expanded(home).BucketAddress(sig)).Write?
    {
      ReAddressed(home, Expanded(home), sig);
    }
    hide Addr.BucketAddress, Expanded;
  }

  /** What a thread about to advance the address variables knows. */
  lemma ExBothFacts(s: State, t: nat)
    requires Inv(s) && t < |s.threads| && s.threads[t].ExBoth?
    ensures var p := s.threads[t];
      && p.k < |s.subs| && SubOk(s.subs[p.k]) && s.subs[p.k].home.WellFormed() && s.subs[p.k].home.level < 29
      && p.o == s.subs[p.k].home.expansionIdx && p.n == s.subs[p.k].home.active
      && s.subs[p.k].a == s.subs[p.k].home.(active := s.subs[p.k].home.active + 1)
      && TableMode(p, p.k).Write? && BucketMode(p, p.k, p.o).Write? && Single(p) && Left(p) == {}
      && BucketMode(p, p.k, p.n).Write? && SegPhase(p, s.subs[p.k])
  {
    SingleFacts(s, t);
    hide Inv, Addr.BucketAddress, Addr.WellFormed, InHand;
  }

  lemma ExAdvanceFacts(s: State, t: nat, p: Phase, s': State)
    requires ExAdvance(s, t, p, s') && p.k < |s.subs|
    requires s.subs[p.k].a == s.subs[p.k].home.(active := s.subs[p.k].home.active + 1)
    ensures var sub := s.subs[p.k];
      var q := ExSplit(p.k, p.o, p.n, Expanded(sub.home), RecordsIn(sub.stored, p.o));
      && Changes(s, t, p.k, Emptied(sub, Expanded(sub.home), p.o), q, s')
      && s'.subs == s.subs[p.k := Emptied(sub, Expanded(sub.home), p.o)]
      && Single(q) && Left(q) == RecordsIn(sub.stored, p.o) && TableMode(q, p.k).Write?
      && Emptied(sub, Expanded(sub.home), p.o).a == Expected(q, Emptied(sub, Expanded(sub.home), p.o).home)
  {
    var sub := s.subs[p.k];
    assert sub.a.(active := sub.a.active - 1) == sub.home;
    hide Expanded, RecordsIn, WithoutBucket;
  }

  lemma SameLocks(s: State, t: nat, p: Phase, q: Phase)
    requires t < |s.threads| && p == s.threads[t] && p.ExBoth? && q.ExSplit? && q.k == p.k && q.o == p.o && q.n == p.n
    ensures Compatible(s, t, q)
  {
    hide TableFree, BucketFree;
    SingleCompatible(s, t, q);
  }

  lemma ExAdvanceKeeps(s: State, t: nat, s': State)
    requires Inv(s) && t < |s.threads| && ExAdvance(s, t, s.threads[t], s')
    ensures Inv(s')
  {
    assert s.threads[t].ExBoth?;
    hide *;
    var p := s.threads[t];
    ExBothFacts(s, t);
    ExAdvanceFacts(s, t, p, s');
    var sub := s.subs[p.k];
    var e := Expanded(sub.home);
    var q := ExSplit(p.k, p.o, p.n, e, RecordsIn(sub.stored, p.o));
    ExpansionReaddresses(sub.home, q, p.k);
    GrownOk(sub, e, p);
    SplitPhase(sub, q);
    OwnsNew(p, sub.home, e);
    SingleThread(q, s'.subs);
    SameLocks(s, t, p, q);
    EmptyStep(s, t, p.k, e, p.o, q, s');
  }

  lemma OwnsNew(p: Phase, home: Addr, home': Addr)
    requires p.ExBoth? && p.n == home.active
    ensures Owns(p, p.k, home, home')
  {}

  /** The new bucket's segment is there, so the directory covers one more bucket. */
  lemma GrownOk(sub: Sub, home': Addr, p: Phase)
    requires SubOk(sub) && SegPhase(p, sub) && p.ExBoth? && home'.active == sub.home.active + 1
    ensures SegOk(Emptied(sub, home', p.o))
  {
    hide Pow2, DirSize, SegmentIndex, Addr.WellFormed, Addr.BucketAddress, WithoutBucket;
    assert forall b: nat :: HasSegment(Emptied(sub, home', p.o), b) == HasSegment(sub, b);
  }

  lemma SplitPhase(sub: Sub, q: Phase)
    requires SubOk(sub) && sub.home.level < 29
    requires q.ExSplit? && q.o == sub.home.expansionIdx && q.n == sub.home.active
    requires q.saved == Expanded(sub.home) && q.left == RecordsIn(sub.stored, q.o)
    ensures PhaseOk(q, q.k, Emptied(sub, Expanded(sub.home), q.o))
  {
    ExpansionReaddresses(sub.home, q, q.k);
    SegPhaseNone(q, Emptied(sub, Expanded(sub.home), q.o));
    hide Addr.BucketAddress, Addr.WellFormed, Readdresses, Expanded, RecordsIn, WithoutBucket, InHand, SubOk, SegPhase;
    forall r | r in Left(q) ensures InHand(q, q.k, Emptied(sub, Expanded(sub.home), q.o), r) {
      TakenInHand(sub, Expanded(sub.home), q.o, q, q.k, r);
    }
  }

  /** The same records in hand, the same bucket locks, the table lock held or released. */
  lemma TableReleased(p: Phase, q: Phase, i: nat, sub: Sub)
    requires PhaseOk(p, i, sub)
    requires || (p.ExSplit? && q == ExMoving(p.k, p.o, p.n, p.saved, p.left))
             || (p.CoTaken? && q == CoTrimmed(p.k, p.o, p.left))
             || (p.CoTrimmed? && q == CoMerging(p.k, p.o, p.left))
    ensures PhaseOk(q, i, sub)
  {
    SegPhaseNone(q, sub);
    hide SegPhase;
    assert forall b: nat :: BucketMode(q, i, b) == BucketMode(p, i, b);
    forall r | r in Left(q) ensures InHand(q, i, sub, r) {
      assert InHand(p, i, sub, r);
    }
    hide Addr.BucketAddress, BucketMode, InHand;
  }

  lemma ExUnlockTableKeeps(s: State, t: nat, s': State)
    requires Inv(s) && t < |s.threads| && ExUnlockTable(s, t, s.threads[t], s')
    ensures Inv(s')
  {
    var p := s.threads[t];
    var q := ExMoving(p.k, p.o, p.n, p.saved, p.left);
    SingleFacts(s, t);
    TableReleased(p, q, p.k, s.subs[p.k]);
    FreeIsCompatible(s, t, p.k);
    hide Inv, Addr.BucketAddress, Exclusive, Settled, TableFree, BucketFree, SubOk, PhaseOk;
    SingleThread(q, s.subs);
    SingleCompatible(s, t, q);
    SingleGoes(s, t, q, s');
  }

  /** A relocating thread that has moved one record holds the locks it held, and the records left. */
  lemma MovingFacts(p: Phase, q: Phase, r: Record)
    requires || (p.ExMoving? && q == ExMoving(p.k, p.o, p.n, p.saved, p.left - {r}))
             || (p.CoMerging? && q == CoMerging(p.k, p.o, p.left - {r}))
    requires r in p.left
    ensures Single(p) && Single(q) && q.k == p.k && r in Left(p) && Left(q) == Left(p) - {r} && SameBut(p, q)
    ensures forall j: nat :: TableMode(q, j) == TableMode(p, j)
    ensures forall j: nat, b: nat :: BucketMode(q, j, b) == BucketMode(p, j, b)
  {}

  /** The record goes where the table addresses it. */
  lemma MovingHome(p: Phase, i: nat, sub: Sub, r: Record)
    requires PhaseOk(p, i, sub) && r in Left(p)
    ensures p.ExMoving? ==> sub.home.BucketAddress(Sig(r)) == p.saved.BucketAddress(Sig(r))
    ensures p.CoMerging? ==> sub.home.BucketAddress(Sig(r)) == p.o
  {
    assert InHand(p, i, sub, r);
    hide Addr.BucketAddress, SegPhase, BucketMode;
  }

  lemma ExMoveKeeps(s: State, t: nat, r: Record, s': State)
    requires Inv(s) && t < |s.threads| && ExMove(s, t, s.threads[t], r, s')
    ensures Inv(s')
  {
    var p := s.threads[t];
    var q := ExMoving(p.k, p.o, p.n, p.saved, p.left - {r});
    hide Inv, Addr.BucketAddress, TableMode, BucketMode, SubOk, PhaseOk, Left, Compatible, SameBut, Single;
    MovingFacts(p, q, r);
    SingleFacts(s, t);
    MovingHome(p, p.k, s.subs[p.k], r);
    SingleCompatible(s, t, q);
    MoveStep(s, t, p.k, r, q, s');
  }

  lemma ExUnlockNewKeeps(s: State, t: nat, s': State)
    requires Inv(s) && t < |s.threads| && ExUnlockNew(s, t, s.threads[t], s')
    ensures Inv(s')
  {
    var p := s.threads[t];
    var q := ExClosing(p.k, p.o);
    SingleFacts(s, t);
    assert !BucketMode(p, p.k, p.o).Free?;
    FreeIsCompatible(s, t, p.k);
    hide Inv, Addr.BucketAddress, Exclusive, Settled, TableFree, BucketFree, SubOk;
    SingleThread(q, s.subs);
    SingleCompatible(s, t, q);
    SingleGoes(s, t, q, s');
  }

  lemma ExUnlockOldKeeps(s: State, t: nat, s': State)
    requires Inv(s) && t < |s.threads| && ExUnlockOld(s, t, s.threads[t], s')
    ensures Inv(s')
  {
    SingleFacts(s, t);
    hide Inv, Addr.BucketAddress, Exclusive, Settled, SubOk, TableFree, BucketFree, Addr.WellFormed;
    IdleThread(s.subs);
    SingleCompatible(s, t, Idle);
    SingleGoes(s, t, Idle, s');
  }

  // ------------------------------------------------------------------ contraction

  lemma CoRefuseKeeps(s: State, t: nat, s': State)
    requires Inv(s) && t < |s.threads| && CoRefuse(s, t, s.threads[t], s')
    ensures Inv(s')
  {
    SingleFacts(s, t);
    hide Inv, Addr.BucketAddress, Exclusive, Settled, SubOk, TableFree, BucketFree, Addr.WellFormed;
    IdleThread(s.subs);
    SingleCompatible(s, t, Idle);
    SingleGoes(s, t, Idle, s');
  }

  /** The last bucket is merged into a smaller one, and stepping back and forth restores the address. */
  lemma BackFacts(home: Addr)
    requires home.WellFormed() && home.active > 1
    ensures Back(home).active == home.active - 1 && Back(home).expansionIdx < home.active - 1
    ensures Expanded(Back(home)) == home && Back(home).WellFormed()
  {
    ContractedWellFormed(home);
    ExpandContractInverse(home);
    ReMerged(home, 0);
    hide Addr.BucketAddress, Expanded, Contracted;
  }

  lemma CoStepKeeps(s: State, t: nat, s': State)
    requires Inv(s) && t < |s.threads| && CoStep(s, t, s.threads[t], s')
    ensures Inv(s')
  {
    var p := s.threads[t];
    var q := CoStepped(p.k);
    SingleFacts(s, t);
    var sub, sub' := s.subs[p.k], s'.subs[p.k];
    SegSame(sub, sub');
    SegmentHasBuckets();
    assert SegPhase(q, sub');
    hide Inv, Addr.BucketAddress, Exclusive, Settled, TableFree, BucketFree, Addr.WellFormed, Back, SegOk, SegPhase, Pow2;
    SingleThread(q, s'.subs);
    SingleCompatible(s, t, q);
    AddressStep(s, t, p.k, sub', q, s');
  }

  lemma CoLockLastKeeps(s: State, t: nat, s': State)
    requires Inv(s) && t < |s.threads| && CoLockLast(s, t, s.threads[t], s')
    ensures Inv(s')
  {
    var p := s.threads[t];
    SingleFacts(s, t);
    BackFacts(s.subs[p.k].home);
    var q := CoLast(p.k, s.subs[p.k].a.active - 1);
    var sub, sub' := s.subs[p.k], s'.subs[p.k];
    SegSame(sub, sub');
    SegmentHasBuckets();
    assert SegPhase(q, sub');
    hide Inv, Addr.BucketAddress, Exclusive, Settled, TableFree, BucketFree, Addr.WellFormed, Back, SegOk, SegPhase, Pow2;
    SingleThread(q, s'.subs);
    SingleCompatible(s, t, q);
    AddressStep(s, t, p.k, sub', q, s');
  }

  lemma CoLockBuddyKeeps(s: State, t: nat, s': State)
    requires Inv(s) && t < |s.threads| && CoLockBuddy(s, t, s.threads[t], s')
    ensures Inv(s')
  {
    var p := s.threads[t];
    SingleFacts(s, t);
    BackFacts(s.subs[p.k].home);
    var q := CoBoth(p.k, p.n, s.subs[p.k].a.expansionIdx);
    assert SegPhase(q, s.subs[p.k]);
    hide SegPhase, Inv, Addr.BucketAddress, Exclusive, Settled, SubOk, TableFree, BucketFree, Addr.WellFormed, Back;
    SingleThread(q, s.subs);
    SingleCompatible(s, t, q);
    SingleGoes(s, t, q, s');
  }

  lemma CoUndoKeeps(s: State, t: nat, s': State)
    requires Inv(s) && t < |s.threads| && CoUndo(s, t, s.threads[t], s')
    ensures Inv(s')
  {
    var p := s.threads[t];
    SingleFacts(s, t);
    BackFacts(s.subs[p.k].home);
    var sub, sub' := s.subs[p.k], s'.subs[p.k];
    SegSame(sub, sub');
    hide Inv, Addr.BucketAddress, Exclusive, Settled, TableFree, BucketFree, Addr.WellFormed, Back, Expanded, SegOk, SegPhase,
      RecordsIn, RoomBeside;
    IdleThread(s'.subs);
    SingleCompatible(s, t, Idle);
    AddressStep(s, t, p.k, sub', Idle, s');
  }

  lemma ContractionReaddresses(home: Addr, q: Phase, i: nat)
    requires home.WellFormed() && home.active > 1
    requires q.CoTaken? && q.k == i && q.o == Back(home).expansionIdx
    ensures Readdresses(home, Back(home), home.active - 1, q, i)
  {
    BackFacts(home);
    forall sig: nat
      ensures home.BucketAddress(sig) != home.active - 1 ==> Back(home).BucketAddress(sig) == home.BucketAddress(sig)
      ensures home.BucketAddress(sig) == home.active - 1 ==> BucketMode(q, i, Back(home).BucketAddress(sig)).Write?
    {
      ReMerged(home, sig);
    }
    hide Addr.BucketAddress, Back;
  }

  lemma TakenPhase(sub: Sub, q: Phase)
    requires SubOk(sub) && sub.home.active > 1
    requires q.CoTaken? && q.o == Back(sub.home).expansionIdx && q.left == RecordsIn(sub.stored, sub.home.active - 1)
    ensures PhaseOk(q, q.k, Emptied(sub, Back(sub.home), sub.home.active - 1))
  {
    BackFacts(sub.home);
    ContractionReaddresses(sub.home, q, q.k);
    SegPhaseNone(q, Emptied(sub, Back(sub.home), sub.home.active - 1));
    hide Addr.BucketAddress, Addr.WellFormed, Readdresses, Back, RecordsIn, WithoutBucket, InHand, SubOk, SegPhase;
    forall r | r in Left(q) ensures InHand(q, q.k, Emptied(sub, Back(sub.home), sub.home.active - 1), r) {
      TakenInHand(sub, Back(sub.home), sub.home.active - 1, q, q.k, r);
    }
  }

  /** One bucket fewer is covered too. */
  lemma ShrunkOk(sub: Sub, home': Addr, p: Phase)
    requires SubOk(sub) && SegPhase(p, sub) && p.CoBoth? && home'.active == sub.home.active - 1
    ensures SegOk(Emptied(sub, home', p.n)) && Owns(p, p.k, sub.home, home')
  {
    hide Pow2, DirSize, SegmentIndex, Addr.WellFormed, Addr.BucketAddress, WithoutBucket, BucketMode;
    assert forall b: nat :: HasSegment(Emptied(sub, home', p.n), b) == HasSegment(sub, b);
  }

  lemma CoTakeKeeps(s: State, t: nat, s': State)
    requires Inv(s) && t < |s.threads| && CoTake(s, t, s.threads[t], s')
    ensures Inv(s')
  {
    var p := s.threads[t];
    SingleFacts(s, t);
    var sub := s.subs[p.k];
    var q := CoTaken(p.k, p.o, RecordsIn(sub.stored, p.n));
    ContractionReaddresses(sub.home, q, p.k);
    TakenPhase(sub, q);
    ShrunkOk(sub, Back(sub.home), p);
    hide Inv, Addr.BucketAddress, Exclusive, Settled, TableFree, SubOk, Addr.WellFormed, Readdresses, Back,
      PhaseOk, RecordsIn, WithoutBucket, SegOk;
    FreeIsCompatible(s, t, p.k);
    SingleThread(q, s'.subs);
    SingleCompatible(s, t, q);
    EmptyStep(s, t, p.k, sub.a, p.n, q, s');
  }

  lemma CoUnlockTableKeeps(s: State, t: nat, s': State)
    requires Inv(s) && t < |s.threads| && CoUnlockTable(s, t, s.threads[t], s')
    ensures Inv(s')
  {
    var p := s.threads[t];
    var q := CoMerging(p.k, p.o, p.left);
    SingleFacts(s, t);
    TableReleased(p, q, p.k, s.subs[p.k]);
    FreeIsCompatible(s, t, p.k);
    hide Inv, Addr.BucketAddress, Exclusive, Settled, TableFree, BucketFree, SubOk, PhaseOk;
    SingleThread(q, s.subs);
    SingleCompatible(s, t, q);
    SingleGoes(s, t, q, s');
  }

  lemma CoMoveKeeps(s: State, t: nat, r: Record, s': State)
    requires Inv(s) && t < |s.threads| && CoMove(s, t, s.threads[t], r, s')
    ensures Inv(s')
  {
    var p := s.threads[t];
    var q := CoMerging(p.k, p.o, p.left - {r});
    hide Inv, Addr.BucketAddress, TableMode, BucketMode, SubOk, PhaseOk, Left, Compatible, SameBut, Single;
    MovingFacts(p, q, r);
    SingleFacts(s, t);
    MovingHome(p, p.k, s.subs[p.k], r);
    SingleCompatible(s, t, q);
    MoveStep(s, t, p.k, r, q, s');
  }

  lemma CoUnlockBuddyKeeps(s: State, t: nat, s': State)
    requires Inv(s) && t < |s.threads| && CoUnlockBuddy(s, t, s.threads[t], s')
    ensures Inv(s')
  {
    SingleFacts(s, t);
    hide Inv, Addr.BucketAddress, Exclusive, Settled, SubOk, TableFree, BucketFree, Addr.WellFormed;
    IdleThread(s.subs);
    SingleCompatible(s, t, Idle);
    SingleGoes(s, t, Idle, s');
  }
}
