/** Giving up a segment and half of the directory, and what that means for the other threads. */
module LockTrims {
  import opened Bits
  import opened Addressing
  import opened Directories
  import opened TableStates
  import opened LockProtocol
  import opened LockInvariant
  import opened LockSteps
  import opened LockResize

  // ------------------------------------------------------------------ the subtable

  /** The first bucket of the segment freed is not active, and half a directory still spans the active ones. */
  lemma ShrunkCovers(sub: Sub, halve: bool)
    requires SegOk(sub) && sub.a == sub.home && (halve ==> CanHalve(sub))
    ensures SegOk(Shrunk(sub, halve))
  {
    var sub' := Shrunk(sub, halve);
    forall b: nat | b < sub.home.active ensures HasSegment(sub', b) {
      assert HasSegment(sub, b);
      StaysCovered(sub, b);
      if halve { HalfSpans(sub, b); }
    }
    if halve { HalvedSize(sub.dir); }
    hide Pow2, DirSize, SegmentIndex, SlotIndex;
  }

  lemma StaysCovered(sub: Sub, b: nat)
    requires HasSegment(sub, b) && b < sub.a.active
    ensures SegmentIndex(b, SEG_BITS) in SegmentsKept(sub)
  {
    if SlotIndex(sub.a.active, SEG_BITS) == 0 && SegmentIndex(b, SEG_BITS) == SegmentIndex(sub.a.active, SEG_BITS) {
      SegmentStart(b, sub.a.active, SEG_BITS);
    }
    hide SegmentIndex, SlotIndex;
  }

  lemma HalfSpans(sub: Sub, b: nat)
    requires SegOk(sub) && CanHalve(sub) && b < sub.a.active
    ensures SegmentIndex(b, SEG_BITS) < sub.dir / 2
  {
    EvenSize(sub.dir);
    HalfProduct(sub.dir, Pow2(SEG_BITS));
    WithinSegments(b, sub.a.active, sub.dir / 2, SEG_BITS);
    hide Pow2, DirSize, SegmentIndex;
  }

  lemma ShrunkSub(sub: Sub, halve: bool)
    requires SubOk(sub) && sub.a == sub.home && (halve ==> CanHalve(sub))
    ensures SubOk(Shrunk(sub, halve))
  {
    ShrunkCovers(sub, halve);
    hide SegOk, Addr.BucketAddress, Addr.WellFormed, SegmentsKept;
    forall b, r | InStore(Shrunk(sub, halve), b, r) ensures InStore(sub, b, r) {}
  }

  // ------------------------------------------------------------------ the threads

  /** Trimming takes locks away from a failed expansion and changes nothing else in a phase. */
  lemma OrphanLocks(u: Phase, k: nat, sub: Sub, halve: bool)
    ensures forall i: nat :: TableMode(Orphan(u, k, sub, halve), i) == TableMode(u, i)
    ensures forall i: nat, b: nat ::
      BucketMode(Orphan(u, k, sub, halve), i, b) == BucketMode(u, i, b) || BucketMode(Orphan(u, k, sub, halve), i, b) == Free
    ensures Left(Orphan(u, k, sub, halve)) == Left(u)
    ensures forall i: nat :: InSub(Orphan(u, k, sub, halve), i) <==> InSub(u, i)
  {
    hide HasSegment, SegmentsKept, Shrunk;
  }

  lemma OrphanPhase(u: Phase, k: nat, sub: Sub, halve: bool)
    requires PhaseOk(u, k, sub) && InSub(u, k) && !TableMode(u, k).Write?
    ensures PhaseOk(Orphan(u, k, sub, halve), k, Shrunk(sub, halve))
  {
    var u', sub' := Orphan(u, k, sub, halve), Shrunk(sub, halve);
    assert u'.ExFailed? && u'.fate.InTable? ==> HasSegment(sub', u'.n);
    OrphanLocks(u, k, sub, halve);
    OrphanSegments(u, k, sub, halve);
    hide Shrunk, Orphan, SegPhase, Addr.BucketAddress, BucketMode, Left, TableMode, HasSegment;
    OrphanParts(u, k, sub, halve);
    forall r | r in Left(u') ensures InHand(u', k, sub', r) {
      assert InHand(u, k, sub, r);
      forall b: nat ensures !InStore(sub', b, r) { assert !InStore(sub, b, r); }
    }
  }

  lemma OrphanParts(u: Phase, k: nat, sub: Sub, halve: bool)
    requires InSub(u, k)
    ensures var u', sub' := Orphan(u, k, sub, halve), Shrunk(sub, halve);
      && sub'.home == sub.home && sub'.m == sub.m && sub'.stored == sub.stored && sub'.a == sub.a
      && (u.ExFailed? || u' == u)
      && (u.ExFailed? ==> u'.ExFailed? && u'.o == u.o && Left(u) == {})
  {
    hide HasSegment, SegmentsKept;
  }

  lemma OrphanSegments(u: Phase, k: nat, sub: Sub, halve: bool)
    requires SegPhase(u, sub) && InSub(u, k) && !TableMode(u, k).Write?
    ensures SegPhase(Orphan(u, k, sub, halve), Shrunk(sub, halve))
  {
    hide SegmentIndex, SlotIndex, Pow2, SegmentsKept;
  }

  lemma OrphanThread(s: State, t: nat, v: nat, halve: bool)
    requires Inv(s) && t < |s.threads| && v < |s.threads| && s.threads[t].CoTaken? && s.threads[t].k < |s.subs|
    ensures var k := s.threads[t].k;
      ThreadOk(Orphan(s.threads[v], k, s.subs[k], halve), s.subs[k := Shrunk(s.subs[k], halve)])
  {
    InvFacts(s);
    var k, u := s.threads[t].k, s.threads[v];
    var u', sub' := Orphan(u, k, s.subs[k], halve), Shrunk(s.subs[k], halve);
    assert ThreadOk(u, s.subs);
    assert sub'.a == s.subs[k].a && sub'.home == s.subs[k].home;
    OrphanLocks(u, k, s.subs[k], halve);
    if v == t {
      assert u' == u;
      SingleFacts(s, t);
      TrimmedPhase(u, k, s.subs[k], halve);
    } else {
      TableExclusion(s, t, v, k);
      assert !TableMode(u, k).Write?;
      if InSub(u, k) { OrphanPhase(u, k, s.subs[k], halve); }
    }
    OrphanElsewhere(u, k, s.subs[k], halve);
    hide Inv, PhaseOk, Expected, TableMode, Exclusive, Settled, SubOk, Shrunk, Orphan;
  }

  lemma OrphanElsewhere(u: Phase, k: nat, sub: Sub, halve: bool)
    ensures InSub(u, k) || Orphan(u, k, sub, halve) == u
    ensures var u' := Orphan(u, k, sub, halve);
      && (u'.LockingAll? <==> u.LockingAll?) && (u'.Sweeping? <==> u.Sweeping?) && (u'.InBucket? <==> u.InBucket?)
      && (u'.Idle? <==> u.Idle?)
      && (u.ExFailed? <==> u'.ExFailed?) && (u.ExFailed? ==> u'.k == u.k) && (!u.ExFailed? ==> u' == u)
    ensures forall home: Addr :: Expected(Orphan(u, k, sub, halve), home) == Expected(u, home)
  {
    hide HasSegment, SegmentsKept, Back;
  }

  lemma TrimmedPhase(u: Phase, k: nat, sub: Sub, halve: bool)
    requires PhaseOk(u, k, sub) && u.CoTaken? && u.k == k
    ensures PhaseOk(u, k, Shrunk(sub, halve))
  {
    var sub' := Shrunk(sub, halve);
    SegPhaseNone(u, sub');
    assert sub'.home == sub.home && sub'.m == sub.m && sub'.stored == sub.stored;
    hide Shrunk, SegPhase, Addr.BucketAddress, BucketMode;
    forall r | r in Left(u) ensures InHand(u, k, sub', r) {
      assert InHand(u, k, sub, r);
      forall b: nat ensures !InStore(sub', b, r) { assert !InStore(sub, b, r); }
    }
  }

  // ------------------------------------------------------------------ the step

  lemma OrphanedExclusive(s: State, k: nat, halve: bool)
    requires k < |s.subs| && Exclusive(s.threads)
    ensures Exclusive(Orphaned(s, k, halve).threads)
  {
    forall u | 0 <= u < |s.threads|
      ensures forall i: nat :: TableMode(Orphaned(s, k, halve).threads[u], i) == TableMode(s.threads[u], i)
      ensures forall i: nat, b: nat ::
        BucketMode(Orphaned(s, k, halve).threads[u], i, b) == BucketMode(s.threads[u], i, b)
        || BucketMode(Orphaned(s, k, halve).threads[u], i, b) == Free
    {
      OrphanLocks(s.threads[u], k, s.subs[k], halve);
    }
    hide TableMode, BucketMode, Orphan, Shrunk;
  }

  lemma OrphanedSettled(s: State, k: nat, halve: bool, i: nat)
    requires k < |s.subs| && i < |s.subs| && Settled(s.threads, i, s.subs[i])
    ensures Settled(Orphaned(s, k, halve).threads, i, Orphaned(s, k, halve).subs[i])
  {
    var s' := Orphaned(s, k, halve);
    var sub, sub' := s.subs[i], s'.subs[i];
    assert sub'.home == sub.home && sub'.m == sub.m && sub'.stored == sub.stored && sub'.a == sub.a;
    forall u | 0 <= u < |s.threads|
      ensures TableMode(s'.threads[u], i) == TableMode(s.threads[u], i)
      ensures Left(s'.threads[u]) == Left(s.threads[u]) && (InSub(s'.threads[u], i) <==> InSub(s.threads[u], i))
    {
      OrphanLocks(s.threads[u], k, s.subs[k], halve);
    }
    hide TableMode, Orphan, Shrunk, Left, InSub, Orphaned, Addr.BucketAddress;
    if WriteHeld(s.threads, i) {
      var u :| 0 <= u < |s.threads| && TableMode(s.threads[u], i).Write?;
      assert TableMode(s'.threads[u], i).Write?;
    }
    forall c | c in sub.m ensures Located(s'.threads, i, sub', sub.m[c]) {
      assert Located(s.threads, i, sub, sub.m[c]);
      if SomeoneHas(s.threads, i, sub.m[c]) {
        var u :| 0 <= u < |s.threads| && InSub(s.threads[u], i) && sub.m[c] in Left(s.threads[u]);
        assert InSub(s'.threads[u], i) && sub.m[c] in Left(s'.threads[u]);
      } else {
        assert InStore(sub, sub.home.BucketAddress(Sig(sub.m[c])), sub.m[c]);
      }
    }
  }

  lemma OrphanedInv(s: State, t: nat, halve: bool)
    requires Inv(s) && t < |s.threads| && s.threads[t].CoTaken? && s.threads[t].k < |s.subs|
    requires halve ==> CanHalve(s.subs[s.threads[t].k])
    ensures Inv(Orphaned(s, s.threads[t].k, halve))
    ensures Orphaned(s, s.threads[t].k, halve).threads[t] == s.threads[t]
  {
    var k := s.threads[t].k;
    var s' := Orphaned(s, k, halve);
    SingleFacts(s, t);
    hide Inv, SubOk, ThreadOk, Exclusive, Settled, PhaseOk, Shrunk, TableFree, BucketFree;
    InvFacts(s);
    ShrunkSub(s.subs[k], halve);
    forall v | 0 <= v < |s.threads| ensures ThreadOk(s'.threads[v], s'.subs) {
      OrphanThread(s, t, v, halve);
    }
    OrphanedExclusive(s, k, halve);
    forall i | 0 <= i < |s.subs| ensures SubOk(s'.subs[i]) && Settled(s'.threads, i, s'.subs[i]) {
      OrphanedSettled(s, k, halve, i);
    }
    MakeInv(s');
  }

  lemma CoTrimKeeps(s: State, t: nat, s': State)
    requires Inv(s) && t < |s.threads| && CoTrim(s, t, s.threads[t], s')
    ensures Inv(s')
  {
    var p := s.threads[t];
    var halve :| (halve ==> CanHalve(s.subs[p.k])) && Goes(Orphaned(s, p.k, halve), t, CoTrimmed(p.k, p.o, p.left), s');
    OrphanedInv(s, t, halve);
    TrimDone(Orphaned(s, p.k, halve), t, s');
    hide *;
  }

  lemma TrimDone(s: State, t: nat, s': State)
    requires Inv(s) && t < |s.threads| && s.threads[t].CoTaken?
    requires var p := s.threads[t]; Goes(s, t, CoTrimmed(p.k, p.o, p.left), s')
    ensures Inv(s')
  {
    var p := s.threads[t];
    var q := CoTrimmed(p.k, p.o, p.left);
    SingleFacts(s, t);
    TableReleased(p, q, p.k, s.subs[p.k]);
    hide Inv, Addr.BucketAddress, Exclusive, Settled, TableFree, BucketFree, SubOk, PhaseOk;
    SingleThread(q, s.subs);
    SingleCompatible(s, t, q);
    SingleGoes(s, t, q, s');
  }
}
