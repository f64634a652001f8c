/** What every step of the locking protocol keeps. */
module LockInvariant {
  import opened Bits
  import opened Records
  import opened Addressing
  import opened Directories
  import opened BucketSteps
  import opened LockProtocol

  function Sig(r: Record): nat {
    r.key.cls.sig
  }

  /** The records a relocating thread has in hand. */
  function Left(p: Phase): set<Record> {
    if p.ExSplit? || p.ExMoving? || p.CoTaken? || p.CoTrimmed? || p.CoMerging? then p.left else {}
  }

  /** The address variables while a thread in this phase holds the table lock for writing. */
  function Expected(p: Phase, home: Addr): Addr {
    if p.ExOpen? || p.ExOld? || p.ExBoth? then home.(active := home.active + 1)
    else if p.CoStepped? then Back(home).(active := home.active)
    else if p.CoLast? || p.CoBoth? then Back(home)
    else home
  }

  /** The subtable a relocating or operating phase is about. */
  predicate InSub(p: Phase, i: nat) {
    !p.Idle? && !p.LockingAll? && !p.Sweeping? && p.k == i
  }

  ghost predicate SubOk(sub: Sub) {
    && sub.home.WellFormed() && SegOk(sub)
    && (forall c :: c in sub.m ==> sub.m[c].key.cls == c)
    && (forall b, r :: InStore(sub, b, r) ==> Holds(sub.m, r) && sub.home.BucketAddress(Sig(r)) == b)
  }

  /** A record in hand: it is the map's, stored nowhere, and belongs in a bucket this thread has locked. */
  ghost predicate InHand(p: Phase, i: nat, sub: Sub, r: Record) {
    && Holds(sub.m, r)
    && BucketMode(p, i, sub.home.BucketAddress(Sig(r))).Write?
    && (forall b: nat :: !InStore(sub, b, r))
    && (p.ExSplit? || p.ExMoving? ==> p.saved.BucketAddress(Sig(r)) == sub.home.BucketAddress(Sig(r)))
  }

  /**
    What a phase says about the segments of its subtable: an expansion has room in the
    directory and then a segment for its new bucket; the bucket a failed expansion has locked
    is not active and has its segment, as long as that is in the directory.
   */
  ghost predicate SegPhase(p: Phase, sub: Sub) {
    && (p.ExOpen? || p.ExOld? || p.ExBoth? ==> sub.home.active < MAX_DIRSIZE * Pow2(SEG_BITS) - 1)
    && (p.ExOpen? ==> sub.home.active < sub.dir * Pow2(SEG_BITS))
    && (p.ExOld? || p.ExBoth? ==> HasSegment(sub, sub.home.active))
    && (p.ExFailed? ==> p.o < p.n)
    && (p.ExFailed? && p.fate.InTable? ==> sub.home.active <= p.n && HasSegment(sub, p.n))
    && (p.CoStepped? || p.CoLast? || p.CoBoth? ==> sub.home.active > Pow2(SEG_BITS))
  }

  /** What a phase says about its subtable. */
  ghost predicate PhaseOk(p: Phase, i: nat, sub: Sub) {
    && (p.OpBoth? || p.OpBucket? || p.OpDone? ==> sub.home.BucketAddress(ClassOf(p.op).sig) == p.b)
    && (p.ExOpen? || p.ExOld? || p.ExBoth? ==> sub.home.level < 29)
    && (p.ExOld? || p.ExBoth? ==> p.o == sub.home.expansionIdx)
    && (p.ExBoth? ==> p.n == sub.home.active)
    && (p.CoStepped? || p.CoLast? || p.CoBoth? ==> sub.home.active > 1)
    && (p.CoLast? || p.CoBoth? ==> p.n == sub.home.active - 1)
    && (p.CoBoth? ==> p.o == Back(sub.home).expansionIdx)
    && (p.ExFailed? ==> p.o < sub.home.active)
    && SegPhase(p, sub)
    && (forall b: nat :: !BucketMode(p, i, b).Free? && !(p.ExBoth? && b == p.n) && !p.ExFailed? ==> b < sub.home.active)
    && (forall r :: r in Left(p) ==> InHand(p, i, sub, r))
  }

  /** A phase agrees with all subtables: the one it is about, and those whose table lock it holds for writing. */
  ghost predicate ThreadOk(p: Phase, subs: seq<Sub>) {
    && (p.LockingAll? ==> p.j <= |subs|)
    && (p.Sweeping? || p.InBucket? ==> p.j == |subs|)
    && (!p.Idle? && !p.LockingAll? && !p.Sweeping? ==> p.k < |subs|)
    && (forall i :: 0 <= i < |subs| && InSub(p, i) ==> PhaseOk(p, i, subs[i]))
    && (forall i :: 0 <= i < |subs| && TableMode(p, i).Write? ==> subs[i].a == Expected(p, subs[i].home))
  }

  /** No two threads hold a lock in conflicting modes. */
  ghost predicate Exclusive(threads: seq<Phase>) {
    && (forall t, u, i: nat :: 0 <= t < |threads| && 0 <= u < |threads| && t != u ==>
          !Conflict(TableMode(threads[t], i), TableMode(threads[u], i)))
    && (forall t, u, i: nat, b: nat :: 0 <= t < |threads| && 0 <= u < |threads| && t != u ==>
          !Conflict(BucketMode(threads[t], i, b), BucketMode(threads[u], i, b)))
  }

  ghost predicate WriteHeld(threads: seq<Phase>, i: nat) {
    exists t :: 0 <= t < |threads| && TableMode(threads[t], i).Write?
  }

  /** Some thread relocating records of subtable i has this one in hand. */
  ghost predicate SomeoneHas(threads: seq<Phase>, i: nat, r: Record) {
    exists t :: 0 <= t < |threads| && InSub(threads[t], i) && r in Left(threads[t])
  }

  /** The record is stored in the bucket it belongs to, or in the hands of a relocating thread. */
  ghost predicate Located(threads: seq<Phase>, i: nat, sub: Sub, r: Record) {
    InStore(sub, sub.home.BucketAddress(Sig(r)), r) || SomeoneHas(threads, i, r)
  }

  /** A subtable whose table lock nobody holds for writing is addressed as its records are placed. */
  ghost predicate Settled(threads: seq<Phase>, i: nat, sub: Sub) {
    && (!WriteHeld(threads, i) ==> sub.a == sub.home)
    && (forall c :: c in sub.m ==> Located(threads, i, sub, sub.m[c]))
  }

  ghost predicate Inv(s: State) {
    && (forall i :: 0 <= i < |s.subs| ==> SubOk(s.subs[i]))
    && (forall t :: 0 <= t < |s.threads| ==> ThreadOk(s.threads[t], s.subs))
    && Exclusive(s.threads)
    && (forall i :: 0 <= i < |s.subs| ==> Settled(s.threads, i, s.subs[i]))
  }

  lemma SegSame(sub: Sub, sub': Sub)
    requires sub'.home == sub.home && sub'.segs == sub.segs && sub'.dir == sub.dir
    ensures SegOk(sub) ==> SegOk(sub')
    ensures forall p :: SegPhase(p, sub) ==> SegPhase(p, sub')
  {
    hide SegmentIndex, DirSize, Pow2;
    assert forall b: nat :: HasSegment(sub', b) == HasSegment(sub, b);
  }

  lemma SegPhaseNone(p: Phase, sub: Sub)
    requires !p.ExOpen? && !p.ExOld? && !p.ExBoth? && !p.ExFailed? && !p.CoStepped? && !p.CoLast? && !p.CoBoth?
    ensures SegPhase(p, sub)
  {}

  /** A phase that does not hold the table lock for writing keeps its segments when others are added. */
  lemma SegMore(p: Phase, i: nat, sub: Sub, sub': Sub)
    requires SegPhase(p, sub) && sub'.home == sub.home && sub.segs <= sub'.segs
    requires !TableMode(p, i).Write? && InSub(p, i)
    ensures SegPhase(p, sub')
  {
    hide SegmentIndex, Pow2;
  }

  // ------------------------------------------------------------------ locks

  /** Thread t may go on to phase p: what p holds, t held as strongly, or nobody else holds it. */
  ghost predicate Compatible(s: State, t: nat, p: Phase) {
    && t < |s.threads|
    && (forall i: nat :: TableMode(p, i) == TableMode(s.threads[t], i) || TableFree(s, t, i, TableMode(p, i)))
    && (forall i: nat, b: nat ::
          BucketMode(p, i, b) == BucketMode(s.threads[t], i, b) || BucketFree(s, t, i, b, BucketMode(p, i, b)))
  }

  lemma ExclusiveNext(s: State, t: nat, p: Phase)
    requires Exclusive(s.threads) && Compatible(s, t, p)
    ensures Exclusive(s.threads[t := p])
  {
    hide TableMode, BucketMode;
  }

  /** Giving a lock up is always compatible. */
  lemma FreeIsCompatible(s: State, t: nat, i: nat)
    ensures TableFree(s, t, i, Free)
    ensures forall b: nat :: BucketFree(s, t, i, b, Free)
  {
    hide TableMode, BucketMode;
  }

  // ------------------------------------------------------------------ the general step

  /** Thread t goes on to phase p while subtable i becomes sub. */
  lemma GeneralStep(s: State, t: nat, i: nat, sub: Sub, p: Phase, s': State)
    requires Inv(s) && Changes(s, t, i, sub, p, s') && Compatible(s, t, p)
    requires SubOk(sub) && ThreadOk(p, s'.subs)
    requires forall u :: 0 <= u < |s.threads| && u != t ==> ThreadOk(s.threads[u], s'.subs)
    requires forall j :: 0 <= j < |s.subs| ==> Settled(s'.threads, j, s'.subs[j])
    ensures Inv(s')
  {
    hide *;
    InvFacts(s);
    ExclusiveNext(s, t, p);
    ChangesFacts(s, t, i, sub, p, s');
    MakeInv(s');
  }

  lemma InvFacts(s: State)
    requires Inv(s)
    ensures forall i :: 0 <= i < |s.subs| ==> SubOk(s.subs[i])
    ensures forall t :: 0 <= t < |s.threads| ==> ThreadOk(s.threads[t], s.subs)
    ensures Exclusive(s.threads)
    ensures forall i :: 0 <= i < |s.subs| ==> Settled(s.threads, i, s.subs[i])
  {
    hide SubOk, ThreadOk, Exclusive, Settled;
  }

  lemma MakeInv(s: State)
    requires forall i :: 0 <= i < |s.subs| ==> SubOk(s.subs[i])
    requires forall t :: 0 <= t < |s.threads| ==> ThreadOk(s.threads[t], s.subs)
    requires Exclusive(s.threads)
    requires forall i :: 0 <= i < |s.subs| ==> Settled(s.threads, i, s.subs[i])
    ensures Inv(s)
  {
    hide SubOk, ThreadOk, Exclusive, Settled;
  }

  lemma ChangesFacts(s: State, t: nat, i: nat, sub: Sub, p: Phase, s': State)
    requires Changes(s, t, i, sub, p, s')
    ensures t < |s.threads| && i < |s.subs|
    ensures s'.subs == s.subs[i := sub] && s'.threads == s.threads[t := p]
  {}

  // ------------------------------------------------------------------ steps that leave the subtables alone

  lemma SettledGoes(threads: seq<Phase>, t: nat, p: Phase, i: nat, sub: Sub)
    requires t < |threads| && Settled(threads, i, sub)
    requires Left(p) == Left(threads[t]) && (Left(p) != {} ==> (InSub(p, i) <==> InSub(threads[t], i)))
    requires TableMode(threads[t], i).Write? && !TableMode(p, i).Write? ==> sub.a == sub.home
    ensures Settled(threads[t := p], i, sub)
  {
    hide TableMode, Left, InSub;
    WriterStays(threads, t, p, i);
    forall c | c in sub.m ensures Located(threads[t := p], i, sub, sub.m[c]) {
      assert Located(threads, i, sub, sub.m[c]);
      if SomeoneHas(threads, i, sub.m[c]) {
        StillHas(threads, t, p, i, sub.m[c]);
      }
    }
  }

  lemma WriterStays(threads: seq<Phase>, t: nat, p: Phase, i: nat)
    requires t < |threads|
    ensures WriteHeld(threads, i) ==> WriteHeld(threads[t := p], i) || TableMode(threads[t], i).Write?
    ensures WriteHeld(threads[t := p], i) ==> WriteHeld(threads, i) || TableMode(p, i).Write?
    ensures TableMode(p, i).Write? ==> WriteHeld(threads[t := p], i)
  {
    hide TableMode;
    var threads' := threads[t := p];
    if u :| 0 <= u < |threads| && TableMode(threads[u], i).Write? {
      assert u != t ==> threads'[u] == threads[u];
    }
    if u :| 0 <= u < |threads'| && TableMode(threads'[u], i).Write? {
      assert u != t ==> threads'[u] == threads[u];
    }
    assert threads'[t] == p;
  }

  lemma StillHas(threads: seq<Phase>, t: nat, p: Phase, i: nat, r: Record)
    requires t < |threads| && SomeoneHas(threads, i, r)
    requires r in Left(threads[t]) && InSub(threads[t], i) ==> r in Left(p) && InSub(p, i)
    ensures SomeoneHas(threads[t := p], i, r)
  {
    hide Left, InSub;
    var u :| 0 <= u < |threads| && InSub(threads[u], i) && r in Left(threads[u]);
    var threads' := threads[t := p];
    assert InSub(threads'[u], i) && r in Left(threads'[u]);
  }

  /** A step that only takes or releases locks. */
  lemma GoesStep(s: State, t: nat, p: Phase, s': State)
    requires Inv(s) && Goes(s, t, p, s') && Compatible(s, t, p) && ThreadOk(p, s.subs)
    requires Left(p) == Left(s.threads[t])
    requires Left(p) != {} ==> forall i: nat :: InSub(p, i) <==> InSub(s.threads[t], i)
    requires forall i :: 0 <= i < |s.subs| && TableMode(s.threads[t], i).Write? && !TableMode(p, i).Write? ==>
      s.subs[i].a == s.subs[i].home
    ensures Inv(s')
  {
    hide *;
    InvFacts(s);
    ExclusiveNext(s, t, p);
    GoesFacts(s, t, p, s');
    forall i | 0 <= i < |s.subs| ensures Settled(s'.threads, i, s.subs[i]) {
      SettledGoes(s.threads, t, p, i, s.subs[i]);
    }
    MakeInv(s');
  }

  lemma GoesFacts(s: State, t: nat, p: Phase, s': State)
    requires Goes(s, t, p, s')
    ensures t < |s.threads| && s'.subs == s.subs && s'.threads == s.threads[t := p]
  {}

  // ------------------------------------------------------------------ what lock holders know

  lemma TableExclusion(s: State, t: nat, u: nat, i: nat)
    requires Inv(s) && t < |s.threads| && u < |s.threads| && t != u
    ensures !Conflict(TableMode(s.threads[t], i), TableMode(s.threads[u], i))
  {
    hide TableMode, BucketMode, Conflict, SubOk, ThreadOk, Settled;
  }

  lemma BucketExclusion(s: State, t: nat, u: nat, i: nat, b: nat)
    requires Inv(s) && t < |s.threads| && u < |s.threads| && t != u
    ensures !Conflict(BucketMode(s.threads[t], i, b), BucketMode(s.threads[u], i, b))
  {
    hide TableMode, BucketMode, Conflict, SubOk, ThreadOk, Settled;
  }

  /** A table lock held, in whatever mode, by a thread that has not changed the address variables. */
  lemma HolderSees(s: State, t: nat, i: nat)
    requires Inv(s) && t < |s.threads| && i < |s.subs|
    requires !TableMode(s.threads[t], i).Free? && Expected(s.threads[t], s.subs[i].home) == s.subs[i].home
    ensures s.subs[i].a == s.subs[i].home
  {
    InvFacts(s);
    if !TableMode(s.threads[t], i).Write? {
      forall u | 0 <= u < |s.threads| ensures !TableMode(s.threads[u], i).Write? {
        if u != t { TableExclusion(s, t, u, i); }
      }
    }
    hide TableMode, BucketMode, SubOk, PhaseOk, Exclusive, Expected, Inv, Located;
  }

  lemma ActiveAddress(a: Addr, sig: nat)
    requires a.WellFormed()
    ensures a.BucketAddress(sig) < a.active
  {
    BucketAddressIsLinear(a, sig);
    hide Addr.BucketAddress;
  }

  // ------------------------------------------------------------------ key operations

  lemma BeginKeeps(s: State, t: nat, p: Phase, s': State)
    requires Inv(s) && Begin(s, t, p, s')
    ensures Inv(s')
  {
    hide Inv, Exclusive, Settled, SubOk, PhaseOk, TableFree, BucketFree;
    BeginCompatible(s, t, p, s');
    BeginAligned(s, t, p);
    GoesStep(s, t, p, s');
  }

  lemma BeginAligned(s: State, t: nat, p: Phase)
    requires Inv(s) && t < |s.threads| && s.threads[t].Idle?
    requires p.OpTable? || p.ExTable? || p.CoTable? || (p.LockingAll? && p.j == 0)
    requires !p.LockingAll? ==> p.k < |s.subs| && TableFree(s, t, p.k, TableMode(p, p.k))
    ensures ThreadOk(p, s.subs)
  {
    hide Inv, PhaseOk, TableFree;
    forall i | 0 <= i < |s.subs| && TableMode(p, i).Write? ensures s.subs[i].a == Expected(p, s.subs[i].home) {
      assert p.k == i;
      NoWriter(s, t, i);
    }
    forall i | 0 <= i < |s.subs| && InSub(p, i) ensures PhaseOk(p, i, s.subs[i]) {
      BeginPhase(p, i, s.subs[i]);
    }
  }

  lemma BeginPhase(p: Phase, i: nat, sub: Sub)
    requires p.OpTable? || p.ExTable? || p.CoTable?
    ensures PhaseOk(p, i, sub)
  {
    SegPhaseNone(p, sub);
    hide SegPhase;
  }

  /** When thread t may lock the table for writing, the subtable is settled. */
  lemma NoWriter(s: State, t: nat, i: nat)
    requires Inv(s) && t < |s.threads| && i < |s.subs|
    requires TableFree(s, t, i, Write) && !TableMode(s.threads[t], i).Write?
    ensures s.subs[i].a == s.subs[i].home
  {
    InvFacts(s);
    forall u | 0 <= u < |s.threads| ensures !TableMode(s.threads[u], i).Write? {}
    hide TableMode, BucketMode, SubOk, PhaseOk, Exclusive, Expected, Inv, Located, ThreadOk;
  }

  lemma BeginCompatible(s: State, t: nat, p: Phase, s': State)
    requires Begin(s, t, p, s')
    ensures Compatible(s, t, p) && Left(p) == Left(s.threads[t]) == {}
    ensures forall i: nat :: !TableMode(s.threads[t], i).Write?
  {
    forall i: nat
      ensures TableMode(p, i) == TableMode(s.threads[t], i) || TableFree(s, t, i, TableMode(p, i))
      ensures forall b: nat :: BucketMode(p, i, b) == Free
    {
      FreeIsCompatible(s, t, i);
    }
  }
}
