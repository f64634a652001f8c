/** Every step of the locking protocol keeps the invariant. */
module LockSteps {
  import opened Records
  import opened Addressing
  import opened BucketSteps
  import opened LockProtocol
  import opened LockInvariant

  /** Phases about one subtable. */
  predicate Single(p: Phase) {
    !p.Idle? && !p.LockingAll? && !p.Sweeping? && !p.InBucket?
  }

  lemma SingleFacts(s: State, t: nat)
    requires Inv(s) && t < |s.threads| && Single(s.threads[t])
    ensures var p := s.threads[t];
      && p.k < |s.subs| && PhaseOk(p, p.k, s.subs[p.k]) && SubOk(s.subs[p.k])
      && (TableMode(p, p.k).Write? ==> s.subs[p.k].a == Expected(p, s.subs[p.k].home))
  {
    InvFacts(s);
    var p := s.threads[t];
    assert ThreadOk(p, s.subs) && InSub(p, p.k);
    hide PhaseOk, SubOk, Expected, TableMode, Inv, Exclusive, Settled;
  }

  lemma SingleThread(p: Phase, subs: seq<Sub>)
    requires Single(p) && p.k < |subs| && PhaseOk(p, p.k, subs[p.k])
    requires TableMode(p, p.k).Write? ==> subs[p.k].a == Expected(p, subs[p.k].home)
    ensures ThreadOk(p, subs)
  {
    hide PhaseOk, Expected;
  }

  lemma IdleThread(subs: seq<Sub>)
    ensures ThreadOk(Idle, subs) && Left(Idle) == {}
  {}

  /** Between phases about one subtable only its locks matter. */
  lemma SingleCompatible(s: State, t: nat, q: Phase)
    requires t < |s.threads| && (Single(s.threads[t]) || s.threads[t].Idle?) && (Single(q) || q.Idle?)
    requires Single(q) ==>
      TableMode(q, q.k) == TableMode(s.threads[t], q.k) || TableFree(s, t, q.k, TableMode(q, q.k))
    requires Single(q) ==> forall b: nat ::
      BucketMode(q, q.k, b) == BucketMode(s.threads[t], q.k, b) || BucketFree(s, t, q.k, b, BucketMode(q, q.k, b))
    ensures Compatible(s, t, q)
  {
    forall i: nat
      ensures TableMode(q, i) == TableMode(s.threads[t], i) || TableFree(s, t, i, TableMode(q, i))
      ensures forall b: nat ::
        BucketMode(q, i, b) == BucketMode(s.threads[t], i, b) || BucketFree(s, t, i, b, BucketMode(q, i, b))
    {
      FreeIsCompatible(s, t, i);
      NotMine(q, i);
    }
    hide TableMode, BucketMode, TableFree, BucketFree;
  }

  lemma NotMine(q: Phase, i: nat)
    requires Single(q) || q.Idle?
    ensures Single(q) && q.k != i ==> TableMode(q, i) == Free
    ensures Single(q) && q.k != i ==> forall b: nat :: BucketMode(q, i, b) == Free
    ensures q.Idle? ==> TableMode(q, i) == Free && forall b: nat :: BucketMode(q, i, b) == Free
  {}

  /** A step between phases about one subtable that leaves the subtables alone. */
  lemma SingleGoes(s: State, t: nat, q: Phase, s': State)
    requires Inv(s) && Goes(s, t, q, s') && Single(s.threads[t]) && (Single(q) ==> q.k == s.threads[t].k)
    requires Single(q) || q.Idle?
    requires Compatible(s, t, q) && ThreadOk(q, s.subs)
    requires Left(q) == Left(s.threads[t])
    requires s.threads[t].k < |s.subs| &&
      (TableMode(s.threads[t], s.threads[t].k).Write? && (Single(q) ==> !TableMode(q, q.k).Write?) ==>
        s.subs[s.threads[t].k].a == s.subs[s.threads[t].k].home)
    ensures Inv(s')
  {
    var p := s.threads[t];
    forall i: nat ensures Left(q) != {} ==> (InSub(q, i) <==> InSub(p, i)) {}
    forall i | 0 <= i < |s.subs| && TableMode(p, i).Write? && !TableMode(q, i).Write?
      ensures s.subs[i].a == s.subs[i].home
    {
      NotMine(p, i);
    }
    hide *;
    GoesStep(s, t, q, s');
  }

  // ------------------------------------------------------------------ key operations

  lemma LockBucketKeeps(s: State, t: nat, s': State)
    requires Inv(s) && t < |s.threads| && LockBucket(s, t, s.threads[t], s')
    ensures Inv(s')
  {
    var p := s.threads[t];
    var sub := s.subs[p.k];
    var b := sub.a.BucketAddress(ClassOf(p.op).sig);
    var q := OpBoth(p.k, p.op, b);
    SingleFacts(s, t);
    HolderSees(s, t, p.k);
    ActiveAddress(sub.home, ClassOf(p.op).sig);
    hide Inv, Addr.BucketAddress, Exclusive, Settled, SubOk, TableFree, BucketFree, Addr.WellFormed;
    SingleThread(q, s.subs);
    SingleCompatible(s, t, q);
    SingleGoes(s, t, q, s');
  }

  lemma UnlockTableKeeps(s: State, t: nat, s': State)
    requires Inv(s) && t < |s.threads| && UnlockTable(s, t, s.threads[t], s')
    ensures Inv(s')
  {
    var p := s.threads[t];
    var q := OpBucket(p.k, p.op, p.b);
    SingleFacts(s, t);
    assert !BucketMode(p, p.k, p.b).Free?;
    HolderSees(s, t, p.k);
    FreeIsCompatible(s, t, p.k);
    hide Inv, Addr.BucketAddress, Exclusive, Settled, SubOk, TableFree, BucketFree, Addr.WellFormed;
    SingleThread(q, s.subs);
    SingleCompatible(s, t, q);
    SingleGoes(s, t, q, s');
  }

  lemma UnlockBucketKeeps(s: State, t: nat, s': State)
    requires Inv(s) && t < |s.threads| && UnlockBucket(s, t, s.threads[t], s')
    ensures Inv(s')
  {
    SingleFacts(s, t);
    hide Inv, Addr.BucketAddress, Exclusive, Settled, SubOk, TableFree, BucketFree, Addr.WellFormed;
    IdleThread(s.subs);
    SingleCompatible(s, t, Idle);
    SingleGoes(s, t, Idle, s');
  }

  /** Subtable i's bucket b has been rewritten for one class of keys, and the map with it. */
  ghost predicate Rewrites(sub: Sub, b: nat, c: KeyClass, sub': Sub) {
    && sub'.a == sub.a && sub'.home == sub.home && sub'.segs == sub.segs && sub'.dir == sub.dir
    && (forall d :: d != c ==> (d in sub'.m <==> d in sub.m))
    && (forall d :: d != c && d in sub.m ==> sub'.m[d] == sub.m[d])
    && (forall k: nat, r: Record :: r.key.cls != c ==> (InStore(sub', k, r) <==> InStore(sub, k, r)))
    && (forall k: nat, r: Record :: r.key.cls == c ==> (InStore(sub', k, r) <==> k == b && Holds(sub'.m, r)))
    && (c in sub'.m ==> sub'.m[c].key.cls == c)
  }

  lemma PutRewrites(sub: Sub, b: nat, r: Record)
    requires SubOk(sub) && sub.home.BucketAddress(Sig(r)) == b
    ensures Rewrites(sub, b, r.key.cls, Put(sub, b, r))
  {
    hide Addr.BucketAddress, Addr.WellFormed;
    var sub' := Put(sub, b, r);
    forall k: nat, x: Record
      ensures x.key.cls != r.key.cls ==> (InStore(sub', k, x) <==> InStore(sub, k, x))
      ensures x.key.cls == r.key.cls ==> (InStore(sub', k, x) <==> k == b && Holds(sub'.m, x))
    {
      if InStore(sub, k, x) && x.key.cls == r.key.cls { assert k == b; }
    }
  }

  lemma TakeRewrites(sub: Sub, b: nat, c: KeyClass)
    requires SubOk(sub) && sub.home.BucketAddress(c.sig) == b
    ensures Rewrites(sub, b, c, Take(sub, b, c))
  {
    hide Addr.BucketAddress, Addr.WellFormed;
    var sub' := Take(sub, b, c);
    forall k: nat, x: Record
      ensures x.key.cls != c ==> (InStore(sub', k, x) <==> InStore(sub, k, x))
      ensures x.key.cls == c ==> (InStore(sub', k, x) <==> k == b && Holds(sub'.m, x))
    {
      if InStore(sub, k, x) && x.key.cls == c { assert k == b; }
    }
  }

  lemma RewrittenSub(sub: Sub, b: nat, c: KeyClass, sub': Sub)
    requires SubOk(sub) && sub.home.BucketAddress(c.sig) == b && Rewrites(sub, b, c, sub')
    ensures SubOk(sub')
  {
    SegSame(sub, sub');
    hide Addr.BucketAddress, Addr.WellFormed, SegOk;
    forall k: nat, r | InStore(sub', k, r) ensures Holds(sub'.m, r) && sub'.home.BucketAddress(Sig(r)) == k {
      if r.key.cls != c { assert InStore(sub, k, r); }
    }
  }

  /** Another thread's phase is not disturbed by a rewrite in a bucket it has not locked for writing. */
  lemma OtherPhaseRewritten(u: Phase, i: nat, sub: Sub, b: nat, c: KeyClass, sub': Sub)
    requires PhaseOk(u, i, sub) && Rewrites(sub, b, c, sub') && sub.home.BucketAddress(c.sig) == b
    requires !BucketMode(u, i, b).Write?
    ensures PhaseOk(u, i, sub')
  {
    SegSame(sub, sub');
    hide Addr.BucketAddress, BucketMode, Expected, Left, SegPhase;
    forall r | r in Left(u) ensures InHand(u, i, sub', r) {
      assert InHand(u, i, sub, r);
      assert r.key.cls != c;
      forall k: nat ensures !InStore(sub', k, r) {}
    }
  }

  lemma OtherThreadRewritten(s: State, t: nat, v: nat, i: nat, b: nat, c: KeyClass, sub': Sub)
    requires Inv(s) && t < |s.threads| && v < |s.threads| && t != v && i < |s.subs|
    requires Rewrites(s.subs[i], b, c, sub') && s.subs[i].home.BucketAddress(c.sig) == b
    requires BucketMode(s.threads[t], i, b).Write?
    ensures ThreadOk(s.threads[v], s.subs[i := sub'])
  {
    InvFacts(s);
    BucketExclusion(s, t, v, i, b);
    var u := s.threads[v];
    assert ThreadOk(u, s.subs);
    hide Inv, BucketMode, PhaseOk, Expected, TableMode, Addr.BucketAddress, Exclusive, Settled, SubOk;
    if InSub(u, i) { OtherPhaseRewritten(u, i, s.subs[i], b, c, sub'); }
    assert sub'.a == s.subs[i].a && sub'.home == s.subs[i].home;
  }

  lemma RewrittenLocated(threads: seq<Phase>, i: nat, sub: Sub, b: nat, c: KeyClass, sub': Sub, d: KeyClass)
    requires SubOk(sub) && SubOk(sub') && sub.home.BucketAddress(c.sig) == b && Rewrites(sub, b, c, sub') && d in sub'.m
    requires d in sub.m ==> Located(threads, i, sub, sub.m[d])
    ensures Located(threads, i, sub', sub'.m[d])
  {
    hide Addr.BucketAddress, Addr.WellFormed, SomeoneHas;
  }

  /** Rewriting a bucket that thread t has locked for writing. */
  lemma RewriteStep(s: State, t: nat, i: nat, b: nat, c: KeyClass, sub': Sub, q: Phase, s': State)
    requires Inv(s) && Changes(s, t, i, sub', q, s') && Compatible(s, t, q)
    requires Rewrites(s.subs[i], b, c, sub') && s.subs[i].home.BucketAddress(c.sig) == b
    requires BucketMode(s.threads[t], i, b).Write?
    requires ThreadOk(q, s'.subs) && Left(q) == Left(s.threads[t]) == {}
    requires forall j: nat :: TableMode(q, j) == TableMode(s.threads[t], j)
    ensures Inv(s')
  {
    hide *;
    InvFacts(s);
    ChangesFacts(s, t, i, sub', q, s');
    RewrittenSub(s.subs[i], b, c, sub');
    forall v | 0 <= v < |s.threads| && v != t ensures ThreadOk(s.threads[v], s'.subs) {
      OtherThreadRewritten(s, t, v, i, b, c, sub');
    }
    forall j | 0 <= j < |s.subs| ensures Settled(s'.threads, j, s'.subs[j]) {
      SettledGoes(s.threads, t, q, j, s.subs[j]);
      if j == i { RewrittenSettled(s'.threads, i, s.subs[i], b, c, sub'); }
    }
    GeneralStep(s, t, i, sub', q, s');
  }

  lemma RewrittenSettled(threads: seq<Phase>, i: nat, sub: Sub, b: nat, c: KeyClass, sub': Sub)
    requires SubOk(sub) && SubOk(sub') && sub.home.BucketAddress(c.sig) == b && Rewrites(sub, b, c, sub')
    requires Settled(threads, i, sub)
    ensures Settled(threads, i, sub')
  {
    hide Addr.BucketAddress, SubOk, WriteHeld, Located;
    forall d | d in sub'.m ensures Located(threads, i, sub', sub'.m[d]) {
      RewrittenLocated(threads, i, sub, b, c, sub', d);
    }
  }

  /** An operation's effect is none, or a rewrite of its bucket for its class. */
  lemma ActRewrites(sub: Sub, b: nat, op: Op, sub': Sub)
    requires SubOk(sub) && sub.home.BucketAddress(ClassOf(op).sig) == b && Acts(sub, b, op, sub')
    ensures sub' == sub || (OpMode(op).Write? && Rewrites(sub, b, ClassOf(op), sub'))
  {
    hide SubOk, Rewrites, Addr.BucketAddress, BucketHas, Put, Take;
    if op.Insert? {
      PutRewrites(sub, b, op.rec);
    } else if !op.Find? {
      TakeRewrites(sub, b, ClassOf(op));
    }
  }

  lemma ActKeeps(s: State, t: nat, s': State)
    requires Inv(s) && t < |s.threads| && Act(s, t, s.threads[t], s')
    ensures Inv(s')
  {
    var p := s.threads[t];
    var sub := s.subs[p.k];
    var q := OpDone(p.k, p.op, p.b);
    var sub' :| Acts(sub, p.b, p.op, sub') && Changes(s, t, p.k, sub', q, s');
    SingleFacts(s, t);
    assert !BucketMode(p, p.k, p.b).Free?;
    ActRewrites(sub, p.b, p.op, sub');
    hide Inv, Addr.BucketAddress, Exclusive, Settled, SubOk, TableFree, BucketFree, Addr.WellFormed, Acts, Rewrites;
    SingleCompatible(s, t, q);
    if sub' == sub {
      assert s.subs[p.k := sub] == s.subs;
      SingleThread(q, s.subs);
      SingleGoes(s, t, q, s');
    } else {
      RewrittenThread(s, t, q, sub', s');
      RewriteStep(s, t, p.k, p.b, ClassOf(p.op), sub', q, s');
    }
  }

  lemma RewrittenThread(s: State, t: nat, q: Phase, sub': Sub, s': State)
    requires t < |s.threads| && s.threads[t].OpBucket? && s.threads[t].k < |s.subs|
    requires var p := s.threads[t];
      && q == OpDone(p.k, p.op, p.b) && Changes(s, t, p.k, sub', q, s')
      && PhaseOk(p, p.k, s.subs[p.k]) && Rewrites(s.subs[p.k], p.b, ClassOf(p.op), sub')
    ensures ThreadOk(q, s'.subs) && Left(q) == Left(s.threads[t]) == {}
    ensures forall j: nat :: TableMode(q, j) == TableMode(s.threads[t], j)
  {
    var p := s.threads[t];
    assert !BucketMode(p, p.k, p.b).Free?;
    hide Addr.BucketAddress;
    SingleThread(q, s'.subs);
  }
}
