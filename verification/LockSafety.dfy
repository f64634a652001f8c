/** What the locking protocol guarantees in every state of every run. */
module LockSafety {
  import opened Bits
  import opened Records
  import opened Clumps
  import opened Addressing
  import opened Directories
  import opened Contents
  import opened BucketSteps
  import opened LockProtocol
  import opened LockInvariant
  import opened LockSteps
  import opened LockResize
  import opened LockTheorems

  // ------------------------------------------------------------------ addresses

  /** An operation that holds its bucket's lock. */
  predicate Operating(p: Phase) {
    p.OpBoth? || p.OpBucket? || p.OpDone?
  }

  /**
    Whenever nobody holds the table lock for writing, each operation's bucket lock is on the
    bucket its signature addresses now, however the table has grown or shrunk meanwhile.
   */
  lemma LockedBucketIsCurrent(run: seq<State>, n: nat, t: nat)
    requires IsRun(run) && n < |run| && t < |run[n].threads|
    requires var p := run[n].threads[t]; Operating(p) && !WriteHeld(run[n].threads, p.k)
    ensures var p := run[n].threads[t];
      p.k < |run[n].subs| && run[n].subs[p.k].a.BucketAddress(ClassOf(p.op).sig) == p.b
  {
    RunKeeps(run, n);
    var s := run[n];
    InvFacts(s);
    SingleFacts(s, t);
    hide Inv, Addr.BucketAddress, SubOk, Exclusive, IsRun;
    assert Settled(s.threads, s.threads[t].k, s.subs[s.threads[t].k]);
  }

  // ------------------------------------------------------------------ what a bucket tells

  /** In the bucket an operation has locked, a key's record is there exactly when the map has the key. */
  lemma BucketDecides(s: State, t: nat)
    requires Inv(s) && t < |s.threads| && Operating(s.threads[t])
    ensures var p := s.threads[t];
      && p.k < |s.subs|
      && var sub, c := s.subs[p.k], ClassOf(p.op);
      && (BucketHas(sub, p.b, c) <==> c in sub.m)
      && (forall r: Record :: r.key.cls == c ==> (InStore(sub, p.b, r) <==> Holds(sub.m, r)))
  {
    SingleFacts(s, t);
    var p := s.threads[t];
    var sub, c := s.subs[p.k], ClassOf(p.op);
    if c in sub.m {
      StoredHere(s, t);
      assert InStore(sub, p.b, sub.m[c]);
    }
    hide Inv, Addr.BucketAddress, Addr.WellFormed, PhaseOk;
  }

  /** An entry addressed to the bucket an operation has locked is not in anybody's hands. */
  lemma StoredHere(s: State, t: nat)
    requires Inv(s) && t < |s.threads| && Operating(s.threads[t])
    requires s.threads[t].k < |s.subs| && ClassOf(s.threads[t].op) in s.subs[s.threads[t].k].m
    ensures var p := s.threads[t]; InStore(s.subs[p.k], p.b, s.subs[p.k].m[ClassOf(p.op)])
  {
    SingleFacts(s, t);
    InvFacts(s);
    var p := s.threads[t];
    var i, sub := p.k, s.subs[p.k];
    var r := sub.m[ClassOf(p.op)];
    assert Settled(s.threads, i, sub);
    assert Located(s.threads, i, sub, r);
    assert r.key.cls == ClassOf(p.op) && sub.home.BucketAddress(Sig(r)) == p.b;
    if SomeoneHas(s.threads, i, r) {
      var u :| 0 <= u < |s.threads| && InSub(s.threads[u], i) && r in Left(s.threads[u]);
      NotInHands(s, t, u, i, r);
    }
    hide *;
  }

  lemma NotInHands(s: State, t: nat, u: nat, i: nat, r: Record)
    requires Inv(s) && t < |s.threads| && u < |s.threads| && i < |s.subs| && Operating(s.threads[t])
    requires s.threads[t].k == i && s.subs[i].home.BucketAddress(Sig(r)) == s.threads[t].b
    requires InSub(s.threads[u], i)
    ensures r !in Left(s.threads[u])
  {
    if u != t {
      InvFacts(s);
      BucketExclusion(s, t, u, i, s.threads[t].b);
      assert ThreadOk(s.threads[u], s.subs);
      hide Inv, Addr.BucketAddress, Exclusive, Settled, SubOk, Left;
      assert PhaseOk(s.threads[u], i, s.subs[i]);
    }
  }

  /** How a map from keys to records answers an operation, where an insertion may fail for lack of memory. */
  ghost predicate MapActs(m: Map, op: Op, m': Map) {
    match op
    case Find(_) => m' == m
    case Insert(r, overwrite) =>
      if r.key.cls in m && !overwrite then m' == m
      else m' == m[r.key.cls := r] || (r.key.cls !in m && m' == m)
    case DeleteKey(c) => m' == m - {c}
    case DeleteRec(r) => m' == if Holds(m, r) then m - {r.key.cls} else m
  }

  /** Deciding by its bucket alone, each operation does to the subtable's map what it should. */
  lemma OperationsAreAtomic(run: seq<State>, n: nat, t: nat, sub': Sub)
    requires IsRun(run) && n < |run| && t < |run[n].threads| && run[n].threads[t].OpBucket?
    requires var p := run[n].threads[t]; p.k < |run[n].subs| && Acts(run[n].subs[p.k], p.b, p.op, sub')
    ensures var p := run[n].threads[t]; MapActs(run[n].subs[p.k].m, p.op, sub'.m)
  {
    RunKeeps(run, n);
    BucketDecides(run[n], t);
    var p := run[n].threads[t];
    ActsOnMap(run[n].subs[p.k], p.b, p.op, sub');
    hide *;
  }

  lemma ActsOnMap(sub: Sub, b: nat, op: Op, sub': Sub)
    requires Acts(sub, b, op, sub')
    requires BucketHas(sub, b, ClassOf(op)) <==> ClassOf(op) in sub.m
    requires forall r: Record :: r.key.cls == ClassOf(op) ==> (InStore(sub, b, r) <==> Holds(sub.m, r))
    ensures MapActs(sub.m, op, sub'.m)
  {
    hide BucketHas, InStore;
    if op.DeleteKey? && op.cls !in sub.m { assert sub.m - {op.cls} == sub.m; }
  }

  /** A find answers with the map's record for the key, or knows that there is none. */
  lemma FindsTheRecord(run: seq<State>, n: nat, t: nat)
    requires IsRun(run) && n < |run| && t < |run[n].threads|
    requires run[n].threads[t].OpBucket? && run[n].threads[t].op.Find?
    ensures var p := run[n].threads[t];
      && p.k < |run[n].subs|
      && var sub := run[n].subs[p.k];
      && (BucketHas(sub, p.b, p.op.cls) <==> p.op.cls in sub.m)
      && (forall r :: InStore(sub, p.b, r) && r.key.cls == p.op.cls ==> p.op.cls in sub.m && sub.m[p.op.cls] == r)
  {
    RunKeeps(run, n);
    BucketDecides(run[n], t);
    hide Inv, IsRun, InStore, BucketHas;
  }

  // ------------------------------------------------------------------ conservation

  /** The record is in the hands of thread t. */
  predicate Has(s: State, t: nat, i: nat, r: Record)
    requires t < |s.threads|
  {
    InSub(s.threads[t], i) && r in Left(s.threads[t])
  }

  /**
    Stored records and records in relocating hands together are the map's, each in one
    place: one bucket or one pair of hands.
   */
  lemma NothingLostOrDoubled(run: seq<State>, n: nat, i: nat, r: Record)
    requires IsRun(run) && n < |run| && i < |run[n].subs|
    ensures var s, sub := run[n], run[n].subs[i];
      && (Holds(sub.m, r) <==> (exists b :: InStore(sub, b, r)) || (exists t: nat :: t < |s.threads| && Has(s, t, i, r)))
      && (forall b, b' :: InStore(sub, b, r) && InStore(sub, b', r) ==> b == b')
      && (forall b, t: nat :: InStore(sub, b, r) && t < |s.threads| ==> !Has(s, t, i, r))
      && (forall t: nat, u: nat :: t < |s.threads| && u < |s.threads| && Has(s, t, i, r) && Has(s, u, i, r) ==> t == u)
  {
    RunKeeps(run, n);
    var s, sub := run[n], run[n].subs[i];
    InvFacts(s);
    assert SubOk(sub) && Settled(s.threads, i, sub);
    hide Inv, IsRun, Addr.BucketAddress, Addr.WellFormed, WriteHeld, Exclusive;
    forall t: nat | t < |s.threads| && Has(s, t, i, r)
      ensures Holds(sub.m, r) && (forall b: nat :: !InStore(sub, b, r))
    {
      HandsFacts(s, t, i, r);
    }
    forall t: nat, u: nat | t < |s.threads| && u < |s.threads| && Has(s, t, i, r) && Has(s, u, i, r) ensures t == u {
      OneHand(s, t, u, i, r);
    }
    if Holds(sub.m, r) {
      assert Located(s.threads, i, sub, sub.m[r.key.cls]);
      if SomeoneHas(s.threads, i, r) {
        var t :| 0 <= t < |s.threads| && InSub(s.threads[t], i) && r in Left(s.threads[t]);
        assert Has(s, t, i, r);
      }
    }
  }

  lemma HandsFacts(s: State, t: nat, i: nat, r: Record)
    requires Inv(s) && t < |s.threads| && i < |s.subs| && Has(s, t, i, r)
    ensures InHand(s.threads[t], i, s.subs[i], r)
  {
    InvFacts(s);
    assert ThreadOk(s.threads[t], s.subs);
    hide Inv, Exclusive, Settled, SubOk, Left, InHand;
    assert PhaseOk(s.threads[t], i, s.subs[i]);
  }

  lemma OneHand(s: State, t: nat, u: nat, i: nat, r: Record)
    requires Inv(s) && t < |s.threads| && u < |s.threads| && i < |s.subs| && Has(s, t, i, r) && Has(s, u, i, r)
    ensures t == u
  {
    HandsFacts(s, t, i, r);
    HandsFacts(s, u, i, r);
    if t != u {
      BucketExclusion(s, t, u, i, s.subs[i].home.BucketAddress(Sig(r)));
    }
    hide Inv, Addr.BucketAddress, BucketMode;
  }

  // ------------------------------------------------------------------ locks on inactive buckets

  /**
    While nobody holds the table lock for writing, a locked bucket is an active one, except
    for exactly one: the bucket that an expansion failing for lack of a clump did not activate.
    Its lock is released after the table lock.
   */
  lemma LockedBucketIsActive(run: seq<State>, n: nat, t: nat, i: nat, b: nat)
    requires IsRun(run) && n < |run| && t < |run[n].threads| && i < |run[n].subs|
    requires !WriteHeld(run[n].threads, i) && !BucketMode(run[n].threads[t], i, b).Free?
    ensures var p := run[n].threads[t]; b >= run[n].subs[i].a.active <==> p.ExFailed? && b == p.n
  {
    RunKeeps(run, n);
    var s := run[n];
    InvFacts(s);
    var p := s.threads[t];
    assert ThreadOk(p, s.subs) && Settled(s.threads, i, s.subs[i]);
    assert InSub(p, i);
    assert PhaseOk(p, i, s.subs[i]);
    assert !TableMode(p, i).Write? && !p.ExBoth?;
    assert s.subs[i].a == s.subs[i].home;
    assert p.ExFailed? ==> p.o < s.subs[i].home.active && p.o < p.n;
    assert p.ExFailed? ==> b == p.o || (b == p.n && p.fate.InTable? && s.subs[i].home.active <= p.n);
    hide Inv, IsRun, Addr.BucketAddress, Exclusive, SubOk, InHand, HasSegment, SegPhase, Settled, BucketMode;
  }

  /** The segment of a locked bucket is in the directory. */
  lemma LockedHasSegment(s: State, t: nat, i: nat, b: nat)
    requires Inv(s) && t < |s.threads| && i < |s.subs| && !BucketMode(s.threads[t], i, b).Free?
    ensures HasSegment(s.subs[i], b)
  {
    InvFacts(s);
    var p := s.threads[t];
    assert ThreadOk(p, s.subs) && SubOk(s.subs[i]);
    assert InSub(p, i);
    assert PhaseOk(p, i, s.subs[i]);
    hide Inv, Addr.BucketAddress, Addr.WellFormed, Exclusive, InHand, HasSegment, Settled, DirSize, Pow2;
  }

  lemma OthersStay(s: State, t: nat, s': State, u: nat)
    requires Step(s, t, s') && u < |s.threads| && u != t
    ensures |s'.threads| == |s.threads| && |s'.subs| == |s.subs|
    ensures s'.threads[u] == s.threads[u] || CoTrim(s, t, s.threads[t], s')
  {
    hide TableFree, BucketFree, Acts, Addr.BucketAddress, Orphaned, CoTrim, ExpandStep, ContractStep;
    var p := s.threads[t];
    if CoTrim(s, t, p, s') { TrimShape(s, t, s'); }
    else if ExpandStep(s, t, p, s') { ExpandingStays(s, t, s', u); }
    else if ContractStep(s, t, p, s') { ContractingStays(s, t, s', u); }
  }

  lemma ExpandingStays(s: State, t: nat, s': State, u: nat)
    requires t < |s.threads| && ExpandStep(s, t, s.threads[t], s') && u < |s.threads| && u != t
    ensures |s'.threads| == |s.threads| && |s'.subs| == |s.subs| && s'.threads[u] == s.threads[u]
  {
    hide TableFree, BucketFree, Addr.BucketAddress, Expanded, RecordsIn, WithoutBucket, Activated, WithSegment, HasSegment;
  }

  lemma ContractingStays(s: State, t: nat, s': State, u: nat)
    requires t < |s.threads| && ContractStep(s, t, s.threads[t], s') && !CoTrim(s, t, s.threads[t], s')
    requires u < |s.threads| && u != t
    ensures |s'.threads| == |s.threads| && |s'.subs| == |s.subs| && s'.threads[u] == s.threads[u]
  {
    hide TableFree, BucketFree, Addr.BucketAddress, Expanded, RecordsIn, WithoutBucket, Back, CoTrim;
  }

  lemma TrimShape(s: State, t: nat, s': State)
    requires t < |s.threads| && CoTrim(s, t, s.threads[t], s')
    ensures |s'.threads| == |s.threads| && |s'.subs| == |s.subs|
  {
    hide Orphan, Shrunk;
  }

  /**
    Another thread's step takes a locked bucket away if and only if it takes its segment out of
    the directory. That happens to nobody but a failed expansion, with the bucket it did not
    activate, and only when a contraction gives up segments.
   */
  lemma SegmentTakenAway(s: State, t: nat, s': State, u: nat, i: nat, b: nat)
    requires Inv(s) && Step(s, t, s') && u < |s.threads| && u != t && i < |s.subs|
    requires !BucketMode(s.threads[u], i, b).Free?
    ensures u < |s'.threads| && i < |s'.subs|
    ensures BucketMode(s'.threads[u], i, b).Free? <==> !HasSegment(s'.subs[i], b)
    ensures BucketMode(s'.threads[u], i, b).Free? ==>
      s.threads[u].ExFailed? && b == s.threads[u].n && s.threads[t].CoTaken? && s.threads[t].k == i
  {
    hide Inv, Step;
    StepKeeps(s, t, s');
    OthersStay(s, t, s', u);
    if !BucketMode(s'.threads[u], i, b).Free? {
      LockedHasSegment(s', u, i, b);
    } else {
      TakenByTrim(s, t, s', u, i, b);
    }
  }

  lemma TakenByTrim(s: State, t: nat, s': State, u: nat, i: nat, b: nat)
    requires t < |s.threads| && CoTrim(s, t, s.threads[t], s') && u < |s.threads| && u != t && i < |s.subs|
    requires !BucketMode(s.threads[u], i, b).Free?
    requires u < |s'.threads| && i < |s'.subs| && BucketMode(s'.threads[u], i, b).Free?
    ensures !HasSegment(s'.subs[i], b)
    ensures s.threads[u].ExFailed? && b == s.threads[u].n && s.threads[t].CoTaken? && s.threads[t].k == i
  {
    var p := s.threads[t];
    var halve :| (halve ==> CanHalve(s.subs[p.k])) && Goes(Orphaned(s, p.k, halve), t, CoTrimmed(p.k, p.o, p.left), s');
    assert s'.threads[u] == Orphan(s.threads[u], p.k, s.subs[p.k], halve);
    assert s'.subs == s.subs[p.k := Shrunk(s.subs[p.k], halve)];
    hide SegmentIndex, SegmentsKept, CanHalve;
  }

  /**
    When a contraction gives up segments, the segment of a failed expansion's bucket is freed if
    and only if it starts at the bucket just deactivated; it is forgotten if and only if it is
    not freed and lies in the half of the directory dropped.
   */
  lemma WhenTheSegmentGoes(s: State, t: nat, u: nat, halve: bool)
    requires Inv(s) && t < |s.threads| && s.threads[t].CoTaken? && s.threads[t].k < |s.subs|
    requires u < |s.threads| && s.threads[u].ExFailed? && s.threads[u].k == s.threads[t].k && s.threads[u].fate.InTable?
    ensures var k, p := s.threads[t].k, s.threads[u];
      var sub, g := s.subs[k], SegmentIndex(p.n, SEG_BITS);
      var first := sub.a.active;
      var freed := SlotIndex(first, SEG_BITS) == 0 && g == SegmentIndex(first, SEG_BITS);
      && Orphaned(s, k, halve).threads[u] ==
           p.(fate := if freed then Freed else if halve && g >= sub.dir / 2 then Forgotten else InTable)
      && p.n >= first
  {
    SingleFacts(s, t);
    SingleFacts(s, u);
    var k := s.threads[t].k;
    LockedHasSegment(s, u, k, s.threads[u].n);
    hide Inv, SegmentIndex, SlotIndex, Pow2, DirSize, Addr.BucketAddress, Addr.WellFormed, InHand;
  }

  // ------------------------------------------------------------------ the exception is reached

  function Member(id: int, sig: Signature): Record {
    Record(if id < 0 then 0 else id, Key(KeyClass(id, sig), 0))
  }

  /** A signature of the bucket that is split next. */
  function SplitSig(a: Addr): nat {
    a.expansionIdx + 0x4000_0000
  }

  /** A table within its size limit. */
  ghost predicate Sizeable(a: Addr) {
    a.WellFormed() && Pow2(SEG_BITS) <= a.active < MAX_DIRSIZE * Pow2(SEG_BITS) - 1
  }

  lemma SplitSigFacts(a: Addr)
    requires Sizeable(a)
    ensures SplitSig(a) < WORD && SplitSig(a) != HASH_INVALID_SIGNATURE
    ensures a.BucketAddress(SplitSig(a)) == a.expansionIdx < a.active
  {
    LowLevel(a);
    NewBucketIsActive(a);
    BucketAddressIsLinear(a, SplitSig(a));
    SplitSigRemainder(a.level, a.expansionIdx);
    hide Addr.BucketAddress, Pow2;
  }

  lemma SplitSigRemainder(level: nat, e: nat)
    requires level < 29 && e < Pow2(level)
    ensures e < 0x4000_0000 && (e + 0x4000_0000) % Pow2(level + 1) == e
  {
    hide *;
    Pow2Thirty();
    Pow2Monotone(level, 30);
    Pow2Monotone(level, level + 1);
    Pow2Add(level + 1, 29 - level);
    AddedMultiple(e, Pow2(level + 1), Pow2(29 - level));
  }

  lemma AddedMultiple(e: nat, p: nat, q: nat)
    requires e < p
    ensures (e + p * q) % p == e
  {
    assert q * p + e == e + p * q;
    RemainderUnique(e + p * q, p, q, e);
  }

  lemma Pow2Thirty()
    ensures Pow2(30) == 0x4000_0000
  {
    assert Pow2(10) == 1024;
    Pow2Add(10, 10);
    Pow2Add(20, 10);
  }

  /** A table at rest whose next bucket to split has one record more than a clump holds. */
  ghost function Crowded(a: Addr): Sub
    requires Sizeable(a)
  {
    SplitSigFacts(a);
    var sig: Signature := SplitSig(a);
    Sub(a, a,
        (set id: int | 0 <= id <= NODES_PER_CLUMP :: (a.expansionIdx, Member(id, sig))),
        (map id: int | 0 <= id <= NODES_PER_CLUMP :: KeyClass(id, sig) := Member(id, sig)),
        (set b: nat | b < a.active :: SegmentIndex(b, SEG_BITS)),
        MAX_DIRSIZE)
  }

  lemma CrowdedSegments(a: Addr)
    requires Sizeable(a)
    ensures SegOk(Crowded(a))
  {
    var sub := Crowded(a);
    forall b: nat | b < a.active ensures SegmentIndex(b, SEG_BITS) < MAX_DIRSIZE && HasSegment(sub, b) {
      WithinSegments(b, a.active, MAX_DIRSIZE, SEG_BITS);
    }
    MaxDirSize();
    hide Pow2, SegmentIndex, Addr.WellFormed;
    assert IsPowerOfTwo(MAX_DIRSIZE);
  }

  lemma CrowdedAtRest(a: Addr)
    requires Sizeable(a)
    ensures AtRest(Crowded(a))
  {
    SplitSigFacts(a);
    CrowdedSegments(a);
    hide SegOk, Addr.BucketAddress, SegmentIndex, Pow2;
    var sub := Crowded(a);
    var sig: Signature := SplitSig(a);
    forall b: nat, r: Record
      ensures InStore(sub, b, r) <==> Holds(sub.m, r) && a.BucketAddress(r.key.cls.sig) == b
    {
      if Holds(sub.m, r) && a.BucketAddress(r.key.cls.sig) == b {
        assert r == Member(r.key.cls.id, sig);
        assert (a.expansionIdx, Member(r.key.cls.id, sig)) in sub.stored;
      }
    }
  }

  lemma {:induction false} CrowdSize(n: nat, sig: Signature)
    ensures |set id: int | 0 <= id < n :: Member(id, sig)| == n
  {
    var members := set id: int | 0 <= id < n :: Member(id, sig);
    if n > 0 {
      CrowdSize(n - 1, sig);
      var fewer := set id: int | 0 <= id < n - 1 :: Member(id, sig);
      assert members == fewer + {Member(n - 1, sig)};
      assert Member(n - 1, sig) !in fewer;
    } else {
      assert members == {};
    }
  }

  lemma TooManyForAClump(a: Addr)
    requires Sizeable(a)
    ensures |RecordsIn(Crowded(a).stored, a.expansionIdx)| > NODES_PER_CLUMP
    ensures forall b: nat :: b != a.expansionIdx ==>
      RecordsIn(Crowded(a).stored, b) == {} && WithoutBucket(Crowded(a).stored, b) == Crowded(a).stored
  {
    SplitSigFacts(a);
    var sig: Signature := SplitSig(a);
    var members := set id: int | 0 <= id < NODES_PER_CLUMP + 1 :: Member(id, sig);
    CrowdSize(NODES_PER_CLUMP + 1, sig);
    var stored := Crowded(a).stored;
    hide Addr.BucketAddress, SegmentIndex;
    forall r ensures r in members <==> r in RecordsIn(stored, a.expansionIdx) {
      if r in members { assert (a.expansionIdx, r) in stored; }
    }
    assert members == RecordsIn(stored, a.expansionIdx);
    forall b: nat | b != a.expansionIdx
      ensures RecordsIn(stored, b) == {} && WithoutBucket(stored, b) == stored
    {
      forall p | p in stored ensures p.0 != b {}
    }
  }

  ghost function Pair(sub: Sub, p: Phase, q: Phase): State {
    State([sub], [p, q])
  }

  /** One thread's expansion of such a table, failing for lack of a clump. */
  ghost function FailedExpansion(a: Addr): seq<State>
    requires Sizeable(a)
  {
    var rest := Crowded(a);
    var open := Activated(rest);
    var ready := WithSegment(open, a.active);
    var o, n := a.expansionIdx, a.active;
    [Pair(rest, Idle, Idle), Pair(rest, ExTable(0), Idle), Pair(open, ExOpen(0), Idle), Pair(ready, ExOld(0, o), Idle),
     Pair(ready, ExBoth(0, o, n), Idle), Pair(WithSegment(rest, n), ExFailed(0, o, n, InTable), Idle)]
  }

  lemma FailingStarts(a: Addr)
    requires Sizeable(a)
    ensures var run := FailedExpansion(a); Step(run[0], 0, run[1]) && Step(run[1], 0, run[2]) && Step(run[2], 0, run[3])
  {
    LowLevel(a);
    NewBucketIsActive(a);
    hide Addr.NewBucket, Addr.WellFormed, Crowded, SegmentIndex, Pow2;
    var run := FailedExpansion(a);
    CrowdedAddr(a);
    assert Begin(run[0], 0, ExTable(0), run[1]);
    assert ExActivate(run[1], 0, ExTable(0), run[2]);
    assert ExLockOld(run[2], 0, ExOpen(0), run[3]);
    hide Begin, ExActivate, ExLockOld;
  }

  lemma CrowdedAddr(a: Addr)
    requires Sizeable(a)
    ensures Crowded(a).a == a == Crowded(a).home && Crowded(a).dir == MAX_DIRSIZE
  {}

  lemma FailingEnds(a: Addr)
    requires Sizeable(a)
    ensures var run := FailedExpansion(a); Step(run[3], 0, run[4]) && Step(run[4], 0, run[5])
  {
    LowLevel(a);
    NewBucketIsActive(a);
    TooManyForAClump(a);
    hide Addr.NewBucket, Addr.WellFormed, Crowded, SegmentIndex, Pow2, RecordsIn, WithoutBucket;
    var run := FailedExpansion(a);
    CrowdedAddr(a);
    assert ExLockNew(run[3], 0, ExOld(0, a.expansionIdx), run[4]);
    assert ExNoClump(run[4], 0, ExBoth(0, a.expansionIdx, a.active), run[5]);
    hide ExLockNew, ExNoClump;
  }

  /** From any address state that can expand, a run reaches a lock on a bucket that is not active. */
  lemma InactiveBucketLocked(a: Addr)
    requires Sizeable(a)
    ensures var run := FailedExpansion(a);
      && IsRun(run)
      && var s := run[|run| - 1];
      && !WriteHeld(s.threads, 0) && s.subs[0].a == a && BucketMode(s.threads[0], 0, a.active).Write?
  {
    var run := FailedExpansion(a);
    FailingStarts(a);
    FailingEnds(a);
    CrowdedAtRest(a);
    CrowdedAddr(a);
    ExpansionShape(a);
    hide *;
    StartsAtRest(run[0]);
    RunOf(run);
  }

  lemma ExpansionShape(a: Addr)
    requires Sizeable(a)
    ensures var run := FailedExpansion(a);
      && |run| == 6 && run[0] == Pair(Crowded(a), Idle, Idle)
      && var s := run[|run| - 1];
      && |s.subs| > 0 && |s.threads| > 0
      && !WriteHeld(s.threads, 0) && s.subs[0].a == Crowded(a).a && BucketMode(s.threads[0], 0, a.active).Write?
  {
    hide Crowded, Pow2;
  }

  lemma StartsAtRest(s: State)
    requires exists sub :: AtRest(sub) && s == Pair(sub, Idle, Idle)
    ensures Initial(s)
  {
    hide AtRest;
  }

  /** Steps of the first or the second thread make a run. */
  lemma RunOf(run: seq<State>)
    requires run != [] && Initial(run[0])
    requires forall i :: 0 <= i < |run| - 1 ==> Step(run[i], 0, run[i + 1]) || Step(run[i], 1, run[i + 1])
    ensures IsRun(run)
  {
    hide Step, Initial;
  }

  /** Another thread's contraction behind the failed expansion, which frees the segment of its bucket. */
  ghost function Pulled(a: Addr): seq<State>
    requires Sizeable(a) && a.active > Pow2(SEG_BITS)
  {
    var failed := ExFailed(0, a.expansionIdx, a.active, InTable);
    var sub, c, m := WithSegment(Crowded(a), a.active), Back(a), a.active - 1;
    var y := c.expansionIdx;
    var taken := sub.(a := c, home := c);
    [Pair(sub, failed, Idle), Pair(sub, failed, CoTable(0)), Pair(sub.(a := c.(active := a.active)), failed, CoStepped(0)),
     Pair(sub.(a := c), failed, CoLast(0, m)), Pair(sub.(a := c), failed, CoBoth(0, m, y)),
     Pair(taken, failed, CoTaken(0, y, {})), Pair(Shrunk(taken, false), failed.(fate := Freed), CoTrimmed(0, y, {}))]
  }

  /** The two buckets a contraction locks are not those the failed expansion has locked. */
  lemma OutOfTheWay(a: Addr)
    requires Sizeable(a) && a.active > Pow2(SEG_BITS)
    ensures a.active > 1 && Back(a).active == a.active - 1
    ensures a.active - 1 != a.expansionIdx && Back(a).expansionIdx != a.expansionIdx && Back(a).expansionIdx != a.active
  {
    SegmentHasBuckets();
    BackFacts(a);
    HighLevel(a);
    hide Pow2, Addr.BucketAddress;
    BuddyMoves(a);
  }

  lemma HighLevel(a: Addr)
    requires a.WellFormed() && a.active > Pow2(SEG_BITS)
    ensures a.level >= 3
  {
    if a.level < 3 {
      Pow2Monotone(a.level + 1, 3);
      Pow2Monotone(3, SEG_BITS);
    }
  }

  lemma BuddyMoves(a: Addr)
    requires a.WellFormed() && a.level >= 3
    ensures a.active - 1 != a.expansionIdx && Back(a).expansionIdx != a.expansionIdx && Back(a).expansionIdx != a.active
  {
    Pow2Monotone(2, a.level - 1);
    assert Pow2(2) == 4 && Pow2(a.level) == 2 * Pow2(a.level - 1);
  }

  lemma PullingStarts(a: Addr)
    requires Sizeable(a) && a.active > Pow2(SEG_BITS)
    ensures var run := Pulled(a); Step(run[0], 1, run[1]) && Step(run[1], 1, run[2]) && Step(run[2], 1, run[3])
  {
    OutOfTheWay(a);
    CrowdedAddr(a);
    hide Addr.WellFormed, Crowded, SegmentIndex, Pow2, Back;
    var run := Pulled(a);
    assert Begin(run[0], 1, CoTable(0), run[1]);
    assert CoStep(run[1], 1, CoTable(0), run[2]);
    assert CoLockLast(run[2], 1, CoStepped(0), run[3]);
    hide Begin, CoStep, CoLockLast;
  }

  lemma PullingLocks(a: Addr)
    requires Sizeable(a) && a.active > Pow2(SEG_BITS)
    ensures var run := Pulled(a); Step(run[3], 1, run[4]) && Step(run[4], 1, run[5])
  {
    OutOfTheWay(a);
    CrowdedAddr(a);
    TooManyForAClump(a);
    hide Addr.WellFormed, Crowded, SegmentIndex, Pow2, Back, RecordsIn, WithoutBucket;
    var run := Pulled(a);
    assert CoLockBuddy(run[3], 1, CoLast(0, a.active - 1), run[4]);
    assert CoTake(run[4], 1, CoBoth(0, a.active - 1, Back(a).expansionIdx), run[5]);
    hide CoLockBuddy, CoTake;
  }

  lemma SameSegmentNext(n: nat)
    requires SlotIndex(n, SEG_BITS) == 0
    ensures SegmentIndex(n + 1, SEG_BITS) == SegmentIndex(n, SEG_BITS)
  {
    hide *;
    SegmentHasBuckets();
    SlotInRange(n, SEG_BITS);
    StartOfSegment(n);
    var g := SegmentIndex(n, SEG_BITS);
    SegmentBelow(n + 1, g);
    SegmentBelow(n + 1, g + 1);
    Successor(g, Pow2(SEG_BITS));
  }

  lemma StartOfSegment(n: nat)
    ensures n == SegmentIndex(n, SEG_BITS) * Pow2(SEG_BITS) + n % Pow2(SEG_BITS)
  {
    ShiftRemainder(n, SEG_BITS);
    hide Pow2, ShiftRight;
  }

  lemma SegmentBelow(b: nat, g: nat)
    ensures b < g * Pow2(SEG_BITS) <==> SegmentIndex(b, SEG_BITS) < g
  {
    ShiftBelow(b, g, SEG_BITS);
    hide Pow2, ShiftRight;
  }

  lemma PullingTrims(a: Addr)
    requires Sizeable(a) && a.active > Pow2(SEG_BITS) && SlotIndex(a.active - 1, SEG_BITS) == 0
    ensures var run := Pulled(a); Step(run[5], 1, run[6]) && !HasSegment(run[6].subs[0], a.active)
  {
    OutOfTheWay(a);
    CrowdedAddr(a);
    SameSegmentNext(a.active - 1);
    hide Addr.WellFormed, Crowded, SegmentIndex, SlotIndex, Pow2, Back;
    var run := Pulled(a);
    var s := run[5];
    var sub := s.subs[0];
    assert SegmentIndex(a.active, SEG_BITS) !in SegmentsKept(sub);
    var trimmed := Orphaned(s, 0, false);
    assert trimmed.subs == [Shrunk(sub, false)];
    assert trimmed.threads == [s.threads[0].(fate := Freed), s.threads[1]];
    hide Shrunk, Orphaned, SegmentsKept;
    TrimIsStep(s, 1, run[6]);
    hide CoTrim;
  }

  /**
    And its segment may be freed under it: a run in which the failed expansion goes on to
    unlock a bucket whose memory a contraction has given back.
   */
  lemma SegmentFreedUnderLock(a: Addr)
    requires Sizeable(a) && a.active > Pow2(SEG_BITS) && SlotIndex(a.active - 1, SEG_BITS) == 0
    ensures var run := FailedExpansion(a) + Pulled(a)[1..];
      && IsRun(run)
      && var s := run[|run| - 1];
      && s.threads[0] == ExFailed(0, a.expansionIdx, a.active, Freed) && !HasSegment(s.subs[0], a.active)
  {
    hide *;
    AllSteps(a);
    CrowdedAtRest(a);
    ExpansionShape(a);
    JoinedRun(a);
    StartsAtRest(FailedExpansion(a)[0]);
    PullingTrims(a);
    JoinRuns(FailedExpansion(a), Pulled(a));
  }

  lemma AllSteps(a: Addr)
    requires Sizeable(a) && a.active > Pow2(SEG_BITS) && SlotIndex(a.active - 1, SEG_BITS) == 0
    ensures |FailedExpansion(a)| == 6 && |Pulled(a)| == 7
    ensures forall i :: 0 <= i < 5 ==> Step(FailedExpansion(a)[i], 0, FailedExpansion(a)[i + 1])
    ensures forall i :: 0 <= i < 6 ==> Step(Pulled(a)[i], 1, Pulled(a)[i + 1])
  {
    hide *;
    JoinedRun(a);
    FailingStarts(a);
    FailingEnds(a);
    PullingStarts(a);
    PullingLocks(a);
    PullingTrims(a);
    FiveSteps(FailedExpansion(a), 0);
    FiveSteps(Pulled(a), 1);
  }

  lemma FiveSteps(run: seq<State>, t: nat)
    requires |run| > 5
    requires Step(run[0], t, run[1]) && Step(run[1], t, run[2]) && Step(run[2], t, run[3])
    requires Step(run[3], t, run[4]) && Step(run[4], t, run[5])
    ensures forall i :: 0 <= i < 5 ==> Step(run[i], t, run[i + 1])
  {
    hide *;
  }

  lemma JoinRuns(f: seq<State>, c: seq<State>)
    requires |f| == 6 && |c| == 7 && f[5] == c[0] && Initial(f[0])
    requires forall i :: 0 <= i < 5 ==> Step(f[i], 0, f[i + 1])
    requires forall i :: 0 <= i < 6 ==> Step(c[i], 1, c[i + 1])
    ensures IsRun(f + c[1..]) && |f + c[1..]| == 12 && (f + c[1..])[11] == c[6]
  {
    hide *;
    var run := f + c[1..];
    forall i | 0 <= i < |run| - 1 ensures Step(run[i], 0, run[i + 1]) || Step(run[i], 1, run[i + 1]) {
      if i < 5 {
        assert run[i] == f[i] && run[i + 1] == f[i + 1];
      } else {
        assert run[i] == c[i - 5] && run[i + 1] == c[i - 4];
        assert Step(c[i - 5], 1, c[i - 5 + 1]);
      }
    }
    RunOf(run);
  }

  lemma JoinedRun(a: Addr)
    requires Sizeable(a) && a.active > Pow2(SEG_BITS)
    ensures var f, c := FailedExpansion(a), Pulled(a);
      && |f| == 6 && |c| == 7 && f[5] == c[0]
      && c[6].threads[0] == ExFailed(0, a.expansionIdx, a.active, Freed)
      && c[6].subs != []
  {
    hide Crowded, Pow2, Back, Shrunk, SegmentIndex;
  }

  // ------------------------------------------------------------------ no deadlock

  /** The bucket lock a thread is about to take, if any. */
  ghost predicate WantsBucket(p: Phase) {
    p.OpTable? || p.ExOpen? || p.ExOld? || p.CoStepped? || p.CoLast?
  }

  /** The bucket a thread wants, and how. */
  function WantedBucket(p: Phase, a: Addr): nat
    requires p.OpTable? || p.ExOpen? || p.ExOld? || p.CoStepped? || p.CoLast?
  {
    if p.OpTable? then a.BucketAddress(ClassOf(p.op).sig)
    else if p.ExOld? then a.NewBucket()
    else if p.CoStepped? then (if a.active > 0 then a.active - 1 else 0)
    else a.expansionIdx
  }

  function WantedMode(p: Phase): Mode {
    if p.OpTable? then OpMode(p.op) else Write
  }

  /** The thread waits for a lock that another thread holds. */
  ghost predicate Blocked(s: State, t: nat)
    requires t < |s.threads|
  {
    var p := s.threads[t];
    || (WantsBucket(p) && p.k < |s.subs| && !BucketFree(s, t, p.k, WantedBucket(p, s.subs[p.k].a), WantedMode(p)))
    || (p.LockingAll? && p.j < |s.subs| && !TableFree(s, t, p.j, SweepMode(p.w)))
    || (p.Sweeping? && p.k < |s.subs| && p.b < s.subs[p.k].a.active && !BucketFree(s, t, p.k, p.b, SweepMode(p.w)))
  }

  /** Whoever waits for a bucket lock holds that subtable's table lock. */
  lemma BucketWaiterHoldsTable(s: State, t: nat)
    requires Inv(s) && t < |s.threads|
    requires WantsBucket(s.threads[t]) || (s.threads[t].Sweeping? && s.threads[t].k < |s.subs|)
    ensures !TableMode(s.threads[t], s.threads[t].k).Free?
  {
    InvFacts(s);
    assert ThreadOk(s.threads[t], s.subs);
    hide Inv, PhaseOk, SubOk, Exclusive, Settled;
  }

  /** Whoever holds a bucket lock either waits for no lock, or holds the table lock for writing too. */
  lemma BucketHolderMoves(s: State, u: nat, i: nat, b: nat)
    requires u < |s.threads| && !BucketMode(s.threads[u], i, b).Free?
    ensures !Blocked(s, u) || TableMode(s.threads[u], i).Write?
  {
    hide TableFree, BucketFree, WantedBucket;
  }

  /** A thread that waits for a bucket lock is not blocked, or the holder of that lock is not. */
  lemma BucketWaiterOrHolder(s: State, t: nat)
    requires Inv(s) && t < |s.threads| && Blocked(s, t) && !s.threads[t].LockingAll?
    ensures exists u: nat :: u < |s.threads| && !s.threads[u].Idle? && !Blocked(s, u)
  {
    var p := s.threads[t];
    BucketWaiterHoldsTable(s, t);
    hide Inv, TableMode, BucketMode, WantedBucket, WantedMode, SweepMode;
    var b := if p.Sweeping? then p.b else WantedBucket(p, s.subs[p.k].a);
    var mode := if p.Sweeping? then SweepMode(p.w) else WantedMode(p);
    assert !BucketFree(s, t, p.k, b, mode);
    HolderOf(s, t, p.k, b, mode);
  }

  lemma HolderOf(s: State, t: nat, k: nat, b: nat, mode: Mode)
    requires Inv(s) && t < |s.threads| && !BucketFree(s, t, k, b, mode) && !TableMode(s.threads[t], k).Free?
    ensures exists u: nat :: u < |s.threads| && !s.threads[u].Idle? && !Blocked(s, u)
  {
    var p := s.threads[t];
    var u :| 0 <= u < |s.threads| && u != t && Conflict(mode, BucketMode(s.threads[u], k, b));
    hide Inv, Blocked;
    BucketHolderMoves(s, u, k, b);
    TableExclusion(s, t, u, k);
    assert !s.threads[u].Idle?;
  }

  /** A whole-table operation that has got furthest finds the next table lock free, or its holder moves. */
  lemma {:induction false} TableWaiterOrHolder(s: State, t: nat, j: nat)
    requires Inv(s) && t < |s.threads| && Blocked(s, t) && s.threads[t].LockingAll? && s.threads[t].j == j
    ensures exists u: nat :: u < |s.threads| && !s.threads[u].Idle? && !Blocked(s, u)
    decreases |s.subs| - j
  {
    var p := s.threads[t];
    assert j < |s.subs| && !TableFree(s, t, j, SweepMode(p.w));
    var u :| 0 <= u < |s.threads| && u != t && Conflict(SweepMode(p.w), TableMode(s.threads[u], j));
    assert !s.threads[u].Idle?;
    hide Inv;
    if Blocked(s, u) {
      if s.threads[u].LockingAll? {
        // it holds table lock j, so it waits for a later one
        TableWaiterOrHolder(s, u, s.threads[u].j);
      } else {
        BucketWaiterOrHolder(s, u);
      }
    }
  }

  /** No deadlock: while any thread is at work, some thread at work is not waiting. */
  lemma SomeoneIsNotBlocked(run: seq<State>, n: nat, t: nat)
    requires IsRun(run) && n < |run| && t < |run[n].threads| && !run[n].threads[t].Idle?
    ensures exists u: nat :: u < |run[n].threads| && !run[n].threads[u].Idle? && !Blocked(run[n], u)
  {
    RunKeeps(run, n);
    var s := run[n];
    hide Inv, IsRun, Blocked;
    if Blocked(s, t) {
      if s.threads[t].LockingAll? {
        TableWaiterOrHolder(s, t, s.threads[t].j);
      } else {
        BucketWaiterOrHolder(s, t);
      }
    }
  }

  // ------------------------------------------------------------------ a thread that is not blocked has a step

  ghost predicate CanStep(s: State, t: nat) {
    exists s' :: Step(s, t, s')
  }

  /** The phase a thread goes on to once it has the lock it wants, or a lock to release. */
  function Next(p: Phase, subs: seq<Sub>): Phase
    requires !p.Idle? && !p.LockingAll? && !p.Sweeping? ==> p.k < |subs|
  {
    match p
    case OpTable(k, op) => OpBoth(k, op, subs[k].a.BucketAddress(ClassOf(op).sig))
    case OpBoth(k, op, b) => OpBucket(k, op, b)
    case ExOld(k, o) => ExBoth(k, o, subs[k].a.NewBucket())
    case ExSplit(k, o, n, saved, left) => ExMoving(k, o, n, saved, left)
    case ExMoving(k, o, _, _, _) => ExClosing(k, o)
    case ExFailed(k, o, _, _) => ExClosing(k, o)
    case CoLast(k, n) => CoBoth(k, n, subs[k].a.expansionIdx)
    case CoTrimmed(k, o, left) => CoMerging(k, o, left)
    case LockingAll(j, w) => if j < |subs| then LockingAll(j + 1, w) else Sweeping(j, 0, 0, w)
    case Sweeping(j, k, b, w) => if k < |subs| && b < subs[k].a.active then InBucket(j, k, b, w) else Idle
    case InBucket(j, k, b, w) => Sweeping(j, k, b + 1, w)
    case _ => Idle
  }

  lemma LockerMoves(s: State, t: nat)
    requires t < |s.threads| && !Blocked(s, t)
    requires var p := s.threads[t];
      && (!p.Idle? && !p.LockingAll? && !p.Sweeping? ==> p.k < |s.subs|)
      && (p.LockingAll? ==> p.j <= |s.subs|)
      && (p.OpTable? || p.OpBoth? || p.OpDone? || p.ExOld? || p.ExSplit? || p.ExFailed? || p.ExClosing?
          || p.CoLast? || p.CoTrimmed? || p.LockingAll? || p.Sweeping? || p.InBucket?
          || (p.ExMoving? && p.left == {}) || (p.CoMerging? && p.left == {}))
    ensures CanStep(s, t)
  {
    var p := s.threads[t];
    var s' := State(s.subs, s.threads[t := Next(p, s.subs)]);
    hide TableFree, BucketFree, Addr.BucketAddress, Addr.NewBucket;
    assert Step(s, t, s');
  }

  lemma ExpanderMoves(s: State, t: nat)
    requires t < |s.threads| && (s.threads[t].ExBoth? || s.threads[t].ExMoving?) && s.threads[t].k < |s.subs|
    requires (s.threads[t].ExBoth? && s.subs[s.threads[t].k].a.active > 0) || (s.threads[t].ExMoving? && s.threads[t].left != {})
    ensures CanStep(s, t)
  {
    var p := s.threads[t];
    var k, sub := p.k, s.subs[p.k];
    hide KeyStep, ContractStep, SweepStep, Begin, Addr.BucketAddress, Expanded, RecordsIn, WithoutBucket;
    if p.ExBoth? {
      var e := Expanded(sub.a.(active := sub.a.active - 1));
      var s' := State(s.subs[k := sub.(a := e, home := e, stored := WithoutBucket(sub.stored, p.o))],
                      s.threads[t := ExSplit(k, p.o, p.n, e, RecordsIn(sub.stored, p.o))]);
      assert ExAdvance(s, t, p, s');
      hide ExAdvance;
      assert Step(s, t, s');
    } else {
      var r :| r in p.left;
      var s' := State(s.subs[k := sub.(stored := sub.stored + {(p.saved.BucketAddress(r.key.cls.sig), r)})],
                      s.threads[t := ExMoving(k, p.o, p.n, p.saved, p.left - {r})]);
      assert ExMove(s, t, p, r, s');
      hide ExMove;
      assert Step(s, t, s');
    }
  }

  /** An expansion or contraction before its first bucket lock. */
  lemma StarterMoves(s: State, t: nat)
    requires t < |s.threads| && !Blocked(s, t)
    requires s.threads[t].ExTable? || s.threads[t].ExOpen? || s.threads[t].CoTable?
    requires s.threads[t].k < |s.subs|
    ensures CanStep(s, t)
  {
    var p := s.threads[t];
    var k, sub := p.k, s.subs[p.k];
    hide KeyStep, SweepStep, Begin, Addr.BucketAddress, TableFree, BucketFree, Addr.NewBucket, Pow2, Back, Activated, WithSegment;
    if p.ExOpen? {
      var s' := State(s.subs[k := WithSegment(sub, sub.a.NewBucket())], s.threads[t := ExOld(k, sub.a.expansionIdx)]);
      assert ExLockOld(s, t, p, s');
      hide ExLockOld;
      assert Step(s, t, s');
    } else if p.ExTable? {
      var s' := if sub.a.active >= MAX_DIRSIZE * Pow2(SEG_BITS) - 1 then State(s.subs, s.threads[t := Idle])
                else State(s.subs[k := Activated(sub)], s.threads[t := ExOpen(k)]);
      assert ExRefuse(s, t, p, s') || ExActivate(s, t, p, s');
      hide ExRefuse, ExActivate;
      assert Step(s, t, s');
    } else {
      var s' := if sub.a.active <= Pow2(SEG_BITS) then State(s.subs, s.threads[t := Idle])
                else State(s.subs[k := sub.(a := Back(sub.a).(active := sub.a.active))], s.threads[t := CoStepped(k)]);
      assert CoRefuse(s, t, p, s') || CoStep(s, t, p, s');
      hide CoRefuse, CoStep;
      assert Step(s, t, s');
    }
  }

  lemma TrimmerMoves(s: State, t: nat)
    requires t < |s.threads| && s.threads[t].CoTaken? && s.threads[t].k < |s.subs|
    ensures CanStep(s, t)
  {
    var p := s.threads[t];
    var o := Orphaned(s, p.k, false);
    var s' := State(o.subs, o.threads[t := CoTrimmed(p.k, p.o, p.left)]);
    hide KeyStep, SweepStep, Begin, ExpandStep, Orphaned;
    TrimIsStep(s, t, s');
    hide CoTrim;
    assert Step(s, t, s');
  }

  lemma TrimIsStep(s: State, t: nat, s': State)
    requires t < |s.threads| && s.threads[t].CoTaken? && s.threads[t].k < |s.subs|
    requires var p := s.threads[t]; Goes(Orphaned(s, p.k, false), t, CoTrimmed(p.k, p.o, p.left), s')
    ensures CoTrim(s, t, s.threads[t], s')
  {
    hide Orphaned, Goes;
  }

  lemma ContractorMoves(s: State, t: nat)
    requires t < |s.threads| && !Blocked(s, t)
    requires s.threads[t].CoStepped? || s.threads[t].CoBoth? || s.threads[t].CoMerging?
    requires s.threads[t].k < |s.subs|
    requires || (s.threads[t].CoStepped? && s.subs[s.threads[t].k].a.active > 0) || s.threads[t].CoBoth?
             || (s.threads[t].CoMerging? && s.threads[t].left != {})
    ensures CanStep(s, t)
  {
    var p := s.threads[t];
    var k, sub := p.k, s.subs[p.k];
    hide KeyStep, ExpandStep, SweepStep, Begin, Addr.BucketAddress, BucketFree, TableFree, Expanded, RecordsIn, WithoutBucket;
    if p.CoStepped? {
      var n := sub.a.active - 1;
      var s' := State(s.subs[k := sub.(a := sub.a.(active := n))], s.threads[t := CoLast(k, n)]);
      assert CoLockLast(s, t, p, s');
      assert Step(s, t, s');
    } else if p.CoBoth? {
      var s' := State(s.subs[k := sub.(home := sub.a, stored := WithoutBucket(sub.stored, p.n))],
                      s.threads[t := CoTaken(k, p.o, RecordsIn(sub.stored, p.n))]);
      assert CoTake(s, t, p, s');
      hide CoTake;
      assert Step(s, t, s');
    } else {
      var r :| r in p.left;
      var s' := State(s.subs[k := sub.(stored := sub.stored + {(p.o, r)})], s.threads[t := CoMerging(k, p.o, p.left - {r})]);
      assert CoMove(s, t, p, r, s');
      hide CoMove;
      assert Step(s, t, s');
    }
  }

  lemma ChangerMoves(s: State, t: nat)
    requires Inv(s) && t < |s.threads| && !Blocked(s, t)
    requires var p := s.threads[t];
      || p.OpBucket? || p.ExBoth? || p.CoStepped? || p.CoBoth? || (p.ExMoving? && p.left != {}) || (p.CoMerging? && p.left != {})
      || p.ExTable? || p.ExOpen? || p.CoTable? || p.CoTaken?
    ensures CanStep(s, t)
  {
    SingleFacts(s, t);
    var p := s.threads[t];
    hide Blocked, CanStep, Addr.BucketAddress, Inv, InHand, Addr.WellFormed;
    if p.OpBucket? {
      ActorMoves(s, t);
    } else if p.ExBoth? || p.ExMoving? {
      ExpanderMoves(s, t);
    } else if p.CoTaken? {
      TrimmerMoves(s, t);
    } else if p.ExTable? || p.ExOpen? || p.CoTable? {
      StarterMoves(s, t);
    } else {
      ContractorMoves(s, t);
    }
  }

  lemma ActorMoves(s: State, t: nat)
    requires t < |s.threads| && s.threads[t].OpBucket? && s.threads[t].k < |s.subs|
    ensures CanStep(s, t)
  {
    var p := s.threads[t];
    var sub, b, op := s.subs[p.k], p.b, p.op;
    var sub' := if op.Find? then sub
                else if op.Insert? then (if BucketHas(sub, b, op.rec.key.cls) && !op.overwrite then sub else Put(sub, b, op.rec))
                else if op.DeleteKey? then (if BucketHas(sub, b, op.cls) then Take(sub, b, op.cls) else sub)
                else if InStore(sub, b, op.rec) then Take(sub, b, op.rec.key.cls) else sub;
    hide Put, Take, BucketHas, InStore;
    assert Acts(sub, b, op, sub');
    hide Acts;
    assert Act(s, t, p, State(s.subs[p.k := sub'], s.threads[t := OpDone(p.k, op, b)]));
    hide Act;
    assert Step(s, t, State(s.subs[p.k := sub'], s.threads[t := OpDone(p.k, op, b)]));
  }

  /** Whatever a thread at work is doing, it can go on unless it waits for a lock somebody holds. */
  lemma UnblockedMoves(run: seq<State>, n: nat, t: nat)
    requires IsRun(run) && n < |run| && t < |run[n].threads|
    requires !run[n].threads[t].Idle? && !Blocked(run[n], t)
    ensures CanStep(run[n], t)
  {
    RunKeeps(run, n);
    InvFacts(run[n]);
    assert ThreadOk(run[n].threads[t], run[n].subs);
    var p := run[n].threads[t];
    hide Inv, IsRun, Blocked, CanStep, PhaseOk, Exclusive, Settled, SubOk;
    if || p.OpBucket? || p.ExBoth? || p.CoStepped? || p.CoBoth? || (p.ExMoving? && p.left != {}) || (p.CoMerging? && p.left != {})
       || p.ExTable? || p.ExOpen? || p.CoTable? || p.CoTaken? {
      ChangerMoves(run[n], t);
    } else {
      LockerMoves(run[n], t);
    }
  }

  /** No run gets stuck: while a thread is at work, some thread at work has a step. */
  lemma NoDeadlock(run: seq<State>, n: nat, t: nat)
    requires IsRun(run) && n < |run| && t < |run[n].threads| && !run[n].threads[t].Idle?
    ensures exists u: nat :: u < |run[n].threads| && !run[n].threads[u].Idle? && CanStep(run[n], u)
  {
    SomeoneIsNotBlocked(run, n, t);
    hide IsRun, Blocked, CanStep;
    var u: nat :| u < |run[n].threads| && !run[n].threads[u].Idle? && !Blocked(run[n], u);
    UnblockedMoves(run, n, u);
  }
}
