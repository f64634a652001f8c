/** The steps of expansions, contractions and whole-table operations keep the invariant. */
module LockRelocation {
  import opened Bits
  import opened Records
  import opened Addressing
  import opened Directories
  import opened BucketSteps
  import opened LockProtocol
  import opened LockInvariant
  import opened LockSteps

  // ------------------------------------------------------------------ changes of the address variables

  /** Other address variables, a larger directory, more segments. */
  ghost predicate Resized(sub: Sub, sub': Sub) {
    && sub'.home == sub.home && sub'.stored == sub.stored && sub'.m == sub.m
    && sub.segs <= sub'.segs
  }

  /** The address variables or segments of subtable i change, by the thread that holds its table lock for writing. */
  lemma AddressStep(s: State, t: nat, i: nat, sub': Sub, q: Phase, s': State)
    requires Inv(s) && i < |s.subs| && Changes(s, t, i, sub', q, s') && Compatible(s, t, q)
    requires Resized(s.subs[i], sub') && SegOk(sub')
    requires TableMode(s.threads[t], i).Write? && Single(s.threads[t]) && s.threads[t].k == i
    requires ThreadOk(q, s'.subs) && Left(q) == Left(s.threads[t]) == {}
    requires (Single(q) && q.k == i) || q.Idle?
    requires !TableMode(q, i).Write? ==> sub'.a == s.subs[i].home
    ensures Inv(s')
  {
    NotMineAt(s.threads[t], q, i);
    hide *;
    InvFacts(s);
    ChangesFacts(s, t, i, sub', q, s');
    SameSub(s.subs[i], sub');
    forall v | 0 <= v < |s.threads| && v != t ensures ThreadOk(s.threads[v], s'.subs) {
      OtherThreadReaddressed(s, t, v, i, sub');
    }
    forall j | 0 <= j < |s.subs| ensures Settled(s'.threads, j, s'.subs[j]) {
      if j == i {
        SettledReaddressed(s.threads, t, q, i, s.subs[i], sub');
      } else {
        SettledGoes(s.threads, t, q, j, s.subs[j]);
      }
    }
    GeneralStep(s, t, i, sub', q, s');
  }

  lemma NotMineAt(p: Phase, q: Phase, i: nat)
    requires Single(p) && p.k == i && ((Single(q) && q.k == i) || q.Idle?)
    ensures forall j: nat :: j != i ==> !TableMode(p, j).Write? && !TableMode(q, j).Write?
    ensures forall j: nat :: j != i ==> !InSub(p, j) && !InSub(q, j)
  {
    forall j: nat | j != i ensures !TableMode(p, j).Write? && !TableMode(q, j).Write? {
      NotMine(p, j);
      NotMine(q, j);
    }
  }

  lemma SameSub(sub: Sub, sub': Sub)
    requires SubOk(sub) && Resized(sub, sub') && SegOk(sub')
    ensures SubOk(sub')
  {
    forall b, r | InStore(sub', b, r) ensures InStore(sub, b, r) {}
    hide Addr.BucketAddress, Addr.WellFormed, SegOk;
  }

  lemma SamePhase(u: Phase, i: nat, sub: Sub, sub': Sub)
    requires PhaseOk(u, i, sub) && Resized(sub, sub') && !TableMode(u, i).Write? && InSub(u, i)
    ensures PhaseOk(u, i, sub')
  {
    SegMore(u, i, sub, sub');
    hide Addr.BucketAddress, BucketMode, TableMode, Left, SegPhase;
    forall r | r in Left(u) ensures InHand(u, i, sub', r) {
      assert InHand(u, i, sub, r);
      forall b: nat ensures !InStore(sub', b, r) { assert !InStore(sub, b, r); }
    }
  }

  lemma OtherThreadReaddressed(s: State, t: nat, v: nat, i: nat, sub': Sub)
    requires Inv(s) && t < |s.threads| && v < |s.threads| && t != v && i < |s.subs|
    requires TableMode(s.threads[t], i).Write? && Resized(s.subs[i], sub')
    ensures ThreadOk(s.threads[v], s.subs[i := sub'])
  {
    InvFacts(s);
    TableExclusion(s, t, v, i);
    var u := s.threads[v];
    assert ThreadOk(u, s.subs);
    hide Inv, PhaseOk, Expected, TableMode, Exclusive, Settled, SubOk, Resized;
    if InSub(u, i) { SamePhase(u, i, s.subs[i], sub'); }
  }

  lemma SettledReaddressed(threads: seq<Phase>, t: nat, q: Phase, i: nat, sub: Sub, sub': Sub)
    requires t < |threads| && Settled(threads, i, sub) && Resized(sub, sub')
    requires Left(q) == Left(threads[t]) == {}
    requires !TableMode(q, i).Write? ==> sub'.a == sub.home
    ensures Settled(threads[t := q], i, sub')
  {
    WriterStays(threads, t, q, i);
    hide TableMode, Left, InSub, WriteHeld, Addr.BucketAddress;
    var threads' := threads[t := q];
    forall c | c in sub.m ensures Located(threads', i, sub', sub.m[c]) {
      assert Located(threads, i, sub, sub.m[c]);
      if SomeoneHas(threads, i, sub.m[c]) {
        StillHas(threads, t, q, i, sub.m[c]);
      } else {
        assert InStore(sub, sub.home.BucketAddress(Sig(sub.m[c])), sub.m[c]);
      }
    }
  }

  // ------------------------------------------------------------------ one record relocated

  /** Thread t puts a record it has in hand into the bucket where it belongs. */
  lemma MoveStep(s: State, t: nat, i: nat, r: Record, q: Phase, s': State)
    requires Inv(s) && t < |s.threads| && i < |s.subs| && Single(s.threads[t]) && s.threads[t].k == i
    requires r in Left(s.threads[t]) && Left(q) == Left(s.threads[t]) - {r}
    requires var sub := s.subs[i];
      Changes(s, t, i, sub.(stored := sub.stored + {(sub.home.BucketAddress(Sig(r)), r)}), q, s')
    requires Compatible(s, t, q) && Single(q) && q.k == i
    requires forall j: nat :: TableMode(q, j) == TableMode(s.threads[t], j)
    requires forall j: nat, b: nat :: BucketMode(q, j, b) == BucketMode(s.threads[t], j, b)
    requires SameBut(s.threads[t], q)
    ensures Inv(s')
  {
    hide *;
    var p, sub := s.threads[t], s.subs[i];
    var sub' := sub.(stored := sub.stored + {(sub.home.BucketAddress(Sig(r)), r)});
    InvFacts(s);
    SingleFactsAt(s, t, i);
    ChangesFacts(s, t, i, sub', q, s');
    SelfInSub(p, i);
    SelfInSub(q, i);
    StoredSub(p, i, sub, r);
    StoredSelf(p, q, i, sub, r);
    SingleThreadAt(q, i, s'.subs, p, s.subs);
    forall v | 0 <= v < |s.threads| && v != t ensures ThreadOk(s.threads[v], s'.subs) {
      OtherThreadStored(s, t, v, i, r);
    }
    forall j | 0 <= j < |s.subs| ensures Settled(s'.threads, j, s'.subs[j]) {
      if j == i {
        SettledStored(s.threads, t, q, i, sub, r);
      } else {
        SettledElsewhere(s.threads, t, q, i, j, s.subs[j]);
      }
    }
    GeneralStep(s, t, i, sub', q, s');
  }

  /** Two phases that differ only in the records in hand. */
  predicate SameBut(p: Phase, q: Phase) {
    || (p.ExMoving? && q.ExMoving? && q.k == p.k && q.o == p.o && q.n == p.n && q.saved == p.saved)
    || (p.CoMerging? && q.CoMerging? && q.k == p.k && q.o == p.o)
  }

  function StoredIn(sub: Sub, r: Record): Sub {
    sub.(stored := sub.stored + {(sub.home.BucketAddress(Sig(r)), r)})
  }

  lemma SingleFactsAt(s: State, t: nat, i: nat)
    requires Inv(s) && t < |s.threads| && Single(s.threads[t]) && s.threads[t].k == i
    ensures i < |s.subs| && PhaseOk(s.threads[t], i, s.subs[i]) && SubOk(s.subs[i])
    ensures ThreadOk(s.threads[t], s.subs)
  {
    SingleFacts(s, t);
    InvFacts(s);
    hide *;
  }

  lemma StoredSub(p: Phase, i: nat, sub: Sub, r: Record)
    requires SubOk(sub) && PhaseOk(p, i, sub) && r in Left(p)
    ensures SubOk(sub.(stored := sub.stored + {(sub.home.BucketAddress(Sig(r)), r)}))
  {
    assert InHand(p, i, sub, r);
    var sub' := StoredIn(sub, r);
    SegSame(sub, sub');
    forall b, x | InStore(sub', b, x) ensures Holds(sub'.m, x) && sub'.home.BucketAddress(Sig(x)) == b {
      assert InStore(sub, b, x) || x == r;
    }
    hide Addr.BucketAddress, Addr.WellFormed, BucketMode, SegOk;
  }

  lemma StoredSelf(p: Phase, q: Phase, i: nat, sub: Sub, r: Record)
    requires PhaseOk(p, i, sub) && SameBut(p, q) && r in Left(p) && Left(q) == Left(p) - {r}
    ensures PhaseOk(q, i, sub.(stored := sub.stored + {(sub.home.BucketAddress(Sig(r)), r)}))
  {
    var sub' := StoredIn(sub, r);
    forall x | x in Left(q) ensures InHand(q, i, sub', x) {
      assert InHand(p, i, sub, x);
      forall b: nat ensures !InStore(sub', b, x) { assert !InStore(sub, b, x); }
    }
    assert forall b: nat :: BucketMode(q, i, b) == BucketMode(p, i, b);
    hide Addr.BucketAddress, BucketMode, InHand;
  }

  lemma SingleThreadAt(q: Phase, i: nat, subs': seq<Sub>, p: Phase, subs: seq<Sub>)
    requires ThreadOk(p, subs) && SameBut(p, q) && Single(q) && q.k == i < |subs| == |subs'|
    requires PhaseOk(q, i, subs'[i])
    ensures ThreadOk(q, subs')
  {
    assert TableMode(q, i).Free?;
    SingleThread(q, subs');
    hide *;
  }

  lemma OtherThreadStored(s: State, t: nat, v: nat, i: nat, r: Record)
    requires Inv(s) && t < |s.threads| && v < |s.threads| && t != v && i < |s.subs|
    requires Single(s.threads[t]) && s.threads[t].k == i && r in Left(s.threads[t])
    ensures var sub := s.subs[i];
      ThreadOk(s.threads[v], s.subs[i := sub.(stored := sub.stored + {(sub.home.BucketAddress(Sig(r)), r)})])
  {
    InvFacts(s);
    SingleFactsAt(s, t, i);
    var u := s.threads[v];
    assert ThreadOk(u, s.subs);
    assert InHand(s.threads[t], i, s.subs[i], r);
    BucketExclusion(s, t, v, i, s.subs[i].home.BucketAddress(Sig(r)));
    hide Inv, PhaseOk, Expected, TableMode, Exclusive, Settled, SubOk, Addr.BucketAddress, BucketMode;
    if InSub(u, i) { OtherPhaseStored(u, i, s.subs[i], r); }
  }

  lemma OtherPhaseStored(u: Phase, i: nat, sub: Sub, r: Record)
    requires PhaseOk(u, i, sub) && !BucketMode(u, i, sub.home.BucketAddress(Sig(r))).Write?
    ensures PhaseOk(u, i, sub.(stored := sub.stored + {(sub.home.BucketAddress(Sig(r)), r)}))
  {
    SegSame(sub, StoredIn(sub, r));
    hide Addr.BucketAddress, BucketMode, Left, SegPhase, InHand;
    forall x | x in Left(u) ensures InHand(u, i, StoredIn(sub, r), x) {
      InHandStored(u, i, sub, r, x);
    }
  }

  lemma InHandStored(u: Phase, i: nat, sub: Sub, r: Record, x: Record)
    requires InHand(u, i, sub, x) && !BucketMode(u, i, sub.home.BucketAddress(Sig(r))).Write?
    ensures InHand(u, i, StoredIn(sub, r), x)
  {
    hide Addr.BucketAddress, BucketMode;
    assert x != r;
    forall b: nat ensures !InStore(StoredIn(sub, r), b, x) { assert !InStore(sub, b, x); }
  }

  lemma SettledStored(threads: seq<Phase>, t: nat, q: Phase, i: nat, sub: Sub, r: Record)
    requires t < |threads| && Settled(threads, i, sub)
    requires InSub(threads[t], i) && InSub(q, i) && Left(q) == Left(threads[t]) - {r}
    requires forall j: nat :: TableMode(q, j) == TableMode(threads[t], j)
    ensures Settled(threads[t := q], i, sub.(stored := sub.stored + {(sub.home.BucketAddress(Sig(r)), r)}))
  {
    WriterStays(threads, t, q, i);
    WriterWas(threads, t, q, i);
    hide TableMode, Left, InSub, WriteHeld, Addr.BucketAddress;
    var threads', sub' := threads[t := q], StoredIn(sub, r);
    forall c | c in sub.m ensures Located(threads', i, sub', sub.m[c]) {
      var x := sub.m[c];
      assert Located(threads, i, sub, x);
      if x == r {
        assert InStore(sub', sub'.home.BucketAddress(Sig(x)), x);
      } else if SomeoneHas(threads, i, x) {
        StillHas(threads, t, q, i, x);
      } else {
        assert InStore(sub', sub'.home.BucketAddress(Sig(x)), x);
      }
    }
  }

  lemma WriterWas(threads: seq<Phase>, t: nat, q: Phase, i: nat)
    requires t < |threads| && TableMode(q, i) == TableMode(threads[t], i)
    ensures WriteHeld(threads[t := q], i) <==> WriteHeld(threads, i)
  {
    hide TableMode;
    WriterStays(threads, t, q, i);
    if TableMode(threads[t], i).Write? { assert TableMode(threads[t := q][t], i).Write?; }
  }

  /** Another subtable does not notice. */
  lemma SettledElsewhere(threads: seq<Phase>, t: nat, q: Phase, i: nat, j: nat, sub: Sub)
    requires t < |threads| && i != j && Settled(threads, j, sub)
    requires Single(threads[t]) && threads[t].k == i && Single(q) && q.k == i
    ensures Settled(threads[t := q], j, sub)
  {
    NotMineAt(threads[t], q, i);
    WriterStays(threads, t, q, j);
    hide TableMode, Left, WriteHeld, Addr.BucketAddress;
    forall c | c in sub.m ensures Located(threads[t := q], j, sub, sub.m[c]) {
      assert Located(threads, j, sub, sub.m[c]);
      if SomeoneHas(threads, j, sub.m[c]) {
        StillHas(threads, t, q, j, sub.m[c]);
      }
    }
  }

  // ------------------------------------------------------------------ a bucket re-addressed

  /**
    A new addressing that moves only signatures of bucket x, and only to buckets that phase q
    has locked for writing.
   */
  ghost predicate Readdresses(home: Addr, home': Addr, x: nat, q: Phase, i: nat) {
    && home'.WellFormed()
    && (forall sig: nat :: home.BucketAddress(sig) != x ==> home'.BucketAddress(sig) == home.BucketAddress(sig))
    && (forall sig: nat :: home.BucketAddress(sig) == x ==> BucketMode(q, i, home'.BucketAddress(sig)).Write?)
    && (home'.active == home.active + 1 || (home'.active == home.active - 1 == x))
  }

  function Emptied(sub: Sub, home': Addr, x: nat): Sub {
    sub.(a := home', home := home', stored := WithoutBucket(sub.stored, x))
  }

  lemma EmptiedSub(sub: Sub, home': Addr, x: nat, q: Phase, i: nat)
    requires SubOk(sub) && Readdresses(sub.home, home', x, q, i)
    requires SegOk(Emptied(sub, home', x))
    ensures SubOk(Emptied(sub, home', x))
  {
    var sub' := Emptied(sub, home', x);
    hide Addr.BucketAddress, Addr.WellFormed, BucketMode, SegOk;
    forall b, r | InStore(sub', b, r) ensures Holds(sub'.m, r) && sub'.home.BucketAddress(Sig(r)) == b {
      assert InStore(sub, b, r) && b != x;
    }
  }

  /** The re-addressing adds a bucket that phase u has not locked, or gives up a bucket. */
  ghost predicate Avoids(u: Phase, i: nat, home: Addr, home': Addr) {
    home'.active <= home.active || BucketMode(u, i, home.active).Free?
  }

  lemma OtherSegments(u: Phase, i: nat, sub: Sub, home': Addr, x: nat, q: Phase)
    requires SegPhase(u, sub) && Readdresses(sub.home, home', x, q, i) && Avoids(u, i, sub.home, home')
    requires !TableMode(u, i).Write? && InSub(u, i)
    ensures SegPhase(u, Emptied(sub, home', x))
  {
    assert u.ExFailed? && u.fate.InTable? ==> !BucketMode(u, i, u.n).Free?;
    assert HasSegment(Emptied(sub, home', x), if u.ExFailed? then u.n else 0) == HasSegment(sub, if u.ExFailed? then u.n else 0);
    hide SegmentIndex, Pow2, Addr.BucketAddress, Addr.WellFormed;
  }

  lemma OtherPhaseReaddressed(u: Phase, i: nat, sub: Sub, home': Addr, x: nat, q: Phase)
    requires PhaseOk(u, i, sub) && Readdresses(sub.home, home', x, q, i) && Avoids(u, i, sub.home, home')
    requires BucketMode(u, i, x).Free? && !TableMode(u, i).Write? && InSub(u, i)
    ensures PhaseOk(u, i, Emptied(sub, home', x))
  {
    var sub' := Emptied(sub, home', x);
    OtherSegments(u, i, sub, home', x, q);
    OtherBounds(u, i, sub, home', x, q);
    OtherHands(u, i, sub, home', x, q);
    assert u.OpBoth? || u.OpBucket? || u.OpDone? ==> !BucketMode(u, i, u.b).Free?;
    hide Addr.BucketAddress, InHand, Left, Back, SegPhase, Avoids;
  }

  lemma OtherBounds(u: Phase, i: nat, sub: Sub, home': Addr, x: nat, q: Phase)
    requires PhaseOk(u, i, sub) && Readdresses(sub.home, home', x, q, i)
    requires BucketMode(u, i, x).Free? && InSub(u, i)
    ensures forall b: nat :: !BucketMode(u, i, b).Free? && !(u.ExBoth? && b == u.n) && !u.ExFailed? ==> b < home'.active
    ensures u.ExFailed? ==> u.o < home'.active
  {
    assert u.ExFailed? ==> u.o != x;
    hide Addr.BucketAddress, BucketMode, InHand, Left;
  }

  lemma OtherHands(u: Phase, i: nat, sub: Sub, home': Addr, x: nat, q: Phase)
    requires PhaseOk(u, i, sub) && Readdresses(sub.home, home', x, q, i)
    requires BucketMode(u, i, x).Free?
    ensures forall r :: r in Left(u) ==> InHand(u, i, Emptied(sub, home', x), r)
  {
    hide Addr.BucketAddress, BucketMode, Left, Addr.WellFormed;
    var sub' := Emptied(sub, home', x);
    forall r | r in Left(u) ensures InHand(u, i, sub', r) {
      assert InHand(u, i, sub, r);
      assert sub.home.BucketAddress(Sig(r)) != x;
      forall b: nat ensures !InStore(sub', b, r) { assert !InStore(sub, b, r); }
    }
  }

  /** A bucket that the re-addressing adds is locked by phase p for writing. */
  ghost predicate Owns(p: Phase, i: nat, home: Addr, home': Addr) {
    home'.active <= home.active || BucketMode(p, i, home.active).Write?
  }

  lemma OtherThreadEmptied(s: State, t: nat, v: nat, i: nat, home': Addr, x: nat, q: Phase)
    requires Inv(s) && t < |s.threads| && v < |s.threads| && t != v && i < |s.subs|
    requires TableMode(s.threads[t], i).Write? && BucketMode(s.threads[t], i, x).Write?
    requires Readdresses(s.subs[i].home, home', x, q, i) && Owns(s.threads[t], i, s.subs[i].home, home')
    ensures ThreadOk(s.threads[v], s.subs[i := Emptied(s.subs[i], home', x)])
  {
    InvFacts(s);
    TableExclusion(s, t, v, i);
    BucketExclusion(s, t, v, i, x);
    BucketExclusion(s, t, v, i, s.subs[i].home.active);
    assert Avoids(s.threads[v], i, s.subs[i].home, home');
    var u := s.threads[v];
    assert ThreadOk(u, s.subs);
    hide Inv, PhaseOk, Expected, TableMode, Exclusive, Settled, SubOk, BucketMode, Readdresses, Emptied, Avoids, Owns;
    if InSub(u, i) { OtherPhaseReaddressed(u, i, s.subs[i], home', x, q); }
  }

  /** The records of the emptied bucket are now in hand. */
  lemma TakenInHand(sub: Sub, home': Addr, x: nat, q: Phase, i: nat, r: Record)
    requires SubOk(sub) && Readdresses(sub.home, home', x, q, i)
    requires r in RecordsIn(sub.stored, x)
    requires q.ExSplit? || q.ExMoving? ==> q.saved == home'
    ensures InHand(q, i, Emptied(sub, home', x), r)
  {
    assert InStore(sub, x, r);
    var sub' := Emptied(sub, home', x);
    forall b: nat ensures !InStore(sub', b, r) {
      assert InStore(sub, b, r) ==> b == x;
    }
    hide Addr.BucketAddress, BucketMode, Addr.WellFormed;
  }

  lemma SettledEmptied(threads: seq<Phase>, t: nat, q: Phase, i: nat, sub: Sub, home': Addr, x: nat)
    requires t < |threads| && SubOk(sub) && Settled(threads, i, sub)
    requires Left(threads[t]) == {} && InSub(q, i) && Left(q) == RecordsIn(sub.stored, x)
    requires Readdresses(sub.home, home', x, q, i)
    ensures Settled(threads[t := q], i, Emptied(sub, home', x))
  {
    hide TableMode, Left, InSub, WriteHeld, Addr.BucketAddress, BucketMode, Addr.WellFormed;
    var threads', sub' := threads[t := q], Emptied(sub, home', x);
    forall c | c in sub.m ensures Located(threads', i, sub', sub.m[c]) {
      var r := sub.m[c];
      assert Located(threads, i, sub, r);
      if SomeoneHas(threads, i, r) {
        StillHas(threads, t, q, i, r);
      } else if sub.home.BucketAddress(Sig(r)) == x {
        assert InStore(sub, x, r);
        assert (x, r) in sub.stored;
        assert r in Left(q) && threads'[t] == q;
      } else {
        assert InStore(sub', sub'.home.BucketAddress(Sig(r)), r);
      }
    }
  }

  /** Thread t, holding the table lock and bucket x for writing, re-addresses bucket x and takes its records in hand. */
  lemma EmptyStep(s: State, t: nat, i: nat, home': Addr, x: nat, q: Phase, s': State)
    requires Inv(s) && i < |s.subs| && Changes(s, t, i, Emptied(s.subs[i], home', x), q, s') && Compatible(s, t, q)
    requires Single(s.threads[t]) && s.threads[t].k == i && Single(q) && q.k == i && !q.OpTable? && !q.OpBoth?
    requires TableMode(s.threads[t], i).Write? && BucketMode(s.threads[t], i, x).Write?
    requires Left(s.threads[t]) == {} && Left(q) == RecordsIn(s.subs[i].stored, x)
    requires Readdresses(s.subs[i].home, home', x, q, i) && Owns(s.threads[t], i, s.subs[i].home, home')
    requires ThreadOk(q, s'.subs) && SegOk(Emptied(s.subs[i], home', x))
    ensures Inv(s')
  {
    hide *;
    var sub := s.subs[i];
    InvFacts(s);
    ChangesFacts(s, t, i, Emptied(sub, home', x), q, s');
    EmptiedSub(sub, home', x, q, i);
    forall v | 0 <= v < |s.threads| && v != t ensures ThreadOk(s.threads[v], s'.subs) {
      OtherThreadEmptied(s, t, v, i, home', x, q);
    }
    SelfInSub(q, i);
    forall j | 0 <= j < |s.subs| ensures Settled(s'.threads, j, s'.subs[j]) {
      if j == i {
        SettledEmptied(s.threads, t, q, i, sub, home', x);
      } else {
        SettledElsewhere(s.threads, t, q, i, j, s.subs[j]);
      }
    }
    GeneralStep(s, t, i, Emptied(sub, home', x), q, s');
  }

  lemma SelfInSub(q: Phase, i: nat)
    requires Single(q) && q.k == i
    ensures InSub(q, i)
  {}
}
