/** `_DeleteIf` over all buckets of a table, and emptying a table. */
module TableSweeps {
  import opened Records
  import opened Clumps
  import opened Addressing
  import opened Directories
  import opened Sweeping
  import opened Contents
  import opened TableStates
  import opened BucketSteps
  import opened Purging

  /** An item is the table's slot for one of its records. */
  ghost predicate Entry(m: Map, x: Item) {
    x == NewItem(x.rec) && Holds(m, x.rec)
  }

  /** The items asked about: each entry of the first k buckets exactly once, and nothing else. */
  ghost predicate AskedBelow(asked: seq<Item>, a: Addr, m: Map, k: nat) {
    forall x :: multiset(asked)[x] == if Entry(m, x) && a.BucketAddress(x.sig) < k then 1 else 0
  }

  /** Nothing but entries has been asked about, and none twice. */
  ghost predicate AskedOnce(asked: seq<Item>, m: Map) {
    forall x :: multiset(asked)[x] <= if Entry(m, x) then 1 else 0
  }

  /** Every entry has been asked about exactly once. */
  ghost predicate AskedAll(asked: seq<Item>, m: Map) {
    forall x :: multiset(asked)[x] == if Entry(m, x) then 1 else 0
  }

  // ------------------------------------------------------------------ one bucket

  /** A sweep divides a bucket's items into those left and those condemned, whether it stopped or not. */
  lemma SweepDivides(cs0: seq<Clump>, cs: seq<Clump>, asked: seq<Item>, freed: seq<Clump>, stopped: bool,
                     pred: Predicate, first: nat)
    requires SweepResult(cs0, cs, asked, freed, stopped, pred, first)
    ensures Chain(cs) && Places(cs) + Places(freed) == Places(cs0)
    ensures multiset(Items(cs)) + multiset(Condemned(asked, pred, first)) == multiset(Items(cs0))
    ensures multiset(asked) <= multiset(Items(cs0))
    ensures !stopped ==> multiset(asked) == multiset(Items(cs0))
  {
    var p :| Swept(Items(cs0), Items(cs), p, asked, pred, first);
    SweptDivides(Items(cs0), Items(cs), p, asked, pred, first);
    hide Items, Places, Chain, Condemned, Swept;
  }

  lemma SweptDivides(items0: seq<Item>, items: seq<Item>, p: nat, asked: seq<Item>, pred: Predicate, first: nat)
    requires Swept(items0, items, p, asked, pred, first)
    ensures multiset(items) + multiset(Condemned(asked, pred, first)) == multiset(items0)
    ensures multiset(asked) <= multiset(items0)
  {
    SparedOrCondemned(asked, pred, first);
    assert items == items[..p] + items[p..];
    hide Spared, Condemned;
  }

  /** In an exact bucket the items are the entries addressed to it, each once. */
  lemma BucketEntries(items: seq<Item>, b: nat, a: Addr, m: Map, x: Item)
    requires BucketOk(items, b, a, m)
    ensures multiset(items)[x] == if Entry(m, x) && a.BucketAddress(x.sig) == b then 1 else 0
  {
    DistinctCount(items, x);
    hide Addr.BucketAddress, Distinct;
    if x in items {
      assert Belongs(x, b, a, m);
    }
    if Entry(m, x) && a.BucketAddress(x.sig) == b {
      var y :| y in items && y.rec.key.cls == x.rec.key.cls;
      assert Belongs(y, b, a, m);
      assert x == y;
    }
  }

  lemma AskedNext(asked: seq<Item>, more: seq<Item>, items: seq<Item>, a: Addr, m: Map, k: nat)
    requires AskedBelow(asked, a, m, k) && BucketOk(items, k, a, m) && multiset(more) <= multiset(items)
    ensures AskedOnce(asked + more, m)
    ensures multiset(more) == multiset(items) ==> AskedBelow(asked + more, a, m, k + 1)
  {
    hide Addr.BucketAddress, BucketOk, Entry;
    forall x
      ensures multiset(asked + more)[x] <= if Entry(m, x) then 1 else 0
      ensures multiset(more) == multiset(items) ==>
        multiset(asked + more)[x] == if Entry(m, x) && a.BucketAddress(x.sig) < k + 1 then 1 else 0
    {
      BucketEntries(items, k, a, m, x);
      assert multiset(asked + more)[x] == multiset(asked)[x] + multiset(more)[x];
    }
  }

  lemma {:induction false} CondemnedConcat(s: seq<Item>, t: seq<Item>, pred: Predicate, first: nat)
    ensures Condemned(s + t, pred, first) == Condemned(s, pred, first) + Condemned(t, pred, first + |s|)
  {
    if t == [] {
      assert s + t == s;
    } else {
      var n := |t| - 1;
      CondemnedConcat(s, t[..n], pred, first);
      assert (s + t)[..|s + t| - 1] == s + t[..n];
    }
  }

  lemma KeysConcat(s: seq<Item>, t: seq<Item>, m: Map)
    ensures m - KeysOf(s + t) == m - KeysOf(s) - KeysOf(t)
  {
    assert KeysOf(s + t) == KeysOf(s) + KeysOf(t);
  }

  /** Condemned entries are distinct records of the table. */
  lemma CondemnedHeld(asked: seq<Item>, m: Map, pred: Predicate)
    requires AskedOnce(asked, m)
    ensures Distinct(Condemned(asked, pred, 0))
    ensures forall x :: x in Condemned(asked, pred, 0) ==> Holds(m, x.rec)
  {
    SparedOrCondemned(asked, pred, 0);
    var gone := Condemned(asked, pred, 0);
    hide Condemned, Spared, Distinct;
    forall x ensures multiset(gone)[x] <= 1 && (x in gone ==> Entry(m, x)) {
      assert multiset(asked)[x] <= if Entry(m, x) then 1 else 0;
      assert x in gone ==> x in multiset(gone);
    }
    CountDistinct(gone);
  }

  /** The sweep of the first k buckets is done. */
  ghost predicate SweptBelow(a: Addr, dir0: Directory, dir: Directory, bits: nat, m: Map, clumps: multiset<Location>,
                             asked: seq<Item>, pred: Predicate, k: nat)
  {
    && Exact(a, dir0, bits, m)
    && Exact(a, dir, bits, m - KeysOf(Condemned(asked, pred, 0)))
    && clumps == ClumpsOf(dir, bits, a.active)
    && (forall b: nat :: b >= k ==> ChainAt(dir, bits, b) == ChainAt(dir0, bits, b))
    && AskedBelow(asked, a, m, k)
  }

  lemma SweptNone(a: Addr, dir: Directory, bits: nat, m: Map, clumps: multiset<Location>, pred: Predicate)
    requires Exact(a, dir, bits, m) && clumps == ClumpsOf(dir, bits, a.active)
    ensures SweptBelow(a, dir, dir, bits, m, clumps, [], pred, 0)
  {
    hide Exact, ClumpsOf;
    assert KeysOf(Condemned([], pred, 0)) == {} && m - {} == m;
  }

  lemma SweptFacts(a: Addr, dir0: Directory, dir: Directory, bits: nat, m: Map, clumps: multiset<Location>,
                   asked: seq<Item>, pred: Predicate, k: nat)
    requires SweptBelow(a, dir0, dir, bits, m, clumps, asked, pred, k) && k < a.active
    ensures Exact(a, dir, bits, m - KeysOf(Condemned(asked, pred, 0)))
    ensures ChainAt(dir, bits, k) == ChainAt(dir0, bits, k)
    ensures BucketOk(Items(ChainAt(dir, bits, k)), k, a, m)
    ensures AskedBelow(asked, a, m, k)
    ensures clumps == ClumpsOf(dir, bits, a.active)
  {
    ActiveBucket(a, dir0, bits, m, k);
    hide Exact, ClumpsOf, BucketOk, ChainAt, AskedBelow;
  }

  /** Sweeping one more bucket. */
  lemma SweptNext(a: Addr, dir0: Directory, dir: Directory, bits: nat, m: Map, clumps: multiset<Location>,
                  asked: seq<Item>, pred: Predicate, k: nat,
                  chain: seq<Clump>, more: seq<Item>, freed: seq<Clump>, stopped: bool)
    requires SweptBelow(a, dir0, dir, bits, m, clumps, asked, pred, k) && k < a.active
    requires SweepResult(ChainAt(dir, bits, k), chain, more, freed, stopped, pred, |asked|)
    ensures Present(dir, bits, k) && SlotIndex(k, bits) < |dir[SegmentIndex(k, bits)].value|
    ensures Places(freed) <= clumps
    ensures AskedOnce(asked + more, m)
    ensures Exact(a, SetBucket(dir, bits, k, chain), bits, m - KeysOf(Condemned(asked + more, pred, 0)))
    ensures Without(clumps, freed) == ClumpsOf(SetBucket(dir, bits, k, chain), bits, a.active) <= clumps
    ensures !stopped ==>
      SweptBelow(a, dir0, SetBucket(dir, bits, k, chain), bits, m, Without(clumps, freed), asked + more, pred, k + 1)
  {
    hide *;
    SweptFacts(a, dir0, dir, bits, m, clumps, asked, pred, k);
    var chain0 := ChainAt(dir, bits, k);
    SweepDivides(chain0, chain, more, freed, stopped, pred, |asked|);
    AskedNext(asked, more, Items(chain0), a, m, k);
    CondemnedConcat(asked, more, pred, 0);
    KeysConcat(Condemned(asked, pred, 0), Condemned(more, pred, |asked|), m);
    PurgedState(a, dir, bits, m - KeysOf(Condemned(asked, pred, 0)), k, chain, Condemned(more, pred, |asked|));
    var dir' := SetBucket(dir, bits, k, chain);
    RemovedClumps(clumps, chain0, chain, freed, ClumpsOf(dir', bits, a.active));
    if !stopped {
      SweptOneMore(a, dir0, dir, dir', bits, m, clumps, Without(clumps, freed), asked, more, pred, k, chain);
    }
  }

  lemma SweptOneMore(a: Addr, dir0: Directory, dir: Directory, dir': Directory, bits: nat, m: Map,
                     clumps: multiset<Location>, clumps': multiset<Location>,
                     asked: seq<Item>, more: seq<Item>, pred: Predicate, k: nat, chain: seq<Clump>)
    requires SweptBelow(a, dir0, dir, bits, m, clumps, asked, pred, k) && k < a.active
    requires Present(dir, bits, k) && SlotIndex(k, bits) < |dir[SegmentIndex(k, bits)].value|
    requires dir' == SetBucket(dir, bits, k, chain)
    requires Exact(a, dir', bits, m - KeysOf(Condemned(asked + more, pred, 0)))
    requires clumps' == ClumpsOf(dir', bits, a.active)
    requires AskedBelow(asked + more, a, m, k + 1)
    ensures SweptBelow(a, dir0, dir', bits, m, clumps', asked + more, pred, k + 1)
  {
    ShapeFacts(a, dir, bits, m - KeysOf(Condemned(asked, pred, 0)));
    StoredChain(dir, bits, a.active, k, chain);
    hide Exact, ClumpsOf, ChainAt, AskedBelow, SetBucket, Condemned, KeysOf;
  }

  /** Every record has an active bucket, so after the last bucket all have been asked about. */
  lemma SweptLast(a: Addr, dir0: Directory, dir: Directory, bits: nat, m: Map, clumps: multiset<Location>,
                  asked: seq<Item>, pred: Predicate)
    requires SweptBelow(a, dir0, dir, bits, m, clumps, asked, pred, a.active)
    ensures AskedAll(asked, m) && AskedOnce(asked, m)
    ensures Exact(a, dir, bits, m - KeysOf(Condemned(asked, pred, 0)))
    ensures clumps == ClumpsOf(dir, bits, a.active)
  {
    hide Exact, ClumpsOf, ChainAt, Condemned, KeysOf, Entry, Addr.BucketAddress;
    forall x ensures multiset(asked)[x] == if Entry(m, x) then 1 else 0 {
      AddressInRange(a, dir0, bits, m, x.sig);
    }
  }

  /** Sweep all buckets with a predicate, deleting the records it condemns, until it stops. */
  method SweepBuckets(a: Addr, dir0: Directory, bits: nat, pred: Predicate, ghost m: Map, ghost clumps0: multiset<Location>)
    returns (dir: Directory, asked: seq<Item>, count: nat, stopped: bool, ghost clumps: multiset<Location>)
    requires Exact(a, dir0, bits, m) && clumps0 == ClumpsOf(dir0, bits, a.active)
    ensures Exact(a, dir, bits, m - KeysOf(Condemned(asked, pred, 0)))
    ensures clumps == ClumpsOf(dir, bits, a.active) <= clumps0
    ensures AskedOnce(asked, m) && (!stopped ==> AskedAll(asked, m))
    ensures stopped ==> asked != [] && Stops(pred(|asked| - 1, asked[|asked| - 1].rec))
    ensures AllGoOn(if stopped then asked[..|asked| - 1] else asked, pred, 0)
    ensures count == |Condemned(asked, pred, 0)|
    ensures Held(dir) == Held(dir0) && |dir| == |dir0|
  {
    hide *;
    dir, asked, stopped := dir0, [], false;
    clumps := clumps0;
    SweptNone(a, dir0, bits, m, clumps0, pred);
    NoneAsked(pred);
    var k := 0;
    while k < a.active
      invariant k <= a.active
      invariant SweptBelow(a, dir0, dir, bits, m, clumps, asked, pred, k)
      invariant clumps <= clumps0 && AllGoOn(asked, pred, 0)
      invariant Held(dir) == Held(dir0) && |dir| == |dir0|
    {
      SweptFacts(a, dir0, dir, bits, m, clumps, asked, pred, k);
      ActiveBucket(a, dir, bits, m - KeysOf(Condemned(asked, pred, 0)), k);
      var chain, more, freed;
      chain, more, freed, stopped := SweepChain(Bucket(dir, bits, k), pred, |asked|);
      SweptNext(a, dir0, dir, bits, m, clumps, asked, pred, k, chain, more, freed, stopped);
      GoesOn(asked, more, stopped, pred);
      SetBucketHeld(dir, bits, k, chain);
      dir := SetBucket(dir, bits, k, chain);
      clumps := Without(clumps, freed);
      asked := asked + more;
      if stopped {
        count := |Condemned(asked, pred, 0)|;
        return;
      }
      k := k + 1;
    }
    SweptLast(a, dir0, dir, bits, m, clumps, asked, pred);
    count := |Condemned(asked, pred, 0)|;
  }

  lemma NoneAsked(pred: Predicate)
    ensures AllGoOn([], pred, 0)
  {}

  lemma GoesOn(asked: seq<Item>, more: seq<Item>, stopped: bool, pred: Predicate)
    requires AllGoOn(asked, pred, 0)
    requires stopped ==> more != [] && Stops(pred(|asked| + |more| - 1, more[|more| - 1].rec))
    requires AllGoOn(if stopped then more[..|more| - 1] else more, pred, |asked|)
    ensures stopped ==> Stops(pred(|asked + more| - 1, (asked + more)[|asked + more| - 1].rec))
    ensures AllGoOn(if stopped then (asked + more)[..|asked + more| - 1] else asked + more, pred, 0)
  {
    var last := if stopped then more[..|more| - 1] else more;
    AllGoOnConcat(asked, last, pred);
    if stopped { assert (asked + more)[..|asked + more| - 1] == asked + last; }
    hide AllGoOn;
  }

  lemma AllGoOnConcat(s: seq<Item>, t: seq<Item>, pred: Predicate)
    requires AllGoOn(s, pred, 0) && AllGoOn(t, pred, |s|)
    ensures AllGoOn(s + t, pred, 0)
  {
    forall n | 0 <= n < |s + t| ensures !Stops(pred(n, (s + t)[n].rec)) {
      if n >= |s| {
        assert !Stops(pred(|s| + (n - |s|), t[n - |s|].rec));
      }
    }
  }
}
