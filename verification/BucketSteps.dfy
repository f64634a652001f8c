/** Insertion, look-up and removal in the one bucket a signature addresses. */
module BucketSteps {
  import opened Records
  import opened Clumps
  import opened Addressing
  import opened Directories
  import opened Chains
  import opened Deleting
  import opened Contents
  import opened TableStates
  import opened References

  datatype ReturnCode = Success | KeyExists | NoSuchKey | AllocFail | Unusable | BadRecord

  /** A table in use: exact, with its counters, clumps and references in agreement. */
  ghost predicate InUse(a: Addr, dir: Directory, bits: nat, m: Map, cRecords: nat, clumps: multiset<Location>,
                        log: seq<RefCall>, handed: multiset<Record>) {
    && Exact(a, dir, bits, m)
    && cRecords == |m|
    && clumps == ClumpsOf(dir, bits, a.active)
    && RefsOk(log, m, handed)
  }

  /** This very record is in the table. */
  predicate Holds(m: Map, r: Record) {
    r.key.cls in m && m[r.key.cls] == r
  }

  /** The reference counting an insertion does: the new record up, then a replaced one down. */
  function InsertCalls(rc: ReturnCode, m: Map, r: Record): seq<RefCall> {
    if !rc.Success? then []
    else if r.key.cls in m then [RefCall(r, 1), RefCall(m[r.key.cls], -1)]
    else [RefCall(r, 1)]
  }

  function DeleteCalls(rc: ReturnCode, m: Map, c: KeyClass): seq<RefCall> {
    if rc.Success? && c in m then [RefCall(m[c], -1)] else []
  }

  lemma InUseFacts(a: Addr, dir: Directory, bits: nat, m: Map, cRecords: nat, clumps: multiset<Location>,
                   log: seq<RefCall>, handed: multiset<Record>)
    requires InUse(a, dir, bits, m, cRecords, clumps, log, handed)
    ensures Exact(a, dir, bits, m) && cRecords == |m| && clumps == ClumpsOf(dir, bits, a.active) && RefsOk(log, m, handed)
  {
    hide Exact, ClumpsOf, RefsOk;
  }

  lemma MakeInUse(a: Addr, dir: Directory, bits: nat, m: Map, cRecords: nat, clumps: multiset<Location>,
                  log: seq<RefCall>, handed: multiset<Record>)
    requires Exact(a, dir, bits, m) && cRecords == |m| && clumps == ClumpsOf(dir, bits, a.active) && RefsOk(log, m, handed)
    ensures InUse(a, dir, bits, m, cRecords, clumps, log, handed)
  {
    hide Exact, ClumpsOf, RefsOk;
  }

  // ------------------------------------------------------------------ insertion into a bucket

  function StoreCode(result: Inserted): (rc: ReturnCode)
    ensures rc.Success? <==> result.Added? || result.Replaced?
    ensures rc.KeyExists? <==> result.KeyExists?
    ensures rc.AllocFail? <==> result.AllocFailed?
  {
    if result.KeyExists? then ReturnCode.KeyExists else if result.AllocFailed? then AllocFail else Success
  }

  function StoreCalls(r: Record, result: Inserted): seq<RefCall> {
    if result.Added? then [RefCall(r, 1)]
    // the new record's count goes up before the old one's goes down
    else if result.Replaced? then [RefCall(r, 1), RefCall(result.prior, -1)]
    else []
  }

  lemma SameCalls(m: Map, r: Record, result: Inserted)
    requires result.Added? || result.AllocFailed? <==> r.key.cls !in m
    requires result.Replaced? ==> m[r.key.cls] == result.prior
    ensures StoreCalls(r, result) == InsertCalls(StoreCode(result), m, r)
  {}

  lemma TwoCalls(log: seq<RefCall>, x: RefCall, y: RefCall)
    ensures log + [x] + [y] == log + [x, y]
  {}

  lemma NoCalls(log: seq<RefCall>)
    ensures log + [] == log
  {}

  lemma StoreRefs(log: seq<RefCall>, m: Map, handed: multiset<Record>, r: Record, result: Inserted)
    requires RefsOk(log, m, handed)
    requires result.Added? ==> r.key.cls !in m
    requires result.Replaced? ==> r.key.cls in m && m[r.key.cls] == result.prior && result.prior.key.cls == r.key.cls
    ensures RefsOk(log + StoreCalls(r, result), if result.Added? || result.Replaced? then m[r.key.cls := r] else m, handed)
  {
    if result.Added? {
      AddedRef(log, m, handed, r);
    } else if result.Replaced? {
      ReplacedRef(log, m, handed, r);
      TwoCalls(log, RefCall(r, 1), RefCall(result.prior, -1));
    } else {
      NoCalls(log);
    }
    hide RefsOk;
  }

  lemma Cardinality(m: Map, r: Record)
    ensures |m[r.key.cls := r]| == |m| + if r.key.cls in m then 0 else 1
  {
    if r.key.cls in m { assert m[r.key.cls := r].Keys == m.Keys; }
    else { assert m[r.key.cls := r].Keys == m.Keys + {r.key.cls}; }
  }

  lemma StoredInUse(a: Addr, dir': Directory, bits: nat, m: Map, cRecords: nat, clumps': multiset<Location>,
                    log: seq<RefCall>, handed: multiset<Record>, r: Record, result: Inserted)
    requires RefsOk(log, m, handed) && cRecords == |m|
    requires result.Added? || result.AllocFailed? <==> r.key.cls !in m
    requires result.Replaced? ==> m[r.key.cls] == result.prior && result.prior.key.cls == r.key.cls
    requires Exact(a, dir', bits, if result.Added? || result.Replaced? then m[r.key.cls := r] else m)
    requires clumps' == ClumpsOf(dir', bits, a.active)
    ensures InUse(a, dir', bits, if StoreCode(result).Success? then m[r.key.cls := r] else m,
                  if result.Added? then cRecords + 1 else cRecords, clumps', log + StoreCalls(r, result), handed)
    ensures StoreCalls(r, result) == InsertCalls(StoreCode(result), m, r)
  {
    SameCalls(m, r, result);
    hide *;
    Cardinality(m, r);
    StoreRefs(log, m, handed, r, result);
    MakeInUse(a, dir', bits, if StoreCode(result).Success? then m[r.key.cls := r] else m,
              if result.Added? then cRecords + 1 else cRecords, clumps', log + StoreCalls(r, result), handed);
  }

  lemma AddressInRange(a: Addr, dir: Directory, bits: nat, m: Map, sig: nat)
    requires Exact(a, dir, bits, m)
    ensures a.BucketAddress(sig) < a.active
  {
    hide *;
    ShapeFacts(a, dir, bits, m);
    BucketAddressIsLinear(a, sig);
  }

  /** The clumps after a request that was made, or not, and this answer to it. */
  ghost function Gained(clumps: multiset<Location>, used: bool, answer: Option<nat>): multiset<Location> {
    if used && answer.Some? then clumps + multiset{Heap(answer.value)} else clumps
  }

  lemma GainedCases(clumps: multiset<Location>, used: bool, answer: Option<nat>)
    ensures used && answer.Some? ==> Gained(clumps, used, answer) == clumps + multiset{Heap(answer.value)}
    ensures !used || answer.None? ==> Gained(clumps, used, answer) == clumps
  {}

  lemma CancelPlus<T>(x: multiset<T>, y: multiset<T>, p: multiset<T>, q: multiset<T>)
    requires x + p == y + (p + q)
    ensures x == y + q
  {
    assert y + (p + q) == (y + q) + p;
    forall t ensures x[t] == (y + q)[t] {
      assert (x + p)[t] == x[t] + p[t];
    }
  }

  lemma SignatureIs(r: Record, sig: Signature)
    requires sig == CalcKeyHash(ExtractKey(r))
    ensures sig == r.key.cls.sig && NewItem(r) == Item(sig, r)
  {}

  lemma InsertedMapIs(m: Map, r: Record, result: Inserted)
    ensures InsertedMap(m, r, result) == if result.Added? || result.Replaced? then m[r.key.cls := r] else m
  {}

  lemma PriorKey(items: seq<Item>, item: Item, overwrite: bool, result: Inserted, items': seq<Item>)
    requires InsertSpec(items, item, overwrite, result, items')
    ensures result.Replaced? ==> result.prior.key.cls == item.rec.key.cls
  {}

  /** What an insertion into bucket b makes of the table. */
  lemma StoredRecord(a: Addr, dir: Directory, bits: nat, m: Map, b: nat, r: Record, sig: Signature, overwrite: bool,
                     result: Inserted, chain: seq<Clump>, clumps: multiset<Location>, answer: Option<nat>)
    requires Exact(a, dir, bits, m) && sig == CalcKeyHash(ExtractKey(r)) && a.BucketAddress(sig) == b < a.active
    requires clumps == ClumpsOf(dir, bits, a.active)
    requires Chain(chain)
    requires InsertSpec(Items(ChainAt(dir, bits, b)), Item(sig, r), overwrite, result, Items(chain))
    requires result.AllocFailed? ==> |chain| == |ChainAt(dir, bits, b)|
    requires var chain0 := ChainAt(dir, bits, b);
      && (|chain| == |chain0| ==> Places(chain) == Places(chain0))
      && (|chain| != |chain0| ==> answer.Some? && Places(chain) == Places(chain0) + multiset{Heap(answer.value)})
    ensures Present(dir, bits, b) && SlotIndex(b, bits) < |dir[SegmentIndex(b, bits)].value|
    ensures result.Added? || result.AllocFailed? <==> r.key.cls !in m
    ensures result.Replaced? ==> overwrite && m[r.key.cls] == result.prior && result.prior.key.cls == r.key.cls
    ensures result.KeyExists? ==> !overwrite
    ensures var dir' := SetBucket(dir, bits, b, chain);
      && Exact(a, dir', bits, if result.Added? || result.Replaced? then m[r.key.cls := r] else m)
      && ClumpsOf(dir', bits, a.active) == Gained(clumps, |chain| != |ChainAt(dir, bits, b)|, answer)
      && (result.AllocFailed? && answer.None? ==> ClumpsOf(dir', bits, a.active) == Gained(clumps, true, answer))
  {
    GainedCases(clumps, |chain| != |ChainAt(dir, bits, b)|, answer);
    GainedCases(clumps, true, answer);
    hide *;
    SignatureIs(r, sig);
    InsertedState(a, dir, bits, m, b, r, overwrite, result, chain);
    PriorKey(Items(ChainAt(dir, bits, b)), Item(sig, r), overwrite, result, Items(chain));
    InsertedMapIs(m, r, result);
    var dir' := SetBucket(dir, bits, b, chain);
    if |chain| != |ChainAt(dir, bits, b)| {
      CancelPlus(ClumpsOf(dir', bits, a.active), clumps, Places(ChainAt(dir, bits, b)), multiset{Heap(answer.value)});
    } else {
      assert Places(ChainAt(dir, bits, b)) == Places(ChainAt(dir, bits, b)) + multiset{};
      CancelPlus(ClumpsOf(dir', bits, a.active), clumps, Places(ChainAt(dir, bits, b)), multiset{});
      assert clumps + multiset{} == clumps;
    }
  }

  /** Insert into the bucket the signature addresses; `used` tells whether a clump was asked for. */
  method InsertInBucket(a: Addr, dir: Directory, bits: nat, r: Record, sig: Signature, overwrite: bool,
                        answer: Option<nat>, ghost m: Map, ghost clumps: multiset<Location>)
    returns (result: Inserted, dir': Directory, used: bool, ghost clumps': multiset<Location>)
    requires Exact(a, dir, bits, m) && sig == CalcKeyHash(ExtractKey(r))
    requires clumps == ClumpsOf(dir, bits, a.active)
    ensures result.Added? || result.AllocFailed? <==> r.key.cls !in m
    ensures result.Replaced? ==> overwrite && m[r.key.cls] == result.prior && result.prior.key.cls == r.key.cls
    ensures result.KeyExists? ==> !overwrite
    ensures result.AllocFailed? ==> used && answer.None?
    ensures Exact(a, dir', bits, if result.Added? || result.Replaced? then m[r.key.cls := r] else m)
    ensures clumps' == ClumpsOf(dir', bits, a.active)
    ensures clumps' == Gained(clumps, used, answer)
    ensures Held(dir') == Held(dir) && |dir'| == |dir|
  {
    hide *;
    var b := a.BucketAddress(sig);
    AddressInRange(a, dir, bits, m, sig);
    ActiveBucket(a, dir, bits, m, b);
    var chain0 := Bucket(dir, bits, b);
    var chain;
    result, chain := InsertItem(chain0, Item(sig, r), overwrite, answer);
    StoredRecord(a, dir, bits, m, b, r, sig, overwrite, result, chain, clumps, answer);
    SetBucketHeld(dir, bits, b, chain);
    dir' := SetBucket(dir, bits, b, chain);
    used := |chain| != |chain0| || result.AllocFailed?;
    clumps' := Gained(clumps, used, answer);
  }

  // ------------------------------------------------------------------ look-up

  lemma KeySignature(key: Key, sig: Signature)
    requires sig == CalcKeyHash(key)
    ensures sig == key.cls.sig
  {}

  /** The record of a key, from the bucket its signature addresses. */
  method LookUp(a: Addr, dir: Directory, bits: nat, key: Key, sig: Signature, ghost m: Map) returns (rec: Option<Record>)
    requires Exact(a, dir, bits, m) && sig == CalcKeyHash(key)
    ensures rec == if key.cls in m then Some(m[key.cls]) else None
  {
    hide *;
    var b := a.BucketAddress(sig);
    AddressInRange(a, dir, bits, m, sig);
    ActiveBucket(a, dir, bits, m, b);
    var chain := Bucket(dir, bits, b);
    var spot := Walk(chain, Wanting(sig, key));
    SpotFacts(chain, sig, key, spot);
    KeySignature(key, sig);
    ScanFinds(Items(chain), b, a, m, key);
    rec := None;
    if spot.At? {
      rec := Some(chain[spot.k].slots[spot.i].value.rec);
    }
  }

  lemma WellKeyed(a: Addr, dir: Directory, bits: nat, m: Map)
    requires Exact(a, dir, bits, m)
    ensures forall c :: c in m ==> m[c].key.cls == c
  {
    hide *;
    forall c | c in m ensures m[c].key.cls == c {
      AddressInRange(a, dir, bits, m, c.sig);
      ActiveBucket(a, dir, bits, m, a.BucketAddress(c.sig));
      EntryKey(Items(ChainAt(dir, bits, a.BucketAddress(c.sig))), a.BucketAddress(c.sig), a, m, c);
    }
  }

  lemma EntryKey(items: seq<Item>, b: nat, a: Addr, m: Map, c: KeyClass)
    requires BucketOk(items, b, a, m) && c in m && a.BucketAddress(c.sig) == b
    ensures m[c].key.cls == c
  {
    hide Addr.BucketAddress, Distinct;
    var x :| x in items && x.rec.key.cls == c;
    assert Belongs(x, b, a, m);
  }

  // ------------------------------------------------------------------ removal from a bucket

  /** What remains of the clumps after freeing some of them. */
  ghost function Without(clumps: multiset<Location>, freed: seq<Clump>): multiset<Location> {
    clumps - Places(freed)
  }

  /** No record of this signature is wanted. */
  ghost predicate NoneLike(m: Map, sig: Signature, wanted: Item -> bool) {
    forall r :: Holds(m, r) && r.key.cls.sig == sig ==> !wanted(NewItem(r))
  }

  lemma WalkFacts(cs: seq<Clump>, wanted: Item -> bool, spot: Spot)
    requires Chain(cs) && Ended(cs, spot, wanted)
    ensures spot.At? ==>
      && spot.k < |cs| && spot.i < |Row(cs[spot.k].slots)| && spot.i < |cs[spot.k].slots|
      && Position(cs, spot.k, spot.i) < |Items(cs)|
      && cs[spot.k].slots[spot.i] == Some(Items(cs)[Position(cs, spot.k, spot.i)])
      && wanted(Items(cs)[Position(cs, spot.k, spot.i)])
    ensures !spot.At? ==> forall x :: x in Items(cs) ==> !wanted(x)
  {
    hide Row, Items, Chain;
  }

  lemma ItemFacts(items: seq<Item>, b: nat, a: Addr, m: Map, pos: nat)
    requires BucketOk(items, b, a, m) && pos < |items|
    ensures Holds(m, items[pos].rec) && items[pos] == NewItem(items[pos].rec)
  {
    hide Addr.BucketAddress, HoldsKey, Distinct;
    assert Belongs(items[pos], b, a, m);
  }

  lemma NoneWanted(items: seq<Item>, b: nat, a: Addr, m: Map, sig: Signature, wanted: Item -> bool)
    requires BucketOk(items, b, a, m) && a.BucketAddress(sig) == b
    requires forall x :: x in items ==> !wanted(x)
    ensures NoneLike(m, sig, wanted)
  {
    hide Addr.BucketAddress, Distinct;
    forall r | Holds(m, r) && r.key.cls.sig == sig ensures !wanted(NewItem(r)) {
      var x :| x in items && x.rec.key.cls == r.key.cls;
      assert Belongs(x, b, a, m);
      assert x == NewItem(r);
    }
  }

  lemma RemovedClumps(clumps: multiset<Location>, chain: seq<Clump>, chain': seq<Clump>, freed: seq<Clump>,
                      clumps': multiset<Location>)
    requires clumps' + Places(chain) == clumps + Places(chain')
    requires Places(chain') + Places(freed) == Places(chain)
    ensures Places(freed) <= clumps && clumps' == Without(clumps, freed) <= clumps
  {
    RemoveBalance(clumps, Places(chain), Places(chain'), Places(freed), clumps');
    hide Places;
  }

  lemma RemoveBalance(c: multiset<Location>, x: multiset<Location>, y: multiset<Location>, f: multiset<Location>,
                      c': multiset<Location>)
    requires c' + x == c + y && y + f == x
    ensures f <= c && c' == c - f <= c
  {
    forall l: Location ensures c'[l] + f[l] == c[l] {
      assert (c' + x)[l] == (c + y)[l];
      assert (y + f)[l] == x[l];
    }
  }

  /** Take the first wanted item out of the bucket a signature addresses. */
  method RemoveFromBucket(a: Addr, dir: Directory, bits: nat, sig: Signature, wanted: Item -> bool,
                          ghost m: Map, ghost clumps: multiset<Location>)
    returns (found: Option<Record>, dir': Directory, ghost clumps': multiset<Location>)
    requires Exact(a, dir, bits, m) && clumps == ClumpsOf(dir, bits, a.active)
    ensures found.Some? ==>
      && Holds(m, found.value) && wanted(NewItem(found.value))
      && Exact(a, dir', bits, m - {found.value.key.cls})
      && clumps' == ClumpsOf(dir', bits, a.active) <= clumps
    ensures found.None? ==> NoneLike(m, sig, wanted)
    ensures Held(dir') == Held(dir) && |dir'| == |dir|
  {
    hide *;
    var b := a.BucketAddress(sig);
    AddressInRange(a, dir, bits, m, sig);
    ActiveBucket(a, dir, bits, m, b);
    var chain := Bucket(dir, bits, b);
    var spot := Walk(chain, wanted);
    WalkFacts(chain, wanted, spot);
    found, dir', clumps' := None, dir, clumps;
    if spot.At? {
      var item := chain[spot.k].slots[spot.i].value;
      found := Some(item.rec);
      ItemFacts(Items(chain), b, a, m, Position(chain, spot.k, spot.i));
      var chain', k', i', freed := DeleteNode(chain, spot.k, spot.i);
      DeletedState(a, dir, bits, m, b, Position(chain, spot.k, spot.i), chain');
      SetBucketHeld(dir, bits, b, chain');
      dir' := SetBucket(dir, bits, b, chain');
      clumps' := Without(clumps, freed);
      RemovedClumps(clumps, chain, chain', freed, ClumpsOf(dir', bits, a.active));
    } else {
      NoneWanted(Items(chain), b, a, m, sig, wanted);
    }
  }

  lemma HoldsFacts(m: Map, r: Record)
    requires Holds(m, r)
    ensures r.key.cls in m && m[r.key.cls] == r && |m - {r.key.cls}| == |m| - 1
  {
    assert (m - {r.key.cls}).Keys == m.Keys - {r.key.cls};
  }

  lemma RemovedInUse(a: Addr, dir': Directory, bits: nat, m: Map, cRecords: nat, clumps': multiset<Location>,
                     log: seq<RefCall>, handed: multiset<Record>, r: Record)
    requires RefsOk(log, m, handed) && cRecords == |m| && Holds(m, r)
    requires Exact(a, dir', bits, m - {r.key.cls}) && clumps' == ClumpsOf(dir', bits, a.active)
    ensures cRecords > 0
    ensures InUse(a, dir', bits, m - {r.key.cls}, cRecords - 1, clumps', log + [RefCall(r, -1)], handed)
  {
    HoldsFacts(m, r);
    hide *;
    RemovedRef(log, m, handed, r);
    MakeInUse(a, dir', bits, m - {r.key.cls}, cRecords - 1, clumps', log + [RefCall(r, -1)], handed);
  }

  lemma RemovedKey(m: Map, key: Key, sig: Signature, found: Option<Record>)
    requires sig == CalcKeyHash(key)
    requires forall c :: c in m ==> m[c].key.cls == c
    requires found.Some? ==> Holds(m, found.value) && Wanting(sig, key)(NewItem(found.value))
    requires found.None? ==> NoneLike(m, sig, Wanting(sig, key))
    ensures found.Some? <==> key.cls in m
    ensures found.Some? ==> found.value.key.cls == key.cls && m[key.cls] == found.value
    ensures found.None? ==> m == m - {key.cls}
  {
    if key.cls in m { assert Holds(m, m[key.cls]); }
  }

  function ThisRecord(r: Record): Item -> bool {
    (x: Item) => x.rec == r
  }

  lemma RemovedRecord(m: Map, r: Record, sig: Signature, found: Option<Record>)
    requires sig == CalcKeyHash(ExtractKey(r))
    requires found.Some? ==> Holds(m, found.value) && ThisRecord(r)(NewItem(found.value))
    requires found.None? ==> NoneLike(m, sig, ThisRecord(r))
    ensures found.Some? <==> Holds(m, r)
    ensures found.Some? ==> found.value == r && r.key.cls in m && m[r.key.cls] == r
  {
    if Holds(m, r) { assert ThisRecord(r)(NewItem(r)); }
  }

  lemma DeleteCallsFacts(m: Map, c: KeyClass, log: seq<RefCall>, found: Option<Record>)
    requires found.Some? ==> c in m && m[c] == found.value
    ensures found.Some? ==> log + [RefCall(found.value, -1)] == log + DeleteCalls(Success, m, c)
    ensures log + DeleteCalls(NoSuchKey, m, c) == log
  {}
}
