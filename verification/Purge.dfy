/** Removing several records of a bucket at once: what a sweep or a clear does to the table. */
module Purging {
  import opened Records
  import opened Clumps
  import opened Addressing
  import opened Directories
  import opened Contents
  import opened TableStates
  import opened References
  import opened BucketSteps

  function KeysOf(items: seq<Item>): set<KeyClass> {
    set x | x in items :: x.rec.key.cls
  }

  /** The callbacks that release these records, in order. */
  function Releases(items: seq<Item>): seq<RefCall> {
    if items == [] then []
    else
      var n := |items| - 1;
      Releases(items[..n]) + [RefCall(items[n].rec, -1)]
  }

  lemma {:induction false} ReleasesConcat(s: seq<Item>, t: seq<Item>)
    ensures Releases(s + t) == Releases(s) + Releases(t)
  {
    if t == [] {
      assert s + t == s;
    } else {
      var n := |t| - 1;
      ReleasesConcat(s, t[..n]);
      assert (s + t)[..|s + t| - 1] == s + t[..n];
    }
  }

  /** Releasing distinct records of the table keeps the reference counts in agreement. */
  lemma {:induction false} ReleasedRefs(log: seq<RefCall>, m: Map, handed: multiset<Record>, gone: seq<Item>)
    requires RefsOk(log, m, handed) && Distinct(gone)
    requires forall x :: x in gone ==> Holds(m, x.rec)
    ensures RefsOk(log + Releases(gone), m - KeysOf(gone), handed)
    ensures |m - KeysOf(gone)| == |m| - |gone|
  {
    hide *;
    NothingGone(log, m);
    if gone != [] {
      var n := |gone| - 1;
      DistinctPrefix(gone);
      ReleasedRefs(log, m, handed, gone[..n]);
      LastKey(gone);
      OneMoreGone(m, KeysOf(gone[..n]), gone[n].rec);
      RemovedRef(log + Releases(gone[..n]), m - KeysOf(gone[..n]), handed, gone[n].rec);
      LastRelease(log, gone);
    }
  }

  lemma NothingGone(log: seq<RefCall>, m: Map)
    ensures Releases([]) == [] && log + [] == log && KeysOf([]) == {} && m - {} == m
  {}

  lemma DistinctPrefix(items: seq<Item>)
    requires items != [] && Distinct(items)
    ensures Distinct(items[..|items| - 1])
    ensures forall x :: x in items[..|items| - 1] ==> x in items
    ensures items[|items| - 1] in items
  {}

  lemma OneMoreGone(m: Map, ks: set<KeyClass>, r: Record)
    requires Holds(m, r) && r.key.cls !in ks
    ensures r.key.cls in m - ks && (m - ks)[r.key.cls] == r
    ensures m - (ks + {r.key.cls}) == m - ks - {r.key.cls}
    ensures |m - ks - {r.key.cls}| == |m - ks| - 1
  {
    assert (m - ks - {r.key.cls}).Keys == (m - ks).Keys - {r.key.cls};
  }

  lemma LastRelease(log: seq<RefCall>, gone: seq<Item>)
    requires gone != []
    ensures var n := |gone| - 1;
      log + Releases(gone) == log + Releases(gone[..n]) + [RefCall(gone[n].rec, -1)]
  {
    var n := |gone| - 1;
    assert Releases(gone) == Releases(gone[..n]) + [RefCall(gone[n].rec, -1)];
    hide *;
    Associative(log, Releases(gone[..n]), [RefCall(gone[n].rec, -1)]);
  }

  lemma Associative<T>(a: seq<T>, b: seq<T>, c: seq<T>)
    ensures a + (b + c) == (a + b) + c
  {}

  lemma LastKey(gone: seq<Item>)
    requires gone != [] && Distinct(gone)
    ensures KeysOf(gone) == KeysOf(gone[..|gone| - 1]) + {gone[|gone| - 1].rec.key.cls}
    ensures gone[|gone| - 1].rec.key.cls !in KeysOf(gone[..|gone| - 1])
  {
    var n := |gone| - 1;
    assert gone == gone[..n] + [gone[n]];
  }

  // ------------------------------------------------------------------ one bucket

  /** Sequences without repeated keys hold each item at most once. */
  lemma {:induction false} DistinctCount(items: seq<Item>, x: Item)
    requires Distinct(items)
    ensures multiset(items)[x] == if x in items then 1 else 0
  {
    if items != [] {
      var n := |items| - 1;
      DistinctCount(items[..n], x);
      assert items == items[..n] + [items[n]];
    }
  }

  lemma {:induction false} CountDistinct(items: seq<Item>)
    requires forall x :: multiset(items)[x] <= 1
    requires forall x, y :: x in items && y in items && x.rec.key.cls == y.rec.key.cls ==> x == y
    ensures Distinct(items)
  {
    if items != [] {
      var n := |items| - 1;
      assert items == items[..n] + [items[n]];
      forall x ensures multiset(items[..n])[x] <= 1 {
        assert multiset(items)[x] <= 1;
      }
      CountDistinct(items[..n]);
      assert multiset(items)[items[n]] <= 1;
      assert items[n] !in multiset(items[..n]);
      forall y | y in items[..n] ensures y.rec.key.cls != items[n].rec.key.cls {
        assert y in multiset(items[..n]);
      }
      DistinctSnoc(items[..n], items[n]);
    }
  }

  lemma SameKeySameItem(items: seq<Item>, x: Item, y: Item)
    requires Distinct(items) && x in items && y in items && x.rec.key.cls == y.rec.key.cls
    ensures x == y
  {}

  lemma PartDistinct(items0: seq<Item>, items: seq<Item>, gone: seq<Item>)
    requires Distinct(items0) && multiset(items) + multiset(gone) == multiset(items0)
    ensures Distinct(items) && Distinct(gone)
    ensures forall x :: x in items0 <==> x in items || x in gone
    ensures forall x :: x in items ==> x.rec.key.cls !in KeysOf(gone)
  {
    Members(items0, items, gone);
    forall x ensures multiset(items)[x] <= 1 && multiset(gone)[x] <= 1 && !(x in items && x in gone) {
      DistinctCount(items0, x);
      assert (multiset(items) + multiset(gone))[x] == multiset(items0)[x];
      assert x in items ==> x in multiset(items);
      assert x in gone ==> x in multiset(gone);
    }
    forall x, y | x in items0 && y in items0 && x.rec.key.cls == y.rec.key.cls ensures x == y {
      SameKeySameItem(items0, x, y);
    }
    hide Distinct;
    CountDistinct(items);
    CountDistinct(gone);
  }

  lemma Members(items0: seq<Item>, items: seq<Item>, gone: seq<Item>)
    requires multiset(items) + multiset(gone) == multiset(items0)
    ensures forall x :: x in items0 <==> x in items || x in gone
  {
    forall x ensures x in items0 <==> x in items || x in gone {
      assert x in items0 <==> x in multiset(items0);
      assert x in items <==> x in multiset(items);
      assert x in gone <==> x in multiset(gone);
    }
  }

  /** Dividing a bucket into items kept and items gone: it is exact for the map without the latter. */
  lemma PurgedBucket(items0: seq<Item>, items: seq<Item>, gone: seq<Item>, b: nat, a: Addr, m: Map)
    requires BucketOk(items0, b, a, m) && multiset(items) + multiset(gone) == multiset(items0)
    ensures BucketOk(items, b, a, m - KeysOf(gone))
    ensures Distinct(gone) && forall x :: x in gone ==> Belongs(x, b, a, m)
  {
    PartDistinct(items0, items, gone);
    hide Addr.BucketAddress, Distinct;
    var m' := m - KeysOf(gone);
    forall x | x in items0 ensures Belongs(x, b, a, m) && (x in items ==> Belongs(x, b, a, m')) {
      assert Belongs(x, b, a, m);
    }
    forall c | c in m' && a.BucketAddress(c.sig) == b ensures HoldsKey(items, c) {
      var x :| x in items0 && x.rec.key.cls == c;
    }
  }

  lemma OtherBucketPurged(items: seq<Item>, k: nat, a: Addr, m: Map, gone: seq<Item>, b: nat)
    requires BucketOk(items, k, a, m) && k != b
    requires forall x :: x in gone ==> Belongs(x, b, a, m)
    ensures BucketOk(items, k, a, m - KeysOf(gone))
  {
    hide Addr.BucketAddress, Distinct;
    forall x | x in items ensures Belongs(x, k, a, m - KeysOf(gone)) {
      assert Belongs(x, k, a, m);
      forall y | y in gone ensures y.rec.key.cls != x.rec.key.cls {
        assert Belongs(y, b, a, m);
      }
    }
  }

  // ------------------------------------------------------------------ the table

  /** Storing back what a sweep kept of a bucket. */
  lemma PurgedState(a: Addr, dir: Directory, bits: nat, m: Map, b: nat, chain: seq<Clump>, gone: seq<Item>)
    requires Exact(a, dir, bits, m) && b < a.active && Chain(chain)
    requires multiset(Items(chain)) + multiset(gone) == multiset(Items(ChainAt(dir, bits, b)))
    ensures Present(dir, bits, b) && SlotIndex(b, bits) < |dir[SegmentIndex(b, bits)].value|
    ensures Exact(a, SetBucket(dir, bits, b, chain), bits, m - KeysOf(gone))
    ensures ClumpsOf(SetBucket(dir, bits, b, chain), bits, a.active) + Places(ChainAt(dir, bits, b))
         == ClumpsOf(dir, bits, a.active) + Places(chain)
    ensures Distinct(gone) && forall x :: x in gone ==> Holds(m, x.rec)
  {
    hide *;
    ActiveBucket(a, dir, bits, m, b);
    PurgedBucket(Items(ChainAt(dir, bits, b)), Items(chain), gone, b, a, m);
    UnchangedBuckets(a, dir, bits, m);
    forall k: nat | k < a.active && k != b ensures BucketOk(Items(ChainAt(dir, bits, k)), k, a, m - KeysOf(gone)) {
      OtherBucketPurged(Items(ChainAt(dir, bits, k)), k, a, m, gone, b);
    }
    ChangedBucket(a, dir, bits, m, b, chain, m - KeysOf(gone));
    forall x | x in gone ensures Holds(m, x.rec) {
      BelongsHolds(x, b, a, m);
    }
  }

  lemma BelongsHolds(x: Item, b: nat, a: Addr, m: Map)
    requires Belongs(x, b, a, m)
    ensures Holds(m, x.rec)
  {}
}
