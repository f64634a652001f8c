/**
  What the buckets of a table hold, against the map from keys to records the table stands
  for. Every operation changes the items of one bucket, or re-addresses those of two.
 */
module Contents {
  import opened Records
  import opened Addressing
  import opened Chains
  import opened Deleting
  import opened Splitting

  type Map = map<KeyClass, Record>

  /** The item carries its record's signature, lives in bucket b, and is the map's entry. */
  ghost predicate Belongs(x: Item, b: nat, a: Addr, m: Map) {
    && x.sig == CalcKeyHash(ExtractKey(x.rec))
    && a.BucketAddress(x.sig) == b
    && x.rec.key.cls in m && m[x.rec.key.cls] == x.rec
  }

  ghost predicate HoldsKey(items: seq<Item>, c: KeyClass) {
    exists x :: x in items && x.rec.key.cls == c
  }

  ghost predicate Distinct(items: seq<Item>) {
    forall i, j :: 0 <= i < j < |items| ==> items[i].rec.key.cls != items[j].rec.key.cls
  }

  /** The items of bucket b are exactly the map's entries addressed to b, each once. */
  ghost predicate BucketOk(items: seq<Item>, b: nat, a: Addr, m: Map) {
    && (forall x :: x in items ==> Belongs(x, b, a, m))
    && Distinct(items)
    && (forall c :: c in m && a.BucketAddress(c.sig) == b ==> HoldsKey(items, c))
  }

  function NewItem(r: Record): Item {
    Item(CalcKeyHash(ExtractKey(r)), r)
  }

  // ------------------------------------------------------------------ look-up

  /** In an exact bucket a scan for signature and key finds the map's entry, or there is none. */
  lemma ScanFinds(items: seq<Item>, b: nat, a: Addr, m: Map, key: Key)
    requires BucketOk(items, b, a, m) && a.BucketAddress(key.cls.sig) == b
    ensures NoMatch(items, key.cls.sig, key) <==> key.cls !in m
    ensures forall pos: nat :: FirstMatch(items, key.cls.sig, key, pos) ==> key.cls in m && m[key.cls] == items[pos].rec
  {
    hide Addr.BucketAddress;
    if key.cls in m {
      var x :| x in items && x.rec.key.cls == key.cls;
      assert Belongs(x, b, a, m);
      var i :| 0 <= i < |items| && items[i] == x;
      assert Matches(items[i], key.cls.sig, key);
    } else {
      forall i | 0 <= i < |items| ensures !Matches(items[i], key.cls.sig, key) {
        assert Belongs(items[i], b, a, m);
      }
    }
    forall pos: nat | FirstMatch(items, key.cls.sig, key, pos)
      ensures key.cls in m && m[key.cls] == items[pos].rec
    {
      assert Belongs(items[pos], b, a, m);
    }
  }

  // ------------------------------------------------------------------ one record changes

  lemma InsertedBucket(items: seq<Item>, b: nat, a: Addr, m: Map, r: Record)
    requires BucketOk(items, b, a, m) && a.BucketAddress(r.key.cls.sig) == b
    requires NoMatch(items, r.key.cls.sig, r.key)
    ensures r.key.cls !in m
    ensures BucketOk(items + [NewItem(r)], b, a, m[r.key.cls := r])
  {
    ScanFinds(items, b, a, m, r.key);
    hide Addr.BucketAddress;
    var items', m' := items + [NewItem(r)], m[r.key.cls := r];
    forall c | c in m' && a.BucketAddress(c.sig) == b ensures HoldsKey(items', c) {
      if c == r.key.cls {
        assert NewItem(r) in items';
      } else {
        var x :| x in items && x.rec.key.cls == c;
        assert x in items';
      }
    }
    forall x | x in items ensures Belongs(x, b, a, m') && x.rec.key.cls != r.key.cls {
      assert Belongs(x, b, a, m);
    }
    DistinctSnoc(items, NewItem(r));
  }

  lemma DistinctSnoc(items: seq<Item>, x: Item)
    requires Distinct(items) && forall y :: y in items ==> y.rec.key.cls != x.rec.key.cls
    ensures Distinct(items + [x])
  {}

  lemma ReplacedBucket(items: seq<Item>, b: nat, a: Addr, m: Map, r: Record, pos: nat)
    requires BucketOk(items, b, a, m) && a.BucketAddress(r.key.cls.sig) == b
    requires FirstMatch(items, r.key.cls.sig, r.key, pos)
    ensures r.key.cls in m && m[r.key.cls] == items[pos].rec
    ensures BucketOk(items[pos := NewItem(r)], b, a, m[r.key.cls := r])
  {
    ScanFinds(items, b, a, m, r.key);
    hide Addr.BucketAddress;
    var items', m' := items[pos := NewItem(r)], m[r.key.cls := r];
    forall c | c in m' && a.BucketAddress(c.sig) == b ensures HoldsKey(items', c) {
      if c == r.key.cls {
        assert items'[pos] in items';
      } else {
        var x :| x in items && x.rec.key.cls == c;
        var i :| 0 <= i < |items| && items[i] == x;
        assert items'[i] in items';
      }
    }
    forall x | x in items' ensures Belongs(x, b, a, m') {
      var i :| 0 <= i < |items'| && items'[i] == x;
      if i != pos {
        assert Belongs(items[i], b, a, m);
      }
    }
  }

  lemma DeletedBucket(items: seq<Item>, b: nat, a: Addr, m: Map, pos: nat)
    requires BucketOk(items, b, a, m) && pos < |items|
    ensures var c := items[pos].rec.key.cls;
      && c in m && m[c] == items[pos].rec && a.BucketAddress(c.sig) == b
      && BucketOk(SwapRemove(items, pos), b, a, m - {c})
  {
    hide Addr.BucketAddress;
    assert Belongs(items[pos], b, a, m);
    var c0 := items[pos].rec.key.cls;
    var items', m' := SwapRemove(items, pos), m - {c0};
    var n := |items| - 1;
    forall c | c in m' && a.BucketAddress(c.sig) == b ensures HoldsKey(items', c) {
      var x :| x in items && x.rec.key.cls == c;
      var i :| 0 <= i < |items| && items[i] == x;
      assert items'[if i == n then pos else i] == x;
    }
    forall x | x in items' ensures Belongs(x, b, a, m') {
      var i :| 0 <= i < |items'| && items'[i] == x;
      assert Belongs(items[if i == pos then n else i], b, a, m);
    }
  }

  /** A change to another bucket's key leaves this bucket exact. */
  lemma OtherBucket(items: seq<Item>, b: nat, a: Addr, m: Map, c0: KeyClass, r: Record)
    requires BucketOk(items, b, a, m) && a.BucketAddress(c0.sig) != b
    ensures BucketOk(items, b, a, m[c0 := r])
    ensures BucketOk(items, b, a, m - {c0})
  {
    hide Addr.BucketAddress;
    forall x | x in items ensures Belongs(x, b, a, m[c0 := r]) && Belongs(x, b, a, m - {c0}) {
      assert Belongs(x, b, a, m);
    }
  }

  // ------------------------------------------------------------------ expansion

  lemma {:induction false} SplitDistinct(items: seq<Item>, idx: nat, mask: nat, newBkt: nat)
    requires Distinct(items)
    ensures Distinct(Staying(items, idx, mask, newBkt)) && Distinct(Moving(items, idx, mask, newBkt))
  {
    if items != [] {
      var n := |items| - 1;
      SplitDistinct(items[..n], idx, mask, newBkt);
      var s, t := Staying(items[..n], idx, mask, newBkt), Moving(items[..n], idx, mask, newBkt);
      forall x | x in s || x in t ensures x.rec.key.cls != items[n].rec.key.cls {
        SplitMembers(items[..n], idx, mask, newBkt, x);
      }
      DistinctSnoc(s, items[n]);
      DistinctSnoc(t, items[n]);
      hide Distinct, SavedAddress;
    }
  }

  /** The split bucket's items, divided by the new addressing, make both buckets exact. */
  lemma SplitBucket(items: seq<Item>, a: Addr, e: Addr, m: Map)
    requires a.WellFormed() && a.level < 30 && e == Expanded(a)
    requires BucketOk(items, a.expansionIdx, a, m)
    ensures BucketOk(Staying(items, e.expansionIdx, e.mask0, a.active), a.expansionIdx, e, m)
    ensures BucketOk(Moving(items, e.expansionIdx, e.mask0, a.active), a.active, e, m)
  {
    ExpandedWellFormed(a);
    var s := Staying(items, e.expansionIdx, e.mask0, a.active);
    var t := Moving(items, e.expansionIdx, e.mask0, a.active);
    SplitDistinct(items, e.expansionIdx, e.mask0, a.active);
    hide *;
    SplitBelongs(items, a, e, m, s, t);
    SplitComplete(items, a, e, m, s, t);
    MakeBucket(s, a.expansionIdx, e, m);
    MakeBucket(t, a.active, e, m);
  }

  lemma MakeBucket(items: seq<Item>, b: nat, a: Addr, m: Map)
    requires forall x :: x in items ==> Belongs(x, b, a, m)
    requires Distinct(items)
    requires forall c :: c in m && a.BucketAddress(c.sig) == b ==> HoldsKey(items, c)
    ensures BucketOk(items, b, a, m)
  {}

  lemma SplitBelongs(items: seq<Item>, a: Addr, e: Addr, m: Map, s: seq<Item>, t: seq<Item>)
    requires a.WellFormed() && a.level < 30 && e == Expanded(a) && e.WellFormed()
    requires BucketOk(items, a.expansionIdx, a, m)
    requires s == Staying(items, e.expansionIdx, e.mask0, a.active)
    requires t == Moving(items, e.expansionIdx, e.mask0, a.active)
    ensures forall x :: x in s ==> Belongs(x, a.expansionIdx, e, m)
    ensures forall x :: x in t ==> Belongs(x, a.active, e, m)
  {
    hide Addr.BucketAddress, Expanded, Addr.WellFormed, Staying, Moving, SavedAddress, Distinct, HoldsKey;
    forall x | x in s ensures Belongs(x, a.expansionIdx, e, m) {
      SplitMembers(items, e.expansionIdx, e.mask0, a.active, x);
      assert Belongs(x, a.expansionIdx, a, m);
      ReAddressed(a, e, x.sig);
    }
    forall x | x in t ensures Belongs(x, a.active, e, m) {
      SplitMembers(items, e.expansionIdx, e.mask0, a.active, x);
      assert Belongs(x, a.expansionIdx, a, m);
      ReAddressed(a, e, x.sig);
    }
  }

  /** A signature of the split bucket goes to the new bucket or stays; others keep their bucket. */
  lemma ReAddressed(a: Addr, e: Addr, sig: nat)
    requires a.WellFormed() && a.level < 30 && e == Expanded(a) && e.WellFormed()
    ensures SavedAddress(sig, e.expansionIdx, e.mask0) == e.BucketAddress(sig)
    ensures a.BucketAddress(sig) == a.expansionIdx ==>
              e.BucketAddress(sig) == a.active || e.BucketAddress(sig) == a.expansionIdx
    ensures a.BucketAddress(sig) != a.expansionIdx ==> e.BucketAddress(sig) == a.BucketAddress(sig) < a.active
    ensures a.BucketAddress(sig) < a.active && a.expansionIdx < a.active
  {
    SavedAddressIsCurrent(e, sig);
    ExpansionSplitsOneBucket(a, sig);
    BucketAddressIsLinear(a, sig);
    hide Addr.BucketAddress, SavedAddress, Expanded, LinearAddress;
  }

  lemma SplitComplete(items: seq<Item>, a: Addr, e: Addr, m: Map, s: seq<Item>, t: seq<Item>)
    requires a.WellFormed() && a.level < 30 && e == Expanded(a) && e.WellFormed()
    requires BucketOk(items, a.expansionIdx, a, m)
    requires s == Staying(items, e.expansionIdx, e.mask0, a.active)
    requires t == Moving(items, e.expansionIdx, e.mask0, a.active)
    ensures forall c :: c in m && e.BucketAddress(c.sig) == a.expansionIdx ==> HoldsKey(s, c)
    ensures forall c :: c in m && e.BucketAddress(c.sig) == a.active ==> HoldsKey(t, c)
  {
    hide Addr.BucketAddress, Expanded, Addr.WellFormed, Staying, Moving, SavedAddress, Distinct;
    forall c | c in m && e.BucketAddress(c.sig) == a.expansionIdx ensures HoldsKey(s, c) {
      ReAddressed(a, e, c.sig);
      var x :| x in items && x.rec.key.cls == c;
      assert Belongs(x, a.expansionIdx, a, m);
      SplitMembers(items, e.expansionIdx, e.mask0, a.active, x);
    }
    forall c | c in m && e.BucketAddress(c.sig) == a.active ensures HoldsKey(t, c) {
      ReAddressed(a, e, c.sig);
      var x :| x in items && x.rec.key.cls == c;
      assert Belongs(x, a.expansionIdx, a, m);
      SplitMembers(items, e.expansionIdx, e.mask0, a.active, x);
    }
  }

  /** The buckets an expansion does not split stay exact. */
  lemma UnsplitBucket(items: seq<Item>, b: nat, a: Addr, e: Addr, m: Map)
    requires a.WellFormed() && a.level < 30 && e == Expanded(a)
    requires BucketOk(items, b, a, m) && b < a.active && b != a.expansionIdx
    ensures BucketOk(items, b, e, m)
  {
    ExpandedWellFormed(a);
    hide Addr.BucketAddress, Expanded, Addr.WellFormed, SavedAddress, Distinct;
    forall x | x in items ensures Belongs(x, b, e, m) {
      assert Belongs(x, b, a, m);
      ReAddressed(a, e, x.sig);
    }
    forall c | c in m && e.BucketAddress(c.sig) == b ensures HoldsKey(items, c) {
      ReAddressed(a, e, c.sig);
    }
  }

  // ------------------------------------------------------------------ contraction

  lemma ReMerged(a: Addr, sig: nat)
    requires a.WellFormed() && a.active > 1
    ensures a.expansionIdx == 0 ==> a.level > 0
    ensures var c := Contracted(a);
      && c.expansionIdx < a.active - 1
      && c.BucketAddress(sig) == if a.BucketAddress(sig) == a.active - 1 then c.expansionIdx else a.BucketAddress(sig)
  {
    ContractionMergesOneBucket(a, sig);
    hide Addr.BucketAddress, Contracted;
  }

  /** The last bucket's items, appended to its buddy's, make the buddy exact. */
  lemma MergedBucket(target: seq<Item>, last: seq<Item>, a: Addr, c: Addr, m: Map)
    requires a.WellFormed() && a.active > 1 && (a.expansionIdx == 0 ==> a.level > 0) && c == Contracted(a)
    requires BucketOk(last, a.active - 1, a, m) && BucketOk(target, c.expansionIdx, a, m)
    ensures BucketOk(target + last, c.expansionIdx, c, m)
  {
    hide Addr.BucketAddress, Contracted, Addr.WellFormed;
    forall x | x in target + last ensures Belongs(x, c.expansionIdx, c, m) {
      ReMerged(a, x.sig);
      assert Belongs(x, c.expansionIdx, a, m) || Belongs(x, a.active - 1, a, m);
    }
    ReMerged(a, 0);
    MergedDistinct(target, last, c.expansionIdx, a.active - 1, a, m);
    forall k | k in m && c.BucketAddress(k.sig) == c.expansionIdx ensures HoldsKey(target + last, k) {
      ReMerged(a, k.sig);
      var x :| (x in target || x in last) && x.rec.key.cls == k;
      assert x in target + last;
    }
  }

  lemma MergedDistinct(s: seq<Item>, t: seq<Item>, b: nat, b': nat, a: Addr, m: Map)
    requires BucketOk(s, b, a, m) && BucketOk(t, b', a, m) && b != b'
    ensures Distinct(s + t)
  {
    hide Addr.BucketAddress, HoldsKey;
    forall i, j | 0 <= i < |s| && 0 <= j < |t| ensures s[i].rec.key.cls != t[j].rec.key.cls {
      assert Belongs(s[i], b, a, m) && Belongs(t[j], b', a, m);
    }
  }

  /** The buckets a contraction does not touch stay exact. */
  lemma UnmergedBucket(items: seq<Item>, b: nat, a: Addr, c: Addr, m: Map)
    requires a.WellFormed() && a.active > 1 && (a.expansionIdx == 0 ==> a.level > 0) && c == Contracted(a)
    requires BucketOk(items, b, a, m) && b < a.active - 1 && b != c.expansionIdx
    ensures BucketOk(items, b, c, m)
  {
    hide Addr.BucketAddress, Contracted, Addr.WellFormed;
    forall x | x in items ensures Belongs(x, b, c, m) {
      assert Belongs(x, b, a, m);
      ReMerged(a, x.sig);
    }
    forall k | k in m && c.BucketAddress(k.sig) == b ensures HoldsKey(items, k) {
      ReMerged(a, k.sig);
    }
  }
}
