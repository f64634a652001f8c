/** The state of a linear hash table between operations, and how each operation changes it. */
module TableStates {
  import opened Bits
  import opened Records
  import opened Clumps
  import opened Addressing
  import opened Directories
  import opened Chains
  import opened Deleting
  import opened Splitting
  import opened Contents

  /** Every active bucket is a well-formed chain holding exactly its share of the map. */
  ghost predicate AllBuckets(a: Addr, dir: Directory, bits: nat, m: Map) {
    forall b: nat :: b < a.active ==>
      Chain(ChainAt(dir, bits, b)) && BucketOk(Items(ChainAt(dir, bits, b)), b, a, m)
  }

  /** The table stands for the map m. */
  ghost predicate Exact(a: Addr, dir: Directory, bits: nat, m: Map) {
    && a.WellFormed()
    && Pow2(bits) <= a.active < MAX_DIRSIZE * Pow2(bits)
    && Shape(dir, bits, a.active)
    && AllBuckets(a, dir, bits, m)
  }

  lemma LevelBound(a: Addr, dir: Directory, bits: nat, m: Map)
    requires Exact(a, dir, bits, m)
    ensures a.level < 29 && a.active < Pow2(29)
  {
    MaxDirSize();
    assert SegBits(bits);
    Pow2Add(20, bits);
    Pow2Monotone(20 + bits, 29);
    if a.level >= 29 { Pow2Monotone(29, a.level); }
  }

  /** An active bucket can be read, and is as `AllBuckets` says. */
  lemma ActiveBucket(a: Addr, dir: Directory, bits: nat, m: Map, b: nat)
    requires Exact(a, dir, bits, m) && b < a.active
    ensures Present(dir, bits, b) && SlotIndex(b, bits) < |dir[SegmentIndex(b, bits)].value|
    ensures Bucket(dir, bits, b) == ChainAt(dir, bits, b)
    ensures Chain(ChainAt(dir, bits, b)) && BucketOk(Items(ChainAt(dir, bits, b)), b, a, m)
  {
    SlotInRange(b, bits);
    hide BucketOk, Chain, Items, SlotIndex, SegmentIndex;
  }

  // ------------------------------------------------------------------ clumps in use

  /** The clumps of the first n buckets, with multiplicity. */
  ghost function ClumpsOf(dir: Directory, bits: nat, n: nat): multiset<Location> {
    if n == 0 then multiset{} else ClumpsOf(dir, bits, n - 1) + Places(ChainAt(dir, bits, n - 1))
  }

  lemma {:induction false} SameClumps(dir: Directory, dir': Directory, bits: nat, n: nat)
    requires forall b: nat :: b < n ==> ChainAt(dir', bits, b) == ChainAt(dir, bits, b)
    ensures ClumpsOf(dir', bits, n) == ClumpsOf(dir, bits, n)
  {
    if n > 0 { SameClumps(dir, dir', bits, n - 1); }
  }

  /** Exchanging one bucket's chain exchanges its clumps. */
  lemma {:induction false} ExchangedClumps(dir: Directory, dir': Directory, bits: nat, n: nat, k: nat)
    requires k < n
    requires forall b: nat :: b < n && b != k ==> ChainAt(dir', bits, b) == ChainAt(dir, bits, b)
    ensures ClumpsOf(dir', bits, n) + Places(ChainAt(dir, bits, k))
         == ClumpsOf(dir, bits, n) + Places(ChainAt(dir', bits, k))
    ensures Places(ChainAt(dir, bits, k)) <= ClumpsOf(dir, bits, n)
  {
    hide ChainAt, Places;
    if k == n - 1 {
      SameClumps(dir, dir', bits, n - 1);
    } else {
      ExchangedClumps(dir, dir', bits, n - 1, k);
      Exchange(ClumpsOf(dir', bits, n - 1), ClumpsOf(dir, bits, n - 1),
               Places(ChainAt(dir, bits, k)), Places(ChainAt(dir', bits, k)), Places(ChainAt(dir, bits, n - 1)));
    }
  }

  lemma Exchange(x: multiset<Location>, y: multiset<Location>, p: multiset<Location>, q: multiset<Location>, r: multiset<Location>)
    requires x + p == y + q && p <= y
    ensures (x + r) + p == (y + r) + q && p <= y + r
  {
    assert (x + r) + p == (x + p) + r;
    assert (y + r) + q == (y + q) + r;
  }

  // ------------------------------------------------------------------ one bucket changes

  /** A new chain for one bucket, exact for the new map; the others are exact for it too. */
  lemma ChangedBucket(a: Addr, dir: Directory, bits: nat, m: Map, b: nat, chain: seq<Clump>, m': Map)
    requires Exact(a, dir, bits, m) && b < a.active
    requires Chain(chain) && BucketOk(Items(chain), b, a, m')
    requires forall k: nat :: k < a.active && k != b ==> BucketOk(Items(ChainAt(dir, bits, k)), k, a, m')
    ensures Present(dir, bits, b) && SlotIndex(b, bits) < |dir[SegmentIndex(b, bits)].value|
    ensures Exact(a, SetBucket(dir, bits, b, chain), bits, m')
    ensures ClumpsOf(SetBucket(dir, bits, b, chain), bits, a.active) + Places(ChainAt(dir, bits, b))
         == ClumpsOf(dir, bits, a.active) + Places(chain)
  {
    hide *;
    ShapeFacts(a, dir, bits, m);
    StoredChain(dir, bits, a.active, b, chain);
    var dir' := SetBucket(dir, bits, b, chain);
    ExchangedClumps(dir, dir', bits, a.active, b);
    ChangedBuckets(a, dir, dir', bits, m, b, chain, m');
    MakeExact(a, dir', bits, m');
  }

  lemma ChangedBuckets(a: Addr, dir: Directory, dir': Directory, bits: nat, m: Map, b: nat, chain: seq<Clump>, m': Map)
    requires Exact(a, dir, bits, m) && b < a.active
    requires Chain(chain) && BucketOk(Items(chain), b, a, m')
    requires forall k: nat :: k < a.active && k != b ==> BucketOk(Items(ChainAt(dir, bits, k)), k, a, m')
    requires forall k: nat :: ChainAt(dir', bits, k) == if k == b then chain else ChainAt(dir, bits, k)
    ensures AllBuckets(a, dir', bits, m')
  {
    hide ChainAt, BucketOk, Chain, Items, Addr.WellFormed, Shape;
  }

  lemma MakeExact(a: Addr, dir: Directory, bits: nat, m: Map)
    requires a.WellFormed() && Pow2(bits) <= a.active < MAX_DIRSIZE * Pow2(bits)
    requires SegBits(bits) && Sized(dir, bits) && DirSize(|dir|)
    requires Covers(dir, bits, a.active) && EmptyFrom(dir, bits, a.active)
    requires AllBuckets(a, dir, bits, m)
    ensures Exact(a, dir, bits, m)
  {
    hide Addr.WellFormed, Sized, DirSize, Covers, EmptyFrom, AllBuckets, SegBits;
  }

  /** The other buckets, when only key c0's entry changes. */
  lemma OtherBuckets(a: Addr, dir: Directory, bits: nat, m: Map, b: nat, c0: KeyClass, r: Record)
    requires Exact(a, dir, bits, m) && a.BucketAddress(c0.sig) == b
    ensures forall k: nat :: k < a.active && k != b ==> BucketOk(Items(ChainAt(dir, bits, k)), k, a, m[c0 := r])
    ensures forall k: nat :: k < a.active && k != b ==> BucketOk(Items(ChainAt(dir, bits, k)), k, a, m - {c0})
  {
    hide ChainAt, BucketOk, Chain, Items, Addr.WellFormed, Shape, Addr.BucketAddress;
    forall k: nat | k < a.active && k != b
      ensures BucketOk(Items(ChainAt(dir, bits, k)), k, a, m[c0 := r])
      ensures BucketOk(Items(ChainAt(dir, bits, k)), k, a, m - {c0})
    {
      OtherBucket(Items(ChainAt(dir, bits, k)), k, a, m, c0, r);
    }
  }

  /** The map after an insertion with this outcome. */
  function InsertedMap(m: Map, r: Record, result: Inserted): Map {
    if result.Added? || result.Replaced? then m[r.key.cls := r] else m
  }

  /** An insertion into the record's bucket, by its outcome. */
  lemma InsertedState(a: Addr, dir: Directory, bits: nat, m: Map, b: nat, r: Record, overwrite: bool,
                      result: Inserted, chain: seq<Clump>)
    requires Exact(a, dir, bits, m) && a.BucketAddress(r.key.cls.sig) == b < a.active
    requires Chain(chain)
    requires InsertSpec(Items(ChainAt(dir, bits, b)), NewItem(r), overwrite, result, Items(chain))
    ensures result.Added? || result.AllocFailed? <==> r.key.cls !in m
    ensures result.Replaced? ==> overwrite && m[r.key.cls] == result.prior
    ensures result.KeyExists? ==> !overwrite
    ensures Present(dir, bits, b) && SlotIndex(b, bits) < |dir[SegmentIndex(b, bits)].value|
    ensures Exact(a, SetBucket(dir, bits, b, chain), bits, InsertedMap(m, r, result))
    ensures ClumpsOf(SetBucket(dir, bits, b, chain), bits, a.active) + Places(ChainAt(dir, bits, b))
         == ClumpsOf(dir, bits, a.active) + Places(chain)
  {
    hide *;
    ActiveBucket(a, dir, bits, m, b);
    InsertedItems(Items(ChainAt(dir, bits, b)), b, a, m, r, overwrite, result, Items(chain));
    OtherBuckets(a, dir, bits, m, b, r.key.cls, r);
    UnchangedBuckets(a, dir, bits, m);
    InsertedMapCases(m, r, result);
    ChangedBucket(a, dir, bits, m, b, chain, InsertedMap(m, r, result));
  }

  lemma InsertedMapCases(m: Map, r: Record, result: Inserted)
    ensures InsertedMap(m, r, result) == m[r.key.cls := r] || InsertedMap(m, r, result) == m
  {}

  lemma UnchangedBuckets(a: Addr, dir: Directory, bits: nat, m: Map)
    requires Exact(a, dir, bits, m)
    ensures forall k: nat :: k < a.active ==> BucketOk(Items(ChainAt(dir, bits, k)), k, a, m)
  {
    hide ChainAt, BucketOk, Chain, Items, Addr.WellFormed, Shape;
  }

  lemma InsertedItems(items: seq<Item>, b: nat, a: Addr, m: Map, r: Record, overwrite: bool,
                      result: Inserted, items': seq<Item>)
    requires BucketOk(items, b, a, m) && a.BucketAddress(r.key.cls.sig) == b
    requires InsertSpec(items, NewItem(r), overwrite, result, items')
    ensures result.Added? || result.AllocFailed? <==> r.key.cls !in m
    ensures result.Replaced? ==> overwrite && m[r.key.cls] == result.prior
    ensures result.KeyExists? ==> !overwrite
    ensures BucketOk(items', b, a, InsertedMap(m, r, result))
  {
    ScanFinds(items, b, a, m, r.key);
    if result.Added? {
      InsertedBucket(items, b, a, m, r);
    } else if result.Replaced? {
      ReplacedBucket(items, b, a, m, r, result.pos);
    }
    hide BucketOk, Addr.BucketAddress, NoMatch;
  }

  /** A deletion from a bucket. */
  lemma DeletedState(a: Addr, dir: Directory, bits: nat, m: Map, b: nat, pos: nat, chain: seq<Clump>)
    requires Exact(a, dir, bits, m) && b < a.active && pos < |Items(ChainAt(dir, bits, b))|
    requires Chain(chain) && Items(chain) == SwapRemove(Items(ChainAt(dir, bits, b)), pos)
    ensures Present(dir, bits, b) && SlotIndex(b, bits) < |dir[SegmentIndex(b, bits)].value|
    ensures var r := Items(ChainAt(dir, bits, b))[pos].rec;
      && r.key.cls in m && m[r.key.cls] == r
      && Exact(a, SetBucket(dir, bits, b, chain), bits, m - {r.key.cls})
    ensures ClumpsOf(SetBucket(dir, bits, b, chain), bits, a.active) + Places(ChainAt(dir, bits, b))
         == ClumpsOf(dir, bits, a.active) + Places(chain)
  {
    hide *;
    ActiveBucket(a, dir, bits, m, b);
    var items := Items(ChainAt(dir, bits, b));
    DeletedBucket(items, b, a, m, pos);
    var r := items[pos].rec;
    OtherBuckets(a, dir, bits, m, b, r.key.cls, r);
    ChangedBucket(a, dir, bits, m, b, chain, m - {r.key.cls});
  }

  // ------------------------------------------------------------------ directory changes

  /** A directory with the same chains, the same cover and a proper size. */
  lemma ReshapedState(a: Addr, dir: Directory, dir': Directory, bits: nat, m: Map)
    requires Exact(a, dir, bits, m)
    requires SameChains(dir, dir', bits) && Sized(dir', bits) && DirSize(|dir'|) && Covers(dir', bits, a.active)
    ensures Exact(a, dir', bits, m)
    ensures ClumpsOf(dir', bits, a.active) == ClumpsOf(dir, bits, a.active)
  {
    hide *;
    ShapeFacts(a, dir, bits, m);
    SameBuckets(a, dir, dir', bits, m);
    SameClumps(dir, dir', bits, a.active);
    MakeExact(a, dir', bits, m);
  }

  lemma SameBuckets(a: Addr, dir: Directory, dir': Directory, bits: nat, m: Map)
    requires Exact(a, dir, bits, m) && SameChains(dir, dir', bits)
    ensures AllBuckets(a, dir', bits, m) && EmptyFrom(dir', bits, a.active)
    ensures forall b: nat :: b < a.active ==> ChainAt(dir', bits, b) == ChainAt(dir, bits, b)
  {
    hide ChainAt, BucketOk, Chain, Items, Addr.WellFormed, Present, EmptyChain, Sized, DirSize, Covers;
  }

  /** Doubling a directory that the active buckets fill. */
  lemma DoubledState(a: Addr, dir: Directory, bits: nat, m: Map)
    requires Exact(a, dir, bits, m)
    requires |dir| * Pow2(bits) <= a.active < MAX_DIRSIZE * Pow2(bits) - 1
    ensures |dir| < MAX_DIRSIZE
    ensures Exact(a, Doubled(dir), bits, m)
    ensures ClumpsOf(Doubled(dir), bits, a.active) == ClumpsOf(dir, bits, a.active)
    ensures a.active < |Doubled(dir)| * Pow2(bits)
  {
    hide *;
    ShapeFacts(a, dir, bits, m);
    FewerThanMax(|dir|, Pow2(bits), a.active);
    DoubledSize(|dir|);
    DoublingKeepsChains(dir, bits);
    DoubledLength(dir);
    CoversBy(dir, Doubled(dir), bits, a.active);
    ReshapedState(a, dir, Doubled(dir), bits, m);
    WithinDouble(a, dir, bits, m);
  }

  lemma ShapeFacts(a: Addr, dir: Directory, bits: nat, m: Map)
    requires Exact(a, dir, bits, m)
    ensures Sized(dir, bits) && DirSize(|dir|) && Covers(dir, bits, a.active) && EmptyFrom(dir, bits, a.active)
    ensures a.WellFormed() && Pow2(bits) <= a.active < MAX_DIRSIZE * Pow2(bits)
    ensures MIN_DIRSIZE <= |dir| <= MAX_DIRSIZE && SegBits(bits)
  {
    hide ChainAt, BucketOk, Chain, Items, Addr.WellFormed, Present, EmptyChain, Sized, AllBuckets, Covers, EmptyFrom, SegBits;
  }

  lemma DoubledLength(dir: Directory)
    ensures |Doubled(dir)| == 2 * |dir|
  {}

  lemma CoversBy(dir: Directory, dir': Directory, bits: nat, n: nat)
    requires Covers(dir, bits, n) && forall b: nat :: Present(dir, bits, b) ==> Present(dir', bits, b)
    ensures Covers(dir', bits, n)
  {}

  /** The active buckets have segments, so they never outnumber the directory's buckets. */
  lemma WithinDirectory(a: Addr, dir: Directory, bits: nat, m: Map)
    requires Exact(a, dir, bits, m)
    ensures a.active <= |dir| * Pow2(bits)
  {
    hide *;
    ShapeFacts(a, dir, bits, m);
    LastPresent(a.active, dir, bits);
    ShiftBelow(a.active - 1, |dir|, bits);
  }

  lemma LastPresent(n: nat, dir: Directory, bits: nat)
    requires Covers(dir, bits, n) && n >= Pow2(bits)
    ensures n >= 1 && ShiftRight(n - 1, bits) < |dir|
  {
    assert Present(dir, bits, n - 1);
  }

  lemma WithinDouble(a: Addr, dir: Directory, bits: nat, m: Map)
    requires Exact(a, dir, bits, m)
    ensures a.active < |Doubled(dir)| * Pow2(bits)
  {
    WithinDirectory(a, dir, bits, m);
    hide *;
    ShapeFacts(a, dir, bits, m);
    DoubledLength(dir);
    TwiceMore(|dir|, Pow2(bits));
  }

  lemma TwiceMore(n: nat, p: nat)
    requires n > 0 && p > 0
    ensures n * p < (2 * n) * p
  {
    assert (2 * n) * p == 2 * (n * p);
  }

  /** Allocating the segment of the bucket about to be activated. */
  lemma AddedSegmentState(a: Addr, dir: Directory, bits: nat, m: Map)
    requires Exact(a, dir, bits, m) && a.active < |dir| * Pow2(bits)
    ensures SegmentIndex(a.active, bits) < |dir|
    ensures !Present(dir, bits, a.active) ==>
      var dir' := SetSegment(dir, bits, a.active, Some(NewSegment(bits)));
      && Exact(a, dir', bits, m) && Present(dir', bits, a.active)
      && ClumpsOf(dir', bits, a.active) == ClumpsOf(dir, bits, a.active)
      && |dir'| == |dir|
  {
    hide *;
    ShiftSegment(a.active, |dir|, bits);
    ShapeFacts(a, dir, bits, m);
    if !Present(dir, bits, a.active) {
      var dir' := SetSegment(dir, bits, a.active, Some(NewSegment(bits)));
      NewSegmentKeepsChains(dir, bits, a.active);
      SetSegmentLength(dir, bits, a.active, Some(NewSegment(bits)));
      CoversBy(dir, dir', bits, a.active);
      ReshapedState(a, dir, dir', bits, m);
    }
  }

  lemma ShiftSegment(b: nat, n: nat, bits: nat)
    ensures b < n * Pow2(bits) <==> SegmentIndex(b, bits) < n
  {
    ShiftBelow(b, n, bits);
    hide Pow2, ShiftRight;
  }

  lemma SetSegmentLength(dir: Directory, bits: nat, address: nat, seg: Option<Segment>)
    requires SegmentIndex(address, bits) < |dir|
    ensures |SetSegment(dir, bits, address, seg)| == |dir|
  {}

  // ------------------------------------------------------------------ expansion

  /** Both buckets rewritten by a split: the table is exact for the expanded address. */
  lemma SplitState(a: Addr, dir: Directory, bits: nat, m: Map, o: seq<Clump>, n: seq<Clump>)
    requires Exact(a, dir, bits, m) && a.active < MAX_DIRSIZE * Pow2(bits) - 1 && Present(dir, bits, a.active)
    requires var items := Items(ChainAt(dir, bits, a.expansionIdx));
      var e := Expanded(a);
      && Chain(o) && Items(o) == Staying(items, e.expansionIdx, e.mask0, a.active)
      && Chain(n) && Items(n) == Moving(items, e.expansionIdx, e.mask0, a.active)
    ensures Present(dir, bits, a.expansionIdx)
    ensures SlotIndex(a.expansionIdx, bits) < |dir[SegmentIndex(a.expansionIdx, bits)].value|
    ensures var dir1 := SetBucket(dir, bits, a.expansionIdx, o);
      && Present(dir1, bits, a.active)
      && SlotIndex(a.active, bits) < |dir1[SegmentIndex(a.active, bits)].value|
      && Exact(Expanded(a), SetBucket(dir1, bits, a.active, n), bits, m)
      && ClumpsOf(SetBucket(dir1, bits, a.active, n), bits, a.active + 1) + Places(ChainAt(dir, bits, a.expansionIdx))
         == ClumpsOf(dir, bits, a.active) + Places(o) + Places(n)
  {
    hide *;
    LevelBound(a, dir, bits, m);
    ShapeFacts(a, dir, bits, m);
    ExpandedWellFormed(a);
    ReAddressed(a, Expanded(a), 0);
    ActiveBucket(a, dir, bits, m, a.expansionIdx);
    SplitBucket(Items(ChainAt(dir, bits, a.expansionIdx)), a, Expanded(a), m);
    UnsplitBuckets(a, dir, bits, m);
    TwoStored(dir, bits, a.active, a.expansionIdx, o, n);
    var dir2 := SetBucket(SetBucket(dir, bits, a.expansionIdx, o), bits, a.active, n);
    SplitExact(a, dir, dir2, bits, m, o, n);
  }

  lemma SplitExact(a: Addr, dir: Directory, dir2: Directory, bits: nat, m: Map, o: seq<Clump>, n: seq<Clump>)
    requires Exact(a, dir, bits, m) && a.active < MAX_DIRSIZE * Pow2(bits) - 1
    requires Expanded(a).WellFormed() && Expanded(a).active == a.active + 1
    requires Chain(o) && Chain(n)
    requires BucketOk(Items(o), a.expansionIdx, Expanded(a), m) && BucketOk(Items(n), a.active, Expanded(a), m)
    requires forall b: nat :: b < a.active && b != a.expansionIdx ==>
      BucketOk(Items(ChainAt(dir, bits, b)), b, Expanded(a), m)
    requires |dir2| == |dir| && Sized(dir2, bits) && Covers(dir2, bits, a.active + 1) && EmptyFrom(dir2, bits, a.active + 1)
    requires forall b: nat ::
      ChainAt(dir2, bits, b) == if b == a.active then n else if b == a.expansionIdx then o else ChainAt(dir, bits, b)
    ensures Exact(Expanded(a), dir2, bits, m)
  {
    hide *;
    ShapeFacts(a, dir, bits, m);
    SplitChains(a, dir, dir2, bits, m, o, n);
    MakeExact(Expanded(a), dir2, bits, m);
  }

  lemma SplitChains(a: Addr, dir: Directory, dir2: Directory, bits: nat, m: Map, o: seq<Clump>, n: seq<Clump>)
    requires Exact(a, dir, bits, m) && Expanded(a).active == a.active + 1
    requires Chain(o) && Chain(n)
    requires BucketOk(Items(o), a.expansionIdx, Expanded(a), m) && BucketOk(Items(n), a.active, Expanded(a), m)
    requires forall b: nat :: b < a.active && b != a.expansionIdx ==>
      BucketOk(Items(ChainAt(dir, bits, b)), b, Expanded(a), m)
    requires forall b: nat ::
      ChainAt(dir2, bits, b) == if b == a.active then n else if b == a.expansionIdx then o else ChainAt(dir, bits, b)
    ensures AllBuckets(Expanded(a), dir2, bits, m)
  {
    hide ChainAt, BucketOk, Chain, Items, Addr.WellFormed, Shape, Expanded;
  }

  lemma UnsplitBuckets(a: Addr, dir: Directory, bits: nat, m: Map)
    requires Exact(a, dir, bits, m) && a.level < 29
    ensures forall b: nat :: b < a.active && b != a.expansionIdx ==>
      BucketOk(Items(ChainAt(dir, bits, b)), b, Expanded(a), m)
  {
    hide ChainAt, BucketOk, Chain, Items, Addr.WellFormed, Shape, Expanded;
    forall b: nat | b < a.active && b != a.expansionIdx
      ensures BucketOk(Items(ChainAt(dir, bits, b)), b, Expanded(a), m)
    {
      UnsplitBucket(Items(ChainAt(dir, bits, b)), b, a, Expanded(a), m);
    }
  }

  /** Storing chains in an active bucket k and in the bucket n that is being activated. */
  lemma TwoStored(dir: Directory, bits: nat, n: nat, k: nat, o: seq<Clump>, c: seq<Clump>)
    requires Sized(dir, bits) && Covers(dir, bits, n) && EmptyFrom(dir, bits, n) && k < n && Present(dir, bits, n)
    ensures Present(dir, bits, k) && SlotIndex(k, bits) < |dir[SegmentIndex(k, bits)].value|
    ensures var dir1 := SetBucket(dir, bits, k, o);
      && Present(dir1, bits, n) && SlotIndex(n, bits) < |dir1[SegmentIndex(n, bits)].value|
      && var dir2 := SetBucket(dir1, bits, n, c);
      && |dir2| == |dir| && Sized(dir2, bits) && Covers(dir2, bits, n + 1) && EmptyFrom(dir2, bits, n + 1)
      && (forall b: nat :: ChainAt(dir2, bits, b) == if b == n then c else if b == k then o else ChainAt(dir, bits, b))
      && ClumpsOf(dir2, bits, n + 1) + Places(ChainAt(dir, bits, k)) == ClumpsOf(dir, bits, n) + Places(o) + Places(c)
  {
    hide *;
    CoversOneMore(dir, bits, n);
    StoredChain(dir, bits, n + 1, k, o);
    var dir1 := SetBucket(dir, bits, k, o);
    StoredChain(dir1, bits, n + 1, n, c);
    var dir2 := SetBucket(dir1, bits, n, c);
    ExchangedClumps(dir, dir2, bits, n, k);
    ClumpsSnoc(dir2, bits, n);
    var x, y := ClumpsOf(dir2, bits, n), Places(ChainAt(dir, bits, k));
    assert (x + Places(c)) + y == (x + y) + Places(c);
  }

  lemma ClumpsSnoc(dir: Directory, bits: nat, n: nat)
    ensures ClumpsOf(dir, bits, n + 1) == ClumpsOf(dir, bits, n) + Places(ChainAt(dir, bits, n))
  {}

  lemma CoversOneMore(dir: Directory, bits: nat, n: nat)
    requires Covers(dir, bits, n) && EmptyFrom(dir, bits, n) && Present(dir, bits, n)
    ensures Covers(dir, bits, n + 1) && EmptyFrom(dir, bits, n + 1)
  {}

  // ------------------------------------------------------------------ contraction

  /** The last active bucket has been emptied: the directory serves one bucket less. */
  lemma VacatedLast(a: Addr, dir: Directory, bits: nat, m: Map)
    requires Exact(a, dir, bits, m) && a.active > 1
    ensures Present(dir, bits, a.active - 1)
    ensures SlotIndex(a.active - 1, bits) < |dir[SegmentIndex(a.active - 1, bits)].value|
    ensures Vacated(a, dir, SetBucket(dir, bits, a.active - 1, EmptyChain()), bits)
    ensures |SetBucket(dir, bits, a.active - 1, EmptyChain())| == |dir|
  {
    hide *;
    ShapeFacts(a, dir, bits, m);
    StoredChain(dir, bits, a.active, a.active - 1, EmptyChain());
    OneLess(a, dir, SetBucket(dir, bits, a.active - 1, EmptyChain()), bits);
  }

  /** All chains but the last active bucket's are those of `dir`; that one is empty. */
  ghost predicate Vacated(a: Addr, dir: Directory, dir1: Directory, bits: nat) {
    && a.active > 1
    && Sized(dir1, bits) && DirSize(|dir1|)
    && Covers(dir1, bits, a.active - 1) && EmptyFrom(dir1, bits, a.active - 1)
    && (forall b: nat :: b < a.active - 1 ==> ChainAt(dir1, bits, b) == ChainAt(dir, bits, b))
  }

  lemma OneLess(a: Addr, dir: Directory, dir1: Directory, bits: nat)
    requires a.active > 1 && Sized(dir1, bits) && DirSize(|dir1|)
    requires Covers(dir1, bits, a.active) && EmptyFrom(dir1, bits, a.active)
    requires forall b: nat :: ChainAt(dir1, bits, b) == if b == a.active - 1 then EmptyChain() else ChainAt(dir, bits, b)
    ensures Vacated(a, dir, dir1, bits)
  {
    hide ChainAt, EmptyChain, Present, Sized, DirSize;
  }

  /** Freeing the segment of the vacated bucket when it was the segment's first. */
  lemma VacatedSegment(a: Addr, dir: Directory, dir1: Directory, bits: nat)
    requires Vacated(a, dir, dir1, bits) && SlotIndex(a.active - 1, bits) == 0
    requires SegmentIndex(a.active - 1, bits) < |dir1|
    ensures Vacated(a, dir, SetSegment(dir1, bits, a.active - 1, None), bits)
    ensures |SetSegment(dir1, bits, a.active - 1, None)| == |dir1|
  {
    hide *;
    VacatedFacts(a, dir, dir1, bits);
    FreedSegmentKeepsChains(dir1, bits, a.active - 1);
    SetSegmentLength(dir1, bits, a.active - 1, None);
    MakeVacated(a, dir, dir1, SetSegment(dir1, bits, a.active - 1, None), bits);
  }

  lemma VacatedFacts(a: Addr, dir: Directory, dir1: Directory, bits: nat)
    requires Vacated(a, dir, dir1, bits)
    ensures a.active > 1 && Sized(dir1, bits) && DirSize(|dir1|)
    ensures Covers(dir1, bits, a.active - 1) && EmptyFrom(dir1, bits, a.active - 1)
    ensures forall b: nat :: b < a.active - 1 ==> ChainAt(dir1, bits, b) == ChainAt(dir, bits, b)
  {}

  lemma MakeVacated(a: Addr, dir: Directory, dir1: Directory, dir2: Directory, bits: nat)
    requires Vacated(a, dir, dir1, bits)
    requires Sized(dir2, bits) && SameChains(dir1, dir2, bits) && Covers(dir2, bits, a.active - 1)
    requires DirSize(|dir2|)
    ensures Vacated(a, dir, dir2, bits)
  {
    hide ChainAt, EmptyChain, Present, Sized, DirSize;
  }

  /** Halving the directory when its lower half spans the remaining buckets. */
  lemma VacatedHalf(a: Addr, dir: Directory, dir1: Directory, bits: nat)
    requires Vacated(a, dir, dir1, bits) && |dir1| > MIN_DIRSIZE
    requires a.active - 1 <= (|dir1| * Pow2(bits)) / 2
    ensures Vacated(a, dir, Halved(dir1), bits)
    ensures |Halved(dir1)| == |dir1| / 2
  {
    hide *;
    VacatedFacts(a, dir, dir1, bits);
    HalvedSize(|dir1|);
    EvenSize(|dir1|);
    HalfProduct(|dir1|, Pow2(bits));
    HalvedLength(dir1);
    HalvingKeepsChains(dir1, bits, a.active - 1);
    MakeVacated(a, dir, dir1, Halved(dir1), bits);
  }

  lemma HalvedLength(dir: Directory)
    ensures |Halved(dir)| == |dir| / 2
  {}

  lemma EvenSize(n: nat)
    requires DirSize(n)
    ensures n % 2 == 0
  {
    var k: nat :| n == Pow2(k);
    assert k > 0;
    assert n == 2 * Pow2(k - 1);
  }

  lemma HalfProduct(n: nat, p: nat)
    requires n % 2 == 0
    ensures (n * p) / 2 == (n / 2) * p
  {
    assert n == 2 * (n / 2);
    assert n * p == 2 * ((n / 2) * p);
  }

  /** The buddy rewritten by a merge: the table is exact for the contracted address. */
  lemma MergedState(a: Addr, dir: Directory, dir1: Directory, bits: nat, m: Map, t: seq<Clump>)
    requires Exact(a, dir, bits, m) && Pow2(bits) < a.active && Vacated(a, dir, dir1, bits)
    requires a.expansionIdx == 0 ==> a.level > 0
    requires Chain(t)
    requires Items(t) == Items(ChainAt(dir, bits, Contracted(a).expansionIdx)) + Items(ChainAt(dir, bits, a.active - 1))
    ensures var k := Contracted(a).expansionIdx;
      && k < a.active - 1
      && Present(dir1, bits, k) && SlotIndex(k, bits) < |dir1[SegmentIndex(k, bits)].value|
      && var dir' := SetBucket(dir1, bits, k, t);
      && Exact(Contracted(a), dir', bits, m)
      && ClumpsOf(dir', bits, a.active - 1) + Places(ChainAt(dir, bits, a.active - 1)) + Places(ChainAt(dir, bits, k))
         == ClumpsOf(dir, bits, a.active) + Places(t)
  {
    hide *;
    ShapeFacts(a, dir, bits, m);
    VacatedFacts(a, dir, dir1, bits);
    ContractedWellFormed(a);
    ReMerged(a, 0);
    var k := Contracted(a).expansionIdx;
    StoredChain(dir1, bits, a.active - 1, k, t);
    var dir' := SetBucket(dir1, bits, k, t);
    ActiveBucket(a, dir, bits, m, k);
    ActiveBucket(a, dir, bits, m, a.active - 1);
    MergedBucket(Items(ChainAt(dir, bits, k)), Items(ChainAt(dir, bits, a.active - 1)), a, Contracted(a), m);
    UnmergedBuckets(a, dir, bits, m);
    MergedChains(a, dir, dir', bits, m, t);
    MakeExact(Contracted(a), dir', bits, m);
    MergedClumps(dir, dir', bits, a.active - 1, k);
  }

  lemma MergedClumps(dir: Directory, dir': Directory, bits: nat, n: nat, k: nat)
    requires k < n
    requires forall b: nat :: b < n && b != k ==> ChainAt(dir', bits, b) == ChainAt(dir, bits, b)
    ensures ClumpsOf(dir', bits, n) + Places(ChainAt(dir, bits, n)) + Places(ChainAt(dir, bits, k))
         == ClumpsOf(dir, bits, n + 1) + Places(ChainAt(dir', bits, k))
  {
    ExchangedClumps(dir, dir', bits, n, k);
    ClumpsSnoc(dir, bits, n);
    hide *;
    Regroup(ClumpsOf(dir', bits, n), Places(ChainAt(dir, bits, n)), Places(ChainAt(dir, bits, k)),
            ClumpsOf(dir, bits, n), Places(ChainAt(dir', bits, k)));
  }

  lemma Regroup(x: multiset<Location>, y: multiset<Location>, z: multiset<Location>,
                u: multiset<Location>, v: multiset<Location>)
    requires x + z == u + v
    ensures x + y + z == u + y + v
  {
    assert x + y + z == (x + z) + y;
    assert u + y + v == (u + v) + y;
  }

  lemma UnmergedBuckets(a: Addr, dir: Directory, bits: nat, m: Map)
    requires Exact(a, dir, bits, m) && a.active > 1 && (a.expansionIdx == 0 ==> a.level > 0)
    ensures forall b: nat :: b < a.active - 1 && b != Contracted(a).expansionIdx ==>
      BucketOk(Items(ChainAt(dir, bits, b)), b, Contracted(a), m)
  {
    hide ChainAt, BucketOk, Chain, Items, Addr.WellFormed, Shape, Contracted;
    forall b: nat | b < a.active - 1 && b != Contracted(a).expansionIdx
      ensures BucketOk(Items(ChainAt(dir, bits, b)), b, Contracted(a), m)
    {
      UnmergedBucket(Items(ChainAt(dir, bits, b)), b, a, Contracted(a), m);
    }
  }

  lemma MergedChains(a: Addr, dir: Directory, dir': Directory, bits: nat, m: Map, t: seq<Clump>)
    requires a.expansionIdx == 0 ==> a.level > 0
    requires Exact(a, dir, bits, m) && a.active > 1 && Contracted(a).active == a.active - 1
    requires Chain(t) && BucketOk(Items(t), Contracted(a).expansionIdx, Contracted(a), m)
    requires forall b: nat :: b < a.active - 1 && b != Contracted(a).expansionIdx ==>
      BucketOk(Items(ChainAt(dir, bits, b)), b, Contracted(a), m)
    requires forall b: nat :: b < a.active - 1 ==>
      ChainAt(dir', bits, b) == if b == Contracted(a).expansionIdx then t else ChainAt(dir, bits, b)
    ensures AllBuckets(Contracted(a), dir', bits, m)
  {
    hide ChainAt, BucketOk, Chain, Items, Addr.WellFormed, Shape, Contracted;
  }

  // ------------------------------------------------------------------ an empty table

  /** A directory whose first segments are new holds no records. */
  lemma FreshState(a: Addr, dir: Directory, bits: nat)
    requires a.WellFormed() && Pow2(bits) <= a.active < MAX_DIRSIZE * Pow2(bits)
    requires SegBits(bits) && DirSize(|dir|)
    requires a.active <= InitialSegments(bits, a.active) * Pow2(bits) && InitialSegments(bits, a.active) <= |dir|
    requires forall s :: 0 <= s < |dir| ==>
      dir[s] == if s < InitialSegments(bits, a.active) then Some(NewSegment(bits)) else None
    ensures Exact(a, dir, bits, map[])
    ensures forall b: nat :: ChainAt(dir, bits, b) == EmptyChain()
  {
    hide *;
    NewSegmentSize(bits);
    FreshChains(dir, bits, InitialSegments(bits, a.active), a.active);
    FreshBuckets(a, dir, bits);
    MakeExact(a, dir, bits, map[]);
  }

  lemma NewSegmentSize(bits: nat)
    ensures |NewSegment(bits)| == Pow2(bits)
  {}

  lemma FreshChains(dir: Directory, bits: nat, segments: nat, n: nat)
    requires n <= segments * Pow2(bits) && segments <= |dir|
    requires forall s :: 0 <= s < |dir| ==> dir[s] == if s < segments then Some(NewSegment(bits)) else None
    ensures Sized(dir, bits) && Covers(dir, bits, n) && EmptyFrom(dir, bits, n)
    ensures forall b: nat :: ChainAt(dir, bits, b) == EmptyChain()
  {
    forall b: nat
      ensures ChainAt(dir, bits, b) == EmptyChain()
      ensures b < n ==> Present(dir, bits, b)
    {
      SlotInRange(b, bits);
      if b < n { WithinSegments(b, n, segments, bits); }
    }
  }

  lemma FreshBuckets(a: Addr, dir: Directory, bits: nat)
    requires forall b: nat :: ChainAt(dir, bits, b) == EmptyChain()
    ensures AllBuckets(a, dir, bits, map[])
  {
    EmptyChainIsChain();
    hide ChainAt, Chain, Items, Addr.BucketAddress, EmptyChain;
  }
}
