/** Setting up a table's first segments, and emptying a table. */
module TableResets {
  import opened Bits
  import opened Records
  import opened Clumps
  import opened Placing
  import opened Addressing
  import opened Directories
  import opened Contents
  import opened TableStates
  import opened References
  import opened BucketSteps
  import opened Relocations
  import opened Purging
  import opened TableSweeps

  /** The clumps embedded in n buckets. */
  ghost function Inlines(n: nat): multiset<Location> {
    multiset{}[Inline := n]
  }

  lemma OneMoreInline(n: nat)
    ensures Inlines(n + 1) == Inlines(n) + multiset{Inline} && Inlines(0) == multiset{}
  {}

  // ------------------------------------------------------------------ set-up

  /** An initial size that the directory it gets can span. */
  ghost predicate InitialSize(bits: nat, buckets: nat) {
    && SegBits(bits) && Pow2(bits) <= buckets < MAX_DIRSIZE * Pow2(bits)
    && (SlotIndex(buckets, bits) == 0 || !DirSize(ShiftRight(buckets, bits)))
  }

  /** The preset sizes are such: 8, 128 and 2048 buckets in segments of 8, 64 and 512. */
  lemma PresetSizes()
    ensures InitialSize(3, 8) && InitialSize(6, 128) && InitialSize(9, 2048)
  {
    assert Pow2(3) == 8;
    assert Pow2(6) == 64;
    assert Pow2(9) == 512;
    SlotInRange(8, 3);
    SlotInRange(128, 6);
    SlotInRange(2048, 9);
  }

  /** A directory with its first segments allocated; one failure gives all of them up. */
  method NewDirectory(bits: nat, segments: nat, size: nat, heap: nat -> Option<nat>, requests: nat)
    returns (ok: bool, dir: Directory, requests': nat)
    requires segments <= size
    ensures requests' >= requests
    ensures ok ==> |dir| == size
    ensures ok ==> forall s :: 0 <= s < size ==> dir[s] == if s < segments then Some(NewSegment(bits)) else None
    ensures !ok ==> dir == [] && RequestFailed(heap, requests, requests')
  {
    hide *;
    requests' := requests + 1;
    if heap(requests).None? {
      Failed(heap, requests);
      return false, [], requests';
    }
    dir := seq(size, i => None);
    for i := 0 to segments
      invariant requests' > requests && |dir| == size
      invariant forall s :: 0 <= s < size ==> dir[s] == if s < i then Some(NewSegment(bits)) else None
    {
      requests' := requests' + 1;
      if heap(requests' - 1).None? {
        Failed(heap, requests' - 1);
        FailedLater(heap, requests, requests' - 1, requests');
        return false, [], requests';
      }
      dir := dir[i := Some(NewSegment(bits))];
    }
    ok := true;
  }

  /** Address variables and directory for an initial number of buckets. */
  method SetUp(bits: nat, buckets: nat, heap: nat -> Option<nat>, requests: nat)
    returns (ok: bool, a: Addr, dir: Directory, requests': nat)
    requires InitialSize(bits, buckets)
    ensures requests' >= requests
    ensures ok ==> Exact(a, dir, bits, map[]) && a.active == buckets
    ensures ok ==> ClumpsOf(dir, bits, buckets) == Inlines(buckets)
    ensures ok ==> Spares(dir, bits, buckets) == {} && |Held(dir)| == InitialSegments(bits, buckets)
    ensures !ok ==> dir == [] && RequestFailed(heap, requests, requests')
  {
    hide *;
    SizeFacts(bits, buckets);
    a := InitialAddr(bits, buckets);
    var size := InitialDirSize(bits, buckets);
    var segments := InitialSegments(bits, buckets);
    ok, dir, requests' := NewDirectory(bits, segments, size, heap, requests);
    if ok {
      FreshState(a, dir, bits);
      FreshClumps(dir, bits, buckets);
      FreshHeld(dir, bits, buckets);
    }
  }

  lemma FreshHeld(dir: Directory, bits: nat, n: nat)
    requires InitialSegments(bits, n) <= |dir|
    requires forall s :: 0 <= s < |dir| ==> dir[s] == if s < InitialSegments(bits, n) then Some(NewSegment(bits)) else None
    ensures Spares(dir, bits, n) == {} && |Held(dir)| == InitialSegments(bits, n)
  {
    hide InitialSegments, NewSegment;
    assert Held(dir) == Below(InitialSegments(bits, n));
  }

  lemma SizeFacts(bits: nat, buckets: nat)
    requires InitialSize(bits, buckets)
    ensures SegBits(bits) && Pow2(bits) <= buckets < Pow2(30) && buckets < MAX_DIRSIZE * Pow2(bits)
    ensures ShiftRight(buckets, bits) <= MAX_DIRSIZE
    ensures SlotIndex(buckets, bits) == 0 || !DirSize(ShiftRight(buckets, bits))
    ensures buckets <= InitialSegments(bits, buckets) * Pow2(bits)
  {
    MaxDirSize();
    Pow2Add(20, bits);
    Pow2Monotone(20 + bits, 30);
    ShiftBelow(buckets, MAX_DIRSIZE, bits);
    hide Pow2, ShiftRight, SlotIndex, DirSize;
    SegmentsSpan(bits, buckets);
  }

  lemma SegmentsSpan(bits: nat, n: nat)
    ensures n <= InitialSegments(bits, n) * Pow2(bits)
  {
    SegmentsBelow(bits, n, InitialSegments(bits, n) + 1);
    hide *;
    Successor(InitialSegments(bits, n), Pow2(bits));
  }

  lemma {:induction false} FreshClumps(dir: Directory, bits: nat, n: nat)
    requires forall b: nat :: ChainAt(dir, bits, b) == EmptyChain()
    ensures ClumpsOf(dir, bits, n) == Inlines(n)
  {
    hide ChainAt, EmptyChain, Places, Inlines;
    EmptyChainOne();
    OneMoreInline(if n > 0 then n - 1 else 0);
    if n > 0 {
      FreshClumps(dir, bits, n - 1);
    }
  }

  // ------------------------------------------------------------------ emptying

  /** Release the records of a chain and free its clumps, the first one excepted. */
  method ReleaseChain(cs: seq<Clump>) returns (calls: seq<RefCall>, count: nat, freed: seq<Clump>)
    requires Chain(cs)
    ensures calls == Releases(Items(cs)) && count == |Items(cs)| && freed == cs[1..]
  {
    hide *;
    calls, count, freed := [], 0, [];
    var k := 0;
    ReleaseStart(cs);
    while k < |cs|
      invariant k <= |cs| && calls == Releases(Items(cs[..k])) && count == |Items(cs[..k])|
      invariant freed == if k == 0 then [] else cs[1..k]
    {
      var i := 0;
      ghost var before, n := calls, count;
      RowStart(cs, k, calls);
      while i < NODES_PER_CLUMP
        invariant i <= |Row(cs[k].slots)| && |Row(cs[k].slots)| <= NODES_PER_CLUMP
        invariant calls == before + Releases(Row(cs[k].slots)[..i]) && count == n + i
      {
        SlotOfRow(cs, k, i);
        if cs[k].slots[i].None? {
          break;
        }
        ReleaseStep(before, Row(cs[k].slots), i);
        calls := calls + [RefCall(cs[k].slots[i].value.rec, -1)];
        count := count + 1;
        i := i + 1;
      }
      RowDone(cs, k, i);
      if k != 0 {
        freed := freed + [cs[k]];
      }
      k := k + 1;
    }
    assert cs[..|cs|] == cs;
    NonEmpty(cs);
  }

  lemma NonEmpty(cs: seq<Clump>)
    requires Chain(cs)
    ensures cs != []
  {}

  lemma ReleaseStart(cs: seq<Clump>)
    ensures Items(cs[..0]) == [] && Releases(Items(cs[..0])) == []
  {}

  lemma RowStart(cs: seq<Clump>, k: nat, calls: seq<RefCall>)
    requires Chain(cs) && k < |cs|
    ensures |Row(cs[k].slots)| <= NODES_PER_CLUMP
    ensures calls == calls + Releases(Row(cs[k].slots)[..0])
  {}

  lemma SlotOfRow(cs: seq<Clump>, k: nat, i: nat)
    requires Chain(cs) && k < |cs| && i < NODES_PER_CLUMP
    ensures i < |cs[k].slots|
    ensures cs[k].slots[i].Some? <==> i < |Row(cs[k].slots)|
    ensures i < |Row(cs[k].slots)| ==> cs[k].slots[i].value == Row(cs[k].slots)[i]
  {
    CompactRow(cs[k].slots);
    hide Row;
  }

  lemma ReleaseStep(before: seq<RefCall>, row: seq<Item>, i: nat)
    requires i < |row|
    ensures before + Releases(row[..i + 1]) == before + Releases(row[..i]) + [RefCall(row[i].rec, -1)]
  {
    assert row[..i + 1][..i] == row[..i];
    LastRelease(before, row[..i + 1]);
  }

  lemma RowDone(cs: seq<Clump>, k: nat, i: nat)
    requires Chain(cs) && k < |cs| && i <= |Row(cs[k].slots)|
    requires i >= NODES_PER_CLUMP || i >= |Row(cs[k].slots)|
    ensures i == |Row(cs[k].slots)|
    ensures Releases(Items(cs[..k])) + Releases(Row(cs[k].slots)[..i]) == Releases(Items(cs[..k + 1]))
    ensures |Items(cs[..k])| + i == |Items(cs[..k + 1])|
  {
    ItemsStep(cs, k);
    ReleasesConcat(Items(cs[..k]), Row(cs[k].slots));
    hide *;
    assert Row(cs[k].slots)[..|Row(cs[k].slots)|] == Row(cs[k].slots);
  }

  /** The first k buckets have been released. */
  ghost predicate ReleasedBelow(a: Addr, dir: Directory, bits: nat, m: Map, gone: seq<Item>, freed: seq<Clump>, k: nat) {
    && AskedBelow(gone, a, m, k)
    && Places(freed) + Inlines(k) == ClumpsOf(dir, bits, k)
  }

  lemma ReleasedNone(a: Addr, dir: Directory, bits: nat, m: Map)
    ensures ReleasedBelow(a, dir, bits, m, [], [], 0)
  {
    hide Addr.BucketAddress, Entry;
  }

  lemma ReleasedNext(a: Addr, dir: Directory, bits: nat, m: Map, gone: seq<Item>, freed: seq<Clump>, k: nat)
    requires Exact(a, dir, bits, m) && k < a.active
    requires ReleasedBelow(a, dir, bits, m, gone, freed, k)
    ensures ChainAt(dir, bits, k) != []
    ensures ReleasedBelow(a, dir, bits, m, gone + Items(ChainAt(dir, bits, k)), freed + ChainAt(dir, bits, k)[1..], k + 1)
  {
    ActiveBucket(a, dir, bits, m, k);
    var chain := ChainAt(dir, bits, k);
    AskedNext(gone, Items(chain), Items(chain), a, m, k);
    ChainNonEmpty(chain);
    ReleasedClumps(dir, bits, freed, k, chain);
    hide *;
    MakeReleased(a, dir, bits, m, gone + Items(chain), freed + chain[1..], k + 1);
  }

  lemma MakeReleased(a: Addr, dir: Directory, bits: nat, m: Map, gone: seq<Item>, freed: seq<Clump>, k: nat)
    requires AskedBelow(gone, a, m, k) && Places(freed) + Inlines(k) == ClumpsOf(dir, bits, k)
    ensures ReleasedBelow(a, dir, bits, m, gone, freed, k)
  {}

  lemma ReleasedClumps(dir: Directory, bits: nat, freed: seq<Clump>, k: nat, chain: seq<Clump>)
    requires Places(freed) + Inlines(k) == ClumpsOf(dir, bits, k)
    requires chain == ChainAt(dir, bits, k) && chain != [] && chain[0].place == Inline
    ensures Places(freed + chain[1..]) + Inlines(k + 1) == ClumpsOf(dir, bits, k + 1)
  {
    hide *;
    ClumpsSnoc(dir, bits, k);
    PlacesConcat(freed, chain[1..]);
    PlacesFirst(chain);
    OneMoreInline(k);
    FourParts(Places(freed), Inlines(k), Places(chain[1..]), multiset{Inline});
  }

  lemma FourParts<T>(a: multiset<T>, b: multiset<T>, c: multiset<T>, d: multiset<T>)
    ensures (a + c) + (b + d) == (a + b) + (d + c)
  {}

  /** Release the records of all buckets and free their clumps. */
  method ReleaseBuckets(a: Addr, dir: Directory, bits: nat, ghost m: Map)
    returns (calls: seq<RefCall>, count: nat, freed: seq<Clump>, ghost gone: seq<Item>)
    requires Exact(a, dir, bits, m)
    ensures calls == Releases(gone) && AskedAll(gone, m) && count == |gone|
    ensures Places(freed) + Inlines(a.active) == ClumpsOf(dir, bits, a.active)
  {
    hide *;
    calls, count, freed, gone := [], 0, [], [];
    NothingGone([], m);
    ReleasedNone(a, dir, bits, m);
    var k := 0;
    while k < a.active
      invariant k <= a.active && calls == Releases(gone) && count == |gone|
      invariant ReleasedBelow(a, dir, bits, m, gone, freed, k)
    {
      ActiveBucket(a, dir, bits, m, k);
      var chain := Bucket(dir, bits, k);
      ReleasedNext(a, dir, bits, m, gone, freed, k);
      var c, n, f := ReleaseChain(chain);
      ReleasesConcat(gone, Items(chain));
      calls, count, freed := calls + c, count + n, freed + f;
      gone := gone + Items(chain);
      k := k + 1;
    }
    ReleasedAll(a, dir, bits, m, gone, freed);
  }

  /**
    Free the segments of the active buckets, in steps of one segment's buckets. The spare ones
    are not among them.
   */
  method FreeSegments(dir: Directory, bits: nat, active: nat) returns (dir': Directory, count: nat)
    requires Covers(dir, bits, active)
    ensures Held(dir') == Spares(dir, bits, active)
    ensures count == InitialSegments(bits, active)
  {
    hide *;
    dir', count := dir, 0;
    var iSeg := 0;
    FreedNone(dir, bits);
    while iSeg < active
      invariant iSeg == count * Pow2(bits) && |dir'| == |dir|
      invariant Held(dir') == HeldFrom(dir, count) && count <= InitialSegments(bits, active)
      decreases active - iSeg
    {
      FreedNext(dir, bits, active, count);
      SetSegmentHeld(dir', bits, iSeg, None);
      dir' := SetSegment(dir', bits, iSeg, None);
      count, iSeg := count + 1, iSeg + Pow2(bits);
    }
    FreedLast(dir, bits, active, count);
  }

  /** The segments held from entry k on. */
  ghost function HeldFrom(dir: Directory, k: nat): set<nat> {
    set g: nat | g in Held(dir) && g >= k
  }

  lemma FreedNone(dir: Directory, bits: nat)
    ensures HeldFrom(dir, 0) == Held(dir) && 0 == 0 * Pow2(bits)
  {
    hide Held, Pow2;
  }

  lemma FreedNext(dir: Directory, bits: nat, active: nat, k: nat)
    requires Covers(dir, bits, active) && k * Pow2(bits) < active
    ensures k * Pow2(bits) >= 0 && SegmentIndex(k * Pow2(bits), bits) == k < |dir|
    ensures HeldFrom(dir, k + 1) == HeldFrom(dir, k) - {k}
    ensures k + 1 <= InitialSegments(bits, active) && (k + 1) * Pow2(bits) == k * Pow2(bits) + Pow2(bits) > k * Pow2(bits)
  {
    StartIndex(k, bits);
    SegmentsBelow(bits, active, k + 1);
    assert Present(dir, bits, k * Pow2(bits));
    hide Held, Pow2, InitialSegments, SegmentIndex;
    Successor(k, Pow2(bits));
  }

  lemma FreedLast(dir: Directory, bits: nat, active: nat, k: nat)
    requires k * Pow2(bits) >= active && k <= InitialSegments(bits, active)
    ensures k == InitialSegments(bits, active) && HeldFrom(dir, k) == Spares(dir, bits, active)
  {
    SegmentsBelow(bits, active, k + 1);
    hide Held, Pow2, InitialSegments;
    Successor(k, Pow2(bits));
  }

  lemma ReleasedAll(a: Addr, dir: Directory, bits: nat, m: Map, gone: seq<Item>, freed: seq<Clump>)
    requires Exact(a, dir, bits, m) && ReleasedBelow(a, dir, bits, m, gone, freed, a.active)
    ensures AskedAll(gone, m) && Places(freed) + Inlines(a.active) == ClumpsOf(dir, bits, a.active)
  {
    hide Exact, ClumpsOf, ChainAt, Places, Inlines, Entry, Addr.BucketAddress;
    forall x ensures multiset(gone)[x] == if Entry(m, x) then 1 else 0 {
      AddressInRange(a, dir, bits, m, x.sig);
    }
  }

  /** With every entry released the references are down to the finds handed out. */
  lemma AllReleased(a: Addr, dir: Directory, bits: nat, log: seq<RefCall>, m: Map, handed: multiset<Record>, gone: seq<Item>)
    requires Exact(a, dir, bits, m) && RefsOk(log, m, handed) && AskedAll(gone, m)
    ensures RefsOk(log + Releases(gone), map[], handed) && |gone| == |m|
  {
    hide *;
    WellKeyed(a, dir, bits, m);
    AllDistinct(gone, m);
    ReleasedRefs(log, m, handed, gone);
    AllKeys(gone, m);
  }

  lemma AllDistinct(gone: seq<Item>, m: Map)
    requires AskedAll(gone, m)
    ensures Distinct(gone) && forall x :: x in gone ==> Holds(m, x.rec)
  {
    hide Distinct;
    forall x | x in gone ensures Entry(m, x) {
      assert x in multiset(gone);
    }
    forall x ensures multiset(gone)[x] <= 1 {}
    CountDistinct(gone);
  }

  lemma AllKeys(gone: seq<Item>, m: Map)
    requires AskedAll(gone, m) && forall c :: c in m ==> m[c].key.cls == c
    ensures m - KeysOf(gone) == map[] && |m - KeysOf(gone)| == 0
  {
    forall c | c in m ensures c in KeysOf(gone) {
      var x := NewItem(m[c]);
      assert Entry(m, x);
      assert multiset(gone)[x] == 1;
      assert x in gone by { assert x in multiset(gone); }
    }
  }

  lemma LedgerFreed(dir: Directory, bits: nat, n: nat, segments: nat)
    requires Covers(dir, bits, n) && |Held(dir)| <= segments
    ensures InitialSegments(bits, n) <= segments
    ensures segments - InitialSegments(bits, n) == Adrift(segments, dir) + |Spares(dir, bits, n)|
  {
    HeldCount(dir, bits, n);
    hide Held, InitialSegments, Spares, Covers;
  }

  /** Release all records, and free the clumps and the segments of the active buckets. */
  method TearDown(a: Addr, dir: Directory, bits: nat, log: seq<RefCall>, cRecords: nat,
                  ghost m: Map, ghost handed: multiset<Record>, ghost segments: nat)
    returns (log': seq<RefCall>, cRecords': nat, ghost segments': nat)
    requires Exact(a, dir, bits, m) && cRecords == |m| && RefsOk(log, m, handed) && |Held(dir)| <= segments
    ensures cRecords' == 0 && RefsOk(log', map[], handed)
    ensures segments' == Adrift(segments, dir) + |Spares(dir, bits, a.active)|
  {
    hide *;
    var calls, count, freed;
    ghost var gone;
    calls, count, freed, gone := ReleaseBuckets(a, dir, bits, m);
    AllReleased(a, dir, bits, log, m, handed, gone);
    log', cRecords' := log + calls, cRecords - count;
    ShapeFacts(a, dir, bits, m);
    var rest, freedSegments := FreeSegments(dir, bits, a.active);
    LedgerFreed(dir, bits, a.active, segments);
    segments' := segments - freedSegments;
  }
}
