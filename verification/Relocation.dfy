/** Growing and shrinking a table by one bucket: directory, segments, clumps and records. */
module Relocations {
  import opened Bits
  import opened Records
  import opened Clumps
  import opened Addressing
  import opened Directories
  import opened Splitting
  import opened Merging
  import opened Contents
  import opened TableStates
  import opened BucketSteps
  import Placing

  /** One of the requests numbered from..to failed. */
  ghost predicate RequestFailed(heap: nat -> Option<nat>, from: nat, to: nat) {
    exists n: nat :: from <= n < to && heap(n).None?
  }

  lemma FailedLater(heap: nat -> Option<nat>, from: nat, mid: nat, to: nat)
    requires from <= mid <= to
    ensures RequestFailed(heap, mid, to) ==> RequestFailed(heap, from, to)
  {}

  lemma FailedEarlier(heap: nat -> Option<nat>, from: nat, mid: nat, to: nat)
    requires from <= mid <= to
    ensures RequestFailed(heap, from, mid) ==> RequestFailed(heap, from, to)
  {}

  lemma Failed(heap: nat -> Option<nat>, n: nat)
    ensures heap(n).None? ==> RequestFailed(heap, n, n + 1)
  {}

  /** The number of requests made, where one is made only when needed. */
  function Asked(needed: bool): nat {
    if needed then 1 else 0
  }

  // ------------------------------------------------------------------ room for one more bucket

  /** How an expansion ends: at the size limit, at the first request refused, or with one bucket more. */
  datatype Growth = AtLimit | NoDirectory | NoSegment | NoClump | Grown

  /** The requests, in order: for a directory if it is full, for a segment, for a clump. */
  ghost function GrowthOf(a: Addr, dir: Directory, bits: nat, heap: nat -> Option<nat>, requests: nat): Growth {
    var full, bare := a.active >= |dir| * Pow2(bits), !Present(dir, bits, a.active);
    if a.active >= MAX_DIRSIZE * Pow2(bits) - 1 then AtLimit
    else if full && heap(requests).None? then NoDirectory
    else if bare && heap(requests + Asked(full)).None? then NoSegment
    else if |ChainAt(dir, bits, a.expansionIdx)| > 1 && heap(requests + Asked(full) + Asked(bare)).None? then NoClump
    else Grown
  }

  /** Double the directory if the active buckets fill it. */
  method GrowDirectory(a: Addr, dir: Directory, bits: nat, heap: nat -> Option<nat>, requests: nat, ghost m: Map)
    returns (ok: bool, dir': Directory, requests': nat)
    requires Exact(a, dir, bits, m) && a.active < MAX_DIRSIZE * Pow2(bits) - 1
    ensures Exact(a, dir', bits, m) && ClumpsOf(dir', bits, a.active) == ClumpsOf(dir, bits, a.active)
    ensures ok ==> a.active < |dir'| * Pow2(bits)
    ensures var full := a.active >= |dir| * Pow2(bits);
      && (ok <==> !full || heap(requests).Some?)
      && dir' == (if full && ok then Doubled(dir) else dir)
      && requests' == requests + Asked(full)
    ensures !ok ==> RequestFailed(heap, requests, requests')
  {
    hide *;
    ok, dir', requests' := true, dir, requests;
    AskedCases();
    if a.active >= |dir| * Pow2(bits) {
      DoubledState(a, dir, bits, m);
      ShapeFacts(a, dir, bits, m);
      // the overflow test of the doubled size never fires
      var doubled := DoubleWord(|dir|);
      DoubledFits(|dir|);
      if doubled < |dir| || doubled < 2 {
        assert false;
      } else {
        requests' := requests + 1;
        if heap(requests).None? {
          Failed(heap, requests);
          ok := false;
        } else {
          dir' := Doubled(dir);
        }
      }
    }
  }

  lemma AskedCases()
    ensures Asked(true) == 1 && Asked(false) == 0
  {}

  /** `n * 2` in 32-bit arithmetic. */
  function DoubleWord(n: nat): nat {
    (n * 2) % WORD_RANGE
  }

  lemma DoubledFits(n: nat)
    requires MIN_DIRSIZE <= n < MAX_DIRSIZE
    ensures DoubleWord(n) == n * 2 >= 16
  {}

  /** Allocate the segment of the next bucket if there is none yet. */
  method NewBucketSegment(a: Addr, dir: Directory, bits: nat, heap: nat -> Option<nat>, requests: nat, ghost m: Map)
    returns (ok: bool, dir': Directory, requests': nat)
    requires Exact(a, dir, bits, m) && a.active < |dir| * Pow2(bits)
    ensures Exact(a, dir', bits, m) && ClumpsOf(dir', bits, a.active) == ClumpsOf(dir, bits, a.active)
    ensures ok ==> Present(dir', bits, a.active)
    ensures var bare := !Present(dir, bits, a.active);
      && (ok <==> !bare || heap(requests).Some?)
      && requests' == requests + Asked(bare)
    ensures Held(dir') == (if ok then Held(dir) + {SegmentIndex(a.active, bits)} else Held(dir)) && |dir'| == |dir|
    ensures ChainAt(dir', bits, a.expansionIdx) == ChainAt(dir, bits, a.expansionIdx)
    ensures !ok ==> RequestFailed(heap, requests, requests')
  {
    hide *;
    LevelBound(a, dir, bits, m);
    ShapeFacts(a, dir, bits, m);
    ExpandedWellFormed(a);
    AddedSegmentState(a, dir, bits, m);
    AskedCases();
    AddedHeld(dir, bits, a.active, a.expansionIdx);
    ok, dir', requests' := true, dir, requests;
    var newBkt := a.NewBucket();
    if !Present(dir, bits, newBkt) {
      requests' := requests + 1;
      if heap(requests).None? {
        Failed(heap, requests);
        ok := false;
      } else {
        dir' := SetSegment(dir, bits, newBkt, Some(NewSegment(bits)));
      }
    }
  }

  lemma AddedHeld(dir: Directory, bits: nat, n: nat, b: nat)
    requires Sized(dir, bits) && SegmentIndex(n, bits) < |dir|
    ensures Present(dir, bits, n) ==> Held(dir) + {SegmentIndex(n, bits)} == Held(dir)
    ensures !Present(dir, bits, n) ==>
      var dir' := SetSegment(dir, bits, n, Some(NewSegment(bits)));
      && Held(dir') == Held(dir) + {SegmentIndex(n, bits)} && |dir'| == |dir|
      && ChainAt(dir', bits, b) == ChainAt(dir, bits, b)
  {
    PresentIsHeld(dir, bits, n);
    SetSegmentHeld(dir, bits, n, Some(NewSegment(bits)));
    if !Present(dir, bits, n) { NewSegmentKeepsChains(dir, bits, n); }
    hide SegmentIndex, NewSegment, Present, Held, ChainAt, SetSegment;
  }

  /** The directory and the segment asked for, in terms of how the expansion ends. */
  lemma RoomMade(a: Addr, dir: Directory, dir1: Directory, dir': Directory, bits: nat, heap: nat -> Option<nat>,
                 requests: nat, ok: bool)
    requires Sized(dir, bits) && a.active < MAX_DIRSIZE * Pow2(bits) - 1
    requires var full := a.active >= |dir| * Pow2(bits);
      && dir1 == (if full then Doubled(dir) else dir)
      && (full ==> heap(requests).Some?)
      && (ok <==> Present(dir1, bits, a.active) || heap(requests + Asked(full)).Some?)
    requires ChainAt(dir', bits, a.expansionIdx) == ChainAt(dir1, bits, a.expansionIdx)
    ensures ChainAt(dir', bits, a.expansionIdx) == ChainAt(dir, bits, a.expansionIdx)
    ensures Held(dir1) == Held(dir) && |dir1| == if a.active >= |dir| * Pow2(bits) then 2 * |dir| else |dir|
    ensures Present(dir1, bits, a.active) <==> Present(dir, bits, a.active)
    ensures var g := GrowthOf(a, dir, bits, heap, requests);
      && (ok <==> g.NoClump? || g.Grown?) && (!ok ==> g.NoSegment?)
      && (ok ==> (g.NoClump? <==>
           && |ChainAt(dir', bits, a.expansionIdx)| > 1
           && heap(requests + Asked(a.active >= |dir| * Pow2(bits)) + Asked(!Present(dir, bits, a.active))).None?))
  {
    DoubledHeld(dir);
    DoublingKeepsChains(dir, bits);
    PresentIsHeld(dir, bits, a.active);
    PresentIsHeld(dir1, bits, a.active);
    hide Pow2, SegmentIndex, Doubled, Held, ChainAt, Present, Asked;
  }

  lemma NoDirectoryGiven(a: Addr, dir: Directory, bits: nat, heap: nat -> Option<nat>, requests: nat)
    requires |dir| * Pow2(bits) <= a.active < MAX_DIRSIZE * Pow2(bits) - 1 && heap(requests).None?
    ensures GrowthOf(a, dir, bits, heap, requests) == NoDirectory
  {}

  lemma GrowthAtLimit(a: Addr, dir: Directory, bits: nat, heap: nat -> Option<nat>, requests: nat)
    requires a.active >= MAX_DIRSIZE * Pow2(bits) - 1
    ensures GrowthOf(a, dir, bits, heap, requests) == AtLimit
  {}

  /** The ledger of an expansion: one more segment live and held if there was none, else none. */
  lemma HeldOneMore(dir: Directory, dir': Directory, bits: nat, n: nat, segments: nat)
    requires Held(dir') == Held(dir) + {SegmentIndex(n, bits)} && |Held(dir)| <= segments
    ensures var segments' := segments + Asked(!Present(dir, bits, n));
      Adrift(segments', dir') == Adrift(segments, dir) && |Held(dir')| <= segments'
  {
    PresentIsHeld(dir, bits, n);
    hide Held, SegmentIndex, Present;
    if Present(dir, bits, n) {
      assert Held(dir') == Held(dir);
    }
  }

  lemma SameHeld(dir: Directory, dir': Directory, segments: nat)
    requires Held(dir') == Held(dir)
    ensures Adrift(segments, dir') == Adrift(segments, dir)
  {}

  /** A larger directory and a new segment, if the next bucket needs them. */
  method MakeRoom(a: Addr, dir: Directory, bits: nat, heap: nat -> Option<nat>, requests: nat,
                  ghost m: Map, ghost segments: nat)
    returns (ok: bool, dir': Directory, requests': nat, ghost segments': nat)
    requires Exact(a, dir, bits, m) && a.active < MAX_DIRSIZE * Pow2(bits) - 1 && |Held(dir)| <= segments
    ensures Exact(a, dir', bits, m) && ClumpsOf(dir', bits, a.active) == ClumpsOf(dir, bits, a.active)
    ensures ok ==> Present(dir', bits, a.active)
    ensures !ok ==> RequestFailed(heap, requests, requests')
    ensures requests' >= requests
    ensures var g := GrowthOf(a, dir, bits, heap, requests);
      && (ok <==> g.NoClump? || g.Grown?) && !g.AtLimit?
      && (ok ==> (g.NoClump? <==> |ChainAt(dir', bits, a.expansionIdx)| > 1 && heap(requests').None?))
      && |dir'| == if a.active >= |dir| * Pow2(bits) && !g.NoDirectory? then 2 * |dir| else |dir|
    ensures ok ==> ChainAt(dir', bits, a.expansionIdx) == ChainAt(dir, bits, a.expansionIdx)
    ensures Held(dir') == if ok then Held(dir) + {SegmentIndex(a.active, bits)} else Held(dir)
    ensures Adrift(segments', dir') == Adrift(segments, dir) && |Held(dir')| <= segments'
  {
    hide *;
    ShapeFacts(a, dir, bits, m);
    AskedCases();
    ok, dir', requests' := GrowDirectory(a, dir, bits, heap, requests, m);
    segments' := segments;
    if !ok {
      NoDirectoryGiven(a, dir, bits, heap, requests);
    } else {
      var dir1, requests1 := dir', requests';
      ok, dir', requests' := NewBucketSegment(a, dir1, bits, heap, requests1, m);
      RoomMade(a, dir, dir1, dir', bits, heap, requests, ok);
      FailedLater(heap, requests, requests1, requests');
      if ok {
        segments' := segments + Asked(!Present(dir1, bits, a.active));
        HeldOneMore(dir, dir', bits, a.active, segments);
      } else {
        SameHeld(dir, dir', segments);
      }
    }
  }

  /** A new segment is spare until the bucket it is for is active. */
  lemma GrownSpares(dir: Directory, dir': Directory, bits: nat, n: nat)
    requires Held(dir') == Held(dir) + {SegmentIndex(n, bits)}
    ensures Spares(dir', bits, n + 1) == Spares(dir, bits, n) - {SegmentIndex(n, bits)}
    ensures Spares(dir', bits, n) ==
      if SlotIndex(n, bits) == 0 then Spares(dir, bits, n) + {SegmentIndex(n, bits)} else Spares(dir, bits, n)
  {
    NextNeeds(bits, n);
    hide Held, InitialSegments, SegmentIndex, SlotIndex;
  }

  // ------------------------------------------------------------------ expansion

  lemma ExpandedActive(a: Addr)
    ensures Expanded(a).active == a.active + 1
  {
    hide Pow2, ExtendMask;
  }

  /** The clumps in play when a bucket is activated with these spare ones at hand. */
  ghost function InPlay(clumps: multiset<Location>, spare: seq<Clump>): multiset<Location> {
    clumps + Places(spare) + multiset{Inline}
  }

  /** A spare clump just allocated at this address. */
  function NewClump(address: nat): Clump {
    Clump(Heap(address), EmptySlots())
  }

  lemma OneSpare(address: nat)
    ensures Placing.Spare([NewClump(address)]) && Placing.Spare([])
    ensures |[NewClump(address)]| == 1
  {}

  /** One clump for the free list when the bucket to split has more than one. */
  method PrimeSplit(chain: seq<Clump>, heap: nat -> Option<nat>, requests: nat)
    returns (ok: bool, spare: seq<Clump>, requests': nat)
    ensures ok <==> |chain| <= 1 || heap(requests).Some?
    ensures spare == if ok && |chain| > 1 then [NewClump(heap(requests).value)] else []
    ensures requests' == requests + Asked(|chain| > 1)
    ensures Placing.Spare(spare)
    ensures !ok ==> RequestFailed(heap, requests, requests')
  {
    hide *;
    OneSpare(0);
    AskedCases();
    ok, spare, requests' := true, [], requests;
    if |chain| > 1 {
      requests' := requests + 1;
      var p := heap(requests);
      if p.None? {
        Failed(heap, requests);
        ok := false;
      } else {
        OneSpare(p.value);
        spare := [NewClump(p.value)];
      }
    }
  }

  lemma EmptyChainOne()
    ensures |EmptyChain()| == 1 && Places(EmptyChain()) == multiset{Inline}
  {
    PlacesOne(EmptyChain()[0]);
  }

  lemma EmptyBucket(dir: Directory, bits: nat, n: nat)
    requires Sized(dir, bits) && EmptyFrom(dir, bits, n) && Present(dir, bits, n)
    ensures SlotIndex(n, bits) < |dir[SegmentIndex(n, bits)].value|
    ensures Bucket(dir, bits, n) == EmptyChain()
  {
    SlotInRange(n, bits);
    assert ChainAt(dir, bits, n) == EmptyChain();
  }

  lemma SplitFacts(a: Addr, dir: Directory, bits: nat, m: Map)
    requires Exact(a, dir, bits, m) && Present(dir, bits, a.active)
    ensures Expanded(a).active == a.active + 1 && a.NewBucket() == a.active && a.expansionIdx < a.active
    ensures Present(dir, bits, a.expansionIdx)
    ensures SlotIndex(a.expansionIdx, bits) < |dir[SegmentIndex(a.expansionIdx, bits)].value|
    ensures Bucket(dir, bits, a.expansionIdx) == ChainAt(dir, bits, a.expansionIdx)
    ensures Chain(ChainAt(dir, bits, a.expansionIdx))
    ensures SlotIndex(a.active, bits) < |dir[SegmentIndex(a.active, bits)].value|
    ensures Bucket(dir, bits, a.active) == EmptyChain()
    ensures Chain(EmptyChain()) && |EmptyChain()| == 1 && Items(EmptyChain()) == []
  {
    hide *;
    LevelBound(a, dir, bits, m);
    ShapeFacts(a, dir, bits, m);
    ExpandedWellFormed(a);
    ReAddressed(a, Expanded(a), 0);
    ActiveBucket(a, dir, bits, m, a.expansionIdx);
    EmptyBucket(dir, bits, a.active);
    EmptyChainIsChain();
    EmptyChainOne();
  }

  lemma SplitBalance(c: multiset<Location>, x: multiset<Location>, s: multiset<Location>, o: multiset<Location>,
                     n: multiset<Location>, f: multiset<Location>, c': multiset<Location>)
    requires c' + x == c + o + n
    requires o + n + f == x + multiset{Inline} + s
    ensures f <= c + s + multiset{Inline} && c' == c + s + multiset{Inline} - f
  {
    var i := multiset{Inline};
    forall l: Location ensures c'[l] + f[l] == c[l] + s[l] + i[l] {
      assert (c' + x)[l] == (c + o + n)[l];
      assert (o + n + f)[l] == (x + i + s)[l];
    }
  }

  lemma SplitClumps(clumps: multiset<Location>, old0: seq<Clump>, spare: seq<Clump>,
                    o: seq<Clump>, n: seq<Clump>, freed: seq<Clump>, clumps': multiset<Location>)
    requires clumps' + Places(old0) == clumps + Places(o) + Places(n)
    requires Pool(o, n, freed) == Pool(old0, EmptyChain(), spare)
    ensures Places(freed) <= InPlay(clumps, spare) && clumps' == Without(InPlay(clumps, spare), freed)
  {
    EmptyChainOne();
    SplitBalance(clumps, Places(old0), Places(spare), Places(o), Places(n), Places(freed), clumps');
    hide Places, EmptyChain;
  }

  /** Relocate the split bucket's records, with the address variables already advanced. */
  method SplitBuckets(a: Addr, e: Addr, dir: Directory, bits: nat, spare: seq<Clump>,
                      ghost m: Map, ghost clumps: multiset<Location>)
    returns (dir': Directory, freed: seq<Clump>)
    requires Exact(a, dir, bits, m) && a.active < MAX_DIRSIZE * Pow2(bits) - 1 && Present(dir, bits, a.active)
    requires e == Expanded(a) && clumps == ClumpsOf(dir, bits, a.active)
    requires Placing.Spare(spare) && (|ChainAt(dir, bits, a.expansionIdx)| > 1 ==> |spare| >= 1)
    ensures Exact(e, dir', bits, m) && e.active == a.active + 1
    ensures Held(dir') == Held(dir) && |dir'| == |dir|
    ensures Places(freed) <= InPlay(clumps, spare)
    ensures ClumpsOf(dir', bits, e.active) == Without(InPlay(clumps, spare), freed)
  {
    hide *;
    SplitFacts(a, dir, bits, m);
    var oldBkt, newBkt := a.expansionIdx, a.NewBucket();
    var oldChain, newChain := Bucket(dir, bits, oldBkt), Bucket(dir, bits, newBkt);
    var o, n;
    o, n, freed := SplitRecordSet(oldChain, newChain, e.expansionIdx, e.mask0, newBkt, spare);
    SplitState(a, dir, bits, m, o, n);
    SetBucketHeld(dir, bits, oldBkt, o);
    SetBucketHeld(SetBucket(dir, bits, oldBkt, o), bits, newBkt, n);
    dir' := SetBucket(SetBucket(dir, bits, oldBkt, o), bits, newBkt, n);
    SplitClumps(clumps, oldChain, spare, o, n, freed, ClumpsOf(dir', bits, a.active + 1));
  }

  // ------------------------------------------------------------------ contraction

  lemma ContractedActive(a: Addr)
    requires a.active > 0 && (a.expansionIdx == 0 ==> a.level > 0)
    ensures Contracted(a).active == a.active - 1
  {
    hide Pow2;
  }

  lemma MergeFacts(a: Addr, dir: Directory, bits: nat, m: Map)
    requires Exact(a, dir, bits, m) && a.active > Pow2(bits)
    ensures a.active > 1 && (a.expansionIdx == 0 ==> a.level > 0)
    ensures var c := Contracted(a);
      && c.expansionIdx < a.active - 1 && c.active == a.active - 1 && Expanded(c) == a
      && Present(dir, bits, c.expansionIdx)
      && SlotIndex(c.expansionIdx, bits) < |dir[SegmentIndex(c.expansionIdx, bits)].value|
      && Bucket(dir, bits, c.expansionIdx) == ChainAt(dir, bits, c.expansionIdx)
      && Chain(ChainAt(dir, bits, c.expansionIdx))
    ensures Present(dir, bits, a.active - 1)
    ensures SlotIndex(a.active - 1, bits) < |dir[SegmentIndex(a.active - 1, bits)].value|
    ensures Bucket(dir, bits, a.active - 1) == ChainAt(dir, bits, a.active - 1)
    ensures Chain(ChainAt(dir, bits, a.active - 1))
  {
    hide *;
    ShapeFacts(a, dir, bits, m);
    ContractedWellFormed(a);
    ReMerged(a, 0);
    ExpandContractInverse(a);
    ActiveBucket(a, dir, bits, m, a.active - 1);
    ActiveBucket(a, dir, bits, m, Contracted(a).expansionIdx);
  }

  lemma GrantedCases(heap: nat -> Option<nat>, requests: nat, need: nat)
    ensures Granted(heap, requests, need) <==>
      (need >= 1 ==> heap(requests).Some?) && (need == 2 ==> heap(requests + 1).Some?)
  {}

  lemma DemandIs(a: Addr, dir: Directory, bits: nat)
    requires a.active > 0 && (a.expansionIdx == 0 ==> a.level > 0)
    ensures DemandOf(a, dir, bits) ==
      MergeNeed(|Items(ChainAt(dir, bits, a.active - 1))| - Room(ChainAt(dir, bits, Contracted(a).expansionIdx)))
  {
    hide Items, ChainAt, Contracted, MergeNeed, Room;
  }

  lemma TwoSpare(p: nat, q: nat)
    ensures Placing.Spare([NewClump(p), NewClump(q)]) && |[NewClump(p), NewClump(q)]| == 2
  {}

  /** How many clumps the free list needs for this surplus of records. */
  function MergeNeed(surplus: int): nat {
    if surplus <= 0 then 0 else if surplus <= NODES_PER_CLUMP then 1 else 2
  }

  /**
    As many clumps for the free list as the surplus of records calls for: none, one or two.
    The first is freed again, and returned as `back`, when the second is refused.
   */
  method PrimeMerge(last: seq<Clump>, target: seq<Clump>, heap: nat -> Option<nat>, requests: nat)
    returns (ok: bool, spare: seq<Clump>, back: seq<Clump>, requests': nat)
    requires Chain(last) && Chain(target)
    ensures var need := MergeNeed(|Items(last)| - Room(target));
      && (ok <==> Granted(heap, requests, need))
      && requests' == requests + (if need == 2 && heap(requests).None? then 1 else need)
      && |spare| == (if ok then need else 0) && |back| == (if !ok && heap(requests).Some? then 1 else 0)
      && (forall k :: 0 <= k < |spare| ==> heap(requests + k).Some? && spare[k] == NewClump(heap(requests + k).value))
      && (forall k :: 0 <= k < |back| ==> heap(requests + k).Some? && back[k] == NewClump(heap(requests + k).value))
    ensures Placing.Spare(spare)
    ensures !ok ==> RequestFailed(heap, requests, requests')
  {
    hide *;
    var c := Surplus(last, target);
    OneSpare(0);
    NeedCases(c);
    GrantedCases(heap, requests, MergeNeed(c));
    ok, spare, back, requests' := true, [], [], requests;
    if c > 0 {
      requests' := requests' + 1;
      Failed(heap, requests);
      var p := heap(requests);
      if p.None? {
        ok := false;
      } else if c > NODES_PER_CLUMP {
        requests' := requests' + 1;
        Failed(heap, requests + 1);
        FailedLater(heap, requests, requests + 1, requests');
        var q := heap(requests + 1);
        if q.None? {
          ok, back := false, [NewClump(p.value)];
        } else {
          TwoSpare(p.value, q.value);
          spare := [NewClump(p.value), NewClump(q.value)];
        }
      } else {
        OneSpare(p.value);
        spare := [NewClump(p.value)];
      }
    }
  }

  /** The clumps a contraction asks for. */
  ghost function DemandOf(a: Addr, dir: Directory, bits: nat): nat {
    if a.active > 0 && (a.expansionIdx == 0 ==> a.level > 0)
    then MergeNeed(|Items(ChainAt(dir, bits, a.active - 1))| - Room(ChainAt(dir, bits, Contracted(a).expansionIdx)))
    else 0
  }

  /** As many requests as these, at most two, are all granted. */
  ghost predicate Granted(heap: nat -> Option<nat>, requests: nat, need: nat) {
    (need >= 1 ==> heap(requests).Some?) && (need == 2 ==> heap(requests + 1).Some?)
  }

  lemma NeedCases(c: int)
    ensures NODES_PER_CLUMP >= 1
    ensures MergeNeed(c) == if c <= 0 then 0 else if c <= NODES_PER_CLUMP then 1 else 2
  {}

  lemma LastSegment(a: Addr, dir: Directory, bits: nat, m: Map)
    requires Exact(a, dir, bits, m) && a.active > 1
    ensures SegmentIndex(a.active - 1, bits) < |dir|
  {
    ActiveBucket(a, dir, bits, m, a.active - 1);
    hide SegmentIndex, Exact;
  }

  /** The segment freed with the last bucket: that bucket's own, if it was the segment's first. */
  ghost function FreedSegment(a: Addr, bits: nat): set<nat>
    requires a.active > 0
  {
    if SlotIndex(a.active - 1, bits) == 0 then {SegmentIndex(a.active - 1, bits)} else {}
  }

  /** With one bucket less, the lower half of the directory spans the buckets. */
  ghost predicate Roomy(a: Addr, dir: Directory, bits: nat) {
    a.active - 1 <= (|dir| * Pow2(bits)) / 2 && |dir| > MIN_DIRSIZE
  }

  /**
    Empty the last bucket, free its segment if it was the segment's first, halve the directory if it can be.
    A segment is lost, neither freed nor kept, if and only if it was spare and lies in a half dropped.
   */
  method ShrinkDirectory(a: Addr, dir: Directory, bits: nat, heap: nat -> Option<nat>, requests: nat, ghost m: Map)
    returns (dir1: Directory, requests': nat)
    requires Exact(a, dir, bits, m) && a.active > Pow2(bits)
    ensures Vacated(a, dir, dir1, bits)
    ensures requests' == requests + Asked(Roomy(a, dir, bits))
    ensures |dir1| == if Roomy(a, dir, bits) && heap(requests).Some? then |dir| / 2 else |dir|
    ensures FreedSegment(a, bits) <= Held(dir)
    ensures Held(dir1) == set g | g in Held(dir) - FreedSegment(a, bits) && g < |dir1|
    ensures Held(dir) - FreedSegment(a, bits) - Held(dir1) == set g | g in Spares(dir, bits, a.active) && g >= |dir1|
    ensures Spares(dir1, bits, a.active - 1) == set g | g in Spares(dir, bits, a.active) && g < |dir1|
  {
    hide *;
    MergeFacts(a, dir, bits, m);
    AskedCases();
    var n := a.active - 1;
    VacatedLast(a, dir, bits, m);
    dir1 := SetBucket(dir, bits, n, EmptyChain());
    SetBucketHeld(dir, bits, n, EmptyChain());
    requests' := requests;
    FreedCases(a, bits);
    if SlotIndex(n, bits) == 0 {
      LastSegment(a, dir, bits, m);
      VacatedSegment(a, dir, dir1, bits);
      SetSegmentHeld(dir1, bits, n, None);
      dir1 := SetSegment(dir1, bits, n, None);
    }
    RoomyIs(a, dir, bits);
    HeldBelow(dir);
    if n <= (|dir1| * Pow2(bits)) / 2 && |dir1| > MIN_DIRSIZE {
      requests' := requests + 1;
      // failure only means that the directory stays larger than need be
      if heap(requests).Some? {
        VacatedHalf(a, dir, dir1, bits);
        HalvedHeld(dir1);
        dir1 := Halved(dir1);
      }
    }
    assert Held(dir1) == set g | g in Held(dir) - FreedSegment(a, bits) && g < |dir1|;
    LostSegments(a, dir, dir1, bits, m);
  }

  lemma FreedCases(a: Addr, bits: nat)
    requires a.active > 0
    ensures FreedSegment(a, bits) ==
      if SlotIndex(a.active - 1, bits) == 0 then {SegmentIndex(a.active - 1, bits)} else {}
  {}

  lemma RoomyIs(a: Addr, dir: Directory, bits: nat)
    ensures Roomy(a, dir, bits) <==> a.active - 1 <= (|dir| * Pow2(bits)) / 2 && |dir| > MIN_DIRSIZE
  {}

  /** What halving drops was spare, or had just been freed. */
  lemma LostSegments(a: Addr, dir: Directory, dir1: Directory, bits: nat, m: Map)
    requires Exact(a, dir, bits, m) && a.active > 1
    requires |dir1| == |dir| || (Roomy(a, dir, bits) && |dir1| == |dir| / 2)
    requires Held(dir1) == set g | g in Held(dir) - FreedSegment(a, bits) && g < |dir1|
    ensures FreedSegment(a, bits) <= Held(dir)
    ensures Held(dir) - FreedSegment(a, bits) - Held(dir1) == set g | g in Spares(dir, bits, a.active) && g >= |dir1|
    ensures Spares(dir1, bits, a.active - 1) == set g | g in Spares(dir, bits, a.active) && g < |dir1|
  {
    var n := a.active - 1;
    ShapeFacts(a, dir, bits, m);
    NextNeeds(bits, n);
    ActiveBucket(a, dir, bits, m, n);
    PresentIsHeld(dir, bits, n);
    KeptSpan(a, dir, dir1, bits);
    HeldBelow(dir);
    hide Exact, InitialSegments, SegmentIndex, SlotIndex, Held, Roomy, Sized, Covers, EmptyFrom, DirSize, SegBits, Addr.WellFormed;
  }

  lemma HeldBelow(dir: Directory)
    ensures forall g :: g in Held(dir) ==> g < |dir|
  {}

  /** The entries dropped are beyond those the remaining buckets need. */
  lemma KeptSpan(a: Addr, dir: Directory, dir1: Directory, bits: nat)
    requires a.active > 1 && DirSize(|dir|)
    requires |dir1| == |dir| || (Roomy(a, dir, bits) && |dir1| == |dir| / 2)
    ensures |dir1| == |dir| || InitialSegments(bits, a.active - 1) <= |dir1|
  {
    EvenSize(|dir|);
    HalfProduct(|dir|, Pow2(bits));
    SegmentsBelow(bits, a.active - 1, |dir1| + 1);
    hide DirSize, Pow2, InitialSegments;
    Successor(|dir1|, Pow2(bits));
  }

  /** The clumps left when a bucket has been deactivated. */
  ghost function Retired(clumps: multiset<Location>, spare: seq<Clump>, freed: seq<Clump>): multiset<Location> {
    clumps + Places(spare) - Places(freed) - multiset{Inline}
  }

  lemma MergeBalance(c: multiset<Location>, x: multiset<Location>, y: multiset<Location>, s: multiset<Location>,
                     t: multiset<Location>, f: multiset<Location>, c': multiset<Location>)
    requires c' + (multiset{Inline} + y) + x == c + t
    requires t + f == x + s + y
    ensures f + multiset{Inline} <= c + s && c' == c + s - f - multiset{Inline}
  {
    var i := multiset{Inline};
    forall l: Location ensures c'[l] + i[l] + f[l] == c[l] + s[l] {
      assert (c' + (i + y) + x)[l] == (c + t)[l];
      assert (t + f)[l] == (x + s + y)[l];
    }
  }

  lemma MergeClumps(clumps: multiset<Location>, target: seq<Clump>, last: seq<Clump>, spare: seq<Clump>,
                    t: seq<Clump>, freed: seq<Clump>, clumps': multiset<Location>)
    requires last != [] && last[0].place == Inline
    requires clumps' + Places(last) + Places(target) == clumps + Places(t)
    requires Places(t) + Places(freed) == Total(target, spare, last[1..])
    ensures Places(freed) + multiset{Inline} <= clumps + Places(spare)
    ensures clumps' == Retired(clumps, spare, freed)
  {
    PlacesFirst(last);
    MergeBalance(clumps, Places(target), Places(last[1..]), Places(spare), Places(t), Places(freed), clumps');
    hide Places;
  }

  lemma ChainNonEmpty(cs: seq<Clump>)
    requires Chain(cs)
    ensures cs != [] && cs[0].place == Inline
  {}

  /** Append the last bucket's records to its buddy, with the address variables already stepped back. */
  method MergeBuckets(a: Addr, c: Addr, dir: Directory, dir1: Directory, bits: nat,
                      last: seq<Clump>, target: seq<Clump>, spare: seq<Clump>,
                      ghost m: Map, ghost clumps: multiset<Location>)
    returns (dir': Directory, freed: seq<Clump>)
    requires Exact(a, dir, bits, m) && a.active > Pow2(bits) && Vacated(a, dir, dir1, bits)
    requires a.expansionIdx == 0 ==> a.level > 0
    requires c == Contracted(a) && clumps == ClumpsOf(dir, bits, a.active)
    requires last == ChainAt(dir, bits, a.active - 1) && target == ChainAt(dir, bits, c.expansionIdx)
    requires Chain(last) && Chain(target) && Placing.Spare(spare)
    requires |spare| >= MergeNeed(|Items(last)| - Room(target))
    ensures Exact(c, dir', bits, m) && c.active == a.active - 1
    ensures Held(dir') == Held(dir1) && |dir'| == |dir1|
    ensures Places(freed) + multiset{Inline} <= clumps + Places(spare)
    ensures ClumpsOf(dir', bits, c.active) == Retired(clumps, spare, freed)
  {
    hide *;
    MergeFacts(a, dir, bits, m);
    NeedCases(|Items(last)| - Room(target));
    var t;
    t, freed := MergeRecordSets(target, last, spare);
    MergedState(a, dir, dir1, bits, m, t);
    SetBucketHeld(dir1, bits, c.expansionIdx, t);
    dir' := SetBucket(dir1, bits, c.expansionIdx, t);
    ChainNonEmpty(last);
    MergeClumps(clumps, target, last, spare, t, freed, ClumpsOf(dir', bits, a.active - 1));
  }

  /** The spare segments that a directory of only `size` entries has no place for. */
  ghost function LostBy(dir: Directory, bits: nat, n: nat, size: nat): set<nat> {
    set g | g in Spares(dir, bits, n) && g >= size
  }

  lemma SegmentsBalance(a: Addr, dir: Directory, dir1: Directory, dir': Directory, bits: nat)
    requires a.active > 0 && Held(dir') == Held(dir1) && |dir'| == |dir1|
    requires FreedSegment(a, bits) <= Held(dir)
    requires Held(dir1) == set g | g in Held(dir) - FreedSegment(a, bits) && g < |dir1|
    requires Held(dir) - FreedSegment(a, bits) - Held(dir1) == set g | g in Spares(dir, bits, a.active) && g >= |dir1|
    requires Spares(dir1, bits, a.active - 1) == set g | g in Spares(dir, bits, a.active) && g < |dir1|
    ensures |Held(dir')| + |FreedSegment(a, bits)| + |LostBy(dir, bits, a.active, |dir'|)| == |Held(dir)|
    ensures Spares(dir', bits, a.active - 1) == Spares(dir, bits, a.active) - LostBy(dir, bits, a.active, |dir'|)
  {
    SameSpares(dir', dir1, bits, a.active - 1);
    hide FreedSegment, Spares, Held;
    var lost := LostBy(dir, bits, a.active, |dir'|);
    assert lost == Held(dir) - FreedSegment(a, bits) - Held(dir1);
    assert Held(dir1) <= Held(dir) - FreedSegment(a, bits);
    ThreeParts(Held(dir), FreedSegment(a, bits), Held(dir1));
  }

  lemma SameSpares(dir: Directory, dir1: Directory, bits: nat, n: nat)
    requires Held(dir) == Held(dir1)
    ensures Spares(dir, bits, n) == Spares(dir1, bits, n)
  {}

  lemma ThreeParts<T>(h: set<T>, x: set<T>, y: set<T>)
    requires x <= h && y <= h - x
    ensures |y| + |x| + |h - x - y| == |h|
  {
    assert h == x + (h - x) && h - x == y + (h - x - y);
  }

  /** Shrink the directory and merge the last bucket into its buddy. */
  method Fold(a: Addr, c: Addr, dir: Directory, bits: nat, last: seq<Clump>, target: seq<Clump>, spare: seq<Clump>,
              heap: nat -> Option<nat>, requests: nat, ghost m: Map, ghost clumps: multiset<Location>)
    returns (dir': Directory, requests': nat, freed: seq<Clump>, ghost clumps': multiset<Location>)
    requires Exact(a, dir, bits, m) && a.active > Pow2(bits)
    requires a.expansionIdx == 0 ==> a.level > 0
    requires c == Contracted(a) && clumps == ClumpsOf(dir, bits, a.active)
    requires last == ChainAt(dir, bits, a.active - 1) && target == ChainAt(dir, bits, c.expansionIdx)
    requires Chain(last) && Chain(target) && Placing.Spare(spare)
    requires |spare| >= MergeNeed(|Items(last)| - Room(target))
    ensures Exact(c, dir', bits, m) && requests' == requests + Asked(Roomy(a, dir, bits))
    ensures clumps' == ClumpsOf(dir', bits, c.active) == Retired(clumps, spare, freed)
    ensures |dir'| == if Roomy(a, dir, bits) && heap(requests).Some? then |dir| / 2 else |dir|
    ensures |Held(dir')| + |FreedSegment(a, bits)| + |LostBy(dir, bits, a.active, |dir'|)| == |Held(dir)|
    ensures Spares(dir', bits, c.active) == Spares(dir, bits, a.active) - LostBy(dir, bits, a.active, |dir'|)
  {
    hide *;
    var dir1;
    dir1, requests' := ShrinkDirectory(a, dir, bits, heap, requests, m);
    dir', freed := MergeBuckets(a, c, dir, dir1, bits, last, target, spare, m, clumps);
    SegmentsBalance(a, dir, dir1, dir', bits);
    clumps' := Retired(clumps, spare, freed);
  }

  lemma LedgerShrunk(a: Addr, dir: Directory, dir': Directory, bits: nat, segments: nat)
    requires a.active > 0 && |Held(dir)| <= segments
    requires |Held(dir')| + |FreedSegment(a, bits)| + |LostBy(dir, bits, a.active, |dir'|)| == |Held(dir)|
    ensures |FreedSegment(a, bits)| <= segments
    ensures var segments' := segments - |FreedSegment(a, bits)|;
      && |Held(dir')| <= segments'
      && Adrift(segments', dir') == Adrift(segments, dir) + |LostBy(dir, bits, a.active, |dir'|)|
  {
    hide Held, FreedSegment, LostBy;
  }

  /** Fold the last bucket into its buddy, or leave everything alone if clumps are lacking for it. */
  method FoldLast(a: Addr, c: Addr, dir: Directory, bits: nat, heap: nat -> Option<nat>, requests: nat,
                  ghost m: Map, ghost clumps: multiset<Location>, ghost segments: nat)
    returns (ok: bool, dir': Directory, requests': nat, ghost spare: seq<Clump>, ghost freed: seq<Clump>,
             ghost clumps': multiset<Location>, ghost segments': nat)
    requires Exact(a, dir, bits, m) && a.active > Pow2(bits)
    requires a.expansionIdx == 0 ==> a.level > 0
    requires c == Contracted(a) && clumps == ClumpsOf(dir, bits, a.active) && |Held(dir)| <= segments
    ensures ok <==> Granted(heap, requests, DemandOf(a, dir, bits))
    ensures !ok ==> RequestFailed(heap, requests, requests')
    ensures requests' >= requests
    ensures !ok ==> spare == freed && dir' == dir && clumps' == clumps && segments' == segments
    ensures ok ==> Exact(c, dir', bits, m) && clumps' == ClumpsOf(dir', bits, c.active)
    ensures ok ==> |spare| == DemandOf(a, dir, bits) && clumps' == Retired(clumps, spare, freed)
    ensures ok ==>
      var lost := LostBy(dir, bits, a.active, |dir'|);
      && |dir'| == (if Roomy(a, dir, bits) && heap(requests + DemandOf(a, dir, bits)).Some? then |dir| / 2 else |dir|)
      && Adrift(segments', dir') == Adrift(segments, dir) + |lost|
      && Spares(dir', bits, c.active) == Spares(dir, bits, a.active) - lost
    ensures |Held(dir')| <= segments'
  {
    hide *;
    MergeFacts(a, dir, bits, m);
    DemandIs(a, dir, bits);
    NeedCases(|Items(ChainAt(dir, bits, a.active - 1))| - Room(ChainAt(dir, bits, c.expansionIdx)));
    GrantedCases(heap, requests, DemandOf(a, dir, bits));
    AskedCases();
    var last, target := Bucket(dir, bits, a.active - 1), Bucket(dir, bits, c.expansionIdx);
    var list, back;
    ok, list, back, requests' := PrimeMerge(last, target, heap, requests);
    dir', spare, freed, clumps', segments' := dir, back, back, clumps, segments;
    if ok {
      var rest;
      dir', requests', rest, clumps' := Fold(a, c, dir, bits, last, target, list, heap, requests', m, clumps);
      spare, freed := list, rest;
      LedgerShrunk(a, dir, dir', bits, segments);
      segments' := segments - |FreedSegment(a, bits)|;
    }
  }
}
