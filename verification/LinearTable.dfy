/** The linear hash table itself: one CLKRLinearHashTable, used by one thread at a time. */
module LinearTables {
  import opened Bits
  import opened Records
  import opened Clumps
  import opened Addressing
  import opened Directories
  import opened Chains
  import opened Contents
  import opened TableStates
  import opened References
  import opened LoadControl
  import opened BucketSteps
  import opened Relocations
  import opened Sweeping
  import opened Purging
  import opened TableSweeps
  import opened TableResets

  class LinearHashTable {
    const segBits: nat
    const maxLoad: real

    /** The heap's answers to this table's allocation requests, in order: an address or none. */
    const heap: nat -> Option<nat>
    var requests: nat

    var state: ReturnCode
    var level: nat
    var expansionIdx: nat
    var mask0: nat
    var mask1: nat
    var active: nat
    var dir: Directory
    var cRecords: nat

    /** The reference-count callbacks made so far. */
    var refLog: seq<RefCall>

    /** The map this table stands for. */
    ghost var contents: Map

    /** The clumps allocated for active buckets and not freed. */
    ghost var clumps: multiset<Location>

    /** How many segments are allocated and not freed. */
    ghost var segments: nat

    /** The records that finds have handed out. */
    ghost var handed: multiset<Record>

    constructor (bits: nat, load: real, buckets: nat, allocator: nat -> Option<nat>)
      requires InitialSize(bits, buckets) && load > 0.0
      ensures segBits == bits && maxLoad == load && heap == allocator
      ensures state.Success? || state.AllocFail?
      ensures state.Success? ==> Valid() && contents == map[] && cRecords == 0 && active == buckets
      ensures state.AllocFail? ==> RequestFailed(heap, 0, requests)
      ensures refLog == [] && handed == multiset{}
      ensures Adrift(segments, dir) == 0 && Spares(dir, segBits, active) == {}
    {
      segBits, maxLoad, heap := bits, load, allocator;
      requests, state := 0, Unusable;
      level, expansionIdx, mask0, mask1, active := 0, 0, 0, 0, 0;
      dir, cRecords, refLog := [], 0, [];
      contents, clumps, handed, segments := map[], multiset{}, multiset{}, 0;
      new;
      NoReferences();
      SetSegVars(buckets);
    }

    /** Set the table up, empty, with this many buckets. */
    method SetSegVars(buckets: nat)
      requires InitialSize(segBits, buckets) && maxLoad > 0.0
      requires cRecords == 0 && contents == map[] && RefsOk(refLog, map[], handed) && dir == []
      modifies `requests, `state, `level, `expansionIdx, `mask0, `mask1, `active, `dir, `clumps, `segments
      ensures state.Success? || state.AllocFail?
      ensures state.Success? ==> Valid() && active == buckets
      ensures state.AllocFail? ==> dir == [] && active == 0 && RequestFailed(heap, old(requests), requests)
      ensures requests >= old(requests)
      ensures Adrift(segments, dir) == old(segments) && Spares(dir, segBits, active) == {}
    {
      hide *;
      var ok, a, dir', requests' := SetUp(segBits, buckets, heap, requests);
      dir, requests := dir', requests';
      NoneHeld(segBits);
      if ok {
        segments := segments + InitialSegments(segBits, buckets);
        AdriftIs(segments, dir');
        MakeInUse(a, dir', segBits, contents, cRecords, Inlines(buckets), refLog, handed);
        state := Success;
        level, expansionIdx, mask0, mask1, active := a.level, a.expansionIdx, a.mask0, a.mask1, a.active;
        clumps := Inlines(buckets);
        MakeValid();
      } else {
        state, expansionIdx, active := AllocFail, 0, 0;
        clumps := multiset{};
        AdriftIs(segments, []);
      }
    }

    /** Release all records, and free the clumps, the active buckets' segments and the directory. */
    method Empty()
      requires Valid()
      modifies this
      ensures contents == map[] && cRecords == 0 && handed == old(handed) && RefsOk(refLog, map[], handed)
      ensures state == old(state) && requests == old(requests) && maxLoad > 0.0
      ensures dir == [] && active == 0 && clumps == multiset{} && SegBits(segBits)
      ensures segments == old(Adrift(segments, dir)) + |old(Spares(dir, segBits, active))|
    {
      hide *;
      Facts();
      var a := Addr(level, expansionIdx, mask0, mask1, active);
      InUseFacts(a, dir, segBits, contents, cRecords, clumps, refLog, handed);
      ShapeFacts(a, dir, segBits, contents);
      var log, count;
      ghost var left;
      log, count, left := TearDown(a, dir, segBits, refLog, cRecords, contents, handed, segments);
      refLog, cRecords := log, count;
      contents, clumps, segments := map[], multiset{}, left;
      DropDirectory();
    }

    /** No directory and no buckets; what the directory still holds goes with it. */
    method DropDirectory()
      modifies `dir, `level, `active, `expansionIdx, `mask0, `mask1
      ensures dir == [] && active == 0
    {
      dir := [];
      level, active, expansionIdx, mask0, mask1 := 0, 0, 0, 1, 3;
    }

    /** Remove all records, and set the table up anew with its preset size unless it had none. */
    method Clear()
      requires Valid()
      modifies this
      ensures state.Success? || state.AllocFail?
      ensures state.Success? ==> Valid()
      ensures state.Success? ==> active == if old(cRecords) > 0 then PresetSize(segBits) else old(active)
      ensures state.AllocFail? ==> RequestFailed(heap, old(requests), requests)
      ensures contents == map[] && cRecords == 0 && handed == old(handed)
      ensures RefsOk(refLog, map[], handed)
      ensures requests >= old(requests)
      // the spare segments are lost, and only they
      ensures Adrift(segments, dir) ==
        old(Adrift(segments, dir)) + if old(cRecords) > 0 then |old(Spares(dir, segBits, active))| else 0
      ensures Spares(dir, segBits, active) == if old(cRecords) > 0 then {} else old(Spares(dir, segBits, active))
    {
      hide *;
      if cRecords == 0 {
        Facts();
        InUseFacts(Addr(level, expansionIdx, mask0, mask1, active), dir, segBits, contents, cRecords, clumps, refLog, handed);
        EmptyMap(contents);
        return;
      }
      Empty();
      PresetIsInitial(segBits);
      SetSegVars(PresetSize(segBits));
    }

    /** The destructor: nothing is left but the spare segments, which are lost. */
    method Destroy()
      requires Valid()
      modifies this
      ensures state.Unusable? && dir == [] && active == 0 && clumps == multiset{}
      ensures contents == map[] && cRecords == 0 && handed == old(handed) && RefsOk(refLog, map[], handed)
      ensures segments == old(Adrift(segments, dir)) + |old(Spares(dir, segBits, active))|
    {
      hide *;
      Empty();
      state := Unusable;
    }

    /** The table is in use and stands for `contents`. */
    ghost predicate Valid()
      reads this
    {
      && maxLoad > 0.0 && state.Success? && |Held(dir)| <= segments
      && InUse(Addr(level, expansionIdx, mask0, mask1, active), dir, segBits, contents, cRecords, clumps, refLog, handed)
    }

    lemma Facts()
      requires Valid()
      ensures maxLoad > 0.0 && state.Success? && |Held(dir)| <= segments
      ensures InUse(Addr(level, expansionIdx, mask0, mask1, active), dir, segBits, contents, cRecords, clumps, refLog, handed)
    {
      hide InUse;
    }

    lemma MakeValid()
      requires maxLoad > 0.0 && state.Success? && |Held(dir)| <= segments
      requires InUse(Addr(level, expansionIdx, mask0, mask1, active), dir, segBits, contents, cRecords, clumps, refLog, handed)
      ensures Valid()
    {
      hide InUse;
    }

    /** Write back a bucket's change: its chain, the record count and the callbacks made. */
    method Update(dir': Directory, cRecords': nat, refLog': seq<RefCall>,
                  ghost contents': Map, ghost clumps': multiset<Location>)
      requires maxLoad > 0.0 && state.Success? && |Held(dir)| <= segments && Held(dir') == Held(dir)
      requires InUse(Addr(level, expansionIdx, mask0, mask1, active), dir', segBits, contents', cRecords', clumps', refLog', handed)
      modifies `dir, `cRecords, `refLog, `contents, `clumps
      ensures Valid()
      ensures dir == dir' && cRecords == cRecords' && refLog == refLog' && contents == contents' && clumps == clumps'
    {
      hide *;
      dir, cRecords, refLog := dir', cRecords', refLog';
      contents, clumps := contents', clumps';
      MakeValid();
    }

    /** Write back a resizing: the directory, and the clumps and segments it is left with. */
    method Resize(dir': Directory, requests': nat, ghost clumps': multiset<Location>, ghost segments': nat)
      requires maxLoad > 0.0 && state.Success? && |Held(dir')| <= segments'
      requires InUse(Addr(level, expansionIdx, mask0, mask1, active), dir', segBits, contents, cRecords, clumps', refLog, handed)
      modifies `dir, `requests, `clumps, `segments
      ensures Valid()
      ensures dir == dir' && requests == requests' && clumps == clumps' && segments == segments'
    {
      hide *;
      dir, requests := dir', requests';
      clumps, segments := clumps', segments';
      MakeValid();
    }

    // ---------------------------------------------------------------- insertion

    /** Put the record into its bucket. */
    method Store(r: Record, sig: Signature, overwrite: bool) returns (rc: ReturnCode)
      requires Valid() && sig == CalcKeyHash(ExtractKey(r))
      modifies `dir, `cRecords, `requests, `refLog, `contents, `clumps
      ensures Valid()
      ensures rc.Success? || rc.KeyExists? || rc.AllocFail?
      ensures rc.KeyExists? <==> r.key.cls in old(contents) && !overwrite
      ensures rc.AllocFail? ==> r.key.cls !in old(contents) && RequestFailed(heap, old(requests), requests)
      ensures contents == if rc.Success? then old(contents)[r.key.cls := r] else old(contents)
      ensures requests >= old(requests)
      ensures refLog == old(refLog) + InsertCalls(rc, old(contents), r)
      ensures !rc.Success? ==> cRecords == old(cRecords)
      ensures Held(dir) == old(Held(dir))
    {
      hide *;
      Facts();
      var a := Addr(level, expansionIdx, mask0, mask1, active);
      InUseFacts(a, dir, segBits, contents, cRecords, clumps, refLog, handed);
      var result, dir', used;
      ghost var clumps';
      result, dir', used, clumps' :=
        InsertInBucket(a, dir, segBits, r, sig, overwrite, heap(requests), contents, clumps);
      rc := StoreCode(result);
      var log, records := refLog + StoreCalls(r, result), if result.Added? then cRecords + 1 else cRecords;
      StoredInUse(a, dir', segBits, contents, cRecords, clumps', refLog, handed, r, result);
      Failed(heap, requests);
      ghost var m := if rc.Success? then contents[r.key.cls := r] else contents;
      requests := if used then requests + 1 else requests;
      Update(dir', records, log, m, clumps');
    }

    // ---------------------------------------------------------------- expansion

    /** A bucket counted as active, with a segment to live in, but not yet addressed. */
    ghost predicate Activated()
      reads this
    {
      && maxLoad > 0.0 && state.Success? && active > 0 && |Held(dir)| <= segments
      && active - 1 < MAX_DIRSIZE * Pow2(segBits) - 1
      && Present(dir, segBits, active - 1)
      && InUse(Addr(level, expansionIdx, mask0, mask1, active - 1), dir, segBits, contents, cRecords, clumps, refLog, handed)
    }

    lemma ActivatedFacts()
      requires Activated()
      ensures maxLoad > 0.0 && state.Success? && active > 0 && |Held(dir)| <= segments
      ensures active - 1 < MAX_DIRSIZE * Pow2(segBits) - 1
      ensures Present(dir, segBits, active - 1)
      ensures InUse(Addr(level, expansionIdx, mask0, mask1, active - 1), dir, segBits, contents, cRecords, clumps, refLog, handed)
    {
      hide InUse, Present;
    }

    lemma MakeActivated()
      requires maxLoad > 0.0 && state.Success? && active > 0 && |Held(dir)| <= segments
      requires active - 1 < MAX_DIRSIZE * Pow2(segBits) - 1
      requires Present(dir, segBits, active - 1)
      requires InUse(Addr(level, expansionIdx, mask0, mask1, active - 1), dir, segBits, contents, cRecords, clumps, refLog, handed)
      ensures Activated()
    {
      hide InUse, Present;
    }

    /** Count one more bucket, with a larger directory and a new segment if it needs them. */
    method Activate() returns (ok: bool)
      requires Valid() && active < MAX_DIRSIZE * Pow2(segBits) - 1
      modifies `dir, `requests, `active, `segments
      ensures ok ==> Activated() && active == old(active) + 1
      ensures !ok ==> Valid() && active == old(active) && RequestFailed(heap, old(requests), requests)
      ensures requests >= old(requests)
      ensures var g := GrowthOf(old(Addr(level, expansionIdx, mask0, mask1, active)), old(dir), segBits, heap, old(requests));
        && (ok <==> g.NoClump? || g.Grown?) && !g.AtLimit?
        && (ok ==> (g.NoClump? <==> |ChainAt(dir, segBits, expansionIdx)| > 1 && heap(requests).None?))
        && (ok ==> ChainAt(dir, segBits, expansionIdx) == old(ChainAt(dir, segBits, expansionIdx)))
        && |dir| == if old(active >= |dir| * Pow2(segBits)) && !g.NoDirectory? then 2 * old(|dir|) else old(|dir|)
      ensures Held(dir) == if ok then old(Held(dir)) + {SegmentIndex(old(active), segBits)} else old(Held(dir))
      ensures Adrift(segments, dir) == old(Adrift(segments, dir))
    {
      hide *;
      Facts();
      var a := Addr(level, expansionIdx, mask0, mask1, active);
      InUseFacts(a, dir, segBits, contents, cRecords, clumps, refLog, handed);
      var dir', requests';
      ghost var segments';
      ok, dir', requests', segments' := MakeRoom(a, dir, segBits, heap, requests, contents, segments);
      MakeInUse(a, dir', segBits, contents, cRecords, clumps, refLog, handed);
      dir, requests, segments := dir', requests', segments';
      if ok {
        active := active + 1;
        MakeActivated();
      } else {
        MakeValid();
      }
    }

    /** Step the expansion index, and the level and masks when it completes a level. */
    method AdvanceSplit(ghost n: nat)
      modifies `level, `expansionIdx, `mask0, `mask1
      ensures Addr(level, expansionIdx, mask0, mask1, n + 1)
           == Expanded(Addr(old(level), old(expansionIdx), old(mask0), old(mask1), n))
    {
      hide Pow2, ExtendMask;
      expansionIdx := expansionIdx + 1;
      if expansionIdx == Pow2(level) {
        level := level + 1;
        expansionIdx := 0;
        mask0 := ExtendMask(mask0);
        mask1 := ExtendMask(mask0);
      }
    }

    /**
      Address the activated bucket, and move to it what belongs there. The clumps taken for it
      are `spare`, those left over are `freed`.
     */
    method SplitNext() returns (rc: ReturnCode, ghost spare: seq<Clump>, ghost freed: seq<Clump>)
      requires Activated()
      modifies `dir, `requests, `active, `level, `expansionIdx, `mask0, `mask1, `clumps, `segments
      ensures Valid()
      ensures rc.Success? || rc.AllocFail?
      ensures rc.AllocFail? <==> old(|ChainAt(dir, segBits, expansionIdx)|) > 1 && heap(old(requests)).None?
      ensures rc.Success? ==>
        Addr(level, expansionIdx, mask0, mask1, active) ==
        Expanded(old(Addr(level, expansionIdx, mask0, mask1, (active - 1) as nat)))
      ensures !rc.Success? ==>
        Addr(level, expansionIdx, mask0, mask1, active + 1) == old(Addr(level, expansionIdx, mask0, mask1, active))
      ensures !rc.Success? ==> RequestFailed(heap, old(requests), requests)
      ensures requests >= old(requests)
      ensures |spare| == if rc.Success? && old(|ChainAt(dir, segBits, expansionIdx)|) > 1 then 1 else 0
      ensures rc.Success? ==> Places(freed) <= InPlay(old(clumps), spare) && clumps == Without(InPlay(old(clumps), spare), freed)
      ensures !rc.Success? ==> freed == [] && clumps == old(clumps)
      ensures Held(dir) == old(Held(dir)) && |dir| == old(|dir|) && segments == old(segments)
    {
      hide *;
      ActivatedFacts();
      AskedCases();
      var a := Addr(level, expansionIdx, mask0, mask1, active - 1);
      InUseFacts(a, dir, segBits, contents, cRecords, clumps, refLog, handed);
      SplitFacts(a, dir, segBits, contents);
      var ok, list, requests' := PrimeSplit(Bucket(dir, segBits, expansionIdx), heap, requests);
      spare, freed := list, [];
      if !ok {
        active := active - 1;
        requests := requests';
        MakeValid();
        rc := AllocFail;
        return;
      }
      AdvanceSplit(a.active);
      var e := Addr(level, expansionIdx, mask0, mask1, active);
      var dir', rest := SplitBuckets(a, e, dir, segBits, list, contents, clumps);
      freed := rest;
      ghost var clumps' := Without(InPlay(clumps, spare), freed);
      MakeInUse(e, dir', segBits, contents, cRecords, clumps', refLog, handed);
      Resize(dir', requests', clumps', segments);
      rc := Success;
    }

    /**
      Grow the table by one bucket. An expansion that fails for lack of a clump keeps the
      segment it got, which is spare if the bucket would have been its first.
     */
    method Expand() returns (rc: ReturnCode, ghost spare: seq<Clump>, ghost freed: seq<Clump>)
      requires Valid()
      modifies `dir, `requests, `active, `level, `expansionIdx, `mask0, `mask1, `clumps, `segments
      ensures Valid()
      ensures rc.Success? || rc.AllocFail?
      ensures rc.Success? ==>
        Addr(level, expansionIdx, mask0, mask1, active) == Expanded(old(Addr(level, expansionIdx, mask0, mask1, active)))
      ensures !rc.Success? ==>
        Addr(level, expansionIdx, mask0, mask1, active) == old(Addr(level, expansionIdx, mask0, mask1, active))
      ensures requests >= old(requests)
      ensures rc.Success? ==> Places(freed) <= InPlay(old(clumps), spare) && clumps == Without(InPlay(old(clumps), spare), freed)
      ensures rc.Success? ==> |spare| == if old(|ChainAt(dir, segBits, expansionIdx)|) > 1 then 1 else 0
      ensures !rc.Success? ==> spare == freed == [] && clumps == old(clumps)
      ensures var g := GrowthOf(old(Addr(level, expansionIdx, mask0, mask1, active)), old(dir), segBits, heap, old(requests));
        && (rc.Success? <==> g.Grown?)
        && (g.AtLimit? ==> active >= MAX_DIRSIZE * Pow2(segBits) - 1)
        && (!rc.Success? && !g.AtLimit? ==> RequestFailed(heap, old(requests), requests))
        && |dir| == (if old(active >= |dir| * Pow2(segBits)) && !g.NoDirectory? && !g.AtLimit? then 2 * old(|dir|) else old(|dir|))
        && Spares(dir, segBits, active) ==
             (if g.NoClump? && SlotIndex(old(active), segBits) == 0
              then old(Spares(dir, segBits, active)) + {SegmentIndex(old(active), segBits)}
              else if g.Grown? then old(Spares(dir, segBits, active)) - {SegmentIndex(old(active), segBits)}
              else old(Spares(dir, segBits, active)))
      ensures Adrift(segments, dir) == old(Adrift(segments, dir))
    {
      hide *;
      spare, freed := [], [];
      ghost var a, dir0, from := Addr(level, expansionIdx, mask0, mask1, active), dir, requests;
      if active >= MAX_DIRSIZE * Pow2(segBits) - 1 {
        GrowthAtLimit(a, dir, segBits, heap, requests);
        return AllocFail, [], [];
      }
      var ok := Activate();
      if !ok {
        SameSpares(dir, dir0, segBits, active);
        return AllocFail, [], [];
      }
      ghost var mid, dir1 := requests, dir;
      rc, spare, freed := SplitNext();
      FailedLater(heap, from, mid, requests);
      ExpandedActive(a);
      GrownSpares(dir0, dir, segBits, a.active);
      SameHeld(dir1, dir, segments);
    }

    // ---------------------------------------------------------------- contraction

    /** Step the expansion index back, and the level and masks when it leaves a level. */
    method RetreatSplit(ghost n: nat)
      requires expansionIdx == 0 ==> level > 0
      requires n > 0
      modifies `level, `expansionIdx, `mask0, `mask1
      ensures Addr(level, expansionIdx, mask0, mask1, n - 1)
           == Contracted(Addr(old(level), old(expansionIdx), old(mask0), old(mask1), n))
    {
      hide Pow2;
      if expansionIdx > 0 {
        expansionIdx := expansionIdx - 1;
      } else {
        level := level - 1;
        expansionIdx := Pow2(level) - 1;
        mask0 := mask0 / 2;
        mask1 := mask1 / 2;
      }
    }

    /** The address variables have been stepped back from `a`, nothing else has changed. */
    ghost predicate SteppedBack(a: Addr)
      reads this
    {
      && maxLoad > 0.0 && state.Success? && |Held(dir)| <= segments
      && a.active > Pow2(segBits) && (a.expansionIdx == 0 ==> a.level > 0)
      && Addr(level, expansionIdx, mask0, mask1, active) == Contracted(a)
      && InUse(a, dir, segBits, contents, cRecords, clumps, refLog, handed)
    }

    lemma SteppedBackFacts(a: Addr)
      requires SteppedBack(a)
      ensures maxLoad > 0.0 && state.Success? && |Held(dir)| <= segments
      ensures a.active > Pow2(segBits) && (a.expansionIdx == 0 ==> a.level > 0)
      ensures Addr(level, expansionIdx, mask0, mask1, active) == Contracted(a)
      ensures Exact(a, dir, segBits, contents) && cRecords == |contents|
      ensures clumps == ClumpsOf(dir, segBits, a.active) && RefsOk(refLog, contents, handed)
      ensures InUse(a, dir, segBits, contents, cRecords, clumps, refLog, handed)
    {
      hide Exact, Contracted, ClumpsOf, RefsOk, Pow2;
    }

    /** Move the last bucket's records to its buddy, or undo the step if clumps are lacking. */
    method MergeLast(a: Addr) returns (rc: ReturnCode, ghost spare: seq<Clump>, ghost freed: seq<Clump>)
      requires SteppedBack(a)
      modifies `dir, `requests, `active, `level, `expansionIdx, `mask0, `mask1, `clumps, `segments
      ensures Valid()
      ensures rc.Success? || rc.AllocFail?
      ensures rc.Success? <==> Granted(heap, old(requests), DemandOf(a, old(dir), segBits))
      ensures rc.Success? ==>
        Addr(level, expansionIdx, mask0, mask1, active) == old(Addr(level, expansionIdx, mask0, mask1, active))
      ensures !rc.Success? ==> Addr(level, expansionIdx, mask0, mask1, active) == a
      ensures !rc.Success? ==> RequestFailed(heap, old(requests), requests)
      ensures requests >= old(requests)
      ensures rc.Success? ==> |spare| == DemandOf(a, old(dir), segBits) && clumps == Retired(old(clumps), spare, freed)
      ensures !rc.Success? ==> spare == freed && clumps == old(clumps) && dir == old(dir) && segments == old(segments)
      ensures rc.Success? ==>
        var lost := LostBy(old(dir), segBits, a.active, |dir|);
        && |dir| == (if Roomy(a, old(dir), segBits) && heap(old(requests) + DemandOf(a, old(dir), segBits)).Some?
                     then old(|dir|) / 2 else old(|dir|))
        && Adrift(segments, dir) == old(Adrift(segments, dir)) + |lost|
        && Spares(dir, segBits, active) == Spares(old(dir), segBits, a.active) - lost
    {
      hide *;
      SteppedBackFacts(a);
      MergeFacts(a, dir, segBits, contents);
      var c := Addr(level, expansionIdx, mask0, mask1, active);
      var ok, dir', requests';
      ghost var clumps', segments';
      ok, dir', requests', spare, freed, clumps', segments' :=
        FoldLast(a, c, dir, segBits, heap, requests, contents, clumps, segments);
      if !ok {
        // undo the changes to the state variables
        AdvanceSplit(c.active);
        active := active + 1;
        requests := requests';
        MakeValid();
        return AllocFail, spare, freed;
      }
      MakeInUse(c, dir', segBits, contents, cRecords, clumps', refLog, handed);
      Resize(dir', requests', clumps', segments');
      rc := Success;
    }

    /**
      Shrink the table by one bucket, whose records go to its buddy. The spare segments in the
      half of the directory that it may drop are lost, and no other segment is.
     */
    method Contract() returns (rc: ReturnCode, ghost spare: seq<Clump>, ghost freed: seq<Clump>)
      requires Valid()
      modifies `dir, `requests, `active, `level, `expansionIdx, `mask0, `mask1, `clumps, `segments
      ensures Valid()
      ensures rc.Success? || rc.AllocFail?
      ensures var demand := DemandOf(old(Addr(level, expansionIdx, mask0, mask1, active)), old(dir), segBits);
        && (rc.Success? <==> old(active) > Pow2(segBits) && Granted(heap, old(requests), demand))
        && (rc.Success? ==> |spare| == demand && clumps == Retired(old(clumps), spare, freed))
      ensures rc.Success? ==> (old(expansionIdx) == 0 ==> old(level) > 0)
      ensures rc.Success? ==>
        Addr(level, expansionIdx, mask0, mask1, active) ==
        Contracted(Addr(old(level), old(expansionIdx), old(mask0), old(mask1), old(active)))
      ensures !rc.Success? ==>
        Addr(level, expansionIdx, mask0, mask1, active) == old(Addr(level, expansionIdx, mask0, mask1, active))
      ensures !rc.Success? ==> RequestFailed(heap, old(requests), requests) || active <= Pow2(segBits)
      ensures requests >= old(requests)
      ensures !rc.Success? ==> spare == freed && clumps == old(clumps) && dir == old(dir) && segments == old(segments)
      ensures rc.Success? ==>
        var a := old(Addr(level, expansionIdx, mask0, mask1, active));
        var lost := LostBy(old(dir), segBits, a.active, |dir|);
        && |dir| == (if Roomy(a, old(dir), segBits) && heap(old(requests) + DemandOf(a, old(dir), segBits)).Some?
                     then old(|dir|) / 2 else old(|dir|))
        && Adrift(segments, dir) == old(Adrift(segments, dir)) + |lost|
        && Spares(dir, segBits, active) == old(Spares(dir, segBits, active)) - lost
    {
      hide *;
      spare, freed := [], [];
      if active <= Pow2(segBits) {
        rc := AllocFail;
        return;
      }
      Facts();
      var a := Addr(level, expansionIdx, mask0, mask1, active);
      InUseFacts(a, dir, segBits, contents, cRecords, clumps, refLog, handed);
      MergeFacts(a, dir, segBits, contents);
      RetreatSplit(a.active);
      active := active - 1;
      MakeSteppedBack(a);
      rc, spare, freed := MergeLast(a);
    }

    lemma MakeSteppedBack(a: Addr)
      requires maxLoad > 0.0 && state.Success? && |Held(dir)| <= segments
      requires a.active > Pow2(segBits) && (a.expansionIdx == 0 ==> a.level > 0)
      requires Addr(level, expansionIdx, mask0, mask1, active) == Contracted(a)
      requires InUse(a, dir, segBits, contents, cRecords, clumps, refLog, handed)
      ensures SteppedBack(a)
    {
      hide InUse, Contracted, Pow2;
    }

    // ---------------------------------------------------------------- load control

    /** Expand while the average chain is too long, as far as memory and size allow. */
    method GrowToLoad()
      requires Valid()
      modifies `dir, `requests, `active, `level, `expansionIdx, `mask0, `mask1, `clumps, `segments
      ensures Valid()
      ensures !Overloaded(cRecords, maxLoad, active) || RequestFailed(heap, old(requests), requests)
           || active >= MAX_DIRSIZE * Pow2(segBits) - 1
      ensures requests >= old(requests) && active >= old(active)
      ensures Adrift(segments, dir) == old(Adrift(segments, dir))
      ensures RequestFailed(heap, old(requests), requests) || Spares(dir, segBits, active) <= old(Spares(dir, segBits, active))
    {
      hide *;
      ghost var from, n := requests, cRecords;
      Facts();
      while Overloaded(cRecords, maxLoad, active)
        invariant Valid() && requests >= from && active >= old(active) && cRecords == n
        invariant Adrift(segments, dir) == old(Adrift(segments, dir))
        invariant RequestFailed(heap, from, requests) || Spares(dir, segBits, active) <= old(Spares(dir, segBits, active))
        decreases MAX_DIRSIZE * Pow2(segBits) - active
      {
        ghost var mid := requests;
        ghost var a := Addr(level, expansionIdx, mask0, mask1, active);
        ActiveBelowMax();
        var rc;
        ghost var spare, freed;
        rc, spare, freed := Expand();
        FailedLater(heap, from, mid, requests);
        FailedEarlier(heap, from, mid, requests);
        if !rc.Success? {
          break;
        }
        ExpandedActive(a);
      }
    }

    lemma ActiveBelowMax()
      requires Valid()
      ensures active < MAX_DIRSIZE * Pow2(segBits)
    {
      hide *;
      Facts();
      InUseFacts(Addr(level, expansionIdx, mask0, mask1, active), dir, segBits, contents, cRecords, clumps, refLog, handed);
      ShapeFacts(Addr(level, expansionIdx, mask0, mask1, active), dir, segBits, contents);
    }

    /** Contract while the table is too sparse, down to one segment. */
    method ShrinkToLoad()
      requires Valid()
      modifies `dir, `requests, `active, `level, `expansionIdx, `mask0, `mask1, `clumps, `segments
      ensures Valid()
      ensures !Sparse(cRecords, maxLoad, active) || active <= Pow2(segBits)
           || RequestFailed(heap, old(requests), requests)
      ensures old(LoadBounded(cRecords, maxLoad, active)) ==> LoadBounded(cRecords, maxLoad, active)
      ensures requests >= old(requests)
      ensures Spares(dir, segBits, active) <= old(Spares(dir, segBits, active))
      ensures Adrift(segments, dir) + |Spares(dir, segBits, active)| ==
              old(Adrift(segments, dir) + |Spares(dir, segBits, active)|)
    {
      hide *;
      ghost var from, n := requests, cRecords;
      ghost var bounded := LoadBounded(cRecords, maxLoad, active);
      while Sparse(cRecords, maxLoad, active) && active > Pow2(segBits)
        invariant Valid() && requests >= from && cRecords == n
        invariant bounded ==> LoadBounded(cRecords, maxLoad, active)
        invariant Spares(dir, segBits, active) <= old(Spares(dir, segBits, active))
        invariant Adrift(segments, dir) + |Spares(dir, segBits, active)| ==
                  old(Adrift(segments, dir) + |Spares(dir, segBits, active)|)
        decreases active
      {
        ghost var mid := requests;
        ghost var a, dir0 := Addr(level, expansionIdx, mask0, mask1, active), dir;
        var rc;
        ghost var spare, freed;
        rc, spare, freed := Contract();
        FailedLater(heap, from, mid, requests);
        if !rc.Success? {
          break;
        }
        ContractedActive(a);
        LostAreSpare(dir0, segBits, a.active, |dir|);
        SparseIsBounded(cRecords, maxLoad, a.active);
      }
    }

    /** Insert a record; the table grows if that makes the chains too long. */
    method InsertRecord(r: Record, sig: Signature, overwrite: bool) returns (rc: ReturnCode)
      requires Valid() && sig == CalcKeyHash(ExtractKey(r))
      modifies this
      ensures Valid()
      ensures rc.Success? || rc.KeyExists? || rc.AllocFail?
      ensures rc.KeyExists? <==> r.key.cls in old(contents) && !overwrite
      ensures rc.AllocFail? ==> r.key.cls !in old(contents) && RequestFailed(heap, old(requests), requests)
      ensures contents == if rc.Success? then old(contents)[r.key.cls := r] else old(contents)
      ensures refLog == old(refLog) + InsertCalls(rc, old(contents), r) && handed == old(handed)
      ensures rc.Success? ==>
        !Overloaded(cRecords, maxLoad, active) || RequestFailed(heap, old(requests), requests)
        || active >= MAX_DIRSIZE * Pow2(segBits) - 1
      ensures old(LoadBounded(cRecords, maxLoad, active)) ==>
        LoadBounded(cRecords, maxLoad, active) || RequestFailed(heap, old(requests), requests)
        || active >= MAX_DIRSIZE * Pow2(segBits) - 1
      ensures requests >= old(requests)
      ensures Adrift(segments, dir) == old(Adrift(segments, dir))
      ensures RequestFailed(heap, old(requests), requests) || Spares(dir, segBits, active) <= old(Spares(dir, segBits, active))
    {
      hide *;
      Facts();
      ghost var from, dir0 := requests, dir;
      rc := Store(r, sig, overwrite);
      SameHeld(dir0, dir, segments);
      SameSpares(dir0, dir, segBits, active);
      ghost var mid := requests;
      if rc.Success? {
        GrowToLoad();
        FailedLater(heap, from, mid, requests);
        WithinLoadIsBounded(cRecords, maxLoad, active);
      }
      FailedEarlier(heap, from, mid, requests);
    }

    // ---------------------------------------------------------------- look-up and deletion

    /** Find the record of a key; it is handed out with a reference of its own. */
    method FindKey(key: Key, sig: Signature) returns (rc: ReturnCode, rec: Option<Record>)
      requires Valid() && sig == CalcKeyHash(key)
      modifies `refLog, `handed
      ensures Valid()
      ensures rc == if key.cls in contents then Success else NoSuchKey
      ensures rec == if key.cls in contents then Some(contents[key.cls]) else None
      ensures key.cls in contents ==>
        refLog == old(refLog) + [RefCall(contents[key.cls], 1)] && handed == old(handed) + multiset{contents[key.cls]}
      ensures key.cls !in contents ==> refLog == old(refLog) && handed == old(handed)
    {
      hide *;
      Facts();
      var a := Addr(level, expansionIdx, mask0, mask1, active);
      InUseFacts(a, dir, segBits, contents, cRecords, clumps, refLog, handed);
      rec := LookUp(a, dir, segBits, key, sig, contents);
      if rec.None? {
        return NoSuchKey, None;
      }
      HandedRef(refLog, contents, handed, rec.value);
      MakeInUse(a, dir, segBits, contents, cRecords, clumps, refLog + [RefCall(rec.value, 1)], handed + multiset{rec.value});
      refLog, handed := refLog + [RefCall(rec.value, 1)], handed + multiset{rec.value};
      MakeValid();
      rc := Success;
    }

    /** Take the first wanted record out of the bucket a signature addresses. */
    method Remove(sig: Signature, wanted: Item -> bool) returns (found: Option<Record>)
      requires Valid()
      modifies `dir, `cRecords, `refLog, `contents, `clumps
      ensures Valid()
      ensures found.Some? ==>
        && old(Holds(contents, found.value))
        && wanted(NewItem(found.value))
        && contents == old(contents) - {found.value.key.cls}
        && refLog == old(refLog) + [RefCall(found.value, -1)]
      ensures found.None? ==>
        contents == old(contents) && refLog == old(refLog) && NoneLike(contents, sig, wanted)
      ensures found.Some? ==> cRecords + 1 == old(cRecords)
      ensures found.None? ==> cRecords == old(cRecords)
      ensures Held(dir) == old(Held(dir))
    {
      hide *;
      Facts();
      var a := Addr(level, expansionIdx, mask0, mask1, active);
      InUseFacts(a, dir, segBits, contents, cRecords, clumps, refLog, handed);
      var dir';
      ghost var clumps';
      found, dir', clumps' := RemoveFromBucket(a, dir, segBits, sig, wanted, contents, clumps);
      if found.Some? {
        ghost var m := contents - {found.value.key.cls};
        RemovedInUse(a, dir', segBits, contents, cRecords, clumps', refLog, handed, found.value);
        Update(dir', cRecords - 1, refLog + [RefCall(found.value, -1)], m, clumps');
      }
    }

    /** Delete the record of a key; the table shrinks if that leaves it too sparse. */
    method DeleteKey(key: Key, sig: Signature) returns (rc: ReturnCode)
      requires Valid() && sig == CalcKeyHash(key)
      modifies this
      ensures Valid() && handed == old(handed)
      ensures rc == if key.cls in old(contents) then Success else NoSuchKey
      ensures contents == old(contents) - {key.cls}
      ensures refLog == old(refLog) + DeleteCalls(rc, old(contents), key.cls)
      ensures rc.Success? ==>
        !Sparse(cRecords, maxLoad, active) || active <= Pow2(segBits) || RequestFailed(heap, old(requests), requests)
      ensures old(LoadBounded(cRecords, maxLoad, active)) ==> LoadBounded(cRecords, maxLoad, active)
      ensures requests >= old(requests)
      ensures Spares(dir, segBits, active) <= old(Spares(dir, segBits, active))
      ensures Adrift(segments, dir) + |Spares(dir, segBits, active)| ==
              old(Adrift(segments, dir) + |Spares(dir, segBits, active)|)
    {
      hide *;
      Facts();
      ghost var m, log, records, dir0 := contents, refLog, cRecords, dir;
      InUseFacts(Addr(level, expansionIdx, mask0, mask1, active), dir, segBits, contents, cRecords, clumps, refLog, handed);
      WellKeyed(Addr(level, expansionIdx, mask0, mask1, active), dir, segBits, contents);
      var found := Remove(sig, Wanting(sig, key));
      RemovedKey(m, key, sig, found);
      SameHeld(dir0, dir, segments);
      SameSpares(dir0, dir, segBits, active);
      DeleteCallsFacts(m, key.cls, log, found);
      rc := NoSuchKey;
      if found.Some? {
        FewerBounded(cRecords, records, maxLoad, active);
        ShrinkToLoad();
        rc := Success;
      }
    }

    /** Delete this very record, not merely one with an equal key. */
    method DeleteRecord(r: Record, sig: Signature) returns (rc: ReturnCode)
      requires Valid() && sig == CalcKeyHash(ExtractKey(r))
      modifies this
      ensures Valid() && handed == old(handed)
      ensures rc == if old(Holds(contents, r)) then Success else NoSuchKey
      ensures contents == if rc.Success? then old(contents) - {r.key.cls} else old(contents)
      ensures refLog == old(refLog) + DeleteCalls(rc, old(contents), r.key.cls)
      ensures rc.Success? ==>
        !Sparse(cRecords, maxLoad, active) || active <= Pow2(segBits) || RequestFailed(heap, old(requests), requests)
      ensures old(LoadBounded(cRecords, maxLoad, active)) ==> LoadBounded(cRecords, maxLoad, active)
      ensures requests >= old(requests)
      ensures Spares(dir, segBits, active) <= old(Spares(dir, segBits, active))
      ensures Adrift(segments, dir) + |Spares(dir, segBits, active)| ==
              old(Adrift(segments, dir) + |Spares(dir, segBits, active)|)
    {
      hide *;
      Facts();
      ghost var m, log, records, dir0 := contents, refLog, cRecords, dir;
      var found := Remove(sig, ThisRecord(r));
      RemovedRecord(m, r, sig, found);
      SameHeld(dir0, dir, segments);
      SameSpares(dir0, dir, segBits, active);
      DeleteCallsFacts(m, r.key.cls, log, found);
      rc := NoSuchKey;
      if found.Some? {
        FewerBounded(cRecords, records, maxLoad, active);
        ShrinkToLoad();
        rc := Success;
      }
    }

    // ---------------------------------------------------------------- sweep

    /** Ask a predicate about the records, and delete those it condemns. */
    method DeleteIf(pred: Predicate) returns (count: nat, asked: seq<Item>, stopped: bool)
      requires Valid()
      modifies `dir, `cRecords, `refLog, `contents, `clumps
      ensures Valid()
      ensures AskedOnce(asked, old(contents)) && (!stopped ==> AskedAll(asked, old(contents)))
      ensures stopped ==> asked != [] && Stops(pred(|asked| - 1, asked[|asked| - 1].rec))
      ensures AllGoOn(if stopped then asked[..|asked| - 1] else asked, pred, 0)
      ensures count == |Condemned(asked, pred, 0)| && cRecords + count == old(cRecords)
      ensures contents == old(contents) - KeysOf(Condemned(asked, pred, 0))
      ensures refLog == old(refLog) + Releases(Condemned(asked, pred, 0))
      ensures old(LoadBounded(cRecords, maxLoad, active)) ==> LoadBounded(cRecords, maxLoad, active)
      ensures Held(dir) == old(Held(dir))
    {
      hide *;
      Facts();
      var a := Addr(level, expansionIdx, mask0, mask1, active);
      InUseFacts(a, dir, segBits, contents, cRecords, clumps, refLog, handed);
      var dir';
      ghost var clumps';
      dir', asked, count, stopped, clumps' := SweepBuckets(a, dir, segBits, pred, contents, clumps);
      var gone := Condemned(asked, pred, 0);
      CondemnedHeld(asked, contents, pred);
      ReleasedRefs(refLog, contents, handed, gone);
      ghost var m := contents - KeysOf(gone);
      MakeInUse(a, dir', segBits, m, cRecords - count, clumps', refLog + Releases(gone), handed);
      FewerBounded(cRecords - count, cRecords, maxLoad, active);
      Update(dir', cRecords - count, refLog + Releases(gone), m, clumps');
    }
  }

  // ------------------------------------------------------------------ losing a segment

  /**
    In a table without spare segments, an expansion followed by a contraction loses a segment if
    and only if the expansion fails for lack of a clump at a segment's first bucket, and the
    contraction halves the directory to one that has no entry for that segment.
   */
  method ExpandAndContract(t: LinearHashTable) returns (grown: ReturnCode, shrunk: ReturnCode)
    requires t.Valid() && Spares(t.dir, t.segBits, t.active) == {}
    modifies t
    ensures t.Valid()
    ensures var g := GrowthOf(old(Addr(t.level, t.expansionIdx, t.mask0, t.mask1, t.active)), old(t.dir), t.segBits,
                              t.heap, old(t.requests));
      var seg := SegmentIndex(old(t.active), t.segBits);
      Adrift(t.segments, t.dir) == old(Adrift(t.segments, t.dir)) +
        if g.NoClump? && SlotIndex(old(t.active), t.segBits) == 0 && shrunk.Success? && seg >= |t.dir| then 1 else 0
  {
    hide *;
    ghost var seg := SegmentIndex(t.active, t.segBits);
    ghost var spare, freed;
    grown, spare, freed := t.Expand();
    ghost var a, dir := Addr(t.level, t.expansionIdx, t.mask0, t.mask1, t.active), t.dir;
    shrunk, spare, freed := t.Contract();
    assert {} + {seg} == {seg} && {} - {seg} == {};
    LostOfOne(dir, t.segBits, a.active, |t.dir|, seg);
  }

  lemma LostOfOne(dir: Directory, bits: nat, n: nat, size: nat, g: nat)
    ensures Spares(dir, bits, n) == {} ==> LostBy(dir, bits, n, size) == {}
    ensures Spares(dir, bits, n) == {g} ==> LostBy(dir, bits, n, size) == if g >= size then {g} else {}
  {}

  /**
    An expansion out of a full directory that is refused a clump, and then a contraction for
    which there is memory enough, lose the segment of the bucket that was not added.
   */
  method FailedExpansionLosesASegment(t: LinearHashTable)
    requires t.Valid() && t.active == |t.dir| * Pow2(t.segBits) < MAX_DIRSIZE * Pow2(t.segBits) - 1
    requires |ChainAt(t.dir, t.segBits, t.expansionIdx)| > 1
    requires forall n: nat :: n >= t.requests ==> (t.heap(n).None? <==> n == t.requests + 2)
    modifies t
    ensures t.Valid() && t.active == old(t.active) - 1
    ensures Adrift(t.segments, t.dir) == old(Adrift(t.segments, t.dir)) + 1
  {
    hide *;
    t.Facts();
    ghost var a, dir := Addr(t.level, t.expansionIdx, t.mask0, t.mask1, t.active), t.dir;
    InUseFacts(a, dir, t.segBits, t.contents, t.cRecords, t.clumps, t.refLog, t.handed);
    FullDirectory(a, dir, t.segBits, t.heap, t.requests, t.contents);
    ghost var from := t.requests;
    var grown;
    ghost var spare, freed;
    grown, spare, freed := t.Expand();
    ghost var b, wide := Addr(t.level, t.expansionIdx, t.mask0, t.mask1, t.active), t.dir;
    LostOfOne(wide, t.segBits, b.active, |dir|, |dir|);
    RoomyAgain(b, wide, |dir|, t.segBits);
    PastFailure(t.heap, from, t.requests);
    GrantedLater(t.heap, t.requests, DemandOf(b, wide, t.segBits));
    var shrunk;
    shrunk, spare, freed := t.Contract();
    ContractedActive(b);
  }

  /** Some full directory whose next split bucket has several clumps: 64 buckets, their records all in bucket 0. */
  method CrowdedTable() returns (a: Addr, dir: Directory, ghost m: Map)
    ensures Exact(a, dir, 3, m) && a.active == |dir| * Pow2(3) < MAX_DIRSIZE * Pow2(3) - 1
    ensures |ChainAt(dir, 3, a.expansionIdx)| > 1
  {
    hide *;
    a, m := Addr(6, 0, 63, 127, 64), map[];
    dir := seq(8, i => Some(NewSegment(3)));
    EmptyTable(a, dir);
    ghost var clumps := ClumpsOf(dir, 3, a.active);
    for id := 0 to NODES_PER_CLUMP + 1
      invariant Exact(a, dir, 3, m) && clumps == ClumpsOf(dir, 3, a.active) && |dir| == 8
      invariant |m| == id && forall c :: c in m ==> c.sig == 0 && c.id < id
    {
      var key := ZeroKey(id);
      var r := Record(id, key);
      assert key.cls !in m;
      var result, dir', used;
      ghost var clumps';
      result, dir', used, clumps' := InsertInBucket(a, dir, 3, r, CalcKeyHash(ExtractKey(r)), false, Some(id), m, clumps);
      dir, clumps, m := dir', clumps', m[key.cls := r];
    }
    AllInBucketZero(a, m);
    TooManyForOneClump(a, dir, 3, m, 0);
  }

  /** Keys whose signature is zero. */
  function ZeroKey(id: int): (key: Key)
    ensures key.cls.sig == 0 && key.cls.id == id
  {
    Key(KeyClass(id, 0), 0)
  }

  lemma EmptyTable(a: Addr, dir: Directory)
    requires a == Addr(6, 0, 63, 127, 64)
    requires |dir| == 8 && forall s :: 0 <= s < 8 ==> dir[s] == Some(NewSegment(3))
    ensures Exact(a, dir, 3, map[]) && 64 == 8 * Pow2(3) < MAX_DIRSIZE * Pow2(3) - 1
  {
    hide *;
    SixtyFour();
    SixtyFourBuckets(a);
    FreshState(a, dir, 3);
  }

  lemma SixtyFour()
    ensures Pow2(3) == 8 && InitialSegments(3, 64) == 8 && DirSize(8) && SegBits(3)
    ensures 64 == 8 * Pow2(3) < MAX_DIRSIZE * Pow2(3) - 1
  {
    assert Pow2(3) == 8;
    SlotInRange(64, 3);
    assert ShiftRight(64, 3) == 8;
    RoundedSegments(3, 64);
    MaxDirSize();
    hide InitialSegments, ShiftRight, SlotIndex;
  }

  lemma SixtyFourBuckets(a: Addr)
    requires a == Addr(6, 0, 63, 127, 64)
    ensures a.WellFormed()
  {
    assert Pow2(6) == 64;
  }

  lemma AllInBucketZero(a: Addr, m: Map)
    requires a.expansionIdx == 0 && forall c :: c in m ==> c.sig == 0
    ensures forall c :: c in m ==> a.BucketAddress(c.sig) == 0
  {}

  /** A bucket of more records than a clump has slots has more than one clump. */
  lemma TooManyForOneClump(a: Addr, dir: Directory, bits: nat, m: Map, b: nat)
    requires Exact(a, dir, bits, m) && b < a.active && |m| > NODES_PER_CLUMP
    requires forall c :: c in m ==> a.BucketAddress(c.sig) == b
    ensures |ChainAt(dir, bits, b)| > 1
  {
    ActiveBucket(a, dir, bits, m, b);
    var chain := ChainAt(dir, bits, b);
    var classes := set x | x in Items(chain) :: x.rec.key.cls;
    forall c | c in m ensures c in classes {
      assert HoldsKey(Items(chain), c);
    }
    hide Exact, ChainAt, Addr.BucketAddress, BucketOk;
    assert m.Keys <= classes;
    Fewer(m.Keys, classes);
    ClassCount(Items(chain));
    if |chain| == 1 { OneRow(chain); }
  }

  lemma Fewer<T>(x: set<T>, y: set<T>)
    requires x <= y
    ensures |x| <= |y|
  {
    assert y == x + (y - x);
  }

  lemma {:induction false} ClassCount(items: seq<Item>)
    ensures |set x | x in items :: x.rec.key.cls| <= |items|
  {
    var classes := set x | x in items :: x.rec.key.cls;
    if items != [] {
      var n := |items| - 1;
      ClassCount(items[..n]);
      var fewer := set x | x in items[..n] :: x.rec.key.cls;
      assert items == items[..n] + [items[n]];
      assert classes == fewer + {items[n].rec.key.cls};
    } else {
      assert classes == {};
    }
  }

  lemma OneRow(chain: seq<Clump>)
    requires Chain(chain) && |chain| == 1
    ensures |Items(chain)| <= NODES_PER_CLUMP
  {
    assert chain[0].Compact();
    assert Items(chain[..0]) == [];
  }

  lemma FullDirectory(a: Addr, dir: Directory, bits: nat, heap: nat -> Option<nat>, requests: nat, m: Map)
    requires Exact(a, dir, bits, m) && a.active == |dir| * Pow2(bits) < MAX_DIRSIZE * Pow2(bits) - 1
    requires |ChainAt(dir, bits, a.expansionIdx)| > 1
    requires heap(requests).Some? && heap(requests + 1).Some? && heap(requests + 2).None?
    ensures GrowthOf(a, dir, bits, heap, requests) == NoClump
    ensures Spares(dir, bits, a.active) == {}
    ensures SegmentIndex(a.active, bits) == |dir| && SlotIndex(a.active, bits) == 0
    ensures |dir| >= MIN_DIRSIZE && a.active > Pow2(bits)
  {
    hide *;
    ShapeFacts(a, dir, bits, m);
    FullIndex(|dir|, bits);
    NextNeeds(bits, a.active);
    NoneSpare(dir, bits, a.active);
    PastEnd(dir, bits, a.active);
    ManySegments(|dir|, bits);
    ThirdRefused(a, dir, bits, heap, requests);
  }

  lemma NoneSpare(dir: Directory, bits: nat, n: nat)
    requires InitialSegments(bits, n) >= |dir|
    ensures Spares(dir, bits, n) == {}
  {
    HeldBelow(dir);
    hide Held, InitialSegments;
  }

  lemma PastEnd(dir: Directory, bits: nat, n: nat)
    requires SegmentIndex(n, bits) >= |dir|
    ensures !Present(dir, bits, n)
  {
    hide SegmentIndex;
  }

  lemma ThirdRefused(a: Addr, dir: Directory, bits: nat, heap: nat -> Option<nat>, requests: nat)
    requires |dir| * Pow2(bits) <= a.active < MAX_DIRSIZE * Pow2(bits) - 1 && !Present(dir, bits, a.active)
    requires |ChainAt(dir, bits, a.expansionIdx)| > 1
    requires heap(requests).Some? && heap(requests + 1).Some? && heap(requests + 2).None?
    ensures GrowthOf(a, dir, bits, heap, requests) == NoClump
  {
    hide Present, ChainAt, Pow2;
  }

  lemma FullIndex(n: nat, bits: nat)
    ensures n * Pow2(bits) >= 0 && SegmentIndex(n * Pow2(bits), bits) == n && SlotIndex(n * Pow2(bits), bits) == 0
  {
    StartIndex(n, bits);
    SlotInRange(n * Pow2(bits), bits);
    hide SegmentIndex, SlotIndex, Pow2;
    RemainderUnique(n * Pow2(bits), Pow2(bits), n, 0);
  }

  lemma ManySegments(n: nat, bits: nat)
    requires n >= MIN_DIRSIZE
    ensures n * Pow2(bits) > Pow2(bits)
  {
    var p := Pow2(bits);
    assert n * p == (n - 2) * p + 2 * p;
  }

  lemma RoomyAgain(a: Addr, dir: Directory, n: nat, bits: nat)
    requires |dir| == 2 * n && n >= MIN_DIRSIZE && a.active == n * Pow2(bits)
    ensures Roomy(a, dir, bits) && |dir| / 2 == n
  {
    HalfProduct(2 * n, Pow2(bits));
  }

  lemma PastFailure(heap: nat -> Option<nat>, from: nat, to: nat)
    requires RequestFailed(heap, from, to)
    requires forall n: nat :: n >= from ==> (heap(n).None? <==> n == from + 2)
    ensures to > from + 2
  {}

  lemma GrantedLater(heap: nat -> Option<nat>, requests: nat, need: nat)
    requires forall n: nat :: n >= requests ==> heap(n).Some?
    ensures Granted(heap, requests, need) && heap(requests + need).Some?
  {}

  /** The initial number of buckets for each segment size. */
  function PresetSize(bits: nat): nat {
    if bits == 3 then 8 else if bits == 6 then 128 else if bits == 9 then 2048 else 0
  }

  lemma PresetIsInitial(bits: nat)
    requires SegBits(bits)
    ensures InitialSize(bits, PresetSize(bits))
  {
    PresetSizes();
  }

  lemma EmptyMap(m: Map)
    requires |m| == 0
    ensures m == map[]
  {
    assert m.Keys == {} by { assert |m.Keys| == 0; }
  }

  lemma NoneHeld(bits: nat)
    ensures Held([]) == {} && forall n: nat :: Spares([], bits, n) == {}
  {}

  lemma AdriftIs(segments: nat, dir: Directory)
    ensures Adrift(segments, dir) == segments - |Held(dir)|
  {}

  lemma LostAreSpare(dir: Directory, bits: nat, n: nat, size: nat)
    ensures LostBy(dir, bits, n, size) <= Spares(dir, bits, n)
    ensures |Spares(dir, bits, n) - LostBy(dir, bits, n, size)| == |Spares(dir, bits, n)| - |LostBy(dir, bits, n, size)|
  {}

  lemma NoReferences()
    ensures RefsOk([], map[], multiset{})
  {}
}
