/** Splitting one bucket's records between it and the newly activated bucket. */
module Splitting {
  import opened Records
  import opened Clumps
  import opened Placing
  import opened Addressing

  predicate Moves(item: Item, idx: nat, mask: nat, newBkt: nat) {
    SavedAddress(item.sig, idx, mask) == newBkt
  }

  /** The items that move to the new bucket, in their order. */
  function Moving(items: seq<Item>, idx: nat, mask: nat, newBkt: nat): seq<Item> {
    if items == [] then []
    else
      var n := |items| - 1;
      Moving(items[..n], idx, mask, newBkt) + (if Moves(items[n], idx, mask, newBkt) then [items[n]] else [])
  }

  /** The items that stay in the old bucket, in their order. */
  function Staying(items: seq<Item>, idx: nat, mask: nat, newBkt: nat): seq<Item> {
    if items == [] then []
    else
      var n := |items| - 1;
      Staying(items[..n], idx, mask, newBkt) + (if Moves(items[n], idx, mask, newBkt) then [] else [items[n]])
  }

  lemma {:induction false} SplitCounts(items: seq<Item>, idx: nat, mask: nat, newBkt: nat)
    ensures |Moving(items, idx, mask, newBkt)| + |Staying(items, idx, mask, newBkt)| == |items|
  {
    if items != [] { SplitCounts(items[..|items| - 1], idx, mask, newBkt); }
  }

  /** Splitting conserves the items. */
  lemma {:induction false} SplitConserves(items: seq<Item>, idx: nat, mask: nat, newBkt: nat)
    ensures multiset(Moving(items, idx, mask, newBkt)) + multiset(Staying(items, idx, mask, newBkt)) == multiset(items)
  {
    if items != [] {
      var n := |items| - 1;
      SplitConserves(items[..n], idx, mask, newBkt);
      assert items == items[..n] + [items[n]];
    }
  }

  lemma {:induction false} SplitMembers(items: seq<Item>, idx: nat, mask: nat, newBkt: nat, x: Item)
    ensures x in Moving(items, idx, mask, newBkt) <==> x in items && Moves(x, idx, mask, newBkt)
    ensures x in Staying(items, idx, mask, newBkt) <==> x in items && !Moves(x, idx, mask, newBkt)
  {
    if items != [] {
      var n := |items| - 1;
      SplitMembers(items[..n], idx, mask, newBkt, x);
      assert items == items[..n] + [items[n]];
    }
  }

  /**
    When a target chain's last clump is full while fewer than j clumps' worth of records
    have been placed, the two targets together have at most j clumps: with j + 1 clumps
    in hand, one is still spare.
   */
  lemma FullTargetLeavesOne(full: seq<Clump>, other: seq<Clump>, j: nat)
    requires Packed(full) && Full(full[|full| - 1]) && Packed(other)
    requires |Items(full)| + |Items(other)| < j * NODES_PER_CLUMP
    ensures |full| + |other| <= j
  {
    PackedCount(full);
    PackedCount(other);
    hide *;
    FewerClumps(|full|, |other| - 1, j, NODES_PER_CLUMP);
  }

  lemma FewerClumps(a: int, b: int, j: int, n: int)
    requires n > 0 && (a - 1) * n + n + b * n < j * n
    ensures a + b < j
  {
    assert (a - 1) * n + n + b * n == (a + b) * n;
    var d := a + b - j;
    assert d * n < 0;
  }

  /** Both target chains and the free list while a split is under way. */
  ghost predicate Distributing(o: seq<Clump>, iOld: nat, n: seq<Clump>, iNew: nat, free: seq<Clump>,
                               done: seq<Item>, idx: nat, mask: nat, newBkt: nat) {
    && Writing(o, iOld) && Writing(n, iNew) && Spare(free)
    && Items(o) == Staying(done, idx, mask, newBkt)
    && Items(n) == Moving(done, idx, mask, newBkt)
  }

  /** j + 1 clumps in hand before the j-th clump's worth of records is complete. */
  lemma SupplyLasts(o: seq<Clump>, iOld: nat, n: seq<Clump>, iNew: nat, free: seq<Clump>,
                    done: seq<Item>, idx: nat, mask: nat, newBkt: nat, j: nat)
    requires Distributing(o, iOld, n, iNew, free, done, idx, mask, newBkt)
    requires |done| < j * NODES_PER_CLUMP
    requires |o| + |n| + |free| >= j + 1
    ensures iOld == NODES_PER_CLUMP ==> free != []
    ensures iNew == NODES_PER_CLUMP ==> free != []
  {
    SplitCounts(done, idx, mask, newBkt);
    if iOld == NODES_PER_CLUMP { FullTargetLeavesOne(o, n, j); }
    if iNew == NODES_PER_CLUMP { FullTargetLeavesOne(n, o, j); }
  }

  /** All the clumps in play during a split. */
  function Pool(o: seq<Clump>, n: seq<Clump>, free: seq<Clump>): multiset<Location> {
    Places(o) + Places(n) + Places(free)
  }

  lemma Placed(o: seq<Clump>, o': seq<Clump>, n: seq<Clump>, n': seq<Clump>, free: seq<Clump>, free': seq<Clump>)
    requires
      || (n' == n && Places(o') + Places(free') == Places(o) + Places(free))
      || (o' == o && Places(n') + Places(free') == Places(n) + Places(free))
    ensures Pool(o', n', free') == Pool(o, n, free)
  {
    hide Places;
    assert Places(o) + Places(n) + Places(free) == (Places(o) + Places(free)) + Places(n)
        == Places(o) + (Places(n) + Places(free));
    assert Places(o') + Places(n') + Places(free') == (Places(o') + Places(free')) + Places(n')
        == Places(o') + (Places(n') + Places(free'));
  }

  lemma Moved(o: seq<Clump>, iOld: nat, n: seq<Clump>, iNew: nat, free: seq<Clump>, item: Item,
              n': seq<Clump>, iNew': nat, free': seq<Clump>,
              idx: nat, mask: nat, newBkt: nat, done: seq<Item>)
    requires Distributing(o, iOld, n, iNew, free, done, idx, mask, newBkt) && Moves(item, idx, mask, newBkt)
    requires Writing(n', iNew') && Spare(free') && Items(n') == Items(n) + [item]
    ensures Distributing(o, iOld, n', iNew', free', done + [item], idx, mask, newBkt)
  {
    hide Items, Writing, Spare;
    assert (done + [item])[..|done|] == done;
  }

  lemma Stayed(o: seq<Clump>, iOld: nat, n: seq<Clump>, iNew: nat, free: seq<Clump>, item: Item,
               o': seq<Clump>, iOld': nat, free': seq<Clump>,
               idx: nat, mask: nat, newBkt: nat, done: seq<Item>)
    requires Distributing(o, iOld, n, iNew, free, done, idx, mask, newBkt) && !Moves(item, idx, mask, newBkt)
    requires Writing(o', iOld') && Spare(free') && Items(o') == Items(o) + [item]
    ensures Distributing(o', iOld', n, iNew, free', done + [item], idx, mask, newBkt)
  {
    hide Items, Writing, Spare;
    assert (done + [item])[..|done|] == done;
  }

  /** Send one record to the target chain its signature selects. */
  method Scatter(o: seq<Clump>, iOld: nat, n: seq<Clump>, iNew: nat, free: seq<Clump>, item: Item,
                 idx: nat, mask: nat, newBkt: nat, ghost done: seq<Item>)
    returns (o': seq<Clump>, iOld': nat, n': seq<Clump>, iNew': nat, free': seq<Clump>)
    requires Distributing(o, iOld, n, iNew, free, done, idx, mask, newBkt)
    requires (iOld == NODES_PER_CLUMP || iNew == NODES_PER_CLUMP) ==> free != []
    ensures Distributing(o', iOld', n', iNew', free', done + [item], idx, mask, newBkt)
    ensures Pool(o', n', free') == Pool(o, n, free)
    ensures |o'| + |n'| + |free'| == |o| + |n| + |free|
  {
    hide Items, Writing, Spare, Staying, Moving, Places, Pool, SavedAddress;
    o', iOld', n', iNew', free' := o, iOld, n, iNew, free;
    if SavedAddress(item.sig, idx, mask) == newBkt {
      n', iNew', free' := Place(n, iNew, free, item);
      Moved(o, iOld, n, iNew, free, item, n', iNew', free', idx, mask, newBkt, done);
    } else {
      o', iOld', free' := Place(o, iOld, free, item);
      Stayed(o, iOld, n, iNew, free, item, o', iOld', free', idx, mask, newBkt, done);
    }
    Placed(o, o', n, n', free, free');
  }

  /** Distribute the records of one clump of the old chain, emptying its slots. */
  method ScatterClump(clump: Clump, o: seq<Clump>, iOld: nat, n: seq<Clump>, iNew: nat, free: seq<Clump>,
                      idx: nat, mask: nat, newBkt: nat, ghost done: seq<Item>, ghost j: nat)
    returns (clump': Clump, o': seq<Clump>, iOld': nat, n': seq<Clump>, iNew': nat, free': seq<Clump>)
    requires |clump.slots| == NODES_PER_CLUMP
    requires Distributing(o, iOld, n, iNew, free, done, idx, mask, newBkt)
    requires |done| + NODES_PER_CLUMP <= j * NODES_PER_CLUMP
    requires |o| + |n| + |free| >= j + 1
    ensures clump' == clump.Cleared()
    ensures Distributing(o', iOld', n', iNew', free', done + Row(clump.slots), idx, mask, newBkt)
    ensures Pool(o', n', free') == Pool(o, n, free)
    ensures |o'| + |n'| + |free'| == |o| + |n| + |free|
  {
    hide Distributing, Pool, Row;
    clump', o', iOld', n', iNew', free' := clump, o, iOld, n, iNew, free;
    ghost var out := done;
    RowStart(clump.slots, done);
    for i := 0 to NODES_PER_CLUMP
      invariant Drained(clump, clump', i)
      invariant out == done + Row(clump.slots[..i]) && |out| <= |done| + i
      invariant Distributing(o', iOld', n', iNew', free', out, idx, mask, newBkt)
      invariant Pool(o', n', free') == Pool(o, n, free)
      invariant |o'| + |n'| + |free'| == |o| + |n| + |free|
    {
      RowStep(clump.slots, i);
      if !clump'.IsEmptySlot(i) {
        var item := clump'.slots[i].value;
        SupplyLasts(o', iOld', n', iNew', free', out, idx, mask, newBkt, j);
        o', iOld', n', iNew', free' := Scatter(o', iOld', n', iNew', free', item, idx, mask, newBkt, out);
        out := out + [item];
        clump' := clump'.ClearSlot(i);
      }
    }
    assert clump.slots[..NODES_PER_CLUMP] == clump.slots;
  }

  /**
    Redistribute the records of the old bucket between it and the new one. The targets
    start from the two buckets' own clumps; clumps of the old chain join the free list
    once they have been scanned, and what is left over at the end is freed.
   */
  method SplitRecordSet(oldTarget: seq<Clump>, newTarget: seq<Clump>, idx: nat, mask: nat, newBkt: nat, spare: seq<Clump>)
    returns (o: seq<Clump>, n: seq<Clump>, freed: seq<Clump>)
    requires Chain(oldTarget) && Chain(newTarget)
    requires |newTarget| == 1 && Items(newTarget) == []
    requires Spare(spare) && (|oldTarget| > 1 ==> |spare| >= 1)
    ensures Chain(o) && Chain(n) && Spare(freed)
    ensures Items(o) == Staying(Items(oldTarget), idx, mask, newBkt)
    ensures Items(n) == Moving(Items(oldTarget), idx, mask, newBkt)
    ensures Pool(o, n, freed) == Pool(oldTarget, newTarget, spare)
  {
    // the old bucket's first clump is copied; its own place becomes the target
    var list := oldTarget;
    o, n := [oldTarget[0].Cleared()], [newTarget[0].Cleared()];
    var free := spare;
    var iOld, iNew := 0, 0;
    StartTargets(oldTarget, newTarget, spare, idx, mask, newBkt);
    assert Underway(oldTarget, newTarget, spare, 0, o, iOld, n, iNew, free, idx, mask, newBkt);
    ghost var j := 0;
    hide *;
    while list != []
      invariant 0 <= j <= |oldTarget| && list == oldTarget[j..]
      invariant Underway(oldTarget, newTarget, spare, j, o, iOld, n, iNew, free, idx, mask, newBkt)
      decreases |oldTarget| - j
    {
      BeforeClump(oldTarget, newTarget, spare, j, o, iOld, n, iNew, free, idx, mask, newBkt);
      ghost var o0, n0, free0 := o, n, free;
      var clump := list[0];
      clump, o, iOld, n, iNew, free :=
        ScatterClump(clump, o, iOld, n, iNew, free, idx, mask, newBkt, Items(oldTarget[..j]), j + 1);
      AfterClump(oldTarget, newTarget, spare, j, o0, n0, free0, clump, o, iOld, n, iNew, free, idx, mask, newBkt);
      list := list[1..];
      // the copy of the first clump is not a heap clump
      if clump.place != Inline {
        free := [clump] + free;
      }
      j := j + 1;
    }
    // delete any leftover clumps
    freed := free;
    AtEnd(oldTarget, newTarget, spare, o, iOld, n, iNew, free, idx, mask, newBkt);
  }

  /** The chains before the clump at index j is scanned. */
  ghost predicate Underway(oldTarget: seq<Clump>, newTarget: seq<Clump>, spare: seq<Clump>, j: nat,
                           o: seq<Clump>, iOld: nat, n: seq<Clump>, iNew: nat, free: seq<Clump>,
                           idx: nat, mask: nat, newBkt: nat)
  {
    && j <= |oldTarget|
    && Chain(oldTarget)
    && Distributing(o, iOld, n, iNew, free, Items(oldTarget[..j]), idx, mask, newBkt)
    && |Items(oldTarget[..j])| <= j * NODES_PER_CLUMP
    && |o| + |n| + |free| >= (if |oldTarget| == 1 then 2 else if j == 0 then 3 else j + 2)
    && Pool(o, n, free) + Places(oldTarget[if j == 0 then 1 else j..]) == Pool(oldTarget, newTarget, spare)
  }

  lemma StartTargets(oldTarget: seq<Clump>, newTarget: seq<Clump>, spare: seq<Clump>, idx: nat, mask: nat, newBkt: nat)
    requires Chain(oldTarget) && Chain(newTarget) && |newTarget| == 1 && Spare(spare)
    ensures Distributing([oldTarget[0].Cleared()], 0, [newTarget[0].Cleared()], 0, spare, Items(oldTarget[..0]), idx, mask, newBkt)
    ensures Pool([oldTarget[0].Cleared()], [newTarget[0].Cleared()], spare) + Places(oldTarget[1..])
         == Pool(oldTarget, newTarget, spare)
  {
    ClearedChain(oldTarget);
    ClearedChain(newTarget);
    PlacesFirst(oldTarget);
    assert newTarget[1..] == [];
    PlacesFirst(newTarget);
  }

  /** A bucket whose own clump has just been cleared. */
  lemma ClearedChain(cs: seq<Clump>)
    requires Chain(cs)
    ensures Writing([cs[0].Cleared()], 0) && Items([cs[0].Cleared()]) == []
    ensures Places([cs[0].Cleared()]) == multiset{cs[0].place}
  {
    ClearedRow(cs[0]);
    PlacesOne(cs[0].Cleared());
    ItemsSnoc([], cs[0].Cleared());
    assert [] + [cs[0].Cleared()] == [cs[0].Cleared()];
  }

  lemma BeforeClump(oldTarget: seq<Clump>, newTarget: seq<Clump>, spare: seq<Clump>, j: nat,
                    o: seq<Clump>, iOld: nat, n: seq<Clump>, iNew: nat, free: seq<Clump>, idx: nat, mask: nat, newBkt: nat)
    requires Underway(oldTarget, newTarget, spare, j, o, iOld, n, iNew, free, idx, mask, newBkt) && j < |oldTarget|
    ensures |oldTarget[j].slots| == NODES_PER_CLUMP
    ensures Distributing(o, iOld, n, iNew, free, Items(oldTarget[..j]), idx, mask, newBkt)
    ensures |Items(oldTarget[..j])| + NODES_PER_CLUMP <= (j + 1) * NODES_PER_CLUMP
    ensures |o| + |n| + |free| >= j + 2
    ensures Chain(oldTarget) && |Items(oldTarget[..j])| <= j * NODES_PER_CLUMP
    ensures |o| + |n| + |free| >= (if |oldTarget| == 1 then 2 else if j == 0 then 3 else j + 2)
    ensures Pool(o, n, free) + Places(oldTarget[if j == 0 then 1 else j..]) == Pool(oldTarget, newTarget, spare)
  {
    ItemsStep(oldTarget, j);
    hide *;
    assert |oldTarget| == 1 ==> j == 0;
  }

  lemma AfterClump(oldTarget: seq<Clump>, newTarget: seq<Clump>, spare: seq<Clump>, j: nat,
                   o: seq<Clump>, n: seq<Clump>, free: seq<Clump>, clump: Clump,
                   o': seq<Clump>, iOld': nat, n': seq<Clump>, iNew': nat, free': seq<Clump>,
                   idx: nat, mask: nat, newBkt: nat)
    requires j < |oldTarget| && Chain(oldTarget) && clump == oldTarget[j].Cleared()
    requires |Items(oldTarget[..j])| <= j * NODES_PER_CLUMP
    requires |o| + |n| + |free| >= (if |oldTarget| == 1 then 2 else if j == 0 then 3 else j + 2)
    requires Pool(o, n, free) + Places(oldTarget[if j == 0 then 1 else j..]) == Pool(oldTarget, newTarget, spare)
    requires Distributing(o', iOld', n', iNew', free', Items(oldTarget[..j]) + Row(oldTarget[j].slots), idx, mask, newBkt)
    requires Pool(o', n', free') == Pool(o, n, free)
    requires |o'| + |n'| + |free'| == |o| + |n| + |free|
    ensures clump.place == Inline <==> j == 0
    ensures Underway(oldTarget, newTarget, spare, j + 1, o', iOld', n', iNew',
                     if clump.place == Inline then free' else [clump] + free', idx, mask, newBkt)
  {
    ItemsStep(oldTarget, j);
    if j > 0 {
      assert Spare(free');
      Retire(o', n', free', oldTarget, j, clump);
    }
    hide Items, Row, Places, Pool, Staying, Moving, Writing, Chain;
  }

  lemma AtEnd(oldTarget: seq<Clump>, newTarget: seq<Clump>, spare: seq<Clump>,
              o: seq<Clump>, iOld: nat, n: seq<Clump>, iNew: nat, free: seq<Clump>, idx: nat, mask: nat, newBkt: nat)
    requires Underway(oldTarget, newTarget, spare, |oldTarget|, o, iOld, n, iNew, free, idx, mask, newBkt)
    ensures Chain(o) && Chain(n) && Spare(free)
    ensures Items(o) == Staying(Items(oldTarget), idx, mask, newBkt)
    ensures Items(n) == Moving(Items(oldTarget), idx, mask, newBkt)
    ensures Pool(o, n, free) == Pool(oldTarget, newTarget, spare)
  {
    assert oldTarget[..|oldTarget|] == oldTarget;
    assert oldTarget[|oldTarget|..] == [];
    assert Places([]) == multiset{};
    hide Items, Pool, Staying, Moving;
  }

  lemma Retire(o: seq<Clump>, n: seq<Clump>, free: seq<Clump>, cs: seq<Clump>, j: nat, c: Clump)
    requires 0 < j < |cs| && Chain(cs) && c.place == cs[j].place && Spare(free)
    ensures Spare([c] + free)
    ensures Pool(o, n, [c] + free) + Places(cs[j + 1..]) == Pool(o, n, free) + Places(cs[j..])
  {
    PlacesFirst(cs[j..]);
    assert cs[j..][1..] == cs[j + 1..];
    PlacesFirst([c] + free);
    assert ([c] + free)[1..] == free;
  }
}
