/** Searching, inserting into and deleting from one bucket chain. */
module Chains {
  import opened Records
  import opened Clumps
  import opened Placing

  // ------------------------------------------------------------------ positions

  /** How many items precede slot i of clump k. */
  function Position(cs: seq<Clump>, k: nat, i: nat): nat
    requires k <= |cs|
  {
    |Items(cs[..k])| + i
  }

  lemma ItemsSplit(cs: seq<Clump>, k: nat)
    requires k < |cs|
    ensures Items(cs) == Items(cs[..k]) + Row(cs[k].slots) + Items(cs[k + 1..])
  {
    hide Row, Items;
    ItemsPrefix(cs, k);
    ItemsConcat(cs[..k + 1], cs[k + 1..]);
    assert cs == cs[..k + 1] + cs[k + 1..];
  }

  lemma ItemAt(cs: seq<Clump>, k: nat, i: nat)
    requires Packed(cs) && k < |cs| && i < |Row(cs[k].slots)|
    ensures Position(cs, k, i) < |Items(cs)|
    ensures cs[k].slots[i] == Some(Items(cs)[Position(cs, k, i)])
  {
    assert cs[k].Compact();
    hide *;
    CompactRowAt(cs[k], i);
    ItemsSplit(cs, k);
    PositionIs(cs, k, i);
    Middle(Items(cs[..k]), Row(cs[k].slots), Items(cs[k + 1..]), i);
  }

  lemma CompactRowAt(c: Clump, i: nat)
    requires c.Compact() && i < |Row(c.slots)|
    ensures i < |c.slots| && c.slots[i] == Some(Row(c.slots)[i])
  {
    CompactRow(c.slots);
  }

  lemma Middle<T>(a: seq<T>, r: seq<T>, b: seq<T>, i: nat)
    requires i < |r|
    ensures |a| + i < |a + r + b| && (a + r + b)[|a| + i] == r[i]
  {}

  lemma PositionIs(cs: seq<Clump>, k: nat, i: nat)
    requires k <= |cs|
    ensures Position(cs, k, i) == |Items(cs[..k])| + i
  {}

  /** Replacing the item in an occupied slot. */
  lemma Overwrite(cs: seq<Clump>, k: nat, i: nat, item: Item)
    requires Chain(cs) && k < |cs| && i < |Row(cs[k].slots)|
    ensures i < |cs[k].slots| && Position(cs, k, i) < |Items(cs)|
    ensures Chain(cs[k := cs[k].Put(i, item)])
    ensures Places(cs[k := cs[k].Put(i, item)]) == Places(cs)
    ensures Items(cs[k := cs[k].Put(i, item)]) == Items(cs)[Position(cs, k, i) := item]
  {
    OverwriteRow(cs[k], i, item);
    var c' := cs[k].Put(i, item);
    hide *;
    PlacesUpdate(cs, k, c');
    OverwriteChain(cs, k, c');
    ItemAt(cs, k, i);
    OverwriteItems(cs, k, i, c', item);
  }

  lemma OverwriteRow(c: Clump, i: nat, item: Item)
    requires c.Compact() && i < |Row(c.slots)|
    ensures i < |c.slots| && c.Put(i, item).Compact()
    ensures Row(c.Put(i, item).slots) == Row(c.slots)[i := item]
  {
    CompactRow(c.slots);
    RowIs(c.Put(i, item).slots, Row(c.slots)[i := item]);
    hide Row;
  }

  lemma OverwriteChain(cs: seq<Clump>, k: nat, c: Clump)
    requires Chain(cs) && k < |cs| && c.place == cs[k].place && c.Compact() && |Row(c.slots)| == |Row(cs[k].slots)|
    ensures Chain(cs[k := c])
  {
    hide Row;
  }

  lemma OverwriteItems(cs: seq<Clump>, k: nat, i: nat, c: Clump, item: Item)
    requires k < |cs| && i < |Row(cs[k].slots)| && Row(c.slots) == Row(cs[k].slots)[i := item]
    requires Position(cs, k, i) < |Items(cs)|
    ensures Items(cs[k := c]) == Items(cs)[Position(cs, k, i) := item]
  {
    hide Row, Items;
    var cs' := cs[k := c];
    ItemsSplit(cs, k);
    ItemsSplit(cs', k);
    assert cs'[..k] == cs[..k] && cs'[k + 1..] == cs[k + 1..];
  }

  lemma {:induction false} PlacesUpdate(cs: seq<Clump>, k: nat, c: Clump)
    requires k < |cs| && c.place == cs[k].place
    ensures Places(cs[k := c]) == Places(cs)
  {
    var n := |cs| - 1;
    if k < n {
      PlacesUpdate(cs[..n], k, c);
      assert cs[k := c][..n] == cs[..n][k := c];
    } else {
      assert cs[k := c][..n] == cs[..n];
    }
  }

  /** Blanking the last occupied slot of a chain. */
  lemma BlankLast(cs: seq<Clump>)
    requires Packed(cs) && Row(cs[|cs| - 1].slots) != []
    ensures var n := |cs| - 1;
      var i := |Row(cs[n].slots)| - 1;
      && i < |cs[n].slots|
      && Packed(cs[n := cs[n].ClearSlot(i)])
      && Items(cs[n := cs[n].ClearSlot(i)]) == Items(cs)[..|Items(cs)| - 1]
      && |Row(cs[n].ClearSlot(i).slots)| == i
  {
    var n := |cs| - 1;
    var i := |Row(cs[n].slots)| - 1;
    BlankRow(cs[n]);
    ItemsPrefix(cs, n);
    assert cs[..n + 1] == cs;
    var c' := cs[n].ClearSlot(i);
    assert Row(c'.slots) == Row(cs[n].slots)[..i];
    assert Items(cs) == Items(cs[..n]) + Row(cs[n].slots);
    hide Row, Items, Packed, Clump.Compact;
    ReplaceLast(cs, c');
  }

  lemma BlankRow(c: Clump)
    requires c.Compact() && Row(c.slots) != []
    ensures var i := |Row(c.slots)| - 1;
      i < |c.slots| && c.ClearSlot(i).Compact() && Row(c.ClearSlot(i).slots) == Row(c.slots)[..i]
  {
    CompactRow(c.slots);
    var i := |Row(c.slots)| - 1;
    RowIs(c.ClearSlot(i).slots, Row(c.slots)[..i]);
    hide Row;
  }

  // ------------------------------------------------------------------ scanning

  predicate Matches(item: Item, sig: Signature, key: Key) {
    item.sig == sig && EqualKeys(key, ExtractKey(item.rec))
  }

  /** Where a walk down a chain ended. */
  datatype Spot = At(k: nat, i: nat) | Vacant(k: nat, i: nat) | EndOfChain

  /** The walk stopped on an item wanted, having passed none before. */
  ghost predicate StoppedAt(cs: seq<Clump>, k: nat, i: nat, wanted: Item -> bool) {
    && k < |cs| && i < |Row(cs[k].slots)| && i < |cs[k].slots|
    && Position(cs, k, i) < |Items(cs)|
    && cs[k].slots[i] == Some(Items(cs)[Position(cs, k, i)])
    && wanted(Items(cs)[Position(cs, k, i)])
    && forall q :: 0 <= q < Position(cs, k, i) ==> !wanted(Items(cs)[q])
  }

  ghost predicate Ended(cs: seq<Clump>, spot: Spot, wanted: Item -> bool) {
    match spot
    case At(k, i) => StoppedAt(cs, k, i, wanted)
    case Vacant(k, i) =>
      && cs != [] && k == |cs| - 1 && i == |Row(cs[k].slots)| < NODES_PER_CLUMP
      && forall q :: 0 <= q < |Items(cs)| ==> !wanted(Items(cs)[q])
    case EndOfChain =>
      && cs != [] && Full(cs[|cs| - 1])
      && forall q :: 0 <= q < |Items(cs)| ==> !wanted(Items(cs)[q])
  }

  /** No wanted item among those before slot i of clump k. */
  ghost predicate Passed(cs: seq<Clump>, k: nat, i: nat, wanted: Item -> bool) {
    && k <= |cs|
    && forall q :: 0 <= q < Position(cs, k, i) && q < |Items(cs)| ==> !wanted(Items(cs)[q])
  }

  /**
    Walk the chain from its first slot to the first wanted item, stopping at the first
    empty slot.
   */
  method Walk(cs: seq<Clump>, wanted: Item -> bool) returns (spot: Spot)
    requires Chain(cs)
    ensures Ended(cs, spot, wanted)
  {
    hide Row, Items;
    var k := 0;
    StartWalk(cs, wanted);
    while k < |cs|
      invariant 0 <= k <= |cs| && Passed(cs, k, 0, wanted)
      invariant k > 0 ==> Full(cs[k - 1])
    {
      for i := 0 to NODES_PER_CLUMP
        invariant i <= |Row(cs[k].slots)| && Passed(cs, k, i, wanted)
      {
        AtSlot(cs, k, i, wanted);
        if cs[k].IsEmptySlot(i) {
          return Vacant(k, i);
        }
        if wanted(cs[k].slots[i].value) {
          return At(k, i);
        }
      }
      NextClump(cs, k, wanted);
      k := k + 1;
    }
    WalkedAll(cs, wanted);
    return EndOfChain;
  }

  lemma StartWalk(cs: seq<Clump>, wanted: Item -> bool)
    ensures Passed(cs, 0, 0, wanted)
  {
    assert Items(cs[..0]) == [];
  }

  /** An empty slot ends the chain; an occupied one holds the next item. */
  lemma AtSlot(cs: seq<Clump>, k: nat, i: nat, wanted: Item -> bool)
    requires Chain(cs) && k < |cs| && i < NODES_PER_CLUMP
    requires i <= |Row(cs[k].slots)| && Passed(cs, k, i, wanted)
    ensures i < |cs[k].slots|
    ensures cs[k].IsEmptySlot(i) ==> Ended(cs, Vacant(k, i), wanted)
    ensures cs[k].slots[i].Some? ==> i < |Row(cs[k].slots)|
    ensures cs[k].slots[i].Some? && wanted(cs[k].slots[i].value) ==> StoppedAt(cs, k, i, wanted)
    ensures cs[k].slots[i].Some? && !wanted(cs[k].slots[i].value) ==> Passed(cs, k, i + 1, wanted)
  {
    CompactRow(cs[k].slots);
    hide Row, Items;
    if cs[k].slots[i].Some? {
      OccupiedGoesOn(cs, k, i, wanted);
    } else {
      VacantEnds(cs, k, i, wanted);
    }
    hide *;
  }

  lemma OccupiedGoesOn(cs: seq<Clump>, k: nat, i: nat, wanted: Item -> bool)
    requires Chain(cs) && k < |cs| && i < |Row(cs[k].slots)| && Passed(cs, k, i, wanted)
    requires i < |cs[k].slots| && cs[k].slots[i].Some?
    ensures wanted(cs[k].slots[i].value) ==> StoppedAt(cs, k, i, wanted)
    ensures !wanted(cs[k].slots[i].value) ==> Passed(cs, k, i + 1, wanted)
  {
    hide Row, Items, Packed, Trimmed, Placed;
    ItemAt(cs, k, i);
  }

  lemma VacantEnds(cs: seq<Clump>, k: nat, i: nat, wanted: Item -> bool)
    requires Chain(cs) && k < |cs| && i == |Row(cs[k].slots)| < NODES_PER_CLUMP && Passed(cs, k, i, wanted)
    ensures Ended(cs, Vacant(k, i), wanted)
  {
    hide Row, Items;
    assert !Full(cs[k]);
    assert k == |cs| - 1;
    ItemsSplit(cs, k);
    EmptyTail(cs);
  }

  lemma EmptyTail(cs: seq<Clump>)
    ensures cs[|cs|..] == [] && Items(cs[|cs|..]) == []
  {}

  lemma NextClump(cs: seq<Clump>, k: nat, wanted: Item -> bool)
    requires Chain(cs) && k < |cs| && NODES_PER_CLUMP <= |Row(cs[k].slots)| && Passed(cs, k, NODES_PER_CLUMP, wanted)
    ensures Passed(cs, k + 1, 0, wanted) && Full(cs[k])
  {
    hide Row, Items;
    ItemsPrefix(cs, k);
  }

  lemma WalkedAll(cs: seq<Clump>, wanted: Item -> bool)
    requires Chain(cs) && Passed(cs, |cs|, 0, wanted) && Full(cs[|cs| - 1])
    ensures Ended(cs, EndOfChain, wanted)
  {
    hide Row, Items;
    assert cs[..|cs|] == cs;
  }

  // ------------------------------------------------------------------ inserting

  /** What an insertion into a chain came to; `pos` is where the key already was. */
  datatype Inserted = Added | Replaced(pos: nat, prior: Record) | KeyExists(pos: nat) | AllocFailed

  ghost predicate FirstMatch(items: seq<Item>, sig: Signature, key: Key, pos: nat) {
    && pos < |items| && Matches(items[pos], sig, key)
    && forall q :: 0 <= q < pos ==> !Matches(items[q], sig, key)
  }

  ghost predicate NoMatch(items: seq<Item>, sig: Signature, key: Key) {
    forall q :: 0 <= q < |items| ==> !Matches(items[q], sig, key)
  }

  /** The effect of an insertion on the items of a chain. */
  ghost predicate InsertSpec(items: seq<Item>, item: Item, overwrite: bool, result: Inserted, items': seq<Item>) {
    match result
    case Added => NoMatch(items, item.sig, item.rec.key) && items' == items + [item]
    case Replaced(pos, prior) =>
      overwrite && FirstMatch(items, item.sig, item.rec.key, pos) && prior == items[pos].rec && items' == items[pos := item]
    case KeyExists(pos) => !overwrite && FirstMatch(items, item.sig, item.rec.key, pos) && items' == items
    case AllocFailed => NoMatch(items, item.sig, item.rec.key) && items' == items
  }

  function Wanting(sig: Signature, key: Key): Item -> bool {
    x => Matches(x, sig, key)
  }

  /**
    Insert an item unless its key is present; with `overwrite` the item of that key is
    replaced. A full chain needs a new clump, at the address the allocator gave if any.
   */
  method InsertItem(cs: seq<Clump>, item: Item, overwrite: bool, alloc: Option<nat>)
    returns (result: Inserted, cs': seq<Clump>)
    requires Chain(cs)
    ensures Chain(cs')
    ensures InsertSpec(Items(cs), item, overwrite, result, Items(cs'))
    ensures result.AllocFailed? ==> alloc.None?
    ensures |cs'| == |cs| ==> Places(cs') == Places(cs)
    ensures |cs'| != |cs| ==> result.Added? && alloc.Some? && Places(cs') == Places(cs) + multiset{Heap(alloc.value)}
    ensures !result.Added? && !result.Replaced? ==> cs' == cs
  {
    var key := ExtractKey(item.rec);
    var spot := Walk(cs, Wanting(item.sig, key));
    SpotFacts(cs, item.sig, key, spot);
    hide *;
    cs' := cs;
    if spot.At? {
      var k, i := spot.k, spot.i;
      var pos := |Items(cs[..k])| + i;
      if overwrite {
        result := Replaced(pos, cs[k].slots[i].value.rec);
        Overwrite(cs, k, i, item);
        cs' := cs[k := cs[k].Put(i, item)];
      } else {
        result := KeyExists(pos);
      }
      PresentSpec(cs, k, i, item, overwrite, result, cs');
    } else {
      result := Added;
      if spot.Vacant? {
        PutNext(cs, item);
        cs' := cs[spot.k := cs[spot.k].Put(spot.i, item)];
      } else if alloc.None? {
        result := AllocFailed;
      } else {
        cs' := Extend(cs, item, alloc.value);
      }
      AbsentSpec(Items(cs), item, overwrite, result, Items(cs'));
    }
  }

  /** Attach a new clump holding the item to the end of a full chain. */
  method Extend(cs: seq<Clump>, item: Item, address: nat) returns (cs': seq<Clump>)
    requires Chain(cs) && Full(cs[|cs| - 1])
    ensures Chain(cs') && Items(cs') == Items(cs) + [item]
    ensures |cs'| == |cs| + 1 && Places(cs') == Places(cs) + multiset{Heap(address)}
  {
    var clump := Clump(Heap(address), EmptySlots());
    PutFresh(cs, clump, item);
    PlacesConcat(cs, [clump.Put(0, item)]);
    PlacesOne(clump.Put(0, item));
    cs' := cs + [clump.Put(0, item)];
    hide Chain, Items, Places;
  }

  lemma SpotFacts(cs: seq<Clump>, sig: Signature, key: Key, spot: Spot)
    requires Chain(cs) && Ended(cs, spot, Wanting(sig, key))
    ensures cs != []
    ensures spot.At? ==>
      && spot.k < |cs| && spot.i < |Row(cs[spot.k].slots)| && spot.i < |cs[spot.k].slots|
      && Position(cs, spot.k, spot.i) == |Items(cs[..spot.k])| + spot.i < |Items(cs)|
      && cs[spot.k].slots[spot.i] == Some(Items(cs)[Position(cs, spot.k, spot.i)])
      && FirstMatch(Items(cs), sig, key, Position(cs, spot.k, spot.i))
    ensures spot.Vacant? ==>
      && spot.k == |cs| - 1 && spot.i == |Row(cs[spot.k].slots)| < NODES_PER_CLUMP && !Full(cs[spot.k])
      && |cs[spot.k].slots| == NODES_PER_CLUMP
    ensures spot.EndOfChain? ==> Full(cs[|cs| - 1])
    ensures !spot.At? ==> NoMatch(Items(cs), sig, key)
  {
    hide Row, Items;
  }

  lemma PresentSpec(cs: seq<Clump>, k: nat, i: nat, item: Item, overwrite: bool, result: Inserted, cs': seq<Clump>)
    requires k < |cs| && i < |cs[k].slots| && Position(cs, k, i) < |Items(cs)|
    requires cs[k].slots[i] == Some(Items(cs)[Position(cs, k, i)])
    requires FirstMatch(Items(cs), item.sig, ExtractKey(item.rec), Position(cs, k, i))
    requires overwrite ==> result == Replaced(Position(cs, k, i), cs[k].slots[i].value.rec)
    requires overwrite ==> Items(cs') == Items(cs)[Position(cs, k, i) := item]
    requires !overwrite ==> result == KeyExists(Position(cs, k, i)) && cs' == cs
    ensures InsertSpec(Items(cs), item, overwrite, result, Items(cs'))
  {
    hide Items, Position;
  }

  lemma AbsentSpec(items: seq<Item>, item: Item, overwrite: bool, result: Inserted, items': seq<Item>)
    requires NoMatch(items, item.sig, ExtractKey(item.rec))
    requires (result == Added && items' == items + [item]) || (result == AllocFailed && items' == items)
    ensures InsertSpec(items, item, overwrite, result, items')
  {}
}
