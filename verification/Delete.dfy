/** Deleting one record from a chain, and sweeping a chain with a predicate. */
module Deleting {
  import opened Records
  import opened Clumps
  import opened Placing
  import opened Chains

  /** The last item fills the hole left by the one deleted. */
  function SwapRemove(items: seq<Item>, pos: nat): seq<Item>
    requires pos < |items|
  {
    items[pos := items[|items| - 1]][..|items| - 1]
  }

  /** All clumps before the last of a packed chain are full. */
  lemma {:induction false} FullPrefix(cs: seq<Clump>, k: nat)
    requires k <= |cs| && forall q :: 0 <= q < k ==> Full(cs[q])
    ensures |Items(cs[..k])| == k * NODES_PER_CLUMP
  {
    if k > 0 {
      FullPrefix(cs, k - 1);
      ItemsPrefix(cs, k - 1);
      assert |Row(cs[k - 1].slots)| == NODES_PER_CLUMP;
      Step(k, NODES_PER_CLUMP);
      hide *;
    }
  }

  lemma Step(k: int, n: int)
    ensures k * n == (k - 1) * n + n
  {}

  /** Where a caller's cursor (k, i) stands; past the end of a clump counts as its end. */
  function CursorPosition(cs: seq<Clump>, k: nat, i: int): int
    requires k <= |cs|
  {
    |Items(cs[..k])| + if i > NODES_PER_CLUMP then NODES_PER_CLUMP else i
  }

  /**
    Delete the item in slot i of clump k: move the chain's last item into the hole, free
    the last clump if that empties it, and step the caller's cursor back by one slot.
   */
  method DeleteNode(cs: seq<Clump>, k: nat, i: nat)
    returns (cs': seq<Clump>, k': nat, i': int, freed: seq<Clump>)
    requires Chain(cs) && k < |cs| && i < |Row(cs[k].slots)|
    ensures Position(cs, k, i) < |Items(cs)|
    ensures Chain(cs') && Items(cs') == SwapRemove(Items(cs), Position(cs, k, i))
    ensures Places(cs') + Places(freed) == Places(cs)
    ensures k' < |cs'| && -1 <= i' <= NODES_PER_CLUMP
    ensures CursorPosition(cs', k', i' + 1) == Position(cs, k, i)
    ensures i' + 1 < NODES_PER_CLUMP ==> i' + 1 <= |Row(cs'[k'].slots)|
    ensures i' + 1 >= NODES_PER_CLUMP ==> Full(cs'[k'])
  {
    var last, slot := LastUsed(cs, k, i);
    MoveFacts(cs, k, i, last, slot);
    hide *;
    var moved := cs[k := cs[k].Put(i, cs[last].slots[slot].value)];
    cs' := moved[last := moved[last].ClearSlot(slot)];
    // step the cursor back, so that the caller's next step returns to this spot
    k' := k;
    if i != 0 {
      i' := i - 1;
    } else if k == 0 {
      i' := -1;
    } else {
      i' := NODES_PER_CLUMP;
      k' := k - 1;
    }
    ghost var items := SwapRemove(Items(cs), Position(cs, k, i));
    freed := [];
    TrimFacts(cs, items, last, slot, cs');
    CursorFacts(cs, items, last, slot, cs', k, i);
    if slot == 0 && last != 0 {
      freed := [cs'[last]];
      cs' := cs'[..last];
    }
  }

  /** Freeing an emptied last clump, or keeping one that still holds items, leaves a chain. */
  lemma TrimFacts(cs: seq<Clump>, items: seq<Item>, last: nat, slot: nat, cs1: seq<Clump>)
    requires Compacted(cs, items, last, slot, cs1)
    ensures |cs1| == |cs| == last + 1
    ensures !(slot == 0 && last != 0) ==>
      Chain(cs1) && Items(cs1) == items && Places(cs1) + Places([]) == Places(cs)
    ensures slot == 0 && last != 0 ==>
      Chain(cs1[..last]) && Items(cs1[..last]) == items && Places(cs1[..last]) + Places([cs1[last]]) == Places(cs)
  {
    if slot == 0 && last != 0 {
      TrimLast(cs1);
    }
    hide Row, Items;
    assert Places([]) == multiset{};
  }

  lemma TrimLast(cs: seq<Clump>)
    requires Packed(cs) && Placed(cs) && |cs| > 1 && Row(cs[|cs| - 1].slots) == []
    requires forall q :: 0 < q < |cs| - 1 ==> Row(cs[q].slots) != []
    ensures Chain(cs[..|cs| - 1]) && Items(cs[..|cs| - 1]) == Items(cs)
    ensures Places(cs[..|cs| - 1]) + Places([cs[|cs| - 1]]) == Places(cs)
  {
    PrefixChain(cs);
    hide *;
    TrimItems(cs);
  }

  lemma PrefixChain(cs: seq<Clump>)
    requires Packed(cs) && Placed(cs) && |cs| > 1
    requires forall q :: 0 < q < |cs| - 1 ==> Row(cs[q].slots) != []
    ensures Chain(cs[..|cs| - 1])
  {
    hide Row;
  }

  lemma TrimItems(cs: seq<Clump>)
    requires cs != [] && Row(cs[|cs| - 1].slots) == []
    ensures Items(cs[..|cs| - 1]) == Items(cs)
    ensures Places(cs[..|cs| - 1]) + Places([cs[|cs| - 1]]) == Places(cs)
  {
    PlacesOne(cs[|cs| - 1]);
    hide Row;
  }

  /** The stepped-back cursor, advanced by one, stands where the deleted item was. */
  lemma CursorFacts(cs: seq<Clump>, items: seq<Item>, last: nat, slot: nat, cs1: seq<Clump>, k: nat, i: nat)
    requires Chain(cs) && k < |cs| && i < |Row(cs[k].slots)|
    requires Compacted(cs, items, last, slot, cs1) && (k == last ==> i <= slot)
    ensures var cs' := if slot == 0 && last != 0 then cs1[..last] else cs1;
      && (i != 0 || k == 0 ==>
            k < |cs'| && i <= |Row(cs'[k].slots)| && CursorPosition(cs', k, i) == Position(cs, k, i))
      && (i == 0 && k > 0 ==>
            k - 1 < |cs'| && Full(cs'[k - 1]) && CursorPosition(cs', k - 1, NODES_PER_CLUMP + 1) == Position(cs, k, i))
  {
    var cs' := if slot == 0 && last != 0 then cs1[..last] else cs1;
    assert |Row(cs[k].slots)| <= NODES_PER_CLUMP;
    assert k <= |cs'| && cs'[..k] == cs1[..k];
    assert k > 0 ==> cs'[..k - 1] == cs1[..k - 1];
    hide Row, Items, Trimmed, Placed, Clump.Compact;
    FullPrefix(cs, k);
    FullPrefix(cs1, k);
    if k > 0 {
      FullPrefix(cs1, k - 1);
      Step(k, NODES_PER_CLUMP);
    }
    hide Packed, Full;
  }

  /** The chain with the last item copied into the hole, and then its last slot blanked. */
  lemma MoveFacts(cs: seq<Clump>, k: nat, i: nat, last: nat, slot: nat)
    requires Chain(cs) && k < |cs| && i < |Row(cs[k].slots)|
    requires last == |cs| - 1 && slot == |Row(cs[last].slots)| - 1
    requires slot < |cs[last].slots| && cs[last].slots[slot] == Some(Items(cs)[|Items(cs)| - 1])
    ensures i < |cs[k].slots| && Position(cs, k, i) < |Items(cs)|
    ensures var moved := cs[k := cs[k].Put(i, cs[last].slots[slot].value)];
      slot < |moved[last].slots|
        && Compacted(cs, SwapRemove(Items(cs), Position(cs, k, i)), last, slot, moved[last := moved[last].ClearSlot(slot)])
  {
    var item := cs[last].slots[slot].value;
    ItemAt(cs, k, i);
    OverwriteRow(cs[k], i, item);
    hide *;
    Overwrite(cs, k, i, item);
    var moved := cs[k := cs[k].Put(i, item)];
    assert |Row(moved[last].slots)| == slot + 1;
    BlankChain(moved, slot);
    SameChain(cs, moved, SwapRemove(Items(cs), Position(cs, k, i)), last, slot, moved[last := moved[last].ClearSlot(slot)], k, i);
  }

  lemma SameChain(cs: seq<Clump>, moved: seq<Clump>, items: seq<Item>, last: nat, slot: nat, cs1: seq<Clump>, k: nat, i: nat)
    requires k < |cs| && Position(cs, k, i) < |Items(cs)|
    requires |moved| == |cs| == last + 1 && Places(moved) == Places(cs)
    requires Items(moved) == Items(cs)[Position(cs, k, i) := Items(cs)[|Items(cs)| - 1]]
    requires Compacted(moved, Items(moved)[..|Items(moved)| - 1], last, slot, cs1)
    requires items == SwapRemove(Items(cs), Position(cs, k, i))
    ensures Compacted(cs, items, last, slot, cs1)
  {
    hide Row, Items, Places, Packed, Placed, Position;
  }

  /** A chain that lost its last item: `slot` is now the number of items in its last clump. */
  ghost predicate Compacted(cs: seq<Clump>, items: seq<Item>, last: nat, slot: nat, cs1: seq<Clump>) {
    && |cs1| == |cs| == last + 1
    && Packed(cs1) && Placed(cs1) && Items(cs1) == items && Places(cs1) == Places(cs)
    && |Row(cs1[last].slots)| == slot
    && (forall q :: 0 < q < last ==> Row(cs1[q].slots) != [])
  }

  lemma BlankChain(cs: seq<Clump>, slot: nat)
    requires Chain(cs) && slot + 1 == |Row(cs[|cs| - 1].slots)|
    ensures slot < |cs[|cs| - 1].slots| && Items(cs) != []
    ensures Compacted(cs, Items(cs)[..|Items(cs)| - 1], |cs| - 1, slot, cs[|cs| - 1 := cs[|cs| - 1].ClearSlot(slot)])
  {
    var last := |cs| - 1;
    BlankLast(cs);
    assert Row(cs[last].slots) != [];
    LastItems(cs);
    hide Row, Items, Places;
    PlacesUpdate(cs, last, cs[last].ClearSlot(slot));
  }

  lemma LastItems(cs: seq<Clump>)
    requires cs != [] && Row(cs[|cs| - 1].slots) != []
    ensures |Items(cs)| >= |Row(cs[|cs| - 1].slots)| > 0
    ensures Items(cs)[|Items(cs)| - 1] == Row(cs[|cs| - 1].slots)[|Row(cs[|cs| - 1].slots)| - 1]
  {
    hide Row;
  }

  /** The last occupied slot of the chain, found from the slot to delete. */
  method LastUsed(cs: seq<Clump>, k: nat, i: nat) returns (last: nat, slot: nat)
    requires Chain(cs) && k < |cs| && i < |Row(cs[k].slots)|
    ensures last == |cs| - 1 && slot == |Row(cs[last].slots)| - 1
    ensures slot < |cs[last].slots| && cs[last].slots[slot] == Some(Items(cs)[|Items(cs)| - 1])
  {
    last, slot := k, i;
    while last != |cs| - 1
      invariant k <= last < |cs| && slot < |Row(cs[last].slots)|
    {
      last := last + 1;
      slot := 0;
    }
    LastItems(cs);
    CompactRow(cs[last].slots);
    hide Row, Items;
    while slot != NODES_PER_CLUMP && !cs[last].IsEmptySlot(slot)
      invariant slot <= |Row(cs[last].slots)| && slot <= NODES_PER_CLUMP
    {
      slot := slot + 1;
    }
    slot := slot - 1;
  }
}
