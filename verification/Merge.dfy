/** Merging the last bucket's records into its buddy when the table contracts. */
module Merging {
  import opened Records
  import opened Clumps
  import opened Placing
  import Bits

  /** Empty slots of a packed chain. */
  function Room(cs: seq<Clump>): int {
    |cs| * NODES_PER_CLUMP - |Items(cs)|
  }

  /** Records to move minus empty slots to receive them, counted slot by slot. */
  method Surplus(last: seq<Clump>, target: seq<Clump>) returns (c: int)
    requires Chain(last) && Chain(target)
    ensures c == |Items(last)| - Room(target)
  {
    c := 0;
    c := AddUsed(last, c);
    c := SubtractEmpty(target, c);
  }

  method AddUsed(cs: seq<Clump>, c0: int) returns (c: int)
    requires Chain(cs)
    ensures c == c0 + |Items(cs)|
  {
    c := c0;
    for k := 0 to |cs|
      invariant c == c0 + |Items(cs[..k])|
    {
      ItemsStep(cs, k);
      hide Items, Row, Chain;
      for i := 0 to NODES_PER_CLUMP
        invariant c == c0 + |Items(cs[..k])| + |Row(cs[k].slots[..i])|
      {
        RowStep(cs[k].slots, i);
        if !cs[k].IsEmptySlot(i) { c := c + 1; }
      }
      assert cs[k].slots[..NODES_PER_CLUMP] == cs[k].slots;
    }
    assert cs[..|cs|] == cs;
  }

  method SubtractEmpty(cs: seq<Clump>, c0: int) returns (c: int)
    requires Chain(cs)
    ensures c == c0 - Room(cs)
  {
    c := c0;
    for k := 0 to |cs|
      invariant c == c0 - (k * NODES_PER_CLUMP - |Items(cs[..k])|)
    {
      ItemsStep(cs, k);
      hide Items, Row, Chain;
      ghost var c1 := c;
      for i := 0 to NODES_PER_CLUMP
        invariant c == c1 - (i - |Row(cs[k].slots[..i])|)
      {
        RowStep(cs[k].slots, i);
        if cs[k].IsEmptySlot(i) { c := c - 1; }
      }
      assert cs[k].slots[..NODES_PER_CLUMP] == cs[k].slots;
      OneMore(k, NODES_PER_CLUMP);
    }
    assert cs[..|cs|] == cs;
  }

  lemma OneMore(k: int, n: int)
    ensures (k + 1) * n == k * n + n
  {}

  /** The first clump with an empty slot, or else the last one; and its first empty slot. */
  method FindRoom(target: seq<Clump>) returns (t: nat, slot: nat)
    requires Chain(target)
    ensures t == |target| - 1
    ensures Writing(target, slot)
  {
    t := 0;
    while t < |target| - 1
      invariant t <= |target| - 1
    {
      slot := FirstEmpty(target[t]);
      if slot == NODES_PER_CLUMP {
        t := t + 1;
      } else {
        break;
      }
    }
    slot := FirstEmpty(target[t]);
  }

  method FirstEmpty(c: Clump) returns (slot: nat)
    requires c.Compact()
    ensures slot == |Row(c.slots)| <= NODES_PER_CLUMP
  {
    CompactRow(c.slots);
    slot := 0;
    while slot < NODES_PER_CLUMP && !c.IsEmptySlot(slot)
      invariant slot <= |Row(c.slots)| && slot <= NODES_PER_CLUMP
    {
      slot := slot + 1;
    }
  }

  /**
    The target is full with g clumps added, done < min(total, (j + 1) clumps' worth) records
    moved, and c = total - room surplus records. Then with the spare clumps the surplus asks
    for and the ones retired so far, one is left.
   */
  lemma SurplusSuffices(size0: int, items0: int, g: int, done: int, total: int, spare: int, j: int, n: int)
    requires n > 0 && g >= 0 && j >= 0
    requires done < total && done < (j + 1) * n
    requires 0 <= items0 <= size0 * n
    requires (size0 + g) * n == items0 + done
    requires var c := total - (size0 * n - items0);
      (c > 0 ==> spare >= 1) && (c > n ==> spare >= 2)
    ensures spare + (if j == 0 then 0 else j - 1) - g >= 1
  {
    assert (size0 + g) * n == size0 * n + g * n;
    var c := total - (size0 * n - items0);
    assert g * n < c;
    AtMost(g, j, n);
    Bits.SmallMultiple(g, n);
  }

  lemma AtMost(g: int, j: int, n: int)
    requires n > 0 && g * n < (j + 1) * n
    ensures g <= j
  {
    assert (g - j - 1) * n == g * n - (j + 1) * n;
    Bits.SmallMultiple(g - j - 1, n);
  }

  /** The target chain and the free list while `done` of the old records have been moved. */
  ghost predicate Receiving(target0: seq<Clump>, done: seq<Item>, target: seq<Clump>, slot: nat, free: seq<Clump>) {
    && Writing(target, slot) && Spare(free)
    && Items(target) == Items(target0) + done
  }

  /** Clumps enough for the records still to come when `retired` old clumps have been scanned. */
  ghost predicate Supplied(target0: seq<Clump>, total: nat, spare: nat, target: seq<Clump>, free: seq<Clump>, j: nat) {
    && (total - Room(target0) > 0 ==> spare >= 1)
    && (total - Room(target0) > NODES_PER_CLUMP ==> spare >= 2)
    && |target| + |free| == |target0| + spare + (if j == 0 then 0 else j - 1)
    && |target| >= |target0|
  }

  lemma SupplyLasts(target0: seq<Clump>, total: nat, spare: nat, done: seq<Item>,
                    target: seq<Clump>, slot: nat, free: seq<Clump>, j: nat)
    requires Chain(target0)
    requires Receiving(target0, done, target, slot, free) && Supplied(target0, total, spare, target, free, j)
    requires |done| < total && |done| < (j + 1) * NODES_PER_CLUMP
    ensures slot == NODES_PER_CLUMP ==> free != []
  {
    if slot == NODES_PER_CLUMP {
      PackedCount(target);
      PackedCount(target0);
      assert |Row(target0[|target0| - 1].slots)| <= NODES_PER_CLUMP;
      assert |Items(target)| == |Items(target0)| + |done|;
      hide Items, Row, Chain;
      Arith(|target|, NODES_PER_CLUMP);
      Arith(|target0|, NODES_PER_CLUMP);
      SurplusSuffices(|target0|, |Items(target0)|, |target| - |target0|, |done|, total, spare, j, NODES_PER_CLUMP);
    }
  }

  lemma Arith(k: int, n: int)
    ensures (k - 1) * n + n == k * n
  {}

  /** Move the records of one clump of the old chain into the target. */
  method MoveClump(clump: Clump, target: seq<Clump>, slot: nat, free: seq<Clump>,
                   ghost target0: seq<Clump>, ghost done: seq<Item>, ghost total: nat, ghost spare: nat, ghost j: nat)
    returns (clump': Clump, target': seq<Clump>, slot': nat, free': seq<Clump>)
    requires |clump.slots| == NODES_PER_CLUMP && Chain(target0)
    requires Receiving(target0, done, target, slot, free) && Supplied(target0, total, spare, target, free, j)
    requires |done| + |Row(clump.slots)| <= total && |done| <= j * NODES_PER_CLUMP
    ensures clump' == clump.Cleared()
    ensures Receiving(target0, done + Row(clump.slots), target', slot', free')
    ensures Supplied(target0, total, spare, target', free', j)
    ensures forall rest :: Total(target', free', rest) == Total(target, free, rest)
  {
    hide Receiving, Supplied, Row, Places, Chain;
    clump', target', slot', free' := clump, target, slot, free;
    ghost var out := done;
    RowStart(clump.slots, done);
    for i := 0 to NODES_PER_CLUMP
      invariant Drained(clump, clump', i)
      invariant out == done + Row(clump.slots[..i]) && |out| <= |done| + i
      invariant Receiving(target0, out, target', slot', free')
      invariant Supplied(target0, total, spare, target', free', j)
      invariant Places(target') + Places(free') == Places(target) + Places(free)
    {
      RowStep(clump.slots, i);
      if !clump'.IsEmptySlot(i) {
        var item := clump'.slots[i].value;
        Counting(clump.slots, i, done, out, total, j);
        SupplyLasts(target0, total, spare, out, target', slot', free', j);
        target', slot', free' := MoveRecord(target', slot', free', item, target0, out, total, spare, j);
        out := out + [item];
        clump' := clump'.ClearSlot(i);
      }
    }
    assert clump.slots[..NODES_PER_CLUMP] == clump.slots;
  }

  lemma Counting(slots: seq<Option<Item>>, i: nat, done: seq<Item>, out: seq<Item>, total: nat, j: nat)
    requires i < |slots| == NODES_PER_CLUMP && slots[i].Some?
    requires out == done + Row(slots[..i]) && |out| <= |done| + i
    requires |done| + |Row(slots)| <= total && |done| <= j * NODES_PER_CLUMP
    ensures |out| < total && |out| < (j + 1) * NODES_PER_CLUMP
  {
    RowStep(slots, i);
    assert slots == slots[..i + 1] + slots[i + 1..];
    RowConcat(slots[..i + 1], slots[i + 1..]);
    assert (j + 1) * NODES_PER_CLUMP == j * NODES_PER_CLUMP + NODES_PER_CLUMP;
  }

  method MoveRecord(target: seq<Clump>, slot: nat, free: seq<Clump>, item: Item,
                    ghost target0: seq<Clump>, ghost done: seq<Item>, ghost total: nat, ghost spare: nat, ghost j: nat)
    returns (target': seq<Clump>, slot': nat, free': seq<Clump>)
    requires Receiving(target0, done, target, slot, free) && Supplied(target0, total, spare, target, free, j)
    requires slot == NODES_PER_CLUMP ==> free != []
    ensures Receiving(target0, done + [item], target', slot', free')
    ensures Supplied(target0, total, spare, target', free', j)
    ensures Places(target') + Places(free') == Places(target) + Places(free)
  {
    hide Writing, Spare, Items, Room, Places;
    target', slot', free' := Place(target, slot, free, item);
  }

  /**
    Append the records of the contracted bucket to its buddy. Clumps of the old chain join
    the free list once scanned; what is left over is freed. The old chain's first clump is
    a copy on the stack.
   */
  method MergeRecordSets(target0: seq<Clump>, oldList: seq<Clump>, spare: seq<Clump>)
    returns (target: seq<Clump>, freed: seq<Clump>)
    requires Chain(target0) && Chain(oldList) && Spare(spare)
    requires |Items(oldList)| - Room(target0) > 0 ==> |spare| >= 1
    requires |Items(oldList)| - Room(target0) > NODES_PER_CLUMP ==> |spare| >= 2
    ensures Chain(target) && Spare(freed)
    ensures Items(target) == Items(target0) + Items(oldList)
    ensures Places(target) + Places(freed) == Total(target0, spare, oldList[1..])
  {
    var t, slot := FindRoom(target0);
    target := target0;
    var list, free := oldList, spare;
    Begin(target0, oldList, spare, slot);
    ghost var j := 0;
    hide *;
    while list != []
      invariant 0 <= j <= |oldList| && list == oldList[j..]
      invariant Underway(target0, oldList, spare, j, target, slot, free)
      decreases |oldList| - j
    {
      BeforeClump(target0, oldList, spare, j, target, slot, free);
      ghost var target1, free1 := target, free;
      var clump := list[0];
      clump, target, slot, free :=
        MoveClump(clump, target, slot, free, target0, Items(oldList[..j]), |Items(oldList)|, |spare|, j);
      AfterClump(target0, oldList, spare, j, target1, free1, clump, target, slot, free);
      list := list[1..];
      if clump.place != Inline {
        free := [clump] + free;
      }
      j := j + 1;
    }
    freed := free;
    AtEnd(target0, oldList, spare, target, slot, free);
  }

  /** All the clumps in play during a merge. */
  function Total(target: seq<Clump>, free: seq<Clump>, rest: seq<Clump>): multiset<Location> {
    Places(target) + Places(free) + Places(rest)
  }

  /** The chains before the old clump at index j is scanned. */
  ghost predicate Underway(target0: seq<Clump>, oldList: seq<Clump>, spare: seq<Clump>, j: nat,
                           target: seq<Clump>, slot: nat, free: seq<Clump>)
  {
    && j <= |oldList| && Chain(oldList) && Chain(target0)
    && Receiving(target0, Items(oldList[..j]), target, slot, free)
    && |Items(oldList[..j])| <= j * NODES_PER_CLUMP
    && Supplied(target0, |Items(oldList)|, |spare|, target, free, j)
    && Total(target, free, oldList[if j == 0 then 1 else j..]) == Total(target0, spare, oldList[1..])
  }

  lemma Begin(target0: seq<Clump>, oldList: seq<Clump>, spare: seq<Clump>, slot: nat)
    requires Chain(oldList) && Writing(target0, slot) && Spare(spare)
    requires |Items(oldList)| - Room(target0) > 0 ==> |spare| >= 1
    requires |Items(oldList)| - Room(target0) > NODES_PER_CLUMP ==> |spare| >= 2
    ensures Underway(target0, oldList, spare, 0, target0, slot, spare)
  {
    assert Items(oldList[..0]) == [];
    assert Items(target0) + [] == Items(target0);
    hide Chain, Places, Items;
  }

  lemma BeforeClump(target0: seq<Clump>, oldList: seq<Clump>, spare: seq<Clump>, j: nat,
                    target: seq<Clump>, slot: nat, free: seq<Clump>)
    requires Underway(target0, oldList, spare, j, target, slot, free) && j < |oldList|
    ensures |oldList[j].slots| == NODES_PER_CLUMP && Chain(target0) && Chain(oldList)
    ensures Receiving(target0, Items(oldList[..j]), target, slot, free)
    ensures Supplied(target0, |Items(oldList)|, |spare|, target, free, j)
    ensures |Items(oldList[..j])| + |Row(oldList[j].slots)| <= |Items(oldList)|
    ensures |Items(oldList[..j])| <= j * NODES_PER_CLUMP
    ensures Total(target, free, oldList[if j == 0 then 1 else j..]) == Total(target0, spare, oldList[1..])
  {
    hide Items, Row, Receiving, Supplied, Chain, Places;
    ItemsStep(oldList, j);
    PrefixBound(oldList, j + 1);
  }

  lemma PrefixBound(cs: seq<Clump>, j: nat)
    requires j <= |cs|
    ensures |Items(cs[..j])| <= |Items(cs)|
  {
    hide Items;
    ItemsConcat(cs[..j], cs[j..]);
    assert cs == cs[..j] + cs[j..];
  }

  lemma AfterClump(target0: seq<Clump>, oldList: seq<Clump>, spare: seq<Clump>, j: nat,
                   target: seq<Clump>, free: seq<Clump>, clump: Clump,
                   target': seq<Clump>, slot': nat, free': seq<Clump>)
    requires j < |oldList| && Chain(oldList) && Chain(target0) && clump == oldList[j].Cleared()
    requires |Items(oldList[..j])| <= j * NODES_PER_CLUMP
    requires Total(target, free, oldList[if j == 0 then 1 else j..]) == Total(target0, spare, oldList[1..])
    requires Receiving(target0, Items(oldList[..j]) + Row(oldList[j].slots), target', slot', free')
    requires Supplied(target0, |Items(oldList)|, |spare|, target', free', j)
    requires forall rest :: Total(target', free', rest) == Total(target, free, rest)
    ensures clump.place == Inline <==> j == 0
    ensures Underway(target0, oldList, spare, j + 1, target', slot',
                     if clump.place == Inline then free' else [clump] + free')
  {
    hide Items, Row, Places, Chain, Writing;
    ItemsStep(oldList, j);
    if j > 0 {
      Retire(target', free', oldList, j, clump);
    }
    hide Total, Receiving, Spare;
    Extended(target0, Items(oldList[..j]), Row(oldList[j].slots), target', slot', free', clump);
  }

  lemma Extended(target0: seq<Clump>, done: seq<Item>, row: seq<Item>, target: seq<Clump>, slot: nat, free: seq<Clump>, clump: Clump)
    requires Receiving(target0, done + row, target, slot, free)
    ensures clump.place.Heap? ==> Receiving(target0, done + row, target, slot, [clump] + free)
  {
    hide Writing, Items;
  }

  lemma Retire(target: seq<Clump>, free: seq<Clump>, cs: seq<Clump>, j: nat, c: Clump)
    requires 0 < j < |cs| && c.place == cs[j].place
    ensures Total(target, [c] + free, cs[j + 1..]) == Total(target, free, cs[j..])
  {
    PlacesFirst(cs[j..]);
    assert cs[j..][1..] == cs[j + 1..];
    PlacesFirst([c] + free);
    assert ([c] + free)[1..] == free;
  }

  lemma AtEnd(target0: seq<Clump>, oldList: seq<Clump>, spare: seq<Clump>, target: seq<Clump>, slot: nat, free: seq<Clump>)
    requires Underway(target0, oldList, spare, |oldList|, target, slot, free)
    ensures Chain(target) && Spare(free)
    ensures Items(target) == Items(target0) + Items(oldList)
    ensures Places(target) + Places(free) == Total(target0, spare, oldList[1..])
  {
    assert oldList[..|oldList|] == oldList;
    assert oldList[|oldList|..] == [];
    assert Places([]) == multiset{};
    hide Items, Places;
  }
}
