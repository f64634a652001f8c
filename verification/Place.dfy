/** Writing one record at the end of a chain under construction. */
module Placing {
  import opened Records
  import opened Clumps

  /** A chain being written: its last clump is the target, `slot` the next slot to fill. */
  ghost predicate Writing(cs: seq<Clump>, slot: nat) {
    Chain(cs) && slot == |Row(cs[|cs| - 1].slots)|
  }

  /** Spare clumps: each from the heap. */
  ghost predicate Spare(free: seq<Clump>) {
    forall k :: 0 <= k < |free| ==> free[k].place.Heap?
  }

  /**
    Store a record in the next slot of the chain; when the last clump is full, take the
    first clump of the free list, clear it, link it in, and go on there.
   */
  method Place(target: seq<Clump>, slot: nat, free: seq<Clump>, item: Item)
    returns (target': seq<Clump>, slot': nat, free': seq<Clump>)
    requires Writing(target, slot) && Spare(free)
    requires slot == NODES_PER_CLUMP ==> free != []
    ensures Writing(target', slot') && Spare(free')
    ensures Items(target') == Items(target) + [item]
    ensures Places(target') + Places(free') == Places(target) + Places(free)
    ensures |target'| + |free'| == |target| + |free| && |target'| >= |target|
  {
    if slot == NODES_PER_CLUMP {
      var clump := free[0].Cleared();
      PutFresh(target, clump, item);
      Relink(target, free, clump.Put(0, item));
      target', slot', free' := target + [clump.Put(0, item)], 1, free[1..];
    } else {
      PutNext(target, item);
      var last := |target| - 1;
      target', slot', free' := target[last := target[last].Put(slot, item)], slot + 1, free;
    }
  }

  /** Moving the first spare clump behind a chain keeps every clump. */
  lemma Relink(target: seq<Clump>, free: seq<Clump>, c: Clump)
    requires free != [] && c.place == free[0].place
    ensures Places(target + [c]) + Places(free[1..]) == Places(target) + Places(free)
  {
    PlacesConcat(target, [c]);
    PlacesOne(c);
    PlacesFirst(free);
  }

  lemma PutNext(cs: seq<Clump>, item: Item)
    requires Chain(cs) && !Full(cs[|cs| - 1])
    ensures var n := |cs| - 1;
      var i := |Row(cs[n].slots)|;
      && i < |cs[n].slots|
      && Writing(cs[n := cs[n].Put(i, item)], i + 1)
      && Items(cs[n := cs[n].Put(i, item)]) == Items(cs) + [item]
      && Places(cs[n := cs[n].Put(i, item)]) == Places(cs)
  {
    var n := |cs| - 1;
    PutRow(cs[n], item);
    PutLast(cs, item);
    var c' := cs[n].Put(|Row(cs[n].slots)|, item);
    assert cs[n := c'][..n] == cs[..n];
  }

  /** A full chain followed by a non-empty heap clump is a chain. */
  lemma ChainSnoc(cs: seq<Clump>, c: Clump)
    requires Chain(cs) && Full(cs[|cs| - 1]) && c.Compact() && Row(c.slots) != [] && c.place.Heap?
    ensures Chain(cs + [c])
  {
    hide Row;
  }

  lemma PutFresh(cs: seq<Clump>, c: Clump, item: Item)
    requires Chain(cs) && Full(cs[|cs| - 1]) && c == c.Cleared() && c.place.Heap?
    ensures 0 < |c.slots|
    ensures Writing(cs + [c.Put(0, item)], 1)
    ensures Items(cs + [c.Put(0, item)]) == Items(cs) + [item]
  {
    ClearedRow(c);
    PutRow(c, item);
    var c' := c.Put(0, item);
    assert c'.Compact() && Row(c'.slots) == [item] && c'.place.Heap?;
    hide *;
    ChainSnoc(cs, c');
    ItemsSnoc(cs, c');
    assert (cs + [c'])[|cs + [c']| - 1] == c';
    StartWriting(cs + [c'], 1);
  }

  lemma StartWriting(cs: seq<Clump>, slot: nat)
    requires cs != [] && Chain(cs) && |Row(cs[|cs| - 1].slots)| == slot
    ensures Writing(cs, slot)
  {}

  // ------------------------------------------------------------------ scanning

  /** Slots before i have been emptied, the others are untouched. */
  ghost predicate Drained(clump: Clump, clump': Clump, i: nat) {
    && clump'.place == clump.place
    && |clump'.slots| == |clump.slots| == NODES_PER_CLUMP
    && forall k :: 0 <= k < NODES_PER_CLUMP ==> clump'.slots[k] == if k < i then None else clump.slots[k]
  }

  lemma RowStart(slots: seq<Option<Item>>, done: seq<Item>)
    ensures done + Row(slots[..0]) == done
  {}

  lemma RowStep(slots: seq<Option<Item>>, i: nat)
    requires i < |slots|
    ensures Row(slots[..i + 1]) == Row(slots[..i]) + if slots[i].Some? then [slots[i].value] else []
  {
    assert slots[..i + 1][..i] == slots[..i];
  }

  lemma ItemsStep(cs: seq<Clump>, j: nat)
    requires j < |cs| && Chain(cs)
    ensures Items(cs[..j + 1]) == Items(cs[..j]) + Row(cs[j].slots)
    ensures cs[j].place == Inline <==> j == 0
    ensures |cs[j].slots| == NODES_PER_CLUMP && |Row(cs[j].slots)| <= NODES_PER_CLUMP
    ensures |Items(cs[..j])| <= j * NODES_PER_CLUMP ==>
              && |Items(cs[..j])| + NODES_PER_CLUMP <= (j + 1) * NODES_PER_CLUMP
              && |Items(cs[..j + 1])| <= (j + 1) * NODES_PER_CLUMP
  {
    ItemsPrefix(cs, j);
    assert (j + 1) * NODES_PER_CLUMP == j * NODES_PER_CLUMP + NODES_PER_CLUMP;
    hide Items, Row;
  }

  lemma ItemsPrefix(cs: seq<Clump>, j: nat)
    requires j < |cs|
    ensures Items(cs[..j + 1]) == Items(cs[..j]) + Row(cs[j].slots)
  {
    assert cs[..j + 1][..j] == cs[..j];
    hide Row;
  }
}
