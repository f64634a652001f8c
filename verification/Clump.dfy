/**
  Node clumps and the bucket chains they form. A chain is the sequence of its clumps in
  link order: a clump's successor is the next element, the last clump has none.
 */
module Clumps {
  import opened Records

  type Positive = n: nat | n >= 1 witness 1

  /** Slots in a clump. Every result holds for any such number. */
  const NODES_PER_CLUMP: Positive

  /** Where a clump lives: inside its bucket (or on the stack), or at a heap address. */
  datatype Location = Inline | Heap(address: nat)

  /**
    A clump's slots. A slot's signature and record pointer are always set together and
    cleared together, so a slot holds an item or is empty.
   */
  datatype Clump = Clump(place: Location, slots: seq<Option<Item>>) {

    predicate IsEmptySlot(i: nat)
      requires i < |slots|
    {
      slots[i].None?
    }

    function Cleared(): Clump {
      Clump(place, EmptySlots())
    }

    function Put(i: nat, item: Item): Clump
      requires i < |slots|
    {
      Clump(place, slots[i := Some(item)])
    }

    function ClearSlot(i: nat): Clump
      requires i < |slots|
    {
      Clump(place, slots[i := None])
    }

    /** Occupied slots come first. */
    ghost predicate Compact() {
      |slots| == NODES_PER_CLUMP && forall i, j :: 0 <= i < j < |slots| && slots[j].Some? ==> slots[i].Some?
    }
  }

  function EmptySlots(): seq<Option<Item>> {
    seq(NODES_PER_CLUMP, i => None)
  }

  /** The items in a run of slots, in order. */
  function Row(slots: seq<Option<Item>>): (row: seq<Item>)
    ensures |row| <= |slots|
  {
    if slots == [] then []
    else
      var n := |slots| - 1;
      Row(slots[..n]) + (if slots[n].Some? then [slots[n].value] else [])
  }

  /** The items of a chain, in order. */
  function Items(cs: seq<Clump>): seq<Item> {
    if cs == [] then []
    else
      var n := |cs| - 1;
      Items(cs[..n]) + Row(cs[n].slots)
  }

  predicate Full(c: Clump) {
    |Row(c.slots)| == NODES_PER_CLUMP
  }

  /** A bucket chain: at least one clump, every clump compact, all but the last full. */
  ghost predicate Packed(cs: seq<Clump>) {
    && cs != []
    && (forall k :: 0 <= k < |cs| ==> cs[k].Compact())
    && (forall k :: 0 <= k < |cs| - 1 ==> Full(cs[k]))
  }

  /** No clump after the first is empty. */
  ghost predicate Trimmed(cs: seq<Clump>) {
    forall k :: 0 < k < |cs| ==> Row(cs[k].slots) != []
  }

  /** The first clump is the bucket's own, the others come from the heap. */
  ghost predicate Placed(cs: seq<Clump>) {
    cs != [] && cs[0].place == Inline && forall k :: 0 < k < |cs| ==> cs[k].place.Heap?
  }

  /** The state of every bucket chain between operations. */
  ghost predicate Chain(cs: seq<Clump>) {
    Packed(cs) && Trimmed(cs) && Placed(cs)
  }

  /** The clumps of a chain, with multiplicity. */
  function Places(cs: seq<Clump>): multiset<Location> {
    if cs == [] then multiset{} else Places(cs[..|cs| - 1]) + multiset{cs[|cs| - 1].place}
  }

  /** A bucket with no records. */
  function EmptyChain(): seq<Clump> {
    [Clump(Inline, EmptySlots())]
  }

  // ------------------------------------------------------------------ rows

  lemma {:induction false} RowConcat(a: seq<Option<Item>>, b: seq<Option<Item>>)
    ensures Row(a + b) == Row(a) + Row(b)
  {
    if b == [] {
      assert a + b == a;
    } else {
      var n := |b| - 1;
      assert (a + b)[..|a + b| - 1] == a + b[..n];
      RowConcat(a, b[..n]);
    }
  }

  lemma {:induction false} RowNone(slots: seq<Option<Item>>)
    requires forall i :: 0 <= i < |slots| ==> slots[i].None?
    ensures Row(slots) == []
  {
    if slots != [] { RowNone(slots[..|slots| - 1]); }
  }

  /** In a compact run the items are exactly the leading slots. */
  lemma {:induction false} CompactRow(slots: seq<Option<Item>>)
    requires forall i, j :: 0 <= i < j < |slots| && slots[j].Some? ==> slots[i].Some?
    ensures forall i :: 0 <= i < |slots| ==> (slots[i].Some? <==> i < |Row(slots)|)
    ensures forall i :: 0 <= i < |Row(slots)| ==> slots[i] == Some(Row(slots)[i])
  {
    if slots != [] {
      var n := |slots| - 1;
      CompactRow(slots[..n]);
      if slots[n].Some? && n > 0 { assert slots[..n][n - 1].Some?; }
    }
  }

  lemma {:induction false} RowIs(slots: seq<Option<Item>>, row: seq<Item>)
    requires |row| <= |slots|
    requires forall i :: 0 <= i < |slots| ==> slots[i] == if i < |row| then Some(row[i]) else None
    ensures Row(slots) == row
  {
    if slots != [] {
      var n := |slots| - 1;
      RowIs(slots[..n], if |row| <= n then row else row[..n]);
    }
  }

  lemma ClearedRow(c: Clump)
    ensures c.Cleared().Compact() && Row(c.Cleared().slots) == []
  {
    RowNone(EmptySlots());
  }

  /** Filling the first empty slot of a compact clump appends to its row. */
  lemma PutRow(c: Clump, item: Item)
    requires c.Compact() && !Full(c)
    ensures var i := |Row(c.slots)|;
      && i < |c.slots| && c.IsEmptySlot(i)
      && c.Put(i, item).Compact()
      && Row(c.Put(i, item).slots) == Row(c.slots) + [item]
  {
    CompactRow(c.slots);
    var row, i := Row(c.slots), |Row(c.slots)|;
    RowIs(c.Put(i, item).slots, row + [item]);
  }

  // ------------------------------------------------------------------ chains

  lemma {:induction false} ItemsConcat(a: seq<Clump>, b: seq<Clump>)
    ensures Items(a + b) == Items(a) + Items(b)
  {
    hide Row;
    if b == [] {
      assert a + b == a;
    } else {
      var n := |b| - 1;
      assert (a + b)[..|a + b| - 1] == a + b[..n];
      ItemsConcat(a, b[..n]);
    }
  }

  lemma ItemsSnoc(cs: seq<Clump>, c: Clump)
    ensures Items(cs + [c]) == Items(cs) + Row(c.slots)
  {
    assert (cs + [c])[..|cs|] == cs;
  }

  lemma ReplaceLast(cs: seq<Clump>, c: Clump)
    requires Packed(cs) && c.Compact()
    ensures Packed(cs[|cs| - 1 := c])
    ensures Items(cs[|cs| - 1 := c]) == Items(cs[..|cs| - 1]) + Row(c.slots)
  {
    hide Row;
    var n := |cs| - 1;
    assert cs[n := c][..n] == cs[..n];
  }

  /** Writing an item after the last one of a packed chain. */
  lemma PutLast(cs: seq<Clump>, item: Item)
    requires Packed(cs) && !Full(cs[|cs| - 1])
    ensures var n := |cs| - 1;
      var i := |Row(cs[n].slots)|;
      && i < |cs[n].slots|
      && Packed(cs[n := cs[n].Put(i, item)])
      && Items(cs[n := cs[n].Put(i, item)]) == Items(cs) + [item]
      && Row(cs[n].Put(i, item).slots) == Row(cs[n].slots) + [item]
  {
    var n := |cs| - 1;
    PutRow(cs[n], item);
    var i := |Row(cs[n].slots)|;
    var c' := cs[n].Put(i, item);
    ReplaceLast(cs, c');
  }

  /** A packed chain of k clumps has all but the last full. */
  lemma {:induction false} PackedCount(cs: seq<Clump>)
    requires Packed(cs)
    ensures |Items(cs)| == (|cs| - 1) * NODES_PER_CLUMP + |Row(cs[|cs| - 1].slots)|
  {
    var n := |cs| - 1;
    if n == 0 {
      assert cs[..0] == [];
    } else {
      PackedCount(cs[..n]);
      assert Full(cs[n - 1]);
      assert (n - 1) * NODES_PER_CLUMP + NODES_PER_CLUMP == n * NODES_PER_CLUMP;
    }
  }

  lemma {:induction false} PlacesConcat(a: seq<Clump>, b: seq<Clump>)
    ensures Places(a + b) == Places(a) + Places(b)
  {
    if b == [] {
      assert a + b == a;
    } else {
      var n := |b| - 1;
      assert (a + b)[..|a + b| - 1] == a + b[..n];
      PlacesConcat(a, b[..n]);
    }
  }

  lemma PlacesOne(c: Clump)
    ensures Places([c]) == multiset{c.place}
  {
    assert [c][..0] == [];
  }

  lemma PlacesFirst(cs: seq<Clump>)
    requires cs != []
    ensures Places(cs) == multiset{cs[0].place} + Places(cs[1..])
  {
    assert cs == [cs[0]] + cs[1..];
    PlacesConcat([cs[0]], cs[1..]);
    PlacesOne(cs[0]);
  }

  lemma EmptyChainIsChain()
    ensures Chain(EmptyChain()) && Items(EmptyChain()) == []
  {
    RowNone(EmptySlots());
    assert EmptyChain()[..0] == [];
  }
}
