/** `_DeleteIf` on one bucket chain: a predicate sweep during which deletions move records about. */
module Sweeping {
  import opened Records
  import opened Clumps
  import opened Placing
  import opened Chains
  import opened Deleting

  /** What the caller's predicate may answer about a record. */
  datatype Verdict = Abort | NoAction | Perform | PerformStop | Delete | DeleteStop

  /** A predicate with state: its answer to the n-th question it is asked. */
  type Predicate = (nat, Record) -> Verdict

  predicate Deletes(v: Verdict) {
    v.Perform? || v.PerformStop? || v.Delete? || v.DeleteStop?
  }

  predicate Stops(v: Verdict) {
    v.Abort? || v.PerformStop? || v.DeleteStop?
  }

  /** The items the predicate spared, in the order asked; the first question has number `first`. */
  function Spared(asked: seq<Item>, pred: Predicate, first: nat): seq<Item> {
    if asked == [] then []
    else
      var n := |asked| - 1;
      Spared(asked[..n], pred, first)
        + (if Deletes(pred(first + n, asked[n].rec)) then [] else [asked[n]])
  }

  /** The items the predicate condemned, in the order asked. */
  function Condemned(asked: seq<Item>, pred: Predicate, first: nat): seq<Item> {
    if asked == [] then []
    else
      var n := |asked| - 1;
      Condemned(asked[..n], pred, first)
        + (if Deletes(pred(first + n, asked[n].rec)) then [asked[n]] else [])
  }

  lemma {:induction false} SparedOrCondemned(asked: seq<Item>, pred: Predicate, first: nat)
    ensures multiset(Spared(asked, pred, first)) + multiset(Condemned(asked, pred, first)) == multiset(asked)
  {
    if asked != [] {
      var n := |asked| - 1;
      SparedOrCondemned(asked[..n], pred, first);
      assert asked == asked[..n] + [asked[n]];
    }
  }

  /** Before the question at position p: everything earlier was asked about and spared. */
  ghost predicate Swept(items0: seq<Item>, items: seq<Item>, p: nat, asked: seq<Item>, pred: Predicate, first: nat) {
    && p <= |items|
    && items[..p] == Spared(asked, pred, first)
    && multiset(asked) + multiset(items[p..]) == multiset(items0)
  }

  lemma SweptStart(items: seq<Item>, pred: Predicate, first: nat)
    ensures Swept(items, items, 0, [], pred, first)
  {
    assert items[0..] == items;
  }

  lemma SweptKeep(items0: seq<Item>, items: seq<Item>, p: nat, asked: seq<Item>, pred: Predicate, first: nat)
    requires Swept(items0, items, p, asked, pred, first) && p < |items|
    requires !Deletes(pred(first + |asked|, items[p].rec))
    ensures Swept(items0, items, p + 1, asked + [items[p]], pred, first)
  {
    assert items[p..] == [items[p]] + items[p + 1..];
    assert items[..p + 1] == items[..p] + [items[p]];
    assert (asked + [items[p]])[..|asked|] == asked;
  }

  lemma SweptDelete(items0: seq<Item>, items: seq<Item>, p: nat, asked: seq<Item>, pred: Predicate, first: nat)
    requires Swept(items0, items, p, asked, pred, first) && p < |items|
    requires Deletes(pred(first + |asked|, items[p].rec))
    ensures Swept(items0, SwapRemove(items, p), p, asked + [items[p]], pred, first)
  {
    var items' := SwapRemove(items, p);
    assert (asked + [items[p]])[..|asked|] == asked;
    assert items'[..p] == items[..p];
    SwapRest(items, p);
  }

  lemma SwapRest(items: seq<Item>, p: nat)
    requires p < |items|
    ensures multiset(items[p..]) == multiset(SwapRemove(items, p)[p..]) + multiset{items[p]}
  {
    var n := |items| - 1;
    if p == n {
      assert items[p..] == [items[p]];
      assert SwapRemove(items, p)[p..] == [];
    } else {
      assert items[p..] == [items[p]] + items[p + 1..n] + [items[n]];
      assert SwapRemove(items, p)[p..] == [items[n]] + items[p + 1..n];
    }
  }

  /** When every item has been asked about, exactly the spared ones are left. */
  lemma SweptEnd(items0: seq<Item>, items: seq<Item>, asked: seq<Item>, pred: Predicate, first: nat)
    requires Swept(items0, items, |items|, asked, pred, first)
    ensures items == Spared(asked, pred, first) && multiset(asked) == multiset(items0)
  {
    assert items[|items|..] == [] && items[..|items|] == items;
  }

  /** A caller's cursor: before slot i of clump k, or past the end of a full clump k. */
  ghost predicate Cursor(cs: seq<Clump>, k: nat, i: int) {
    && Chain(cs) && k < |cs| && 0 <= i
    && (i < NODES_PER_CLUMP ==> i <= |Row(cs[k].slots)|)
    && (i >= NODES_PER_CLUMP ==> Full(cs[k]))
  }

  lemma CursorAt(cs: seq<Clump>, k: nat, i: nat)
    requires Cursor(cs, k, i) && i < NODES_PER_CLUMP
    ensures |cs[k].slots| == NODES_PER_CLUMP && CursorPosition(cs, k, i) == Position(cs, k, i)
    ensures cs[k].slots[i].None? ==> CursorPosition(cs, k, i) == |Items(cs)|
    ensures cs[k].slots[i].Some? ==> i < |Row(cs[k].slots)|
    ensures cs[k].slots[i].Some? ==>
      Position(cs, k, i) < |Items(cs)| && cs[k].slots[i].value == Items(cs)[Position(cs, k, i)]
  {
    CompactRow(cs[k].slots);
    hide Row, Items;
    if cs[k].slots[i].Some? {
      ItemAt(cs, k, i);
    } else {
      ItemsSplit(cs, k);
      EmptyTail(cs);
    }
  }

  lemma CursorStep(cs: seq<Clump>, k: nat, i: nat)
    requires Cursor(cs, k, i) && i < |Row(cs[k].slots)|
    ensures i < NODES_PER_CLUMP && Cursor(cs, k, i + 1)
    ensures CursorPosition(cs, k, i + 1) == CursorPosition(cs, k, i) + 1
  {
    hide Row, Items;
    assert |Row(cs[k].slots)| <= NODES_PER_CLUMP by { assert cs[k].Compact(); }
  }

  lemma CursorNextClump(cs: seq<Clump>, k: nat, i: int)
    requires Cursor(cs, k, i) && i >= NODES_PER_CLUMP
    ensures |Items(cs[..k + 1])| == CursorPosition(cs, k, i)
    ensures k + 1 < |cs| ==> Cursor(cs, k + 1, 0) && CursorPosition(cs, k + 1, 0) == CursorPosition(cs, k, i)
    ensures k + 1 == |cs| ==> CursorPosition(cs, k, i) == |Items(cs)|
  {
    ItemsPrefix(cs, k);
    if k + 1 == |cs| { assert cs[..k + 1] == cs; }
    hide Row, Items;
  }

  /** The sweep so far: what was asked, where the cursor stands, which clumps were freed. */
  ghost predicate Under(cs0: seq<Clump>, cs: seq<Clump>, k: nat, i: int, asked: seq<Item>, freed: seq<Clump>,
                        pred: Predicate, first: nat)
  {
    && Cursor(cs, k, i)
    && 0 <= CursorPosition(cs, k, i) <= |Items(cs)|
    && Swept(Items(cs0), Items(cs), CursorPosition(cs, k, i), asked, pred, first)
    && Places(cs) + Places(freed) == Places(cs0)
  }

  /** What a sweep leaves: complete, or stopped part of the way. */
  ghost predicate SweepResult(cs0: seq<Clump>, cs: seq<Clump>, asked: seq<Item>, freed: seq<Clump>, stopped: bool,
                              pred: Predicate, first: nat)
  {
    && Chain(cs)
    && Places(cs) + Places(freed) == Places(cs0)
    && (!stopped ==> Items(cs) == Spared(asked, pred, first) && multiset(asked) == multiset(Items(cs0)))
    && (exists p :: Swept(Items(cs0), Items(cs), p, asked, pred, first))
  }

  ghost function Remaining(cs: seq<Clump>, k: nat, i: int): int
    requires k <= |cs|
  {
    |Items(cs)| - CursorPosition(cs, k, i)
  }

  lemma AskFacts(cs0: seq<Clump>, cs: seq<Clump>, k: nat, i: nat, asked: seq<Item>, freed: seq<Clump>,
                 pred: Predicate, first: nat)
    requires k < |cs| && Under(cs0, cs, k, i, asked, freed, pred, first)
    requires i < NODES_PER_CLUMP && i < |cs[k].slots| && cs[k].slots[i].Some?
    ensures Chain(cs) && i < |Row(cs[k].slots)|
    ensures Position(cs, k, i) < |Items(cs)| && cs[k].slots[i].value == Items(cs)[Position(cs, k, i)]
    ensures Swept(Items(cs0), Items(cs), Position(cs, k, i), asked, pred, first)
    ensures Places(cs) + Places(freed) == Places(cs0)
    ensures Cursor(cs, k, i) && Remaining(cs, k, i) == |Items(cs)| - Position(cs, k, i)
  {
    CursorAt(cs, k, i);
    hide Row, Items, Swept, Places, Packed, Trimmed, Placed;
  }

  lemma AfterDelete(cs0: seq<Clump>, items: seq<Item>, p: nat, places: multiset<Location>,
                    asked: seq<Item>, freed: seq<Clump>, pred: Predicate, first: nat,
                    cs': seq<Clump>, k': nat, i': int, gone: seq<Clump>)
    requires p < |items| && places + Places(freed) == Places(cs0)
    requires Swept(Items(cs0), SwapRemove(items, p), p, asked, pred, first)
    requires Chain(cs') && Items(cs') == SwapRemove(items, p) && Places(cs') + Places(gone) == places
    requires k' < |cs'| && 0 <= i' <= NODES_PER_CLUMP + 1 && CursorPosition(cs', k', i') == p
    requires i' < NODES_PER_CLUMP ==> i' <= |Row(cs'[k'].slots)|
    requires i' >= NODES_PER_CLUMP ==> Full(cs'[k'])
    ensures Under(cs0, cs', k', i', asked, freed + gone, pred, first)
    ensures Remaining(cs', k', i') == |items| - 1 - p
  {
    PlacesConcat(freed, gone);
    hide Row, Items, Swept, Places, Chain, CursorPosition, Full;
    assert |SwapRemove(items, p)| == |items| - 1;
  }

  lemma AfterKeep(cs0: seq<Clump>, cs: seq<Clump>, k: nat, i: nat,
                  asked: seq<Item>, freed: seq<Clump>, pred: Predicate, first: nat)
    requires Cursor(cs, k, i) && i < |Row(cs[k].slots)| && Places(cs) + Places(freed) == Places(cs0)
    requires Position(cs, k, i) < |Items(cs)|
    requires Swept(Items(cs0), Items(cs), Position(cs, k, i) + 1, asked, pred, first)
    ensures Under(cs0, cs, k, i + 1, asked, freed, pred, first)
    ensures Remaining(cs, k, i + 1) == |Items(cs)| - Position(cs, k, i) - 1
  {
    CursorStep(cs, k, i);
    hide Row, Items, Swept, Places, Chain;
  }

  /** Delete the record under the cursor; the cursor then stands before whatever replaced it. */
  method DeleteStep(cs0: seq<Clump>, cs: seq<Clump>, k: nat, i: nat, freed: seq<Clump>,
                    pred: Predicate, first: nat, ghost asked: seq<Item>)
    returns (cs': seq<Clump>, k': nat, i': int, freed': seq<Clump>)
    requires Chain(cs) && k < |cs| && i < |Row(cs[k].slots)|
    requires Position(cs, k, i) < |Items(cs)| && Places(cs) + Places(freed) == Places(cs0)
    requires Swept(Items(cs0), SwapRemove(Items(cs), Position(cs, k, i)), Position(cs, k, i), asked, pred, first)
    ensures k' < |cs'| && 0 <= i' && Under(cs0, cs', k', i', asked, freed', pred, first)
    ensures Remaining(cs', k', i') == |Items(cs)| - Position(cs, k, i) - 1
  {
    hide *;
    var gone;
    cs', k', i', gone := DeleteNode(cs, k, i);
    freed' := freed + gone;
    i' := i' + 1;
    AfterDelete(cs0, Items(cs), Position(cs, k, i), Places(cs), asked, freed, pred, first, cs', k', i', gone);
  }

  /** Ask about the record under the cursor, delete it if condemned, and step the cursor. */
  method AskOne(cs0: seq<Clump>, cs: seq<Clump>, k: nat, i: nat, asked: seq<Item>, freed: seq<Clump>,
                pred: Predicate, first: nat)
    returns (cs': seq<Clump>, k': nat, i': int, asked': seq<Item>, freed': seq<Clump>)
    requires k < |cs| && Under(cs0, cs, k, i, asked, freed, pred, first)
    requires i < NODES_PER_CLUMP && i < |cs[k].slots| && cs[k].slots[i].Some?
    ensures asked' == asked + [cs[k].slots[i].value]
    ensures k' < |cs'| && 0 <= i' && Under(cs0, cs', k', i', asked', freed', pred, first)
    ensures 0 <= Remaining(cs', k', i') < Remaining(cs, k, i)
  {
    hide *;
    AskFacts(cs0, cs, k, i, asked, freed, pred, first);
    var item := cs[k].slots[i].value;
    asked' := asked + [item];
    if Deletes(pred(first + |asked|, item.rec)) {
      SweptDelete(Items(cs0), Items(cs), Position(cs, k, i), asked, pred, first);
      cs', k', i', freed' := DeleteStep(cs0, cs, k, i, freed, pred, first, asked');
    } else {
      SweptKeep(Items(cs0), Items(cs), Position(cs, k, i), asked, pred, first);
      cs', k', i', freed' := cs, k, i + 1, freed;
      AfterKeep(cs0, cs, k, i, asked', freed, pred, first);
    }
  }

  /**
    Sweep a chain: ask about each record from the first slot on, and delete those
    condemned. An Abort answer, or a Stop answer after its deletion, ends the sweep.
   */
  method SweepChain(cs0: seq<Clump>, pred: Predicate, first: nat)
    returns (cs: seq<Clump>, asked: seq<Item>, freed: seq<Clump>, stopped: bool)
    requires Chain(cs0)
    ensures SweepResult(cs0, cs, asked, freed, stopped, pred, first)
    ensures stopped ==> asked != [] && Stops(pred(first + |asked| - 1, asked[|asked| - 1].rec))
    ensures AllGoOn(if stopped then asked[..|asked| - 1] else asked, pred, first)
  {
    hide *;
    cs, asked, freed, stopped := cs0, [], [], false;
    var k: nat := 0;
    SweepStart(cs0, pred, first);
    while k < |cs|
      invariant k <= |cs| && Between(cs0, cs, k, asked, freed, pred, first)
      invariant AllGoOn(asked, pred, first)
      decreases ToGo(cs, k)
    {
      var i := 0;
      BetweenFacts(cs0, cs, k, asked, freed, pred, first);
      ghost var togo := ToGo(cs, k);
      while i < NODES_PER_CLUMP
        invariant k < |cs| && 0 <= i && Under(cs0, cs, k, i, asked, freed, pred, first)
        invariant AllGoOn(asked, pred, first)
        invariant (i == 0 && Remaining(cs, k, i) == togo) || 0 <= Remaining(cs, k, i) < togo
        decreases Remaining(cs, k, i)
      {
        SlotFacts(cs0, cs, k, i, asked, freed, pred, first);
        if cs[k].IsEmptySlot(i) {
          return;
        }
        var verdict := pred(first + |asked|, cs[k].slots[i].value.rec);
        cs, k, i, asked, freed := AskOne(cs0, cs, k, i, asked, freed, pred, first);
        if Stops(verdict) {
          stopped := true;
          StoppedResult(cs0, cs, k, i, asked, freed, pred, first);
          return;
        }
        GoneOn(asked, pred, first);
      }
      AfterClump(cs0, cs, k, i, asked, freed, pred, first);
      k := k + 1;
    }
    SweptAll(cs0, cs, asked, freed, pred, first);
  }

  /** Between clumps: the cursor stands before clump k, or at the end. */
  ghost predicate Between(cs0: seq<Clump>, cs: seq<Clump>, k: nat, asked: seq<Item>, freed: seq<Clump>,
                          pred: Predicate, first: nat)
  {
    && k <= |cs|
    && (k < |cs| ==> Under(cs0, cs, k, 0, asked, freed, pred, first))
    && (k == |cs| ==> Chain(cs) && Swept(Items(cs0), Items(cs), |Items(cs)|, asked, pred, first))
    && Places(cs) + Places(freed) == Places(cs0)
  }

  ghost function ToGo(cs: seq<Clump>, k: nat): int {
    if k < |cs| then Remaining(cs, k, 0) else -1
  }

  lemma BetweenFacts(cs0: seq<Clump>, cs: seq<Clump>, k: nat, asked: seq<Item>, freed: seq<Clump>,
                     pred: Predicate, first: nat)
    requires Between(cs0, cs, k, asked, freed, pred, first) && k < |cs|
    ensures Under(cs0, cs, k, 0, asked, freed, pred, first)
    ensures ToGo(cs, k) == Remaining(cs, k, 0) >= 0
  {
    hide Swept, Items, Places, Cursor, CursorPosition;
  }

  lemma SlotFacts(cs0: seq<Clump>, cs: seq<Clump>, k: nat, i: nat, asked: seq<Item>, freed: seq<Clump>,
                  pred: Predicate, first: nat)
    requires Under(cs0, cs, k, i, asked, freed, pred, first) && i < NODES_PER_CLUMP
    ensures k < |cs| && |cs[k].slots| == NODES_PER_CLUMP
    ensures cs[k].IsEmptySlot(i) ==> SweepResult(cs0, cs, asked, freed, false, pred, first)
    ensures !cs[k].IsEmptySlot(i) ==> cs[k].slots[i].Some?
    ensures Remaining(cs, k, i) >= 0
  {
    CursorAt(cs, k, i);
    hide Row, Items, Places, CursorPosition;
    if cs[k].IsEmptySlot(i) {
      SweptEnd(Items(cs0), Items(cs), asked, pred, first);
    }
  }

  lemma StoppedResult(cs0: seq<Clump>, cs: seq<Clump>, k: nat, i: int, asked: seq<Item>, freed: seq<Clump>,
                      pred: Predicate, first: nat)
    requires Under(cs0, cs, k, i, asked, freed, pred, first)
    ensures SweepResult(cs0, cs, asked, freed, true, pred, first)
  {
    hide Row, Items, Places, CursorPosition, Swept;
  }

  lemma GoneOn(asked: seq<Item>, pred: Predicate, first: nat)
    requires asked != [] && AllGoOn(asked[..|asked| - 1], pred, first)
    requires !Stops(pred(first + |asked| - 1, asked[|asked| - 1].rec))
    ensures AllGoOn(asked, pred, first)
  {}

  lemma AfterClump(cs0: seq<Clump>, cs: seq<Clump>, k: nat, i: int, asked: seq<Item>, freed: seq<Clump>,
                   pred: Predicate, first: nat)
    requires k < |cs| && Under(cs0, cs, k, i, asked, freed, pred, first) && i >= NODES_PER_CLUMP
    ensures Between(cs0, cs, k + 1, asked, freed, pred, first)
    ensures ToGo(cs, k + 1) <= Remaining(cs, k, i)
  {
    CursorNextClump(cs, k, i);
    hide Row, Items, Places, Swept;
  }

  lemma SweptAll(cs0: seq<Clump>, cs: seq<Clump>, asked: seq<Item>, freed: seq<Clump>, pred: Predicate, first: nat)
    requires Between(cs0, cs, |cs|, asked, freed, pred, first)
    ensures SweepResult(cs0, cs, asked, freed, false, pred, first)
  {
    SweptEnd(Items(cs0), Items(cs), asked, pred, first);
    hide Row, Items, Places, Swept;
  }

  predicate AllGoOn(asked: seq<Item>, pred: Predicate, first: nat) {
    forall n :: 0 <= n < |asked| ==> !Stops(pred(first + n, asked[n].rec))
  }

  lemma SweepStart(cs0: seq<Clump>, pred: Predicate, first: nat)
    requires Chain(cs0)
    ensures Under(cs0, cs0, 0, 0, [], [], pred, first)
    ensures Between(cs0, cs0, 0, [], [], pred, first) && AllGoOn([], pred, first)
  {
    SweptStart(Items(cs0), pred, first);
    assert Items(cs0[..0]) == [];
    assert Places([]) == multiset{};
    hide Row, Items, Swept;
  }
}
