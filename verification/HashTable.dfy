/** The hash table proper, CLKRHashTable: keys are divided among linear hash tables. */
module HashTables {
  import opened Bits
  import opened Records
  import opened Addressing
  import opened Directories
  import opened Contents
  import opened References
  import opened LoadControl
  import opened BucketSteps
  import opened Relocations
  import opened Sweeping
  import opened Purging
  import opened TableSweeps
  import opened TableResets
  import opened LinearTables

  // ------------------------------------------------------------------ routing

  /** Multiply and add in 32-bit arithmetic. */
  function Mix(sig: nat, factor: nat, addend: nat): nat {
    (sig * factor + addend) % WORD_RANGE
  }

  /** The scrambled signature: high bits of one product, high bits of another. */
  function Scramble(sig: nat): nat {
    Or(ShiftRight(Mix(sig, 1048583, 12345), 16), And(Mix(sig, 69069, 1), 0xffff_0000))
  }

  /** The mask for n subtables: n - 1 for a power of two, else -1. */
  function SubTableMask(n: nat): int
    requires n > 0
  {
    if And(n - 1, n) != 0 then -1 else n - 1
  }

  /** The subtable of a signature: masked when there is a mask, else by remainder. */
  function SubTableIndex(sig: nat, mask: int, n: nat): nat
    requires n > 0
  {
    if mask >= 0 then And(Scramble(sig), mask) else Scramble(sig) % n
  }

  /** Either way it is the scrambled signature modulo the number of subtables. */
  lemma RoutingIsModulo(sig: nat, n: nat)
    requires n > 0
    ensures SubTableIndex(sig, SubTableMask(n), n) == Scramble(sig) % n
  {
    hide Scramble, And, Or, ShiftRight;
    PowerOfTwoTest(n);
    if SubTableMask(n) >= 0 {
      var k: nat :| n == Pow2(k);
      AndMask(Scramble(sig), k);
    }
  }

  lemma RouteInRange(sig: nat, n: nat)
    requires n > 0
    ensures SubTableIndex(sig, SubTableMask(n), n) < n
  {
    RoutingIsModulo(sig, n);
    hide SubTableIndex, Scramble, SubTableMask;
  }

  // ------------------------------------------------------------------ division

  predicate Routed(c: KeyClass, i: nat, mask: int, n: nat)
    requires n > 0
  {
    SubTableIndex(c.sig, mask, n) == i
  }

  /** Both maps have the same entry, or none, for a key. */
  ghost predicate SameEntry(c: KeyClass, m: Map, m': Map) {
    (c in m <==> c in m') && (c in m ==> m[c] == m'[c])
  }

  /** The parts divide the map: each key's entry is in the part of its signature, and nowhere else. */
  ghost predicate Divided(m: Map, parts: seq<Map>, mask: int) {
    && parts != []
    && (forall i, c :: 0 <= i < |parts| && Routed(c, i, mask, |parts|) ==> SameEntry(c, m, parts[i]))
    && (forall i, c :: 0 <= i < |parts| && c in parts[i] ==> Routed(c, i, mask, |parts|))
  }

  /** Changing one key's entry in the map and in its part. */
  lemma DividedChange(m: Map, parts: seq<Map>, mask: int, i: nat, c: KeyClass, m': Map, part: Map)
    requires Divided(m, parts, mask) && i < |parts| && Routed(c, i, mask, |parts|)
    requires forall d :: d != c ==> SameEntry(d, m', m) && SameEntry(d, part, parts[i])
    requires SameEntry(c, m', part)
    ensures Divided(m', parts[i := part], mask)
  {
    hide SubTableIndex;
    var parts' := parts[i := part];
    forall j, d | 0 <= j < |parts'| && Routed(d, j, mask, |parts'|) ensures SameEntry(d, m', parts'[j]) {
      assert SameEntry(d, m, parts[j]);
      if d != c {
        assert SameEntry(d, m', m) && SameEntry(d, part, parts[i]);
      }
    }
    forall j, d | 0 <= j < |parts'| && d in parts'[j] ensures Routed(d, j, mask, |parts'|) {
      if d != c {
        assert SameEntry(d, part, parts[i]);
        assert d in parts[j];
      }
    }
  }

  lemma OneEntryChanged(m: Map, c: KeyClass, r: Record, m': Map)
    requires m' == m[c := r] || m' == m - {c}
    ensures forall d :: d != c ==> SameEntry(d, m', m)
  {}

  /** An insertion or removal served by part i. */
  lemma Served(m: Map, parts: seq<Map>, mask: int, i: nat, c: KeyClass, r: Record)
    requires Divided(m, parts, mask) && i < |parts| && Routed(c, i, mask, |parts|)
    ensures SameEntry(c, m, parts[i])
    ensures Divided(m[c := r], parts[i := parts[i][c := r]], mask)
    ensures Divided(m - {c}, parts[i := parts[i] - {c}], mask)
    ensures parts[i := parts[i]] == parts
  {
    OneEntryChanged(m, c, r, m[c := r]);
    OneEntryChanged(m, c, r, m - {c});
    OneEntryChanged(parts[i], c, r, parts[i][c := r]);
    OneEntryChanged(parts[i], c, r, parts[i] - {c});
    hide SubTableIndex, Routed, SameEntry, Divided;
    SameHere(m, parts, mask, i, c);
    BothHave(m[c := r], parts[i][c := r], c);
    BothHave(m - {c}, parts[i] - {c}, c);
    DividedChange(m, parts, mask, i, c, m[c := r], parts[i][c := r]);
    DividedChange(m, parts, mask, i, c, m - {c}, parts[i] - {c});
  }

  lemma SameHere(m: Map, parts: seq<Map>, mask: int, i: nat, c: KeyClass)
    requires Divided(m, parts, mask) && i < |parts| && Routed(c, i, mask, |parts|)
    ensures SameEntry(c, m, parts[i])
  {}

  lemma BothHave(m: Map, m': Map, c: KeyClass)
    requires (c in m && c in m' && m[c] == m'[c]) || (c !in m && c !in m')
    ensures SameEntry(c, m, m')
  {}

  lemma EntryOf(c: KeyClass, m: Map, m': Map)
    requires SameEntry(c, m, m')
    ensures c in m <==> c in m'
    ensures c in m ==> m[c] == m'[c]
  {}

  // ------------------------------------------------------------------ accounts

  /** What one subtable has come to: its map, its size, its reference calls and its segments. */
  datatype Part = Part(m: Map, records: nat, active: nat, bits: nat, maxLoad: real,
                       log: seq<RefCall>, handed: multiset<Record>, lost: int, spares: set<nat>)

  ghost function PartOf(t: LinearHashTable): Part
    reads t
  {
    Part(t.contents, t.cRecords, t.active, t.segBits, t.maxLoad, t.refLog, t.handed,
         Adrift(t.segments, t.dir), Spares(t.dir, t.segBits, t.active))
  }

  lemma PartIs(t: LinearHashTable)
    ensures PartOf(t) == Part(t.contents, t.cRecords, t.active, t.segBits, t.maxLoad, t.refLog, t.handed,
                              Adrift(t.segments, t.dir), Spares(t.dir, t.segBits, t.active))
  {
    hide Adrift, Spares;
  }

  /** A subtable at its size limit cannot grow, whatever its load. */
  ghost predicate AtLimit(p: Part) {
    p.active >= MAX_DIRSIZE * Pow2(p.bits) - 1
  }

  ghost predicate Bounded(p: Part) {
    LoadBounded(p.records, p.maxLoad, p.active)
  }

  /** No segment is lost, nor in danger of being lost. */
  ghost predicate Tidy(p: Part) {
    p.lost == 0 && p.spares == {}
  }

  /** With memory enough, an operation keeps a subtable's load bounded and its segments accounted for. */
  ghost predicate Kept(p: Part, p': Part, reliable: bool) {
    && p'.bits == p.bits && p'.maxLoad == p.maxLoad
    && (reliable && Bounded(p) && !AtLimit(p') ==> Bounded(p'))
    && (reliable && Tidy(p) ==> Tidy(p'))
  }

  lemma KeptSame(p: Part, p': Part, reliable: bool)
    requires p' == p.(log := p'.log, handed := p'.handed)
    ensures Kept(p, p', reliable)
  {
    hide LoadBounded;
  }

  lemma MakeKept(p: Part, p': Part, reliable: bool)
    requires p'.bits == p.bits && p'.maxLoad == p.maxLoad
    requires reliable && LoadBounded(p.records, p.maxLoad, p.active) ==>
      LoadBounded(p'.records, p'.maxLoad, p'.active) || p'.active >= MAX_DIRSIZE * Pow2(p'.bits) - 1
    requires reliable ==> p'.spares <= p.spares && (p'.lost == p.lost || p'.lost + |p'.spares| == p.lost + |p.spares|)
    ensures Kept(p, p', reliable)
  {
    hide LoadBounded, Pow2;
  }

  ghost predicate AllKept(ps: seq<Part>, ps': seq<Part>, reliable: bool) {
    |ps'| == |ps| && forall k :: 0 <= k < |ps| ==> Kept(ps[k], ps'[k], reliable)
  }

  /** The records that finds have handed out of all the subtables. */
  ghost function AllHanded(ps: seq<Part>): multiset<Record> {
    if ps == [] then multiset{} else AllHanded(ps[..|ps| - 1]) + ps[|ps| - 1].handed
  }

  /** The references added to a record by all the subtables' calls. */
  ghost function AllNet(ps: seq<Part>, r: Record): int {
    if ps == [] then 0 else AllNet(ps[..|ps| - 1], r) + Net(ps[|ps| - 1].log, r)
  }

  /** Every record's net references: one if the map has it, and one for each time it was handed out. */
  ghost predicate Accounted(m: Map, ps: seq<Part>, handed: multiset<Record>) {
    forall r: Record :: AllNet(ps, r) == Stored(m, r) + handed[r]
  }

  lemma {:induction false} HandedByOne(ps: seq<Part>, i: nat, p: Part, more: multiset<Record>)
    requires i < |ps| && p.handed == ps[i].handed + more
    ensures AllHanded(ps[i := p]) == AllHanded(ps) + more
  {
    var n := |ps| - 1;
    var ps' := ps[i := p];
    if i == n {
      assert ps'[..n] == ps[..n];
    } else {
      HandedByOne(ps[..n], i, p, more);
      assert ps'[..n] == ps[..n][i := p];
    }
  }

  lemma {:induction false} HandedSame(ps: seq<Part>, ps': seq<Part>)
    requires |ps'| == |ps| && forall k :: 0 <= k < |ps| ==> ps'[k].handed == ps[k].handed
    ensures AllHanded(ps') == AllHanded(ps)
  {
    if ps != [] { HandedSame(ps[..|ps| - 1], ps'[..|ps| - 1]); }
  }

  /** A subtable changed by an operation, the others left alone. */
  lemma KeptByOne(ps: seq<Part>, i: nat, p: Part, more: multiset<Record>, reliable: bool)
    requires i < |ps| && Kept(ps[i], p, reliable) && p.handed == ps[i].handed + more
    ensures AllKept(ps, ps[i := p], reliable)
    ensures AllHanded(ps[i := p]) == AllHanded(ps) + more
  {
    HandedByOne(ps, i, p, more);
    forall k | 0 <= k < |ps| ensures Kept(ps[k], ps[i := p][k], reliable) {
      if k != i { KeptSame(ps[k], ps[k], reliable); }
    }
    hide Kept, AllHanded;
  }

  lemma AllKeptSame(ps: seq<Part>, reliable: bool)
    ensures AllKept(ps, ps, reliable)
  {
    forall k | 0 <= k < |ps| ensures Kept(ps[k], ps[k], reliable) {
      KeptSame(ps[k], ps[k], reliable);
    }
    hide Kept;
  }

  /** References held by all the subtables' maps. */
  ghost function AllStored(ps: seq<Part>, r: Record): int {
    if ps == [] then 0 else AllStored(ps[..|ps| - 1], r) + Stored(ps[|ps| - 1].m, r)
  }

  lemma {:induction false} NetIsStored(ps: seq<Part>, r: Record)
    requires forall k :: 0 <= k < |ps| ==> RefsOk(ps[k].log, ps[k].m, ps[k].handed)
    ensures AllNet(ps, r) == AllStored(ps, r) + AllHanded(ps)[r]
  {
    hide Net, Stored;
    if ps != [] {
      NetIsStored(ps[..|ps| - 1], r);
      assert RefsOk(ps[|ps| - 1].log, ps[|ps| - 1].m, ps[|ps| - 1].handed);
    }
  }

  /** Only the part that a record's key is routed to can hold it. */
  lemma {:induction false} StoredOnce(ps: seq<Part>, i: nat, r: Record)
    requires forall k :: 0 <= k < |ps| && k != i ==> Stored(ps[k].m, r) == 0
    ensures AllStored(ps, r) == if i < |ps| then Stored(ps[i].m, r) else 0
  {
    hide Stored;
    if ps != [] {
      StoredOnce(ps[..|ps| - 1], i, r);
    }
  }

  /** Each subtable's counts in order, the whole table's are. */
  lemma AllAccounted(m: Map, ps: seq<Part>, maps: seq<Map>, mask: int)
    requires |maps| == |ps| && forall k :: 0 <= k < |ps| ==> maps[k] == ps[k].m
    requires ps == [] ==> m == map[]
    requires ps != [] ==> mask == SubTableMask(|ps|) && Divided(m, maps, mask)
    requires forall k :: 0 <= k < |ps| ==> RefsOk(ps[k].log, ps[k].m, ps[k].handed)
    ensures Accounted(m, ps, AllHanded(ps))
  {
    forall r: Record ensures AllNet(ps, r) == Stored(m, r) + AllHanded(ps)[r] {
      NetIsStored(ps, r);
      if ps != [] {
        var c := r.key.cls;
        RouteInRange(c.sig, |ps|);
        var i := SubTableIndex(c.sig, mask, |ps|);
        StoredInPart(m, maps, mask, i, r);
        StoredOnce(ps, i, r);
      }
    }
  }

  lemma StoredInPart(m: Map, maps: seq<Map>, mask: int, i: nat, r: Record)
    requires Divided(m, maps, mask) && i < |maps| && Routed(r.key.cls, i, mask, |maps|)
    ensures Stored(maps[i], r) == Stored(m, r)
    ensures forall k :: 0 <= k < |maps| && k != i ==> Stored(maps[k], r) == 0
  {
    hide SubTableIndex;
    assert SameEntry(r.key.cls, m, maps[i]);
  }

  // ------------------------------------------------------------------ sweeps

  /** A predicate whose first question has this number. */
  function Later(pred: Predicate, first: nat): Predicate {
    (n: nat, r: Record) => pred(first + n, r)
  }

  lemma {:induction false} LaterAsked(asked: seq<Item>, pred: Predicate, first: nat)
    ensures Condemned(asked, Later(pred, first), 0) == Condemned(asked, pred, first)
    ensures AllGoOn(asked, Later(pred, first), 0) <==> AllGoOn(asked, pred, first)
    ensures forall n: nat, r: Record :: Later(pred, first)(n, r) == pred(first + n, r)
  {
    if asked != [] { LaterAsked(asked[..|asked| - 1], pred, first); }
  }

  /** What a sweep of the whole table does: the records asked about, once each, and what becomes of the map. */
  ghost predicate Sweeps(m: Map, pred: Predicate, asked: seq<Item>, stopped: bool, count: nat, m': Map) {
    && AskedOnce(asked, m) && (!stopped ==> AskedAll(asked, m))
    && (stopped ==> asked != [] && Stops(pred(|asked| - 1, asked[|asked| - 1].rec)))
    && AllGoOn(if stopped then asked[..|asked| - 1] else asked, pred, 0)
    && count == |Condemned(asked, pred, 0)|
    && m' == m - KeysOf(Condemned(asked, pred, 0))
  }

  /** The entries of the first i parts have been asked about, each once. */
  ghost predicate AskedParts(asked: seq<Item>, m: Map, mask: int, n: nat, i: nat)
    requires n > 0
  {
    forall x :: multiset(asked)[x] == if Entry(m, x) && SubTableIndex(x.rec.key.cls.sig, mask, n) < i then 1 else 0
  }

  /** The sweep of the first i parts is done. */
  ghost predicate SweptParts(m0: Map, parts0: seq<Map>, m: Map, parts: seq<Map>, mask: int,
                             asked: seq<Item>, pred: Predicate, count: nat, i: nat)
  {
    && Divided(m0, parts0, mask) && Divided(m, parts, mask) && i <= |parts| == |parts0|
    && (forall j :: i <= j < |parts| ==> parts[j] == parts0[j])
    && AskedParts(asked, m0, mask, |parts0|, i) && AllGoOn(asked, pred, 0)
    && m == m0 - KeysOf(Condemned(asked, pred, 0)) && count == |Condemned(asked, pred, 0)|
  }

  lemma NothingSwept(m: Map, parts: seq<Map>, mask: int, pred: Predicate)
    requires Divided(m, parts, mask)
    ensures SweptParts(m, parts, m, parts, mask, [], pred, 0, 0)
  {
    NoneAsked(pred);
    hide Divided, SubTableIndex, Entry;
    assert m - KeysOf(Condemned([], pred, 0)) == m;
  }

  lemma PartEntries(m0: Map, parts0: seq<Map>, mask: int, i: nat, x: Item)
    requires Divided(m0, parts0, mask) && i < |parts0|
    ensures Entry(parts0[i], x) <==> Entry(m0, x) && SubTableIndex(x.rec.key.cls.sig, mask, |parts0|) == i
  {
    var c := x.rec.key.cls;
    if Routed(c, i, mask, |parts0|) { assert SameEntry(c, m0, parts0[i]); }
    hide SubTableIndex, NewItem;
  }

  lemma AskedMore(asked: seq<Item>, more: seq<Item>, m0: Map, parts0: seq<Map>, mask: int, i: nat)
    requires Divided(m0, parts0, mask) && i < |parts0| && AskedParts(asked, m0, mask, |parts0|, i)
    requires AskedOnce(more, parts0[i])
    ensures AskedOnce(asked + more, m0)
    ensures AskedAll(more, parts0[i]) ==> AskedParts(asked + more, m0, mask, |parts0|, i + 1)
  {
    hide Divided, SubTableIndex, Entry;
    forall x
      ensures multiset(asked + more)[x] <= if Entry(m0, x) then 1 else 0
      ensures AskedAll(more, parts0[i]) ==>
        multiset(asked + more)[x] == if Entry(m0, x) && SubTableIndex(x.rec.key.cls.sig, mask, |parts0|) < i + 1 then 1 else 0
    {
      PartEntries(m0, parts0, mask, i, x);
      assert multiset(asked + more)[x] == multiset(asked)[x] + multiset(more)[x];
    }
  }

  /** Keys of one part are taken out of it and of the map. */
  lemma DividedPurge(m: Map, parts: seq<Map>, mask: int, i: nat, keys: set<KeyClass>)
    requires Divided(m, parts, mask) && i < |parts| && keys <= parts[i].Keys
    ensures Divided(m - keys, parts[i := parts[i] - keys], mask)
  {
    var parts' := parts[i := parts[i] - keys];
    hide SubTableIndex;
    forall j, d | 0 <= j < |parts'| && Routed(d, j, mask, |parts'|) ensures SameEntry(d, m - keys, parts'[j]) {
      assert SameEntry(d, m, parts[j]);
      if d in keys { assert Routed(d, i, mask, |parts|); }
    }
    forall j, d | 0 <= j < |parts'| && d in parts'[j] ensures Routed(d, j, mask, |parts'|) {
      assert d in parts[j];
    }
  }

  lemma KeysHeld(items: seq<Item>, m: Map)
    requires forall x :: x in items ==> Holds(m, x.rec)
    ensures KeysOf(items) <= m.Keys
  {}

  /** One more part has been swept, or the sweep has stopped in it. */
  lemma PartSwept(m0: Map, parts0: seq<Map>, m: Map, parts: seq<Map>, mask: int, asked: seq<Item>, pred: Predicate,
                  count: nat, i: nat, more: seq<Item>, stopped: bool)
    requires SweptParts(m0, parts0, m, parts, mask, asked, pred, count, i) && i < |parts|
    requires AskedOnce(more, parts[i]) && (!stopped ==> AskedAll(more, parts[i]))
    requires stopped ==> more != [] && Stops(Later(pred, |asked|)(|more| - 1, more[|more| - 1].rec))
    requires AllGoOn(if stopped then more[..|more| - 1] else more, Later(pred, |asked|), 0)
    ensures var gone := Condemned(more, Later(pred, |asked|), 0);
      var m', parts' := m - KeysOf(gone), parts[i := parts[i] - KeysOf(gone)];
      && Divided(m', parts', mask)
      && (stopped ==> Sweeps(m0, pred, asked + more, true, count + |gone|, m'))
      && (!stopped ==> SweptParts(m0, parts0, m', parts', mask, asked + more, pred, count + |gone|, i + 1))
  {
    hide *;
    PartsFacts(m0, parts0, m, parts, mask, asked, pred, count, i);
    var later := Later(pred, |asked|);
    LaterAsked(more, pred, |asked|);
    LaterAsked(if stopped then more[..|more| - 1] else more, pred, |asked|);
    var gone := Condemned(more, later, 0);
    CondemnedHeld(more, parts[i], later);
    KeysHeld(gone, parts[i]);
    DividedPurge(m, parts, mask, i, KeysOf(gone));
    AskedMore(asked, more, m0, parts0, mask, i);
    GoesOn(asked, more, stopped, pred);
    CondemnedConcat(asked, more, pred, 0);
    KeysConcat(Condemned(asked, pred, 0), gone, m0);
    var m', parts' := m - KeysOf(gone), parts[i := parts[i] - KeysOf(gone)];
    if stopped {
      MakeSweeps(m0, pred, asked + more, true, count + |gone|, m');
    } else {
      MakeParts(m0, parts0, m', parts', mask, asked + more, pred, count + |gone|, i + 1);
    }
  }

  lemma PartsFacts(m0: Map, parts0: seq<Map>, m: Map, parts: seq<Map>, mask: int,
                   asked: seq<Item>, pred: Predicate, count: nat, i: nat)
    requires SweptParts(m0, parts0, m, parts, mask, asked, pred, count, i)
    ensures Divided(m0, parts0, mask) && Divided(m, parts, mask) && i <= |parts| == |parts0|
    ensures parts0 != [] && forall j :: i <= j < |parts| ==> parts[j] == parts0[j]
    ensures AskedParts(asked, m0, mask, |parts0|, i) && AllGoOn(asked, pred, 0)
    ensures m == m0 - KeysOf(Condemned(asked, pred, 0)) && count == |Condemned(asked, pred, 0)|
  {
    hide SubTableIndex, Entry, AllGoOn, Condemned, AskedParts;
  }

  lemma MakeParts(m0: Map, parts0: seq<Map>, m: Map, parts: seq<Map>, mask: int,
                  asked: seq<Item>, pred: Predicate, count: nat, i: nat)
    requires Divided(m0, parts0, mask) && Divided(m, parts, mask) && i <= |parts| == |parts0|
    requires parts0 != [] && forall j :: i <= j < |parts| ==> parts[j] == parts0[j]
    requires AskedParts(asked, m0, mask, |parts0|, i) && AllGoOn(asked, pred, 0)
    requires m == m0 - KeysOf(Condemned(asked, pred, 0)) && count == |Condemned(asked, pred, 0)|
    ensures SweptParts(m0, parts0, m, parts, mask, asked, pred, count, i)
  {
    hide Divided, SubTableIndex, Entry, AllGoOn, Condemned, AskedParts;
  }

  lemma MakeSweeps(m: Map, pred: Predicate, asked: seq<Item>, stopped: bool, count: nat, m': Map)
    requires AskedOnce(asked, m) && (!stopped ==> AskedAll(asked, m))
    requires stopped ==> asked != [] && Stops(pred(|asked| - 1, asked[|asked| - 1].rec))
    requires AllGoOn(if stopped then asked[..|asked| - 1] else asked, pred, 0)
    requires count == |Condemned(asked, pred, 0)| && m' == m - KeysOf(Condemned(asked, pred, 0))
    ensures Sweeps(m, pred, asked, stopped, count, m')
  {
    hide AskedOnce, AskedAll, AllGoOn, Condemned;
  }

  /** All parts swept: every entry of the map has been asked about once. */
  lemma AllSwept(m0: Map, parts0: seq<Map>, m: Map, parts: seq<Map>, mask: int, asked: seq<Item>, pred: Predicate, count: nat)
    requires SweptParts(m0, parts0, m, parts, mask, asked, pred, count, |parts|)
    requires parts0 != [] && mask == SubTableMask(|parts0|)
    ensures Sweeps(m0, pred, asked, false, count, m)
  {
    PartsFacts(m0, parts0, m, parts, mask, asked, pred, count, |parts|);
    forall x ensures multiset(asked)[x] == if Entry(m0, x) then 1 else 0 {
      RouteInRange(x.rec.key.cls.sig, |parts0|);
    }
    hide Divided, SubTableIndex, Entry, AllGoOn, Condemned, SubTableMask;
  }

  /** `_DeleteIf` of one subtable. */
  method SweepPart(t: LinearHashTable, pred: Predicate, ghost reliable: bool)
    returns (count: nat, asked: seq<Item>, stopped: bool)
    requires t.Valid()
    modifies t
    ensures t.Valid() && t.state == old(t.state)
    ensures AskedOnce(asked, old(t.contents)) && (!stopped ==> AskedAll(asked, old(t.contents)))
    ensures stopped ==> asked != [] && Stops(pred(|asked| - 1, asked[|asked| - 1].rec))
    ensures AllGoOn(if stopped then asked[..|asked| - 1] else asked, pred, 0)
    ensures count == |Condemned(asked, pred, 0)|
    ensures t.contents == old(t.contents) - KeysOf(Condemned(asked, pred, 0))
    ensures Kept(old(PartOf(t)), PartOf(t), reliable) && PartOf(t).handed == old(PartOf(t)).handed
  {
    hide *;
    ghost var dir0, before := t.dir, PartOf(t);
    PartIs(t);
    count, asked, stopped := t.DeleteIf(pred);
    SameHeld(dir0, t.dir, t.segments);
    SameSpares(dir0, t.dir, t.segBits, t.active);
    PartIs(t);
    MakeKept(before, PartOf(t), reliable);
  }

  // ------------------------------------------------------------------ the table

  class HashTable {
    const subtables: seq<LinearHashTable>
    const nSubTableMask: int
    var state: ReturnCode

    /** The map this table stands for. */
    ghost var contents: Map

    /** As many subtables as there are allocators for; a failure to set one up gives all of them up. */
    constructor (bits: nat, load: real, buckets: nat, allocators: seq<nat -> Option<nat>>)
      requires InitialSize(bits, buckets) && load > 0.0 && allocators != []
      ensures Valid() && (state.Success? || state.AllocFail?)
      ensures state.Success? ==> contents == map[] && |subtables| == |allocators|
      ensures forall k :: 0 <= k < |subtables| ==> Bounded(Snapshot()[k]) && Tidy(Snapshot()[k])
      ensures AllHanded(Snapshot()) == multiset{}
      ensures fresh(subtables)
    {
      hide *;
      var subs: seq<LinearHashTable>, ok := [], true;
      var i := 0;
      while i < |allocators| && ok
        invariant i <= |allocators| && (ok ==> |subs| == i)
        invariant fresh(subs)
        invariant forall j, k :: 0 <= j < k < |subs| ==> subs[j] != subs[k]
        invariant ok ==> forall j :: 0 <= j < |subs| ==>
          && subs[j].state.Success? && subs[j].Valid() && subs[j].contents == map[]
          && Fresh(PartOf(subs[j]))
      {
        var t := new LinearHashTable(bits, load, buckets, allocators[i]);
        ok := t.state.Success?;
        PartIs(t);
        if ok { MakeFresh(PartOf(t)); }
        subs := subs + [t];
        i := i + 1;
      }
      subtables := if ok then subs else [];
      nSubTableMask := if ok then SubTableMask(|allocators|) else 0;
      state := if ok then Success else AllocFail;
      contents := map[];
      new;
      AllEmpty(Parts(), nSubTableMask);
      AllFresh(Snapshot());
      ValidCleared();
    }

    ghost function Parts(): (parts: seq<Map>)
      reads subtables
      ensures |parts| == |subtables|
      ensures forall i :: 0 <= i < |parts| ==> parts[i] == subtables[i].contents
    {
      seq(|subtables|, i requires 0 <= i < |subtables| reads subtables => subtables[i].contents)
    }

    ghost function Snapshot(): (ps: seq<Part>)
      reads subtables
      ensures |ps| == |subtables|
      ensures forall i :: 0 <= i < |ps| ==> ps[i] == PartOf(subtables[i])
    {
      seq(|subtables|, i requires 0 <= i < |subtables| reads subtables => PartOf(subtables[i]))
    }

    /** The subtables are distinct, and valid if in use; all are in use while this table is. */
    ghost predicate Valid()
      reads this, subtables
    {
      && (if state.Success? then subtables != [] else contents == map[])
      && (subtables != [] ==> nSubTableMask == SubTableMask(|subtables|))
      && (forall i, j :: 0 <= i < j < |subtables| ==> subtables[i] != subtables[j])
      && (forall i :: 0 <= i < |subtables| && subtables[i].state.Success? ==> subtables[i].Valid())
      && (state.Success? ==> forall i :: 0 <= i < |subtables| ==> subtables[i].state.Success?)
      && (subtables != [] ==> Divided(contents, Parts(), nSubTableMask))
      && Counted()
    }

    lemma MapsOfParts()
      ensures |Snapshot()| == |Parts()| && forall i :: 0 <= i < |Parts()| ==> Parts()[i] == Snapshot()[i].m
    {
      hide Adrift, Spares;
    }

    /** Every subtable's reference calls come to its map's records and those it has handed out. */
    ghost predicate Counted()
      reads subtables
    {
      forall i :: 0 <= i < |subtables| ==> RefsOk(subtables[i].refLog, subtables[i].contents, subtables[i].handed)
    }

    /** In every valid state the references of the whole table agree with its map. */
    lemma ReferencesAgree()
      requires Valid()
      ensures Accounted(contents, Snapshot(), AllHanded(Snapshot()))
    {
      hide LinearHashTable.Valid, SubTableMask, Divided, RefsOk, Accounted;
      AllAccounted(contents, Snapshot(), Parts(), nSubTableMask);
    }

    /** No allocation request ever fails. */
    ghost predicate Reliable() {
      forall i, n: nat :: 0 <= i < |subtables| ==> subtables[i].heap(n).Some?
    }

    lemma Unreliable(i: nat, from: nat, to: nat)
      requires i < |subtables|
      ensures RequestFailed(subtables[i].heap, from, to) ==> !Reliable()
    {}

    lemma Refused(i: nat, from: nat, to: nat)
      requires i < |subtables|
      ensures Reliable() ==> !RequestFailed(subtables[i].heap, from, to)
    {
      Unreliable(i, from, to);
    }

    /** What is known of the subtable that serves a signature. */
    lemma RouteFacts(sig: Signature, c: KeyClass) returns (i: nat)
      requires Valid() && state.Success? && c.sig == sig
      ensures i < |subtables| && SubTableIndex(sig, nSubTableMask, |subtables|) == i
      ensures subtables[i].Valid()
      ensures forall j :: 0 <= j < |subtables| && j != i ==> subtables[j] != subtables[i]
      ensures Routed(c, i, nSubTableMask, |subtables|)
      ensures Divided(contents, Parts(), nSubTableMask)
    {
      RouteInRange(sig, |subtables|);
      i := SubTableIndex(sig, nSubTableMask, |subtables|);
      assert subtables[i].state.Success?;
      hide SubTableIndex, SubTableMask;
    }

    /** Valid again: the subtable that served is valid, the others are untouched. */
    lemma ValidAgain(i: nat)
      requires subtables != [] && nSubTableMask == SubTableMask(|subtables|) && i < |subtables|
      requires forall i, j :: 0 <= i < j < |subtables| ==> subtables[i] != subtables[j]
      requires forall j :: 0 <= j < |subtables| && j != i ==> subtables[j].Valid() && subtables[j].state.Success?
      requires subtables[i].Valid() && subtables[i].state.Success? && state.Success?
      requires Divided(contents, Parts(), nSubTableMask)
      ensures Valid()
    {
      forall j | 0 <= j < |subtables|
        ensures RefsOk(subtables[j].refLog, subtables[j].contents, subtables[j].handed)
      {
        assert subtables[j].Valid();
        hide *;
        SubtableRefs(subtables[j]);
      }
      hide LinearHashTable.Valid, SubTableMask, Divided, Parts, RefsOk;
    }

    lemma Shape()
      requires Valid()
      ensures if state.Success? then subtables != [] else contents == map[]
      ensures subtables != [] ==> nSubTableMask == SubTableMask(|subtables|)
      ensures subtables != [] ==> Divided(contents, Parts(), nSubTableMask)
      ensures !state.Success? ==> forall i :: 0 <= i < |subtables| ==> EmptyPart(PartOf(subtables[i]))
      ensures forall i :: 0 <= i < |subtables| && subtables[i].state.Success? ==> subtables[i].Valid()
      ensures forall i, j :: 0 <= i < j < |subtables| ==> subtables[i] != subtables[j]
      ensures state.Success? ==>
        forall i :: 0 <= i < |subtables| ==> subtables[i].Valid() && subtables[i].state.Success?
    {
      hide LinearHashTable.Valid, SubTableMask, Divided, Parts, RefsOk;
      if !state.Success? && subtables != [] {
        NothingDivided(Parts(), nSubTableMask);
      }
    }

    method InsertRecord(record: Option<Record>, overwrite: bool) returns (rc: ReturnCode)
      requires Valid()
      modifies this, subtables
      ensures Valid() && state == old(state)
      ensures !state.Success? ==> rc == state && contents == old(contents)
      ensures state.Success? && record.None? ==> rc == BadRecord && contents == old(contents)
      ensures state.Success? && record.Some? ==>
        var c := record.value.key.cls;
        && (rc.Success? || rc.KeyExists? || rc.AllocFail?)
        && (rc.KeyExists? <==> c in old(contents) && !overwrite)
        && (rc.AllocFail? ==> c !in old(contents) && !Reliable())
        && contents == if rc.Success? then old(contents)[c := record.value] else old(contents)
      ensures AllKept(old(Snapshot()), Snapshot(), Reliable())
      ensures AllHanded(Snapshot()) == old(AllHanded(Snapshot()))
    {
      hide *;
      AllKeptSame(Snapshot(), Reliable());
      if !state.Success? { return state; }
      if record.None? { return BadRecord; }
      Shape();
      var r := record.value;
      var sig := CalcKeyHash(ExtractKey(r));
      ghost var c, m, parts := r.key.cls, contents, Parts();
      ghost var ps := Snapshot();
      SignatureIs(r, sig);
      ghost var i := RouteFacts(sig, c);
      Served(m, parts, nSubTableMask, i, c, r);
      EntryOf(c, m, parts[i]);
      var t := subtables[SubTableIndex(sig, nSubTableMask, |subtables|)];
      ghost var from := t.requests;
      PartIs(t);
      rc := t.InsertRecord(r, sig, overwrite);
      PartIs(t);
      t.Facts();
      Unreliable(i, from, t.requests);
      Refused(i, from, t.requests);
      if rc.Success? { contents := contents[c := r]; }
      assert Parts() == parts[i := t.contents];
      assert Snapshot() == ps[i := PartOf(t)];
      MakeKept(ps[i], PartOf(t), Reliable());
      KeptByOne(ps, i, PartOf(t), multiset{}, Reliable());
      ValidAgain(i);
    }

    /** The record of a key, handed out with a reference of its own. */
    method FindKey(key: Key) returns (rc: ReturnCode, rec: Option<Record>)
      requires Valid()
      modifies subtables
      ensures Valid()
      ensures !state.Success? ==> rc == state && rec == None
      ensures state.Success? ==>
        && rc == (if key.cls in contents then Success else NoSuchKey)
        && rec == (if key.cls in contents then Some(contents[key.cls]) else None)
      ensures AllKept(old(Snapshot()), Snapshot(), Reliable())
      ensures AllHanded(Snapshot()) == old(AllHanded(Snapshot())) + GivenOut(rec)
    {
      hide *;
      AllKeptSame(Snapshot(), Reliable());
      GivenCases(None);
      if !state.Success? { return state, None; }
      Shape();
      var sig := CalcKeyHash(key);
      ghost var c, parts := key.cls, Parts();
      ghost var ps := Snapshot();
      KeySignature(key, sig);
      ghost var i := RouteFacts(sig, c);
      SameHere(contents, parts, nSubTableMask, i, c);
      EntryOf(c, contents, parts[i]);
      var t := subtables[SubTableIndex(sig, nSubTableMask, |subtables|)];
      PartIs(t);
      rc, rec := t.FindKey(key, sig);
      PartIs(t);
      t.Facts();
      assert Parts() == parts;
      assert Snapshot() == ps[i := PartOf(t)];
      GivenCases(rec);
      KeptSame(ps[i], PartOf(t), Reliable());
      KeptByOne(ps, i, PartOf(t), GivenOut(rec), Reliable());
      ValidAgain(i);
    }

    method DeleteKey(key: Key) returns (rc: ReturnCode)
      requires Valid()
      modifies this, subtables
      ensures Valid() && state == old(state)
      ensures !state.Success? ==> rc == state && contents == old(contents)
      ensures state.Success? ==>
        && rc == (if key.cls in old(contents) then Success else NoSuchKey)
        && contents == old(contents) - {key.cls}
      ensures AllKept(old(Snapshot()), Snapshot(), Reliable())
      ensures AllHanded(Snapshot()) == old(AllHanded(Snapshot()))
    {
      hide *;
      AllKeptSame(Snapshot(), Reliable());
      if !state.Success? { return state; }
      Shape();
      var sig := CalcKeyHash(key);
      ghost var c, m, parts := key.cls, contents, Parts();
      ghost var ps := Snapshot();
      KeySignature(key, sig);
      ghost var i := RouteFacts(sig, c);
      Served(m, parts, nSubTableMask, i, c, Record(0, key));
      EntryOf(c, m, parts[i]);
      var t := subtables[SubTableIndex(sig, nSubTableMask, |subtables|)];
      PartIs(t);
      rc := t.DeleteKey(key, sig);
      PartIs(t);
      t.Facts();
      contents := contents - {c};
      assert Parts() == parts[i := t.contents];
      assert Snapshot() == ps[i := PartOf(t)];
      MakeKept(ps[i], PartOf(t), Reliable());
      KeptByOne(ps, i, PartOf(t), multiset{}, Reliable());
      ValidAgain(i);
    }

    method DeleteRecord(record: Option<Record>) returns (rc: ReturnCode)
      requires Valid()
      modifies this, subtables
      ensures Valid() && state == old(state)
      ensures !state.Success? ==> rc == state && contents == old(contents)
      ensures state.Success? && record.None? ==> rc == BadRecord && contents == old(contents)
      ensures state.Success? && record.Some? ==>
        && rc == (if old(Holds(contents, record.value)) then Success else NoSuchKey)
        && contents == if rc.Success? then old(contents) - {record.value.key.cls} else old(contents)
      ensures AllKept(old(Snapshot()), Snapshot(), Reliable())
      ensures AllHanded(Snapshot()) == old(AllHanded(Snapshot()))
    {
      hide *;
      AllKeptSame(Snapshot(), Reliable());
      if !state.Success? { return state; }
      if record.None? { return BadRecord; }
      Shape();
      var r := record.value;
      var sig := CalcKeyHash(ExtractKey(r));
      ghost var c, m, parts := r.key.cls, contents, Parts();
      ghost var ps := Snapshot();
      SignatureIs(r, sig);
      ghost var i := RouteFacts(sig, c);
      Served(m, parts, nSubTableMask, i, c, r);
      HeldAlike(r, m, parts[i]);
      var t := subtables[SubTableIndex(sig, nSubTableMask, |subtables|)];
      PartIs(t);
      rc := t.DeleteRecord(r, sig);
      PartIs(t);
      t.Facts();
      if rc.Success? { contents := contents - {c}; }
      assert Parts() == parts[i := t.contents];
      assert Snapshot() == ps[i := PartOf(t)];
      MakeKept(ps[i], PartOf(t), Reliable());
      KeptByOne(ps, i, PartOf(t), multiset{}, Reliable());
      ValidAgain(i);
    }

    /** `_DeleteIf` of subtable i, the others staying as they are. */
    method SweepNext(i: nat, pred: Predicate) returns (count: nat, asked: seq<Item>, stopped: bool)
      requires i < |subtables| && InUse()
      modifies subtables[i]
      ensures InUse()
      ensures AskedOnce(asked, old(Parts()[i])) && (!stopped ==> AskedAll(asked, old(Parts()[i])))
      ensures stopped ==> asked != [] && Stops(pred(|asked| - 1, asked[|asked| - 1].rec))
      ensures AllGoOn(if stopped then asked[..|asked| - 1] else asked, pred, 0)
      ensures count == |Condemned(asked, pred, 0)|
      ensures Parts() == old(Parts())[i := old(Parts()[i]) - KeysOf(Condemned(asked, pred, 0))]
      ensures Snapshot() == old(Snapshot())[i := Snapshot()[i]]
      ensures Kept(old(Snapshot()[i]), Snapshot()[i], Reliable()) && Snapshot()[i].handed == old(Snapshot()[i]).handed
    {
      hide *;
      InUseFacts();
      count, asked, stopped := SweepPart(subtables[i], pred, Reliable());
      MakeInUse();
    }

    /** All subtables are distinct, valid and in use. */
    ghost predicate InUse()
      reads subtables
    {
      && (forall i, j :: 0 <= i < j < |subtables| ==> subtables[i] != subtables[j])
      && (forall i :: 0 <= i < |subtables| ==> subtables[i].Valid() && subtables[i].state.Success?)
    }

    lemma InUseFacts()
      requires InUse()
      ensures forall i, j :: 0 <= i < j < |subtables| ==> subtables[i] != subtables[j]
      ensures forall i :: 0 <= i < |subtables| ==> subtables[i].Valid() && subtables[i].state.Success?
    {
      hide LinearHashTable.Valid;
    }

    lemma MakeInUse()
      requires forall i, j :: 0 <= i < j < |subtables| ==> subtables[i] != subtables[j]
      requires forall i :: 0 <= i < |subtables| ==> subtables[i].Valid() && subtables[i].state.Success?
      ensures InUse()
    {
      hide LinearHashTable.Valid;
    }

    /**
      Ask a predicate about the records of one subtable after the other, and delete those it
      condemns, until it stops.
     */
    method DeleteIf(pred: Predicate) returns (rc: ReturnCode, count: nat, asked: seq<Item>, stopped: bool)
      requires Valid()
      modifies this, subtables
      ensures Valid() && state == old(state) && rc == state
      ensures !state.Success? ==> asked == [] && count == 0 && !stopped && contents == old(contents)
      ensures state.Success? ==> Sweeps(old(contents), pred, asked, stopped, count, contents)
      ensures AllKept(old(Snapshot()), Snapshot(), Reliable())
      ensures AllHanded(Snapshot()) == old(AllHanded(Snapshot()))
    {
      hide *;
      AllKeptSame(Snapshot(), Reliable());
      rc, count, asked, stopped := state, 0, [], false;
      if !state.Success? { return; }
      Shape();
      ghost var m0, parts0, ps := contents, Parts(), Snapshot();
      NothingSwept(m0, parts0, nSubTableMask, pred);
      NoneKept(ps, Reliable());
      MakeInUse();
      var i := 0;
      while i < |subtables| && !stopped
        invariant i <= |subtables| && state.Success?
        invariant InUse()
        invariant KeptTo(ps, Snapshot(), i, Reliable())
        invariant Divided(contents, Parts(), nSubTableMask)
        invariant !stopped ==> SweptParts(m0, parts0, contents, Parts(), nSubTableMask, asked, pred, count, i)
        invariant stopped ==> Sweeps(m0, pred, asked, stopped, count, contents)
      {
        ghost var parts, qs := Parts(), Snapshot();
        var more, gone;
        gone, more, stopped := SweepNext(i, Later(pred, |asked|));
        PartSwept(m0, parts0, contents, parts, nSubTableMask, asked, pred, count, i, more, stopped);
        contents := contents - KeysOf(Condemned(more, Later(pred, |asked|), 0));
        KeptNext(ps, qs, Snapshot()[i], i, Reliable());
        count, asked, i := count + gone, asked + more, i + 1;
      }
      if !stopped {
        AllSwept(m0, parts0, contents, Parts(), nSubTableMask, asked, pred, count);
      }
      AllKeptHere(ps, Snapshot(), i, Reliable());
      InUseFacts();
      ValidAgain(0);
    }

    /** Empty all subtables; one that cannot be set up anew puts the whole table out of use. */
    method Clear()
      requires Valid()
      modifies this, subtables
      ensures Valid() && contents == map[]
      ensures state == old(state) || (state.AllocFail? && !Reliable())
      ensures AllKept(old(Snapshot()), Snapshot(), Reliable())
      ensures AllHanded(Snapshot()) == old(AllHanded(Snapshot()))
    {
      hide *;
      Shape();
      ghost var ps := Snapshot();
      for i := 0 to |subtables|
        invariant state == old(state) || (state.AllocFail? && !Reliable())
        invariant forall j :: 0 <= j < |subtables| && subtables[j].state.Success? ==> subtables[j].Valid()
        invariant state.Success? ==> forall j :: 0 <= j < |subtables| ==> subtables[j].state.Success?
        invariant old(state).Success? ==> forall j :: i <= j < |subtables| ==> subtables[j].state.Success?
        invariant forall j :: 0 <= j < i ==> Emptied(ps[j], PartOf(subtables[j]), Reliable())
        invariant forall j :: i <= j < |subtables| ==> ps[j] == PartOf(subtables[j])
      {
        var t := subtables[i];
        if t.state.Success? {
          ghost var from := t.requests;
          t.Facts();
          PartIs(t);
          t.Clear();
          PartIs(t);
          Refused(i, from, t.requests);
          MakeEmptied(ps[i], PartOf(t), Reliable());
          if t.state.AllocFail? { state := AllocFail; }
        } else {
          EmptyAlready(ps[i], Reliable());
        }
      }
      contents := map[];
      AllEmptied(ps, Snapshot(), Reliable());
      MapsOfParts();
      AllEmpty(Parts(), nSubTableMask);
      ValidCleared();
    }

    lemma ValidCleared()
      requires if state.Success? then subtables != [] else contents == map[]
      requires subtables != [] ==> nSubTableMask == SubTableMask(|subtables|)
      requires forall i, j :: 0 <= i < j < |subtables| ==> subtables[i] != subtables[j]
      requires forall j :: 0 <= j < |subtables| && subtables[j].state.Success? ==> subtables[j].Valid()
      requires state.Success? ==> forall j :: 0 <= j < |subtables| ==> subtables[j].state.Success?
      requires subtables != [] ==> Divided(contents, Parts(), nSubTableMask)
      requires forall j :: 0 <= j < |subtables| ==> RefsOk(Snapshot()[j].log, Snapshot()[j].m, Snapshot()[j].handed)
      ensures Valid()
    {
      hide LinearHashTable.Valid, SubTableMask, Divided, Parts, RefsOk;
      forall j | 0 <= j < |subtables|
        ensures RefsOk(subtables[j].refLog, subtables[j].contents, subtables[j].handed)
      {
        assert Snapshot()[j] == PartOf(subtables[j]);
      }
    }
  }

  lemma SubtableRefs(t: LinearHashTable)
    requires t.Valid()
    ensures RefsOk(t.refLog, t.contents, t.handed)
  {
    hide *;
    t.Facts();
    InUseFacts(Addr(t.level, t.expansionIdx, t.mask0, t.mask1, t.active), t.dir, t.segBits, t.contents, t.cRecords,
               t.clumps, t.refLog, t.handed);
  }

  /** A subtable just set up. */
  ghost predicate Fresh(p: Part) {
    Bounded(p) && Tidy(p) && p.m == map[] && p.handed == multiset{} && RefsOk(p.log, p.m, p.handed)
  }

  lemma MakeFresh(p: Part)
    requires p.records == 0 && p.maxLoad > 0.0 && p.lost == 0 && p.spares == {}
    requires p.m == map[] && p.log == [] && p.handed == multiset{}
    ensures Fresh(p)
  {
    NoRecordsBounded(p.maxLoad, p.active);
    NoReferences();
    hide LoadBounded, RefsOk;
  }

  lemma NoRecordsBounded(maxLoad: real, buckets: nat)
    requires maxLoad > 0.0
    ensures LoadBounded(0, maxLoad, buckets)
  {}

  lemma {:induction false} AllFresh(ps: seq<Part>)
    requires forall k :: 0 <= k < |ps| ==> Fresh(ps[k])
    ensures forall k :: 0 <= k < |ps| ==>
      Bounded(ps[k]) && Tidy(ps[k]) && RefsOk(ps[k].log, ps[k].m, ps[k].handed)
    ensures AllHanded(ps) == multiset{}
  {
    hide Bounded, RefsOk, Tidy;
    if ps != [] { AllFresh(ps[..|ps| - 1]); }
  }

  /** A subtable's part before and after it is emptied. */
  ghost predicate Emptied(p: Part, p': Part, reliable: bool) {
    Kept(p, p', reliable) && p'.handed == p.handed && EmptyPart(p')
  }

  lemma MakeEmptied(p: Part, p': Part, reliable: bool)
    requires p'.bits == p.bits && p'.maxLoad == p.maxLoad > 0.0 && p'.records == 0
    requires p'.m == map[] && p'.handed == p.handed && RefsOk(p'.log, map[], p'.handed)
    requires (p'.lost == p.lost + |p.spares| && p'.spares == {}) || (p'.lost == p.lost && p'.spares == p.spares)
    ensures Emptied(p, p', reliable)
  {
    NoRecordsBounded(p'.maxLoad, p'.active);
    MakeKept(p, p', reliable);
    hide Kept, RefsOk;
  }

  /** A subtable without records whose references are accounted for. */
  ghost predicate EmptyPart(p: Part) {
    p.m == map[] && RefsOk(p.log, p.m, p.handed)
  }

  lemma EmptyAlready(p: Part, reliable: bool)
    requires EmptyPart(p)
    ensures Emptied(p, p, reliable)
  {
    KeptSame(p, p, reliable);
    hide Kept, RefsOk;
  }

  lemma NothingDivided(parts: seq<Map>, mask: int)
    requires Divided(map[], parts, mask)
    ensures forall i :: 0 <= i < |parts| ==> parts[i] == map[]
  {
    hide SubTableIndex;
    forall i | 0 <= i < |parts| ensures parts[i] == map[] {
      forall c: KeyClass ensures c !in parts[i] {
        if Routed(c, i, mask, |parts|) { assert SameEntry(c, map[], parts[i]); }
      }
      assert parts[i].Keys == {};
    }
  }

  lemma AllEmptied(ps: seq<Part>, ps': seq<Part>, reliable: bool)
    requires |ps'| == |ps| && forall k :: 0 <= k < |ps| ==> Emptied(ps[k], ps'[k], reliable)
    ensures AllKept(ps, ps', reliable) && AllHanded(ps') == AllHanded(ps)
    ensures forall k :: 0 <= k < |ps| ==> ps'[k].m == map[] && RefsOk(ps'[k].log, ps'[k].m, ps'[k].handed)
  {
    HandedSame(ps, ps');
    hide Kept, RefsOk, AllHanded;
  }

  /** What a find hands out. */
  ghost function GivenOut(found: Option<Record>): multiset<Record> {
    if found.Some? then multiset{found.value} else multiset{}
  }

  lemma GivenCases(found: Option<Record>)
    ensures GivenOut(found) == if found.Some? then multiset{found.value} else multiset{}
  {}

  /** The first i parts have kept what they should, the others are as they were. */
  ghost predicate KeptTo(ps: seq<Part>, qs: seq<Part>, i: nat, reliable: bool) {
    && i <= |qs| == |ps|
    && (forall k :: i <= k < |ps| ==> qs[k] == ps[k])
    && (forall k :: 0 <= k < i ==> Kept(ps[k], qs[k], reliable) && qs[k].handed == ps[k].handed)
  }

  lemma NoneKept(ps: seq<Part>, reliable: bool)
    ensures KeptTo(ps, ps, 0, reliable)
  {}

  lemma KeptNext(ps: seq<Part>, qs: seq<Part>, p: Part, i: nat, reliable: bool)
    requires KeptTo(ps, qs, i, reliable) && i < |qs| && Kept(qs[i], p, reliable) && p.handed == qs[i].handed
    ensures KeptTo(ps, qs[i := p], i + 1, reliable)
  {
    hide Kept;
  }

  lemma AllKeptHere(ps: seq<Part>, ps': seq<Part>, i: nat, reliable: bool)
    requires KeptTo(ps, ps', i, reliable)
    ensures AllKept(ps, ps', reliable) && AllHanded(ps') == AllHanded(ps)
  {
    HandedSame(ps, ps');
    hide Kept, AllHanded;
    forall k | 0 <= k < |ps| ensures Kept(ps[k], ps'[k], reliable) {
      if k >= i { KeptSame(ps[k], ps'[k], reliable); }
    }
  }

  lemma HeldAlike(r: Record, m: Map, m': Map)
    requires SameEntry(r.key.cls, m, m')
    ensures Holds(m, r) <==> Holds(m', r)
  {}

  lemma AllEmpty(parts: seq<Map>, mask: int)
    requires forall j :: 0 <= j < |parts| ==> parts[j] == map[]
    ensures parts != [] ==> Divided(map[], parts, mask)
  {
    hide SubTableIndex;
  }

  // ------------------------------------------------------------------ runs

  datatype Op =
    | Insert(record: Option<Record>, overwrite: bool)
    | Find(key: Key)
    | Delete(key: Key)
    | DeleteThis(record: Option<Record>)
    | DeleteWhere(pred: Predicate)
    | ClearAll

  /** An operation's return code, the record a find returns, and what a sweep asked about and deleted. */
  datatype Outcome =
    | Outcome(rc: ReturnCode, found: Option<Record>)
    | Swept(rc: ReturnCode, asked: seq<Item>, stopped: bool, count: nat)

  function Found(out: Outcome): Option<Record> {
    if out.Outcome? then out.found else None
  }

  /** A map from keys to records, and whether it is in service. */
  datatype Service = Service(usable: bool, m: Map)

  /**
    How a map answers an operation. Only where memory may run out may an insertion of a
    new key fail, leaving the map alone, or a clear put the map out of service.
   */
  ghost predicate Answers(s: Service, op: Op, out: Outcome, s': Service, reliable: bool) {
    if !s.usable then
      Found(out).None? && !out.rc.Success? && !s'.usable
    else match op
      case Insert(record, overwrite) =>
        && Found(out).None? && s'.usable
        && (record.None? ==> out.rc.BadRecord? && s'.m == s.m)
        && (record.Some? ==>
          var c := record.value.key.cls;
          if c in s.m && !overwrite then out.rc.KeyExists? && s'.m == s.m
          else if out.rc.AllocFail? then c !in s.m && !reliable && s'.m == s.m
          else out.rc.Success? && s'.m == s.m[c := record.value])
      case Find(key) =>
        && s' == s
        && out == if key.cls in s.m then Outcome(Success, Some(s.m[key.cls])) else Outcome(NoSuchKey, None)
      case Delete(key) =>
        && out == Outcome(if key.cls in s.m then Success else NoSuchKey, None)
        && s' == Service(true, s.m - {key.cls})
      case DeleteThis(record) =>
        && Found(out).None? && s'.usable
        && out.rc == (if record.None? then BadRecord else if Holds(s.m, record.value) then Success else NoSuchKey)
        && s'.m == if out.rc.Success? then s.m - {record.value.key.cls} else s.m
      case DeleteWhere(pred) =>
        && out.Swept? && out.rc.Success? && s'.usable
        && Sweeps(s.m, pred, out.asked, out.stopped, out.count, s'.m)
      case ClearAll =>
        && Found(out).None?
        && (s'.usable <==> out.rc.Success?) && (s'.usable || !reliable)
        && s'.m == map[]
  }

  /** Perform one operation. */
  method Perform(t: HashTable, op: Op) returns (out: Outcome)
    requires t.Valid()
    modifies t, t.subtables
    ensures t.Valid()
    ensures Answers(old(Service(t.state.Success?, t.contents)), op, out, Service(t.state.Success?, t.contents), t.Reliable())
    ensures AllKept(old(t.Snapshot()), t.Snapshot(), t.Reliable())
    ensures AllHanded(t.Snapshot()) == old(AllHanded(t.Snapshot())) + GivenOut(Found(out))
  {
    hide HashTable.Valid, HashTable.Reliable, HashTable.Snapshot, AllKept, AllHanded;
    match op {
      case Insert(record, overwrite) =>
        var rc := t.InsertRecord(record, overwrite);
        out := Outcome(rc, None);
      case Find(key) =>
        var rc, found := t.FindKey(key);
        out := Outcome(rc, found);
      case Delete(key) =>
        var rc := t.DeleteKey(key);
        out := Outcome(rc, None);
      case DeleteThis(record) =>
        var rc := t.DeleteRecord(record);
        out := Outcome(rc, None);
      case DeleteWhere(pred) =>
        var rc, count, asked, stopped := t.DeleteIf(pred);
        out := Swept(rc, asked, stopped, count);
      case ClearAll =>
        t.Clear();
        out := Outcome(t.state, None);
    }
  }

  /** The records that the finds among these outcomes have handed out. */
  ghost function FindsOf(outs: seq<Outcome>): multiset<Record> {
    if outs == [] then multiset{} else FindsOf(outs[..|outs| - 1]) + GivenOut(Found(outs[|outs| - 1]))
  }

  lemma FindsSnoc(outs: seq<Outcome>, out: Outcome)
    ensures FindsOf(outs + [out]) == FindsOf(outs) + GivenOut(Found(out))
  {
    assert (outs + [out])[..|outs|] == outs;
  }

  /** Every state's parts follow from those of the state before. */
  ghost predicate KeptThrough(parts: seq<seq<Part>>, reliable: bool) {
    forall n :: 0 <= n < |parts| - 1 ==> AllKept(parts[n], parts[n + 1], reliable)
  }

  ghost predicate AllBounded(ps: seq<Part>) {
    forall k :: 0 <= k < |ps| ==> Bounded(ps[k])
  }

  ghost predicate NoneAtLimit(ps: seq<Part>) {
    forall k :: 0 <= k < |ps| ==> !AtLimit(ps[k])
  }

  ghost predicate AllTidy(ps: seq<Part>) {
    forall k :: 0 <= k < |ps| ==> Tidy(ps[k])
  }

  /** With memory enough, loads stay bounded while no subtable is at its size limit, and no segment is lost. */
  lemma {:induction false} Through(parts: seq<seq<Part>>, n: nat)
    requires KeptThrough(parts, true) && n < |parts|
    ensures AllBounded(parts[0]) && (forall j :: 0 <= j <= n ==> NoneAtLimit(parts[j])) ==> AllBounded(parts[n])
    ensures AllTidy(parts[0]) ==> AllTidy(parts[n])
  {
    hide Bounded, AtLimit, Tidy;
    if n > 0 {
      Through(parts, n - 1);
      assert AllKept(parts[n - 1], parts[n - 1 + 1], true);
    }
  }

  /**
    Over any run of operations the table's answers are those of a map from keys to records; in
    every state each record's references are the map's and those of the finds that returned it;
    and with memory enough the loads stay bounded and no segment is lost.
   */
  method Run(t: HashTable, ops: seq<Op>)
    returns (outs: seq<Outcome>, ghost states: seq<Service>, ghost parts: seq<seq<Part>>)
    requires t.Valid()
    modifies t, t.subtables
    ensures t.Valid()
    ensures |outs| == |ops| && |states| == |parts| == |ops| + 1
    ensures states[0] == old(Service(t.state.Success?, t.contents)) && parts[0] == old(t.Snapshot())
    ensures forall n :: 0 <= n < |ops| ==> Answers(states[n], ops[n], outs[n], states[n + 1], t.Reliable())
    ensures forall n :: 0 <= n <= |ops| ==>
      Accounted(states[n].m, parts[n], old(AllHanded(t.Snapshot())) + FindsOf(outs[..n]))
    ensures t.Reliable() && AllBounded(parts[0]) && (forall n :: 0 <= n <= |ops| ==> NoneAtLimit(parts[n])) ==>
      forall n :: 0 <= n <= |ops| ==> AllBounded(parts[n])
    ensures t.Reliable() && AllTidy(parts[0]) ==> forall n :: 0 <= n <= |ops| ==> AllTidy(parts[n])
  {
    hide *;
    outs := [];
    states, parts := [Service(t.state.Success?, t.contents)], [t.Snapshot()];
    ghost var handed := AllHanded(t.Snapshot());
    t.ReferencesAgree();
    NoFinds(handed);
    OneState(parts, t.Reliable());
    for n := 0 to |ops|
      invariant t.Valid() && |outs| == n && |states| == |parts| == n + 1
      invariant states[0] == old(Service(t.state.Success?, t.contents)) && parts[0] == old(t.Snapshot())
      invariant states[n] == Service(t.state.Success?, t.contents) && parts[n] == t.Snapshot()
      invariant AllHanded(t.Snapshot()) == handed + FindsOf(outs)
      invariant forall i :: 0 <= i < n ==> Answers(states[i], ops[i], outs[i], states[i + 1], t.Reliable())
      invariant forall i :: 0 <= i <= n ==> Accounted(states[i].m, parts[i], handed + FindsOf(outs[..i]))
      invariant KeptThrough(parts, t.Reliable())
    {
      var out := Perform(t, ops[n]);
      FindsSnoc(outs, out);
      t.ReferencesAgree();
      OneMoreState(parts, t.Snapshot(), t.Reliable());
      SameBeginnings(outs, out);
      outs := outs + [out];
      assert outs[..n + 1] == outs;
      states := states + [Service(t.state.Success?, t.contents)];
      parts := parts + [t.Snapshot()];
    }
    if t.Reliable() {
      forall n: nat | n <= |ops|
        ensures AllBounded(parts[0]) && (forall j :: 0 <= j <= n ==> NoneAtLimit(parts[j])) ==> AllBounded(parts[n])
        ensures AllTidy(parts[0]) ==> AllTidy(parts[n])
      {
        Through(parts, n);
      }
    }
  }

  lemma NoFinds(handed: multiset<Record>)
    ensures FindsOf([]) == multiset{} && handed + FindsOf([]) == handed
    ensures handed + FindsOf([][..0]) == handed
  {}

  lemma OneState(parts: seq<seq<Part>>, reliable: bool)
    requires |parts| == 1
    ensures KeptThrough(parts, reliable)
  {}

  lemma OneMoreState(parts: seq<seq<Part>>, ps: seq<Part>, reliable: bool)
    requires parts != [] && KeptThrough(parts, reliable) && AllKept(parts[|parts| - 1], ps, reliable)
    ensures KeptThrough(parts + [ps], reliable)
  {
    hide AllKept;
    var more := parts + [ps];
    forall n | 0 <= n < |more| - 1 ensures AllKept(more[n], more[n + 1], reliable) {
      if n < |parts| - 1 {
        assert more[n] == parts[n] && more[n + 1] == parts[n + 1];
      }
    }
  }

  lemma SameBeginnings(outs: seq<Outcome>, out: Outcome)
    ensures forall i :: 0 <= i <= |outs| ==> (outs + [out])[..i] == outs[..i]
  {}
}
