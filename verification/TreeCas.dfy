/**
  TREE_HASH_TABLE under its shared lock: any number of threads insert records, in steps of one
  shared access each; the scan of a hash chain counts as one, with any outcome that a scan
  interleaved with insertions can have. Nothing is removed while the lock is shared.
 */
module TreeCas {
  import opened Records
  import opened Trees
  import opened TreeDeletion
  import opened TreeInsertion

  /**
    Where an insertion of a record for `key` is: looking for the lowest present parent, cutting
    at index e; about to add the path that ends at e, below `parent`; with a place found for its
    node, behind `prev` and before `next`; with its node x linked into the chain, then counted;
    and with the parent's first child read, to put x before it.
   */
  datatype Phase =
    | Idle
    | Seeking(key: Path, r: nat, e: nat)
    | Adding(key: Path, r: nat, e: nat, parent: Option<Id>)
    | Placing(key: Path, r: nat, e: nat, parent: Option<Id>, prev: Option<Id>, next: Option<Id>)
    | Linked(key: Path, r: nat, e: nat, parent: Option<Id>, x: Id)
    | Counted(key: Path, r: nat, e: nat, parent: Option<Id>, x: Id)
    | Joining(key: Path, r: nat, e: nat, parent: Option<Id>, x: Id, first: Option<Id>)

  datatype State = State(f: Forest, nItems: int, threads: seq<Phase>)

  /** The thread's node is in its hash chain, but not yet in its parent's child list. */
  predicate Holds(p: Phase) {
    p.Linked? || p.Counted? || p.Joining?
  }

  /** `prev` is the node at index i of the chain, or its head at index -1. */
  predicate At(chain: seq<Id>, prev: Option<Id>, i: int) {
    -1 <= i < |chain| && (if prev.None? then i == -1 else 0 <= i && chain[i] == prev.value)
  }

  function After(chain: seq<Id>, i: int): Option<Id>
    requires -1 <= i < |chain|
  {
    if i + 1 < |chain| then Some(chain[i + 1]) else None
  }

  function First(list: seq<Id>): Option<Id> {
    if list == [] then None else Some(list[0])
  }

  // ------------------------------------------------------------------ steps

  /** Thread t goes on, the forest staying as it is. */
  ghost predicate Goes(s: State, t: nat, p: Phase, s': State) {
    t < |s.threads| && s' == s.(threads := s.threads[t := p])
  }

  ghost predicate Begin(s: State, t: nat, key: Path, r: nat, s': State) {
    key != [] && t < |s.threads| && s.threads[t].Idle? && Goes(s, t, Seeking(key, r, |key| - 1), s')
  }

  /** No separator here, or no node was seen for the path cut here; or the beginning is reached. */
  ghost predicate SeekOn(s: State, t: nat, p: Phase, s': State) {
    && p.Seeking?
    && Goes(s, t, if p.e == 0 then Adding(p.key, p.r, 1, None) else Seeking(p.key, p.r, p.e - 1), s')
  }

  /** The node of the path cut here. */
  ghost predicate SeekHit(s: State, t: nat, p: Phase, y: Id, s': State) {
    && p.Seeking? && 0 < p.e < |p.key| && IsSeparator(p.key[p.e])
    && y in s.f.path && s.f.path[y] == p.key[..p.e]
    && Goes(s, t, Adding(p.key, p.r, p.e + 1, Some(y)), s')
  }

  ghost predicate PassOn(s: State, t: nat, p: Phase, s': State) {
    && p.Adding? && 0 < p.e < |p.key| && !IsSeparator(p.key[p.e])
    && Goes(s, t, Adding(p.key, p.r, p.e + 1, p.parent), s')
  }

  /** No memory for the node. */
  ghost predicate GiveUp(s: State, t: nat, p: Phase, s': State) {
    p.Adding? && Cut(p.key, p.e) && Goes(s, t, Idle, s')
  }

  /** The chain for the path that ends at e. */
  function ChainFor(f: Forest, key: Path, e: nat, h: Path -> nat): seq<Id>
    requires e <= |key| && f.buckets != []
  {
    f.buckets[h(key[..e]) % |f.buckets|]
  }

  /** With a node allocated, or the compare-and-swap failed: a scan of the chain from its head. */
  ghost predicate Scan(s: State, t: nat, p: Phase, h: Path -> nat, s': State) {
    && (p.Adding? || p.Placing?) && 0 < p.e <= |p.key| && Cut(p.key, p.e) && s.f.buckets != []
    && Goes(s, t, Placing(p.key, p.r, p.e, p.parent, None, After(ChainFor(s.f, p.key, p.e, h), -1)), s')
  }

  /** Pass a node of another path that does not hash higher, and read its next pointer. */
  ghost predicate Advance(s: State, t: nat, p: Phase, j: nat, h: Path -> nat, s': State) {
    && p.Placing? && p.e <= |p.key| && s.f.buckets != [] && p.next.Some? && p.next.value in s.f.path
    && s.f.path[p.next.value] != p.key[..p.e] && h(s.f.path[p.next.value]) <= h(p.key[..p.e])
    && var chain := ChainFor(s.f, p.key, p.e, h);
       && j < |chain| && chain[j] == p.next.value
       && Goes(s, t, Placing(p.key, p.r, p.e, p.parent, p.next, After(chain, j)), s')
  }

  /** The path of a phase has been dealt with: x is its node. */
  function Done(p: Phase, x: Id): Phase
    requires !p.Idle? && !p.Seeking?
  {
    if p.e < |p.key| then Adding(p.key, p.r, p.e + 1, Some(x)) else Idle
  }

  /** The scan has come to the path's node. */
  ghost predicate Meets(f: Forest, p: Phase) {
    && p.Placing? && 0 < p.e <= |p.key|
    && p.next.Some? && p.next.value in f.path && f.path[p.next.value] == p.key[..p.e]
  }

  /** A path leading to the key has its node already. */
  ghost predicate Exists(s: State, t: nat, p: Phase, s': State) {
    Meets(s.f, p) && p.e < |p.key| && Goes(s, t, Done(p, p.next.value), s')
  }

  /** The forest with a record for y, if it had none. */
  function Recorded(f: Forest, y: Id, r: nat): Forest {
    if y in f.rec then f else Forest(f.path, f.rec[y := r], f.parent, f.children, f.buckets)
  }

  /** The key has its node already: compare-and-swap of its record, from none to this one. */
  ghost predicate SetRecord(s: State, t: nat, p: Phase, s': State) {
    && Meets(s.f, p) && p.e == |p.key| && t < |s.threads|
    && s' == State(Recorded(s.f, p.next.value, p.r), s.nItems, s.threads[t := Idle])
  }

  /** The forest with x in the hash chain behind index i, naming its parent, but not yet among the parent's children. */
  function Chained(f: Forest, x: Id, q: Path, rec: Option<nat>, parent: Option<Id>, i: int, h: Path -> nat): Forest
    requires f.buckets != [] && -1 <= i < |f.buckets[h(q) % |f.buckets|]|
  {
    var b := h(q) % |f.buckets|;
    var chain := f.buckets[b];
    Forest(
      f.path[x := q],
      if rec.Some? then f.rec[x := rec.value] else f.rec,
      if parent.Some? then f.parent[x := parent.value] else f.parent,
      f.children[x := []],
      f.buckets[b := chain[..i + 1] + [x] + chain[i + 1..]])
  }

  /** Compare-and-swap: link the new node in if `prev` still points to `next`, where the scan ended. */
  ghost predicate Swap(s: State, t: nat, p: Phase, x: Id, i: int, h: Path -> nat, s': State) {
    && p.Placing? && 0 < p.e <= |p.key| && t < |s.threads| && s.f.buckets != [] && x !in s.f.path
    && (p.next.Some? ==> p.next.value in s.f.path && h(s.f.path[p.next.value]) > h(p.key[..p.e]))
    && var chain := ChainFor(s.f, p.key, p.e, h);
       && At(chain, p.prev, i) && After(chain, i) == p.next
       && s' == State(Chained(s.f, x, p.key[..p.e], if p.e == |p.key| then Some(p.r) else None, p.parent, i, h), s.nItems,
                      s.threads[t := Linked(p.key, p.r, p.e, p.parent, x)])
  }

  ghost predicate Count(s: State, t: nat, p: Phase, s': State) {
    && p.Linked? && t < |s.threads|
    && s' == State(s.f, s.nItems + 1, s.threads[t := Counted(p.key, p.r, p.e, p.parent, p.x)])
  }

  /** A node without a parent path is done; else the parent's first child is read, or read again. */
  ghost predicate ReadFirst(s: State, t: nat, p: Phase, s': State) {
    && (p.Counted? || p.Joining?)
    && if p.parent.None? then Goes(s, t, Done(p, p.x), s')
       else
         && p.parent.value in s.f.children
         && Goes(s, t, Joining(p.key, p.r, p.e, p.parent, p.x, First(s.f.children[p.parent.value])), s')
  }

  /** The forest with x in front of the children of y. */
  function Adopting(f: Forest, x: Id, y: Id): Forest
    requires y in f.children
  {
    Forest(f.path, f.rec, f.parent, f.children[y := [x] + f.children[y]], f.buckets)
  }

  /** Compare-and-swap: x becomes the first child if the one read still is. */
  ghost predicate Join(s: State, t: nat, p: Phase, s': State) {
    && p.Joining? && p.parent.Some? && p.parent.value in s.f.children && t < |s.threads|
    && First(s.f.children[p.parent.value]) == p.first
    && s' == State(Adopting(s.f, p.x, p.parent.value), s.nItems, s.threads[t := Done(p, p.x)])
  }

  ghost predicate Step(s: State, t: nat, h: Path -> nat, s': State) {
    && t < |s.threads|
    && var p := s.threads[t];
       || (exists key, r :: Begin(s, t, key, r, s')) || SeekOn(s, t, p, s') || (exists y :: SeekHit(s, t, p, y, s'))
       || PassOn(s, t, p, s') || GiveUp(s, t, p, s')
       || Scan(s, t, p, h, s') || (exists j :: Advance(s, t, p, j, h, s'))
       || Exists(s, t, p, s') || SetRecord(s, t, p, s')
       || (exists x, i :: Swap(s, t, p, x, i, h, s')) || Count(s, t, p, s')
       || ReadFirst(s, t, p, s') || Join(s, t, p, s')
  }

  // ------------------------------------------------------------------ invariant

  /** Some thread has linked this node into its chain, and not yet into its parent's child list. */
  ghost predicate Unlisted(threads: seq<Phase>, x: Id) {
    exists t :: 0 <= t < |threads| && Holds(threads[t]) && threads[t].x == x
  }

  /** Each child list names exactly the nodes below it, each once, but for those not yet listed. */
  ghost predicate ChildrenBut(children: map<Id, seq<Id>>, path: map<Id, Path>, threads: seq<Phase>) {
    forall y :: y in path ==>
      && y in children && NoRepeats(children[y])
      && (forall x :: x in children[y] <==> x in path && ParentPath(path[x]) == Some(path[y]) && !Unlisted(threads, x))
  }

  /** No two threads hold the same node. */
  ghost predicate Apart(threads: seq<Phase>) {
    forall t, u :: 0 <= t < |threads| && 0 <= u < |threads| && t != u && Holds(threads[t]) && Holds(threads[u]) ==>
      threads[t].x != threads[u].x
  }

  /** Nodes linked in and not yet counted. */
  function Uncounted(threads: seq<Phase>): nat {
    if threads == [] then 0
    else Uncounted(threads[..|threads| - 1]) + (if threads[|threads| - 1].Linked? then 1 else 0)
  }

  /** What a scan for q has passed: no node of q, nor one that hashes higher. */
  ghost predicate Passed(chain: seq<Id>, path: map<Id, Path>, h: Path -> nat, q: Path, i: int) {
    -1 <= i < |chain| && forall k :: 0 <= k <= i ==> chain[k] in path && path[chain[k]] != q && h(path[chain[k]]) <= h(q)
  }

  /** `next` is at index j, and a pass to it from index i skips no node of q. */
  ghost predicate Reaches(chain: seq<Id>, path: map<Id, Path>, q: Path, i: int, j: int, next: Id) {
    && -1 <= i < j < |chain| && chain[j] == next
    && forall k :: i < k < j ==> chain[k] in path && path[chain[k]] != q
  }

  /** Where a scan would go on to `next`, it would skip no node of q. */
  ghost predicate Ahead(chain: seq<Id>, path: map<Id, Path>, h: Path -> nat, q: Path, i: int, next: Option<Id>) {
    next.Some? ==> next.value in path && (h(path[next.value]) <= h(q) ==> exists j :: Reaches(chain, path, q, i, j, next.value))
  }

  /** A scan for q is behind index i. */
  ghost predicate InPlace(chain: seq<Id>, path: map<Id, Path>, h: Path -> nat, q: Path, prev: Option<Id>, next: Option<Id>, i: int) {
    At(chain, prev, i) && Passed(chain, path, h, q, i) && Ahead(chain, path, h, q, i, next)
  }

  ghost predicate ScanOk(p: Phase, f: Forest, h: Path -> nat) {
    p.Placing? && p.e <= |p.key| ==>
      f.buckets != [] && exists i :: InPlace(ChainFor(f, p.key, p.e, h), f.path, h, p.key[..p.e], p.prev, p.next, i)
  }

  /** A thread knows the parent for its node, and the node it has linked in has its record. */
  ghost predicate AimOk(p: Phase, f: Forest) {
    && (p.Seeking? ==> p.e < |p.key|)
    && (!p.Idle? && !p.Seeking? ==> 0 < p.e <= |p.key| && ParentAt(f, p.key, p.e, p.parent))
    && (p.Placing? || Holds(p) ==> Cut(p.key, p.e))
    && (Holds(p) ==> p.x in f.path && f.path[p.x] == p.key[..p.e] && (p.e == |p.key| ==> p.x in f.rec && f.rec[p.x] == p.r))
  }

  ghost predicate PhaseOk(p: Phase, f: Forest, h: Path -> nat) {
    AimOk(p, f) && ScanOk(p, f, h)
  }

  /**
    The forest of a table under insertion: chains and parent links as at rest, with a node for
    every path above a node's; child lists but for the nodes not yet listed; and the count
    behind by the nodes not yet counted.
   */
  ghost predicate Inv(s: State, h: Path -> nat) {
    && UniquePaths(s.f.path) && ChainsOk(s.f.buckets, s.f.path, {}, h) && ParentsOk(s.f.parent, s.f.path, {})
    && ChildrenBut(s.f.children, s.f.path, s.threads)
    && s.f.rec.Keys <= s.f.path.Keys && s.f.parent.Keys <= s.f.path.Keys
    && (forall t :: 0 <= t < |s.threads| ==> PhaseOk(s.threads[t], s.f, h))
    && Apart(s.threads)
    && |s.f.path| == s.nItems + Uncounted(s.threads)
  }

  lemma InvFacts(s: State, h: Path -> nat)
    requires Inv(s, h)
    ensures UniquePaths(s.f.path) && ChainsOk(s.f.buckets, s.f.path, {}, h) && ParentsOk(s.f.parent, s.f.path, {})
    ensures ChildrenBut(s.f.children, s.f.path, s.threads)
    ensures s.f.rec.Keys <= s.f.path.Keys && s.f.parent.Keys <= s.f.path.Keys
    ensures forall t :: 0 <= t < |s.threads| ==> PhaseOk(s.threads[t], s.f, h)
    ensures Apart(s.threads) && |s.f.path| == s.nItems + Uncounted(s.threads)
  {
    hide UniquePaths, ChainsOk, ParentsOk, ChildrenBut, PhaseOk, Apart, Uncounted;
  }

  lemma MakeInv(s: State, h: Path -> nat)
    requires UniquePaths(s.f.path) && ChainsOk(s.f.buckets, s.f.path, {}, h) && ParentsOk(s.f.parent, s.f.path, {})
    requires ChildrenBut(s.f.children, s.f.path, s.threads)
    requires s.f.rec.Keys <= s.f.path.Keys && s.f.parent.Keys <= s.f.path.Keys
    requires forall t :: 0 <= t < |s.threads| ==> PhaseOk(s.threads[t], s.f, h)
    requires Apart(s.threads) && |s.f.path| == s.nItems + Uncounted(s.threads)
    ensures Inv(s, h)
  {
    hide UniquePaths, ChainsOk, ParentsOk, ChildrenBut, PhaseOk, Apart, Uncounted;
  }

  lemma {:induction false} UncountedUpdate(threads: seq<Phase>, t: nat, p: Phase)
    requires t < |threads|
    ensures Uncounted(threads[t := p]) ==
      Uncounted(threads) - (if threads[t].Linked? then 1 else 0) + (if p.Linked? then 1 else 0)
  {
    var n := |threads| - 1;
    if t < n {
      UncountedUpdate(threads[..n], t, p);
      assert threads[t := p][..n] == threads[..n][t := p];
    } else {
      assert threads[t := p][..n] == threads[..n];
    }
  }

  // ------------------------------------------------------------------ steps that leave the forest alone

  /** The same nodes are held before and after. */
  lemma SameHeld(threads: seq<Phase>, t: nat, p: Phase)
    requires t < |threads| && (Holds(p) <==> Holds(threads[t])) && (Holds(p) ==> p.x == threads[t].x)
    ensures forall x :: Unlisted(threads[t := p], x) <==> Unlisted(threads, x)
    ensures Apart(threads) ==> Apart(threads[t := p])
  {
    var threads' := threads[t := p];
    forall x ensures Unlisted(threads', x) <==> Unlisted(threads, x) {
      if Unlisted(threads, x) {
        var u :| 0 <= u < |threads| && Holds(threads[u]) && threads[u].x == x;
        assert Holds(threads'[u]) && threads'[u].x == x;
      }
      if Unlisted(threads', x) {
        var u :| 0 <= u < |threads'| && Holds(threads'[u]) && threads'[u].x == x;
        assert Holds(threads[u]) && threads[u].x == x;
      }
    }
  }

  lemma SameChildren(children: map<Id, seq<Id>>, path: map<Id, Path>, threads: seq<Phase>, threads': seq<Phase>)
    requires ChildrenBut(children, path, threads) && forall x :: Unlisted(threads', x) <==> Unlisted(threads, x)
    ensures ChildrenBut(children, path, threads')
  {
    hide Unlisted, ParentPath, NoRepeats;
  }

  /** A step that changes only thread t's phase, and the count. */
  lemma PhaseStep(s: State, t: nat, p: Phase, h: Path -> nat, s': State)
    requires Inv(s, h) && t < |s.threads| && PhaseOk(p, s.f, h)
    requires s'.f == s.f && s'.threads == s.threads[t := p]
    requires s'.nItems == s.nItems + (if s.threads[t].Linked? then 1 else 0) - (if p.Linked? then 1 else 0)
    requires (Holds(p) <==> Holds(s.threads[t])) && (Holds(p) ==> p.x == s.threads[t].x)
    ensures Inv(s', h)
  {
    hide *;
    InvFacts(s, h);
    SameHeld(s.threads, t, p);
    SameChildren(s.f.children, s.f.path, s.threads, s'.threads);
    UncountedUpdate(s.threads, t, p);
    MakeInv(s', h);
  }

  lemma IdleOk(f: Forest, h: Path -> nat)
    ensures PhaseOk(Idle, f, h)
  {}

  lemma PhaseParts(p: Phase, f: Forest, h: Path -> nat)
    requires PhaseOk(p, f, h)
    ensures AimOk(p, f) && ScanOk(p, f, h)
  {}

  lemma PhaseWhole(p: Phase, f: Forest, h: Path -> nat)
    requires AimOk(p, f) && ScanOk(p, f, h)
    ensures PhaseOk(p, f, h)
  {}

  /** Thread t, not holding a node, goes on to a phase in which it holds none. */
  lemma GoesKeeps(s: State, t: nat, p: Phase, h: Path -> nat, s': State)
    requires Inv(s, h) && Goes(s, t, p, s') && PhaseOk(p, s.f, h)
    requires (Holds(p) <==> Holds(s.threads[t])) && (Holds(p) ==> p.x == s.threads[t].x)
    requires p.Linked? <==> s.threads[t].Linked?
    ensures Inv(s', h) && s'.f == s.f
  {
    hide Inv, PhaseOk, Holds;
    PhaseStep(s, t, p, h, s');
  }

  /** The phase of thread t. */
  lemma PhaseOf(s: State, t: nat, h: Path -> nat)
    requires Inv(s, h) && t < |s.threads|
    ensures AimOk(s.threads[t], s.f) && ScanOk(s.threads[t], s.f, h)
  {
    hide *;
    InvFacts(s, h);
    PhaseParts(s.threads[t], s.f, h);
  }

  lemma BeginKeeps(s: State, t: nat, key: Path, r: nat, h: Path -> nat, s': State)
    requires Inv(s, h) && Begin(s, t, key, r, s')
    ensures Inv(s', h) && s'.f == s.f
  {
    hide Inv, Goes;
    GoesKeeps(s, t, Seeking(key, r, |key| - 1), h, s');
  }

  lemma SeekOnOk(p: Phase, f: Forest, h: Path -> nat)
    requires p.Seeking? && AimOk(p, f)
    ensures p.e == 0 ==> PhaseOk(Adding(p.key, p.r, 1, None), f, h)
    ensures p.e > 0 ==> PhaseOk(Seeking(p.key, p.r, p.e - 1), f, h)
  {}

  lemma SeekKeeps(s: State, t: nat, h: Path -> nat, s': State)
    requires Inv(s, h) && t < |s.threads| && SeekOn(s, t, s.threads[t], s')
    ensures Inv(s', h) && s'.f == s.f
  {
    hide *;
    var p := s.threads[t];
    PhaseOf(s, t, h);
    SeekFacts(s, t, s');
    NotHeld(p);
    SeekOnOk(p, s.f, h);
    var p' := if p.e == 0 then Adding(p.key, p.r, 1, None) else Seeking(p.key, p.r, p.e - 1);
    NotHeld(p');
    GoesKeeps(s, t, p', h, s');
  }

  lemma SeekFacts(s: State, t: nat, s': State)
    requires t < |s.threads| && SeekOn(s, t, s.threads[t], s')
    ensures var p := s.threads[t];
      p.Seeking? && Goes(s, t, if p.e == 0 then Adding(p.key, p.r, 1, None) else Seeking(p.key, p.r, p.e - 1), s')
  {
    hide Goes;
  }

  lemma SeekHitOk(key: Path, r: nat, e: nat, y: Id, f: Forest, h: Path -> nat)
    requires 0 < e < |key| && IsSeparator(key[e]) && y in f.path && f.path[y] == key[..e]
    ensures PhaseOk(Adding(key, r, e + 1, Some(y)), f, h)
  {
    ParentNext(f, key, e, y);
    hide ParentAt;
  }

  lemma SeekHitKeeps(s: State, t: nat, y: Id, h: Path -> nat, s': State)
    requires Inv(s, h) && t < |s.threads| && SeekHit(s, t, s.threads[t], y, s')
    ensures Inv(s', h) && s'.f == s.f
  {
    hide *;
    SeekHitFacts(s, t, y, s');
    var p := s.threads[t];
    var p' := Adding(p.key, p.r, p.e + 1, Some(y));
    NotHeld(p);
    NotHeld(p');
    SeekHitOk(p.key, p.r, p.e, y, s.f, h);
    GoesKeeps(s, t, p', h, s');
  }

  lemma SeekHitFacts(s: State, t: nat, y: Id, s': State)
    requires t < |s.threads| && SeekHit(s, t, s.threads[t], y, s')
    ensures var p := s.threads[t];
      && p.Seeking? && 0 < p.e < |p.key| && IsSeparator(p.key[p.e]) && y in s.f.path && s.f.path[y] == p.key[..p.e]
      && Goes(s, t, Adding(p.key, p.r, p.e + 1, Some(y)), s')
  {
    hide Goes;
  }

  lemma PassOk(p: Phase, f: Forest, h: Path -> nat)
    requires p.Adding? && 0 < p.e < |p.key| && !IsSeparator(p.key[p.e]) && AimOk(p, f)
    ensures PhaseOk(Adding(p.key, p.r, p.e + 1, p.parent), f, h)
  {}

  lemma PassKeeps(s: State, t: nat, h: Path -> nat, s': State)
    requires Inv(s, h) && t < |s.threads| && PassOn(s, t, s.threads[t], s')
    ensures Inv(s', h) && s'.f == s.f
  {
    hide *;
    var p := s.threads[t];
    PhaseOf(s, t, h);
    PassFacts(s, t, s');
    PassOk(p, s.f, h);
    var p' := Adding(p.key, p.r, p.e + 1, p.parent);
    NotHeld(p);
    NotHeld(p');
    GoesKeeps(s, t, p', h, s');
  }

  lemma PassFacts(s: State, t: nat, s': State)
    requires t < |s.threads| && PassOn(s, t, s.threads[t], s')
    ensures var p := s.threads[t];
      && p.Adding? && 0 < p.e < |p.key| && !IsSeparator(p.key[p.e])
      && Goes(s, t, Adding(p.key, p.r, p.e + 1, p.parent), s')
  {
    hide Goes;
  }

  lemma GiveUpKeeps(s: State, t: nat, h: Path -> nat, s': State)
    requires Inv(s, h) && t < |s.threads| && GiveUp(s, t, s.threads[t], s')
    ensures Inv(s', h) && s'.f == s.f
  {
    IdleOk(s.f, h);
    hide Inv, Goes, PhaseOk;
    GoesKeeps(s, t, Idle, h, s');
  }

  /** A scan behind index i of a thread whose aim is known. */
  lemma ScanningOk(p: Phase, f: Forest, h: Path -> nat, prev: Option<Id>, next: Option<Id>, i: int)
    requires (p.Adding? || p.Placing?) && 0 < p.e <= |p.key| && Cut(p.key, p.e) && AimOk(p, f) && f.buckets != []
    requires InPlace(ChainFor(f, p.key, p.e, h), f.path, h, p.key[..p.e], prev, next, i)
    ensures PhaseOk(Placing(p.key, p.r, p.e, p.parent, prev, next), f, h)
  {
    hide InPlace, ParentAt, ChainFor;
  }

  lemma ScanKeeps(s: State, t: nat, h: Path -> nat, s': State)
    requires Inv(s, h) && t < |s.threads| && Scan(s, t, s.threads[t], h, s')
    ensures Inv(s', h) && s'.f == s.f
  {
    hide *;
    ScanFacts(s, t, h, s');
    PhaseOf(s, t, h);
    var p := s.threads[t];
    ChainIn(s, p.key, p.e, h);
    var chain := ChainFor(s.f, p.key, p.e, h);
    AtHead(chain, s.f.path, h, p.key[..p.e]);
    ScanningOk(p, s.f, h, None, After(chain, -1), -1);
    var p' := Placing(p.key, p.r, p.e, p.parent, None, After(chain, -1));
    NotHeld(p);
    NotHeld(p');
    GoesKeeps(s, t, p', h, s');
  }

  lemma ScanFacts(s: State, t: nat, h: Path -> nat, s': State)
    requires t < |s.threads| && Scan(s, t, s.threads[t], h, s')
    ensures var p := s.threads[t];
      && (p.Adding? || p.Placing?) && 0 < p.e <= |p.key| && Cut(p.key, p.e) && s.f.buckets != []
      && Goes(s, t, Placing(p.key, p.r, p.e, p.parent, None, After(ChainFor(s.f, p.key, p.e, h), -1)), s')
  {
    hide Goes, ChainFor, After, Cut;
  }

  lemma ChainIn(s: State, key: Path, e: nat, h: Path -> nat)
    requires Inv(s, h) && e <= |key|
    ensures s.f.buckets != []
    ensures var chain := ChainFor(s.f, key, e, h);
      && NoRepeats(chain) && SortedChain(chain, s.f.path, h)
      && (forall x :: x in s.f.path && s.f.path[x] == key[..e] ==> x in chain)
  {
    hide *;
    InvFacts(s, h);
    ChainInForest(s.f, key, e, h);
  }

  /** The chain for a path: sorted, without repeats, of nodes with paths, and with the path's node if there is one. */
  lemma ChainInForest(f: Forest, key: Path, e: nat, h: Path -> nat)
    requires ChainsOk(f.buckets, f.path, {}, h) && e <= |key|
    ensures f.buckets != []
    ensures var chain := ChainFor(f, key, e, h);
      && NoRepeats(chain) && SortedChain(chain, f.path, h)
      && (forall x :: x in f.path && f.path[x] == key[..e] ==> x in chain)
  {
    var b := h(key[..e]) % |f.buckets|;
    assert ChainOk(f.buckets[b], f.path, b, |f.buckets|, h);
    ChainNodes(f.buckets[b], f.path, b, |f.buckets|, h);
    assert forall i :: 0 <= i < |f.buckets[b]| ==> f.buckets[b][i] in f.buckets[b];
    hide NoRepeats;
  }

  ghost predicate SortedChain(chain: seq<Id>, path: map<Id, Path>, h: Path -> nat) {
    && (forall i :: 0 <= i < |chain| ==> chain[i] in path)
    && (forall i, j :: 0 <= i < j < |chain| ==> h(path[chain[i]]) <= h(path[chain[j]]))
  }

  lemma AtHead(chain: seq<Id>, path: map<Id, Path>, h: Path -> nat, q: Path)
    requires SortedChain(chain, path, h)
    ensures InPlace(chain, path, h, q, None, After(chain, -1), -1)
  {
    if chain != [] { assert Reaches(chain, path, q, -1, 0, chain[0]); }
  }

  lemma AdvanceKeeps(s: State, t: nat, j: nat, h: Path -> nat, s': State)
    requires Inv(s, h) && t < |s.threads| && Advance(s, t, s.threads[t], j, h, s')
    ensures Inv(s', h) && s'.f == s.f
  {
    hide *;
    AdvanceFacts(s, t, j, h, s');
    PhaseOf(s, t, h);
    var p := s.threads[t];
    AimParts(p, s.f);
    ChainIn(s, p.key, p.e, h);
    var chain := ChainFor(s.f, p.key, p.e, h);
    var i := ScanAt(p, s.f, h);
    Advanced(chain, s.f.path, h, p.key[..p.e], p.prev, p.next.value, i, j);
    ScanningOk(p, s.f, h, p.next, After(chain, j), j);
    var p' := Placing(p.key, p.r, p.e, p.parent, p.next, After(chain, j));
    NotHeld(p);
    NotHeld(p');
    GoesKeeps(s, t, p', h, s');
  }

  lemma AdvanceFacts(s: State, t: nat, j: nat, h: Path -> nat, s': State)
    requires t < |s.threads| && Advance(s, t, s.threads[t], j, h, s')
    ensures var p := s.threads[t];
      && p.Placing? && p.e <= |p.key| && s.f.buckets != [] && p.next.Some? && p.next.value in s.f.path
      && s.f.path[p.next.value] != p.key[..p.e] && h(s.f.path[p.next.value]) <= h(p.key[..p.e])
      && var chain := ChainFor(s.f, p.key, p.e, h);
         && j < |chain| && chain[j] == p.next.value
         && Goes(s, t, Placing(p.key, p.r, p.e, p.parent, p.next, After(chain, j)), s')
  {
    hide Goes, ChainFor, After;
  }

  /** How far a scan is. */
  lemma ScanAt(p: Phase, f: Forest, h: Path -> nat) returns (i: int)
    requires p.Placing? && p.e <= |p.key| && ScanOk(p, f, h)
    ensures f.buckets != []
    ensures InPlace(ChainFor(f, p.key, p.e, h), f.path, h, p.key[..p.e], p.prev, p.next, i)
  {
    hide InPlace, ChainFor;
    i :| InPlace(ChainFor(f, p.key, p.e, h), f.path, h, p.key[..p.e], p.prev, p.next, i);
  }

  lemma AimParts(p: Phase, f: Forest)
    requires AimOk(p, f)
    ensures !p.Idle? && !p.Seeking? ==> 0 < p.e <= |p.key| && ParentAt(f, p.key, p.e, p.parent)
    ensures p.Placing? || Holds(p) ==> Cut(p.key, p.e)
    ensures Holds(p) ==> p.x in f.path && f.path[p.x] == p.key[..p.e] && (p.e == |p.key| ==> p.x in f.rec && f.rec[p.x] == p.r)
  {
    hide ParentAt, Cut;
  }

  lemma Advanced(chain: seq<Id>, path: map<Id, Path>, h: Path -> nat, q: Path, prev: Option<Id>, next: Id, i: int, j: nat)
    requires NoRepeats(chain) && SortedChain(chain, path, h) && InPlace(chain, path, h, q, prev, Some(next), i)
    requires next in path && path[next] != q && h(path[next]) <= h(q) && j < |chain| && chain[j] == next
    ensures InPlace(chain, path, h, q, Some(next), After(chain, j), j)
  {
    var k :| Reaches(chain, path, q, i, k, next);
    assert k == j;
    if j + 1 < |chain| { assert Reaches(chain, path, q, j, j + 1, chain[j + 1]); }
  }

  lemma DoneOk(p: Phase, x: Id, f: Forest, h: Path -> nat)
    requires !p.Idle? && !p.Seeking? && 0 < p.e <= |p.key| && Cut(p.key, p.e) && x in f.path && f.path[x] == p.key[..p.e]
    ensures PhaseOk(Done(p, x), f, h) && !Holds(Done(p, x)) && !Done(p, x).Linked?
  {
    if p.e < |p.key| { ParentNext(f, p.key, p.e, x); }
    hide ParentAt;
  }

  lemma ExistsKeeps(s: State, t: nat, h: Path -> nat, s': State)
    requires Inv(s, h) && t < |s.threads| && Exists(s, t, s.threads[t], s')
    ensures Inv(s', h) && s'.f == s.f
  {
    hide *;
    var p := s.threads[t];
    PhaseOf(s, t, h);
    AimParts(p, s.f);
    ExistsFacts(s, t, s');
    DoneOk(p, p.next.value, s.f, h);
    NotHeld(p);
    GoesKeeps(s, t, Done(p, p.next.value), h, s');
  }

  lemma ExistsFacts(s: State, t: nat, s': State)
    requires t < |s.threads| && Exists(s, t, s.threads[t], s')
    ensures var p := s.threads[t];
      && p.Placing? && p.next.Some? && p.next.value in s.f.path
      && p.e <= |p.key| && s.f.path[p.next.value] == p.key[..p.e]
      && Goes(s, t, Done(p, p.next.value), s')
  {
    hide Goes, Done;
  }

  /** The same node held, further on. */
  lemma HoldingOk(p: Phase, p': Phase, f: Forest, h: Path -> nat)
    requires Holds(p) && AimOk(p, f) && Holds(p')
    requires p'.key == p.key && p'.r == p.r && p'.e == p.e && p'.parent == p.parent && p'.x == p.x
    ensures PhaseOk(p', f, h)
  {
    hide ParentAt, Cut;
  }

  lemma CountKeeps(s: State, t: nat, h: Path -> nat, s': State)
    requires Inv(s, h) && t < |s.threads| && Count(s, t, s.threads[t], s')
    ensures Inv(s', h) && s'.f == s.f
  {
    var p := s.threads[t];
    PhaseOf(s, t, h);
    var p' := Counted(p.key, p.r, p.e, p.parent, p.x);
    HoldingOk(p, p', s.f, h);
    hide Inv, PhaseOk, AimOk, ScanOk;
    PhaseStep(s, t, p', h, s');
  }

  lemma RereadKeeps(s: State, t: nat, h: Path -> nat, s': State)
    requires Inv(s, h) && t < |s.threads| && ReadFirst(s, t, s.threads[t], s') && s.threads[t].parent.Some?
    ensures Inv(s', h) && s'.f == s.f
  {
    var p := s.threads[t];
    PhaseOf(s, t, h);
    var p' := Joining(p.key, p.r, p.e, p.parent, p.x, First(s.f.children[p.parent.value]));
    hide Inv, PhaseOk, AimOk, ScanOk, Goes;
    HoldingOk(p, p', s.f, h);
    GoesKeeps(s, t, p', h, s');
  }

  // ------------------------------------------------------------------ steps that change the forest

  /** Nodes, records, parent links and listed children only come, and none changes. */
  ghost predicate Grows(f: Forest, f': Forest) {
    && |f'.buckets| == |f.buckets|
    && (forall y :: y in f.path ==> y in f'.path && f'.path[y] == f.path[y])
    && (forall y :: y in f.rec ==> y in f'.rec && f'.rec[y] == f.rec[y])
    && (forall y :: y in f.parent ==> y in f'.parent && f'.parent[y] == f.parent[y])
    && (forall y :: y in f.path && y in f.children ==> y in f'.children && Extends(f.children[y], f'.children[y]))
  }

  /** A child list with more children in front. */
  ghost predicate Extends(list: seq<Id>, list': seq<Id>) {
    |list| <= |list'| && list'[|list'| - |list|..] == list
  }

  lemma GrowsNot(f: Forest)
    ensures Grows(f, f)
  {}

  lemma GrowsOn(f: Forest, f1: Forest, f2: Forest)
    requires Grows(f, f1) && Grows(f1, f2)
    ensures Grows(f, f2)
  {
    forall y | y in f.path && y in f.children ensures y in f2.children && Extends(f.children[y], f2.children[y]) {
      var a, b, c := f.children[y], f1.children[y], f2.children[y];
      assert c[|c| - |a|..] == c[|c| - |b|..][|b| - |a|..];
    }
  }

  lemma AimStays(p: Phase, f: Forest, f': Forest)
    requires AimOk(p, f) && Grows(f, f')
    ensures AimOk(p, f')
  {
    hide LastSeparator, Extends;
  }

  lemma RecordedGrows(f: Forest, y: Id, r: nat)
    requires y in f.path && f.rec.Keys <= f.path.Keys
    ensures var f' := Recorded(f, y, r);
      && f'.path == f.path && f'.buckets == f.buckets && f'.parent == f.parent && f'.children == f.children
      && f'.rec.Keys <= f'.path.Keys && Grows(f, f')
  {}

  /** Threads' phases where the chains stay as they are. */
  lemma PhasesStay(threads: seq<Phase>, f: Forest, f': Forest, h: Path -> nat)
    requires forall u :: 0 <= u < |threads| ==> PhaseOk(threads[u], f, h)
    requires Grows(f, f') && f'.path == f.path && f'.buckets == f.buckets
    ensures forall u :: 0 <= u < |threads| ==> PhaseOk(threads[u], f', h)
  {
    hide *;
    forall u | 0 <= u < |threads| ensures PhaseOk(threads[u], f', h) {
      PhaseParts(threads[u], f, h);
      AimStays(threads[u], f, f');
      ScanStaysSame(threads[u], f, f', h);
      PhaseWhole(threads[u], f', h);
    }
  }

  lemma RecordKeeps(s: State, t: nat, h: Path -> nat, s': State)
    requires Inv(s, h) && t < |s.threads| && SetRecord(s, t, s.threads[t], s')
    ensures Inv(s', h) && Grows(s.f, s'.f)
  {
    var p := s.threads[t];
    var y := p.next.value;
    InvFacts(s, h);
    var f' := Recorded(s.f, y, p.r);
    assert s' == State(f', s.nItems, s.threads[t := Idle]);
    RecordedGrows(s.f, y, p.r);
    NotHeld(p);
    hide *;
    PhasesStay(s.threads, s.f, f', h);
    MakeInv(State(f', s.nItems, s.threads), h);
    IdleOk(f', h);
    NotHeld(Idle);
    PhaseStep(State(f', s.nItems, s.threads), t, Idle, h, s');
  }

  lemma NotHeld(p: Phase)
    requires p.Idle? || p.Seeking? || p.Adding? || p.Placing?
    ensures !Holds(p)
  {}

  /** Thread t comes to hold a node no other thread holds. */
  lemma HeldNew(threads: seq<Phase>, t: nat, p: Phase)
    requires t < |threads| && Holds(p) && !Holds(threads[t]) && !Unlisted(threads, p.x)
    ensures forall y :: Unlisted(threads[t := p], y) <==> Unlisted(threads, y) || y == p.x
    ensures Apart(threads) ==> Apart(threads[t := p])
  {
    var threads' := threads[t := p];
    forall y ensures Unlisted(threads', y) <==> Unlisted(threads, y) || y == p.x {
      if Unlisted(threads, y) {
        var u :| 0 <= u < |threads| && Holds(threads[u]) && threads[u].x == y;
        assert Holds(threads'[u]) && threads'[u].x == y;
      }
      assert Holds(threads'[t]) && threads'[t].x == p.x;
    }
    if Apart(threads) {
      forall u, v | 0 <= u < |threads'| && 0 <= v < |threads'| && u != v && Holds(threads'[u]) && Holds(threads'[v])
        ensures threads'[u].x != threads'[v].x {
        if u == t { assert threads[v].x != p.x; }
        if v == t { assert threads[u].x != p.x; }
      }
    }
  }

  /** Thread t lets its node go. */
  lemma HeldGone(threads: seq<Phase>, t: nat, p: Phase)
    requires t < |threads| && !Holds(p) && Holds(threads[t]) && Apart(threads)
    ensures Unlisted(threads, threads[t].x)
    ensures forall y :: Unlisted(threads[t := p], y) <==> Unlisted(threads, y) && y != threads[t].x
    ensures Apart(threads[t := p])
  {
    var threads' := threads[t := p];
    forall y ensures Unlisted(threads', y) <==> Unlisted(threads, y) && y != threads[t].x {
      if Unlisted(threads, y) && y != threads[t].x {
        var u :| 0 <= u < |threads| && Holds(threads[u]) && threads[u].x == y;
        assert Holds(threads'[u]) && threads'[u].x == y;
      }
    }
  }

  /** A node that needs no list, or has come into it, is no longer missing from one. */
  lemma Let(s: State, t: nat, children: map<Id, seq<Id>>, h: Path -> nat, s': State)
    requires Inv(s, h) && t < |s.threads| && (s.threads[t].Counted? || s.threads[t].Joining?)
    requires var p := s.threads[t];
      && s' == State(Forest(s.f.path, s.f.rec, s.f.parent, children, s.f.buckets), s.nItems, s.threads[t := Done(p, p.x)])
      && ChildrenBut(children, s.f.path, s'.threads) && Grows(s.f, s'.f)
    ensures Inv(s', h)
  {
    hide *;
    var p := s.threads[t];
    InvFacts(s, h);
    PhaseOf(s, t, h);
    HeldIn(p);
    AimParts(p, s.f);
    DoneOk(p, p.x, s'.f, h);
    HeldGone(s.threads, t, Done(p, p.x));
    UncountedUpdate(s.threads, t, Done(p, p.x));
    PhasesStay(s.threads, s.f, s'.f, h);
    MakeInv(s', h);
  }

  lemma HeldIn(p: Phase)
    requires p.Linked? || p.Counted? || p.Joining?
    ensures Holds(p)
  {}

  lemma ScanStaysSame(p: Phase, f: Forest, f': Forest, h: Path -> nat)
    requires ScanOk(p, f, h) && f'.path == f.path && f'.buckets == f.buckets
    ensures ScanOk(p, f', h)
  {
    assert p.Placing? && p.e <= |p.key| && f.buckets != [] ==> ChainFor(f', p.key, p.e, h) == ChainFor(f, p.key, p.e, h);
    hide InPlace, ChainFor;
  }

  lemma RootKeeps(s: State, t: nat, h: Path -> nat, s': State)
    requires Inv(s, h) && t < |s.threads| && ReadFirst(s, t, s.threads[t], s') && s.threads[t].parent.None?
    ensures Inv(s', h) && s'.f == s.f
  {
    var p := s.threads[t];
    InvFacts(s, h);
    PhaseParts(p, s.f, h);
    ParentAtCut(s.f, p.key, p.e, p.parent);
    DoneOk(p, p.x, s.f, h);
    HeldGone(s.threads, t, Done(p, p.x));
    GrowsNot(s.f);
    assert ParentPath(s.f.path[p.x]).None?;
    RootUnlisted(s.f.children, s.f.path, s.threads, s'.threads, p.x);
    hide *;
    SameForest(s.f);
    Let(s, t, s.f.children, h, s');
  }

  lemma SameForest(f: Forest)
    ensures f == Forest(f.path, f.rec, f.parent, f.children, f.buckets)
  {}

  lemma RootUnlisted(children: map<Id, seq<Id>>, path: map<Id, Path>, threads: seq<Phase>, threads': seq<Phase>, x: Id)
    requires ChildrenBut(children, path, threads) && x in path && ParentPath(path[x]).None?
    requires forall y :: Unlisted(threads', y) <==> Unlisted(threads, y) && y != x
    ensures ChildrenBut(children, path, threads')
  {
    hide Unlisted, ParentPath, NoRepeats;
  }

  lemma JoinKeeps(s: State, t: nat, h: Path -> nat, s': State)
    requires Inv(s, h) && t < |s.threads| && Join(s, t, s.threads[t], s')
    ensures Inv(s', h) && Grows(s.f, s'.f)
  {
    var p := s.threads[t];
    var y := p.parent.value;
    InvFacts(s, h);
    PhaseParts(p, s.f, h);
    ParentAtCut(s.f, p.key, p.e, p.parent);
    DoneOk(p, p.x, s.f, h);
    HeldGone(s.threads, t, Done(p, p.x));
    assert ParentPath(s.f.path[p.x]) == Some(s.f.path[y]);
    ChildJoins(s.f.children, s.f.path, s.threads, s'.threads, p.x, y);
    AdoptingGrows(s.f, p.x, y);
    hide *;
    Let(s, t, s.f.children[y := [p.x] + s.f.children[y]], h, s');
  }

  lemma AdoptingGrows(f: Forest, x: Id, y: Id)
    requires y in f.children
    ensures Adopting(f, x, y) == Forest(f.path, f.rec, f.parent, f.children[y := [x] + f.children[y]], f.buckets)
    ensures Grows(f, Adopting(f, x, y))
  {
    assert ([x] + f.children[y])[1..] == f.children[y];
  }

  lemma ChildJoins(children: map<Id, seq<Id>>, path: map<Id, Path>, threads: seq<Phase>, threads': seq<Phase>, x: Id, y: Id)
    requires ChildrenBut(children, path, threads) && UniquePaths(path) && x in path && y in path && y in children
    requires ParentPath(path[x]) == Some(path[y]) && Unlisted(threads, x)
    requires forall z :: Unlisted(threads', z) <==> Unlisted(threads, z) && z != x
    ensures ChildrenBut(children[y := [x] + children[y]], path, threads')
  {
    hide Unlisted, ParentPath, NoRepeats;
    FirstDiffers(x, children[y]);
  }

  // ------------------------------------------------------------------ linking a node into its chain

  /** Where a compare-and-swap succeeds, the node belongs, and its path has no node. */
  lemma SwapFits(chain: seq<Id>, path: map<Id, Path>, h: Path -> nat, q: Path, prev: Option<Id>, next: Option<Id>, k: int, i: int)
    requires NoRepeats(chain) && SortedChain(chain, path, h) && InPlace(chain, path, h, q, prev, next, k)
    requires At(chain, prev, i) && After(chain, i) == next
    requires next.Some? ==> next.value in path && h(path[next.value]) > h(q)
    requires forall x :: x in path && path[x] == q ==> x in chain
    ensures Fits(chain, path, h, i + 1, h(q)) && !Present(path, q)
  {
    assert k == i;
    forall m | i < m < |chain| ensures h(path[chain[m]]) > h(q) {
      assert chain[i + 1] == next.value;
    }
    forall m | 0 <= m < |chain| ensures path[chain[m]] != q {}
    hide *;
    NoneHas(chain, path, q);
  }

  lemma NoneHas(chain: seq<Id>, path: map<Id, Path>, q: Path)
    requires forall m :: 0 <= m < |chain| ==> chain[m] in path && path[chain[m]] != q
    requires forall x :: x in path && path[x] == q ==> x in chain
    ensures !Present(path, q)
  {
    forall x | x in chain ensures x in path && path[x] != q {
      var m :| 0 <= m < |chain| && chain[m] == x;
    }
  }

  /** Another thread's scan of the same chain stays sound: the new node never comes in among the passed ones. */
  lemma ScanGoesOn(chain: seq<Id>, path: map<Id, Path>, h: Path -> nat, i: int, x: Id, q: Path,
                   q': Path, prev: Option<Id>, next: Option<Id>, k: int)
    requires SortedChain(chain, path, h) && -1 <= i < |chain| && x !in path && Fits(chain, path, h, i + 1, h(q))
    requires InPlace(chain, path, h, q', prev, next, k)
    ensures InPlace(chain[..i + 1] + [x] + chain[i + 1..], path[x := q], h, q', prev, next, if k <= i then k else k + 1)
  {
    var chain', path', k' := chain[..i + 1] + [x] + chain[i + 1..], path[x := q], if k <= i then k else k + 1;
    InsertedAt(chain, i + 1, x);
    assert At(chain', prev, k');
    forall m | 0 <= m <= k' ensures chain'[m] in path' && path'[chain'[m]] != q' && h(path'[chain'[m]]) <= h(q') {
      if m == i + 1 { assert h(q) < h(path[chain[k]]); }
    }
    if next.Some? && h(path[next.value]) <= h(q') {
      var j :| Reaches(chain, path, q', k, j, next.value);
      ReachGoesOn(chain, path, h, i, x, q, q', k, j, next.value);
    }
  }

  lemma ReachGoesOn(chain: seq<Id>, path: map<Id, Path>, h: Path -> nat, i: int, x: Id, q: Path,
                    q': Path, k: int, j: int, next: Id)
    requires SortedChain(chain, path, h) && -1 <= i < |chain| && x !in path && Fits(chain, path, h, i + 1, h(q))
    requires Reaches(chain, path, q', k, j, next) && h(path[next]) <= h(q')
    ensures Reaches(chain[..i + 1] + [x] + chain[i + 1..], path[x := q], q',
                    if k <= i then k else k + 1, if j <= i then j else j + 1, next)
  {
    var chain', path' := chain[..i + 1] + [x] + chain[i + 1..], path[x := q];
    InsertedAt(chain, i + 1, x);
    var k', j' := if k <= i then k else k + 1, if j <= i then j else j + 1;
    forall m | k' < m < j' ensures chain'[m] in path' && path'[chain'[m]] != q' {
      if m == i + 1 { assert h(q) < h(path[chain[j]]); }
    }
  }

  /** The parts of the forest with x chained. */
  lemma ChainedParts(f: Forest, x: Id, q: Path, rec: Option<nat>, parent: Option<Id>, i: int, h: Path -> nat)
    requires f.buckets != [] && -1 <= i < |f.buckets[h(q) % |f.buckets|]|
    requires x !in f.path && f.rec.Keys <= f.path.Keys && f.parent.Keys <= f.path.Keys
    ensures var f', b := Chained(f, x, q, rec, parent, i, h), h(q) % |f.buckets|;
      && f'.path == f.path[x := q] && f'.children == f.children[x := []]
      && f'.parent == (if parent.Some? then f.parent[x := parent.value] else f.parent)
      && f'.buckets == f.buckets[b := f.buckets[b][..i + 1] + [x] + f.buckets[b][i + 1..]]
      && f'.rec.Keys <= f'.path.Keys && f'.parent.Keys <= f'.path.Keys
      && (rec.Some? ==> x in f'.rec && f'.rec[x] == rec.value)
  {}

  lemma ChainedGrows(f: Forest, x: Id, q: Path, rec: Option<nat>, parent: Option<Id>, i: int, h: Path -> nat)
    requires f.buckets != [] && -1 <= i < |f.buckets[h(q) % |f.buckets|]|
    requires x !in f.path && f.rec.Keys <= f.path.Keys && f.parent.Keys <= f.path.Keys
    ensures Grows(f, Chained(f, x, q, rec, parent, i, h))
  {
    forall list: seq<Id> ensures Extends(list, list) {}
    hide Extends;
  }

  /** Another thread's scan after x has been linked into its chain. */
  lemma ScanStays(p: Phase, f: Forest, x: Id, q: Path, rec: Option<nat>, parent: Option<Id>, i: int, h: Path -> nat)
    requires ScanOk(p, f, h) && ChainsOk(f.buckets, f.path, {}, h) && x !in f.path
    requires f.buckets != [] && -1 <= i < |f.buckets[h(q) % |f.buckets|]|
    requires Fits(f.buckets[h(q) % |f.buckets|], f.path, h, i + 1, h(q))
    requires f.rec.Keys <= f.path.Keys && f.parent.Keys <= f.path.Keys
    ensures ScanOk(p, Chained(f, x, q, rec, parent, i, h), h)
  {
    hide *;
    ChainedParts(f, x, q, rec, parent, i, h);
    if p.Placing? && p.e <= |p.key| {
      var k := ScanAt(p, f, h);
      ChainInForest(f, p.key, p.e, h);
      var q' := p.key[..p.e];
      ScanMoves(f.buckets, f.path, h, i, x, q, q', p.prev, p.next, k, ChainFor(f, p.key, p.e, h)) by { ChainIs(f, p.key, p.e, h); }
      ChainIs(Chained(f, x, q, rec, parent, i, h), p.key, p.e, h);
      var k' := if h(q') % |f.buckets| != h(q) % |f.buckets| || k <= i then k else k + 1;
      ScanIs(p, Chained(f, x, q, rec, parent, i, h), h, k');
    } else {
      NoScan(p, Chained(f, x, q, rec, parent, i, h), h);
    }
  }

  lemma ChainIs(f: Forest, key: Path, e: nat, h: Path -> nat)
    requires e <= |key| && f.buckets != []
    ensures ChainFor(f, key, e, h) == f.buckets[h(key[..e]) % |f.buckets|]
  {}

  lemma ScanIs(p: Phase, f: Forest, h: Path -> nat, k: int)
    requires p.Placing? && p.e <= |p.key| && f.buckets != []
    requires InPlace(ChainFor(f, p.key, p.e, h), f.path, h, p.key[..p.e], p.prev, p.next, k)
    ensures ScanOk(p, f, h)
  {
    hide InPlace, ChainFor;
  }

  lemma NoScan(p: Phase, f: Forest, h: Path -> nat)
    requires !(p.Placing? && p.e <= |p.key|)
    ensures ScanOk(p, f, h)
  {}

  lemma ScanMoves(buckets: seq<seq<Id>>, path: map<Id, Path>, h: Path -> nat, i: int, x: Id, q: Path,
                  q': Path, prev: Option<Id>, next: Option<Id>, k: int, chain: seq<Id>)
    requires buckets != [] && chain == buckets[h(q') % |buckets|] && SortedChain(chain, path, h) && x !in path
    requires -1 <= i < |buckets[h(q) % |buckets|]| && Fits(buckets[h(q) % |buckets|], path, h, i + 1, h(q))
    requires InPlace(chain, path, h, q', prev, next, k)
    ensures var b := h(q) % |buckets|;
      var buckets' := buckets[b := buckets[b][..i + 1] + [x] + buckets[b][i + 1..]];
      InPlace(buckets'[h(q') % |buckets|], path[x := q], h, q', prev, next, if h(q') % |buckets| != b || k <= i then k else k + 1)
  {
    hide SortedChain, Fits, InPlace;
    if h(q') % |buckets| == h(q) % |buckets| {
      ScanGoesOn(chain, path, h, i, x, q, q', prev, next, k);
    } else {
      OtherChain(chain, path, h, q', prev, next, k, x, q);
    }
  }

  lemma OtherChain(chain: seq<Id>, path: map<Id, Path>, h: Path -> nat, q': Path, prev: Option<Id>, next: Option<Id>, k: int, x: Id, q: Path)
    requires InPlace(chain, path, h, q', prev, next, k) && x !in path
    ensures InPlace(chain, path[x := q], h, q', prev, next, k)
  {
    if next.Some? && h(path[next.value]) <= h(q') {
      var j :| Reaches(chain, path, q', k, j, next.value);
      assert Reaches(chain, path[x := q], q', k, j, next.value);
    }
  }

  /** A new node is in no child list yet, and has no children. */
  lemma ChildToBe(f: Forest, threads: seq<Phase>, threads': seq<Phase>, x: Id, q: Path)
    requires ChildrenBut(f.children, f.path, threads) && ParentsOk(f.parent, f.path, {})
    requires x !in f.path && !Present(f.path, q)
    requires forall y :: Unlisted(threads', y) <==> Unlisted(threads, y) || y == x
    ensures ChildrenBut(f.children[x := []], f.path[x := q], threads')
  {
    NotOwnParent(q);
    forall y | y in f.path ensures ParentPath(f.path[y]) != Some(q) {
      NotAParent(f.parent, f.path, q, y);
    }
    hide Unlisted, ParentPath, NoRepeats, Present, ParentsOk;
    assert NoRepeats([]) by { EmptyList(); }
  }

  lemma EmptyList()
    ensures NoRepeats([])
  {}

  lemma SwapFacts(s: State, t: nat, x: Id, i: int, h: Path -> nat, s': State)
    requires t < |s.threads| && Swap(s, t, s.threads[t], x, i, h, s')
    ensures var p := s.threads[t];
      && p.Placing? && 0 < p.e <= |p.key| && s.f.buckets != [] && x !in s.f.path
      && (p.next.Some? ==> p.next.value in s.f.path && h(s.f.path[p.next.value]) > h(p.key[..p.e]))
      && var chain := ChainFor(s.f, p.key, p.e, h);
         && -1 <= i < |chain| && chain == s.f.buckets[h(p.key[..p.e]) % |s.f.buckets|]
         && At(chain, p.prev, i) && After(chain, i) == p.next
         && s' == State(Chained(s.f, x, p.key[..p.e], if p.e == |p.key| then Some(p.r) else None, p.parent, i, h), s.nItems,
                        s.threads[t := Linked(p.key, p.r, p.e, p.parent, x)])
  {
    hide Chained, After;
  }

  /** A thread's own phase after its node has been linked in. */
  lemma LinkedOk(p: Phase, x: Id, f: Forest, f': Forest, h: Path -> nat)
    requires p.Placing? && AimOk(p, f) && Grows(f, f')
    requires x in f'.path && f'.path[x] == p.key[..p.e] && (p.e == |p.key| ==> x in f'.rec && f'.rec[x] == p.r)
    ensures 0 < p.e <= |p.key| && PhaseOk(Linked(p.key, p.r, p.e, p.parent, x), f', h)
  {
    AimStays(p, f, f');
    hide ParentAt, Grows, Cut;
  }

  lemma HeldThere(s: State, x: Id, h: Path -> nat)
    requires Inv(s, h) && x !in s.f.path
    ensures !Unlisted(s.threads, x)
  {
    hide *;
    InvFacts(s, h);
    forall u | 0 <= u < |s.threads| ensures !HoldsNode(s.threads[u], x) {
      PhaseParts(s.threads[u], s.f, h);
      HeldHasPath(s.threads[u], s.f, x);
    }
    NotUnlisted(s.threads, x);
  }

  predicate HoldsNode(p: Phase, x: Id) {
    Holds(p) && p.x == x
  }

  lemma HeldHasPath(p: Phase, f: Forest, x: Id)
    requires AimOk(p, f) && x !in f.path
    ensures !HoldsNode(p, x)
  {
    hide ParentAt, Cut;
  }

  lemma NotUnlisted(threads: seq<Phase>, x: Id)
    requires forall u :: 0 <= u < |threads| ==> !HoldsNode(threads[u], x)
    ensures !Unlisted(threads, x)
  {
    assert forall u :: 0 <= u < |threads| && Holds(threads[u]) && threads[u].x == x ==> HoldsNode(threads[u], x);
  }

  lemma SwapKeeps(s: State, t: nat, x: Id, i: int, h: Path -> nat, s': State)
    requires Inv(s, h) && t < |s.threads| && Swap(s, t, s.threads[t], x, i, h, s')
    ensures Inv(s', h) && Grows(s.f, s'.f)
  {
    hide *;
    var p := s.threads[t];
    SwapFacts(s, t, x, i, h, s');
    InvFacts(s, h);
    PhaseOf(s, t, h);
    AimParts(p, s.f);
    var f, q, chain := s.f, p.key[..p.e], ChainFor(s.f, p.key, p.e, h);
    var rec := if p.e == |p.key| then Some(p.r) else None;
    var k := ScanAt(p, f, h);
    ChainIn(s, p.key, p.e, h);
    SwapFits(chain, f.path, h, q, p.prev, p.next, k, i);
    SwapForest(f, x, p, rec, i, h);
    ChainedParts(f, x, q, rec, p.parent, i, h);
    ChainedGrows(f, x, q, rec, p.parent, i, h);
    SwapThreads(s, t, x, h, s');
    forall u | 0 <= u < |s.threads| && u != t ensures PhaseOk(s.threads[u], s'.f, h) {
      PhaseParts(s.threads[u], f, h);
      AimStays(s.threads[u], f, s'.f);
      ScanStays(s.threads[u], f, x, q, rec, p.parent, i, h);
      PhaseWhole(s.threads[u], s'.f, h);
    }
    LinkedOk(p, x, f, s'.f, h);
    ChildToBe(f, s.threads, s'.threads, x, q);
    MakeInv(s', h);
  }

  /** The threads with x linked in by thread t. */
  lemma SwapThreads(s: State, t: nat, x: Id, h: Path -> nat, s': State)
    requires Inv(s, h) && t < |s.threads| && s.threads[t].Placing? && x !in s.f.path
    requires var p := s.threads[t]; s'.threads == s.threads[t := Linked(p.key, p.r, p.e, p.parent, x)]
    ensures forall y :: Unlisted(s'.threads, y) <==> Unlisted(s.threads, y) || y == x
    ensures Apart(s'.threads) && Uncounted(s'.threads) == Uncounted(s.threads) + 1
  {
    hide *;
    var p := s.threads[t];
    var p' := Linked(p.key, p.r, p.e, p.parent, x);
    InvFacts(s, h);
    HeldThere(s, x, h);
    NotHeld(p);
    HeldIn(p');
    HeldNew(s.threads, t, p');
    UncountedUpdate(s.threads, t, p');
  }

  /** Paths, chains and parent links with x linked in. */
  lemma SwapForest(f: Forest, x: Id, p: Phase, rec: Option<nat>, i: int, h: Path -> nat)
    requires UniquePaths(f.path) && ChainsOk(f.buckets, f.path, {}, h) && ParentsOk(f.parent, f.path, {})
    requires f.rec.Keys <= f.path.Keys && f.parent.Keys <= f.path.Keys && x !in f.path
    requires !p.Idle? && !p.Seeking? && 0 < p.e <= |p.key| && ParentAt(f, p.key, p.e, p.parent) && f.buckets != []
    requires var q := p.key[..p.e];
      && -1 <= i < |f.buckets[h(q) % |f.buckets|]| && Fits(f.buckets[h(q) % |f.buckets|], f.path, h, i + 1, h(q))
      && !Present(f.path, q)
    ensures var f' := Chained(f, x, p.key[..p.e], rec, p.parent, i, h);
      UniquePaths(f'.path) && ChainsOk(f'.buckets, f'.path, {}, h) && ParentsOk(f'.parent, f'.path, {})
  {
    hide *;
    var q := p.key[..p.e];
    ChainedParts(f, x, q, rec, p.parent, i, h);
    ParentAtCut(f, p.key, p.e, p.parent);
    ParentNamed(f, q, p.parent);
    AddedUnique(f.path, x, q);
    AddedChain(f.buckets, f.path, h, x, q, i + 1);
    AddedParents(f, x, q, p.parent);
  }

  lemma ParentNamed(f: Forest, q: Path, parent: Option<Id>)
    requires ParentOf(f, q, parent)
    ensures parent.Some? ==> parent.value in f.path && ParentPath(q) == Some(f.path[parent.value])
    ensures parent.None? ==> ParentPath(q).None?
  {
    hide ParentPath;
  }

  /** Every step of every thread keeps the invariant, and nothing once there is lost or changed. */
  lemma StepKeeps(s: State, t: nat, h: Path -> nat, s': State)
    requires Inv(s, h) && Step(s, t, h, s')
    ensures Inv(s', h) && Grows(s.f, s'.f)
  {
    hide Inv, Grows, Begin, SeekOn, SeekHit, PassOn, GiveUp, Scan, Advance, Exists, SetRecord, Swap, Count, ReadFirst, Join;
    var p := s.threads[t];
    GrowsNot(s.f);
    if key, r :| Begin(s, t, key, r, s') {
      BeginKeeps(s, t, key, r, h, s');
    } else if SeekOn(s, t, p, s') {
      SeekKeeps(s, t, h, s');
    } else if y :| SeekHit(s, t, p, y, s') {
      SeekHitKeeps(s, t, y, h, s');
    } else if PassOn(s, t, p, s') {
      PassKeeps(s, t, h, s');
    } else if GiveUp(s, t, p, s') {
      GiveUpKeeps(s, t, h, s');
    } else if Scan(s, t, p, h, s') {
      ScanKeeps(s, t, h, s');
    } else if j :| Advance(s, t, p, j, h, s') {
      AdvanceKeeps(s, t, j, h, s');
    } else if Exists(s, t, p, s') {
      ExistsKeeps(s, t, h, s');
    } else if SetRecord(s, t, p, s') {
      RecordKeeps(s, t, h, s');
    } else if x, i :| Swap(s, t, p, x, i, h, s') {
      SwapKeeps(s, t, x, i, h, s');
    } else if Count(s, t, p, s') {
      CountKeeps(s, t, h, s');
    } else if Join(s, t, p, s') {
      JoinKeeps(s, t, h, s');
    } else {
      ReadKeeps(s, t, h, s');
    }
  }

  lemma ReadKeeps(s: State, t: nat, h: Path -> nat, s': State)
    requires Inv(s, h) && t < |s.threads| && ReadFirst(s, t, s.threads[t], s')
    ensures Inv(s', h) && s'.f == s.f
  {
    hide *;
    Reader(s, t, s');
    if s.threads[t].parent.None? { RootKeeps(s, t, h, s'); } else { RereadKeeps(s, t, h, s'); }
  }

  lemma Reader(s: State, t: nat, s': State)
    requires t < |s.threads| && ReadFirst(s, t, s.threads[t], s')
    ensures s.threads[t].Counted? || s.threads[t].Joining?
  {}

  // ------------------------------------------------------------------ runs

  /** A table at rest, no thread having begun. */
  ghost predicate Initial(s: State, h: Path -> nat) {
    && ForestOk(s.f, h) && s.f.parent.Keys <= s.f.path.Keys && s.nItems == |s.f.path|
    && forall t :: 0 <= t < |s.threads| ==> s.threads[t].Idle?
  }

  ghost predicate Moves(s: State, h: Path -> nat, s': State) {
    exists t :: Step(s, t, h, s')
  }

  ghost predicate IsRun(run: seq<State>, h: Path -> nat) {
    && run != [] && Initial(run[0], h)
    && forall i :: 0 <= i < |run| - 1 ==> Moves(run[i], h, run[i + 1])
  }

  lemma {:induction false} NoneUncounted(threads: seq<Phase>)
    requires forall t :: 0 <= t < |threads| ==> threads[t].Idle?
    ensures Uncounted(threads) == 0
  {
    if threads != [] { NoneUncounted(threads[..|threads| - 1]); }
  }

  /** With no thread at work no node is missing from its list. */
  lemma AllListed(threads: seq<Phase>)
    requires forall t :: 0 <= t < |threads| ==> threads[t].Idle?
    ensures Apart(threads) && forall x :: !Unlisted(threads, x)
  {}

  lemma ListsAtRest(children: map<Id, seq<Id>>, path: map<Id, Path>, threads: seq<Phase>)
    requires forall x :: !Unlisted(threads, x)
    ensures ChildrenBut(children, path, threads) <==> ChildrenOk(children, path, {})
  {
    hide ParentPath, NoRepeats, Unlisted;
  }

  lemma InitialFacts(s: State, h: Path -> nat)
    requires Initial(s, h)
    ensures ForestOk(s.f, h) && s.f.parent.Keys <= s.f.path.Keys && s.nItems == |s.f.path|
    ensures forall t :: 0 <= t < |s.threads| ==> s.threads[t].Idle?
  {
    hide ForestOk;
  }

  lemma InitialInv(s: State, h: Path -> nat)
    requires Initial(s, h)
    ensures Inv(s, h)
  {
    hide *;
    InitialFacts(s, h);
    SplitOk(s.f, h);
    NoneUncounted(s.threads);
    AllListed(s.threads);
    ListsAtRest(s.f.children, s.f.path, s.threads);
    IdleOk(s.f, h);
    MakeInv(s, h);
  }

  /** In every state of every run the invariant holds, and all that an earlier state had is there unchanged. */
  lemma {:induction false} RunKeeps(run: seq<State>, m: nat, n: nat, h: Path -> nat)
    requires IsRun(run, h) && m <= n < |run|
    ensures Inv(run[n], h) && Grows(run[m].f, run[n].f)
  {
    hide Inv, Grows, Step, Initial;
    if m < n {
      RunKeeps(run, m, n - 1, h);
      assert Moves(run[n - 1], h, run[n]);
      var t :| Step(run[n - 1], t, h, run[n]);
      StepKeeps(run[n - 1], t, h, run[n]);
      GrowsOn(run[m].f, run[n - 1].f, run[n].f);
    } else {
      GrowsNot(run[n].f);
      if n == 0 {
        InitialInv(run[0], h);
      } else {
        RunKeeps(run, n - 1, n - 1, h);
        assert Moves(run[n - 1], h, run[n]);
        var t :| Step(run[n - 1], t, h, run[n]);
        StepKeeps(run[n - 1], t, h, run[n]);
      }
    }
  }

  /**
    In every state of every run, each node is in its hash chain; there is a node for every path
    above a node's; and each child list names exactly the nodes below, each once, but for those
    that a thread has linked into their chain and not yet into the list.
   */
  lemma ForestInEveryState(run: seq<State>, n: nat, h: Path -> nat)
    requires IsRun(run, h) && n < |run|
    ensures var f := run[n].f;
      && f.buckets != []
      && (forall x :: x in f.path ==> x in f.buckets[h(f.path[x]) % |f.buckets|])
      && (forall x, q :: x in f.path && Under(f.path[x], q) ==> Present(f.path, q))
      && (forall x, y :: x in f.path && y in f.path && ParentPath(f.path[x]) == Some(f.path[y]) ==>
            && x in f.parent && f.parent[x] == y && y in f.children
            && (x !in f.children[y] <==> Unlisted(run[n].threads, x)))
      && (forall y :: y in f.path ==> y in f.children && NoRepeats(f.children[y]))
      && (forall x, y :: y in f.path && y in f.children && x in f.children[y] ==>
            x in f.path && ParentPath(f.path[x]) == Some(f.path[y]))
      && |f.path| == run[n].nItems + Uncounted(run[n].threads)
  {
    hide *;
    RunKeeps(run, n, n, h);
    InvFacts(run[n], h);
    ChainHas(run[n].f.buckets, run[n].f.path, h);
    AncestorsThere(run[n].f);
    ParentHas(run[n].f, run[n].threads);
    ListHas(run[n].f.children, run[n].f.path, run[n].threads);
  }

  lemma AncestorsThere(f: Forest)
    requires ParentsOk(f.parent, f.path, {})
    ensures forall x, q :: x in f.path && Under(f.path[x], q) ==> Present(f.path, q)
  {
    hide *;
    forall x, q | x in f.path && Under(f.path[x], q) ensures Present(f.path, q) {
      AncestorPresent(f.path, f.parent, {}, x, q);
    }
  }

  /** Each node below a node's names it, and is in its child list unless yet unlisted. */
  lemma ParentHas(f: Forest, threads: seq<Phase>)
    requires ParentsOk(f.parent, f.path, {}) && ChildrenBut(f.children, f.path, threads)
    ensures forall x, y :: x in f.path && y in f.path && ParentPath(f.path[x]) == Some(f.path[y]) ==>
      && x in f.parent && f.parent[x] == y && y in f.children
      && (x !in f.children[y] <==> Unlisted(threads, x))
  {
    LinkFacts(f.parent, f.path);
    hide ParentPath, NoRepeats, Unlisted, ParentsOk;
  }

  lemma ChainHas(buckets: seq<seq<Id>>, path: map<Id, Path>, h: Path -> nat)
    requires ChainsOk(buckets, path, {}, h)
    ensures buckets != [] && forall x :: x in path ==> x in buckets[h(path[x]) % |buckets|]
  {
    hide ChainOk;
  }

  lemma ListHas(children: map<Id, seq<Id>>, path: map<Id, Path>, threads: seq<Phase>)
    requires ChildrenBut(children, path, threads)
    ensures forall y :: y in path ==> y in children && NoRepeats(children[y])
    ensures forall x, y :: y in path && y in children && x in children[y] ==> x in path && ParentPath(path[x]) == Some(path[y])
  {
    hide ParentPath, NoRepeats, Unlisted;
  }

  /** When no thread is at work, the forest is as after insertions one by one, and the count is right. */
  lemma AtRest(run: seq<State>, n: nat, h: Path -> nat)
    requires IsRun(run, h) && n < |run|
    requires forall t :: 0 <= t < |run[n].threads| ==> run[n].threads[t].Idle?
    ensures ForestOk(run[n].f, h) && run[n].nItems == |run[n].f.path|
  {
    hide *;
    RunKeeps(run, n, n, h);
    var s := run[n];
    InvFacts(s, h);
    NoneUncounted(s.threads);
    AllListed(s.threads);
    ListsAtRest(s.f.children, s.f.path, s.threads);
    MakeForest(s.f, h);
  }

  /** The insertion of thread t ends, otherwise than for want of memory. */
  ghost predicate Ends(s: State, t: nat, h: Path -> nat, s': State) {
    && Step(s, t, h, s') && !s.threads[t].Idle? && t < |s'.threads| && s'.threads[t].Idle? && !GiveUp(s, t, s.threads[t], s')
  }

  /** The key has a node with a record: r, or the one that node had in forest f0. */
  ghost predicate Settled(f0: Forest, f: Forest, key: Path, r: nat) {
    exists y :: y in f.path && f.path[y] == key && y in f.rec && (f.rec[y] == r || (y in f0.rec && f0.rec[y] == f.rec[y]))
  }

  /** The last step of an insertion that ends so. */
  lemma EndsFacts(s: State, t: nat, h: Path -> nat, s': State)
    requires Ends(s, t, h, s')
    ensures t < |s.threads| && !s.threads[t].Idle?
    ensures var p := s.threads[t];
      || (SetRecord(s, t, p, s') && p.e <= |p.key|)
      || (Holds(p) && !p.Seeking? && p.e >= |p.key| && s'.f.path == s.f.path && s'.f.rec == s.f.rec)
  {}

  lemma EndsSettled(s: State, t: nat, h: Path -> nat, s': State)
    requires Inv(s, h) && Ends(s, t, h, s')
    ensures !s.threads[t].Idle?
    ensures Settled(s.f, s'.f, s.threads[t].key, s.threads[t].r)
  {
    hide *;
    EndsFacts(s, t, h, s');
    PhaseOf(s, t, h);
    var p := s.threads[t];
    AimParts(p, s.f);
    if SetRecord(s, t, p, s') {
      RecordSettles(s, t, s');
    } else {
      NodeSettles(s.f, s'.f, p);
    }
  }

  lemma NodeSettles(f: Forest, f': Forest, p: Phase)
    requires Holds(p) && p.e == |p.key| && f'.path == f.path && f'.rec == f.rec
    requires p.x in f.path && f.path[p.x] == p.key[..p.e] && p.x in f.rec && f.rec[p.x] == p.r
    ensures Settled(f, f', p.key, p.r)
  {
    assert p.key[..p.e] == p.key;
  }

  lemma RecordSettles(s: State, t: nat, s': State)
    requires t < |s.threads| && SetRecord(s, t, s.threads[t], s')
    ensures Settled(s.f, s'.f, s.threads[t].key, s.threads[t].r)
  {
    var p := s.threads[t];
    assert p.key[..p.e] == p.key;
    assert s'.f.path[p.next.value] == p.key && p.next.value in s'.f.rec;
  }

  lemma SettledStays(f0: Forest, f: Forest, f': Forest, key: Path, r: nat)
    requires Settled(f0, f, key, r) && Grows(f, f')
    ensures Settled(f0, f', key, r) && Present(f'.path, key)
  {
    var y :| y in f.path && f.path[y] == key && y in f.rec && (f.rec[y] == r || (y in f0.rec && f0.rec[y] == f.rec[y]));
    assert f'.path[y] == key;
    hide Extends;
  }

  /**
    After an insertion has ended otherwise than for want of memory, in all later states its key
    has a node with a record, its own unless the node had one before; and so has every path
    above the key a node.
   */
  lemma InsertionLasts(run: seq<State>, m: nat, n: nat, t: nat, h: Path -> nat)
    requires IsRun(run, h) && m < n < |run| && Ends(run[m], t, h, run[m + 1])
    ensures t < |run[m].threads| && !run[m].threads[t].Idle?
    ensures Settled(run[m].f, run[n].f, run[m].threads[t].key, run[m].threads[t].r)
    ensures forall q :: Under(run[m].threads[t].key, q) ==> Present(run[n].f.path, q)
  {
    hide *;
    EndsFacts(run[m], t, h, run[m + 1]);
    RunKeeps(run, m, m, h);
    RunKeeps(run, m + 1, n, h);
    var p := run[m].threads[t];
    EndsSettled(run[m], t, h, run[m + 1]);
    SettledStays(run[m].f, run[m + 1].f, run[n].f, p.key, p.r);
    InvFacts(run[n], h);
    AncestorsThere(run[n].f);
    KeyAncestors(run[n].f, p.key);
  }

  lemma KeyAncestors(f: Forest, key: Path)
    requires Present(f.path, key) && forall x, q :: x in f.path && Under(f.path[x], q) ==> Present(f.path, q)
    ensures forall q :: Under(key, q) ==> Present(f.path, q)
  {
    hide Under;
    var x :| x in f.path && f.path[x] == key;
  }
}
