/**
  HASH_TABLE under its shared lock: any number of threads insert by compare-and-swap and
  look keys up, in steps of one shared access each. Nothing is removed while the lock is
  shared.
 */
module CasTables {
  import opened Records
  import opened ChainTables

  /**
    Where a thread is: idle; scanning for a key, behind node `prev` (or at the bucket head)
    with `next` read from there; or with its node linked in but not yet counted. `present`
    records whether the key was in the table when the scan began.
   */
  datatype Phase =
    | Idle
    | Scanning(node: Node, inserting: bool, prev: Option<Node>, next: Option<Node>, present: bool)
    | Linked(node: Node)

  datatype State = State(buckets: seq<seq<Node>>, nItems: int, threads: seq<Phase>)

  /** The node that `prev` points to: what a read of its next pointer yields. */
  ghost predicate PointsTo(chain: seq<Node>, prev: Option<Node>, next: Option<Node>) {
    exists i: int :: At(chain, prev, i) && next == After(chain, i)
  }

  /** `prev` is the node at index i, or the bucket head at index -1. */
  predicate At(chain: seq<Node>, prev: Option<Node>, i: int) {
    -1 <= i < |chain| && (if prev.None? then i == -1 else 0 <= i && chain[i] == prev.value)
  }

  function After(chain: seq<Node>, i: int): Option<Node>
    requires -1 <= i < |chain|
  {
    if i + 1 < |chain| then Some(chain[i + 1]) else None
  }

  function Linkage(chain: seq<Node>, i: int, x: Node): seq<Node>
    requires -1 <= i < |chain|
  {
    chain[..i + 1] + [x] + chain[i + 1..]
  }

  // ------------------------------------------------------------------ steps

  /** The scan has come to a node of greater hash, or to the end. */
  predicate Arrived(p: Phase)
    requires p.Scanning?
  {
    p.next.None? || Hash(p.next.value) > p.node.cls.sig
  }

  /** The scan has come to the key's node. */
  predicate Found(p: Phase)
    requires p.Scanning?
  {
    p.next.Some? && p.next.value.cls == p.node.cls
  }

  ghost predicate Begin(s: State, t: nat, node: Node, inserting: bool, s': State) {
    && t < |s.threads| && s.threads[t].Idle? && s.buckets != []
    && var chain := s.buckets[Hash(node) % |s.buckets|];
       s' == s.(threads := s.threads[t := Scanning(node, inserting, None, After(chain, -1), HasKey(chain, node.cls))])
  }

  /** Pass a node of smaller hash, or of equal hash and another key, and read its next pointer. */
  ghost predicate Advance(s: State, t: nat, next: Option<Node>, s': State) {
    && t < |s.threads| && s.threads[t].Scanning? && s.buckets != []
    && var p := s.threads[t];
       && !Arrived(p) && !Found(p)
       && PointsTo(s.buckets[Hash(p.node) % |s.buckets|], p.next, next)
       && s' == s.(threads := s.threads[t := p.(prev := p.next, next := next)])
  }

  /** The key is there: an insertion fails, a look-up succeeds. */
  ghost predicate Stop(s: State, t: nat, s': State) {
    && t < |s.threads| && s.threads[t].Scanning?
    && (Found(s.threads[t]) || (Arrived(s.threads[t]) && !s.threads[t].inserting))
    && s' == s.(threads := s.threads[t := Idle])
  }

  /** Compare-and-swap: link the new node in if `prev` still points to `next`. */
  ghost predicate Swap(s: State, t: nat, i: int, s': State) {
    && t < |s.threads| && s.threads[t].Scanning? && s.threads[t].inserting && Arrived(s.threads[t]) && s.buckets != []
    && var p := s.threads[t];
       var b := Hash(p.node) % |s.buckets|;
       && At(s.buckets[b], p.prev, i) && After(s.buckets[b], i) == p.next
       && s' == State(s.buckets[b := Linkage(s.buckets[b], i, p.node)], s.nItems, s.threads[t := Linked(p.node)])
  }

  /** The compare-and-swap failed: scan again from the bucket head. */
  ghost predicate Retry(s: State, t: nat, s': State) {
    && t < |s.threads| && s.threads[t].Scanning? && s.threads[t].inserting && Arrived(s.threads[t]) && s.buckets != []
    && var p := s.threads[t];
       var chain := s.buckets[Hash(p.node) % |s.buckets|];
       && !PointsTo(chain, p.prev, p.next)
       && s' == s.(threads := s.threads[t := p.(prev := None, next := After(chain, -1))])
  }

  ghost predicate Count(s: State, t: nat, s': State) {
    && t < |s.threads| && s.threads[t].Linked?
    && s' == s.(nItems := s.nItems + 1, threads := s.threads[t := Idle])
  }

  ghost predicate Step(s: State, t: nat, s': State) {
    || (exists node, inserting :: Begin(s, t, node, inserting, s'))
    || (exists next :: Advance(s, t, next, s'))
    || Stop(s, t, s')
    || (exists i :: Swap(s, t, i, s'))
    || Retry(s, t, s')
    || Count(s, t, s')
  }

  // ------------------------------------------------------------------ invariant

  /** Nodes linked in and not yet counted. */
  function Uncounted(threads: seq<Phase>): nat {
    if threads == [] then 0
    else Uncounted(threads[..|threads| - 1]) + (if threads[|threads| - 1].Linked? then 1 else 0)
  }

  /**
    None of the nodes up to index i has the key, nor one that a pass on to `next` would skip:
    where `next` is not of greater hash, or where the key was there from the beginning.
   */
  ghost predicate Passed(chain: seq<Node>, c: KeyClass, i: int, next: Option<Node>, present: bool)
    requires -1 <= i < |chain|
  {
    && (i >= 0 ==> Hash(chain[i]) <= c.sig)
    && (forall q :: 0 <= q <= i ==> chain[q].cls != c)
    && (present ==> next.Some?)
    && (next.Some? ==> exists j :: Reaches(chain, c, i, j, next.value, present))
  }

  /** `next` is at index j behind i, and a pass to it skips no node of the key. */
  ghost predicate Reaches(chain: seq<Node>, c: KeyClass, i: int, j: int, next: Node, present: bool)
    requires -1 <= i < |chain|
  {
    && i < j < |chain| && chain[j] == next
    && (Hash(next) <= c.sig || present ==> forall q :: i < q < j ==> chain[q].cls != c)
  }

  ghost predicate PhaseOk(p: Phase, buckets: seq<seq<Node>>)
    requires buckets != []
  {
    !p.Idle? ==> OnChain(p, buckets[Hash(p.node) % |buckets|])
  }

  ghost predicate OnChain(p: Phase, chain: seq<Node>)
    requires !p.Idle?
  {
    && (p.Scanning? ==> exists i :: Scanned(chain, p, i))
    && (p.Scanning? && p.present ==> HasKey(chain, p.node.cls))
    && (p.Linked? ==> p.node in chain)
  }

  ghost predicate Scanned(chain: seq<Node>, p: Phase, i: int)
    requires p.Scanning?
  {
    At(chain, p.prev, i) && Passed(chain, p.node.cls, i, p.next, p.present)
  }

  /** Chains are proper, scans are sound, and the count lags behind by the nodes not yet counted. */
  ghost predicate Inv(s: State) {
    && BucketsOk(s.buckets)
    && (forall t :: 0 <= t < |s.threads| ==> PhaseOk(s.threads[t], s.buckets))
    && |All(s.buckets)| == s.nItems + Uncounted(s.threads)
  }

  lemma {:induction false} UncountedUpdate(threads: seq<Phase>, t: nat, p: Phase)
    requires t < |threads|
    ensures Uncounted(threads[t := p]) ==
      Uncounted(threads) - (if threads[t].Linked? then 1 else 0) + (if p.Linked? then 1 else 0)
  {
    var n := |threads| - 1;
    if t < n {
      UncountedUpdate(threads[..n], t, p);
      assert threads[t := p][..n] == threads[..n][t := p];
    } else {
      assert threads[t := p][..n] == threads[..n];
    }
  }

  // ------------------------------------------------------------------ a node linked in

  /** A node of hash between its neighbours', of a key the chain does not have. */
  lemma LinkedChain(chain: seq<Node>, i: int, x: Node, b: nat, n: nat)
    requires n > 0 && ChainOk(chain, b, n) && -1 <= i < |chain| && Hash(x) % n == b
    requires forall q :: 0 <= q <= i ==> Hash(chain[q]) <= Hash(x) && chain[q].cls != x.cls
    requires forall q :: i < q < |chain| ==> Hash(chain[q]) > Hash(x)
    ensures ChainOk(Linkage(chain, i, x), b, n) && x in Linkage(chain, i, x)
    ensures |Linkage(chain, i, x)| == |chain| + 1 && !HasKey(chain, x.cls)
    ensures forall y :: y in chain ==> y in Linkage(chain, i, x)
  {
    var chain' := Linkage(chain, i, x);
    assert chain == chain[..i + 1] + chain[i + 1..];
    LinkedAt(chain, i, x);
    forall y | y in chain' ensures Hash(y) % n == b {}
  }

  /** Where the nodes of a chain are after a node has been linked in behind index i. */
  lemma LinkedAt(chain: seq<Node>, i: int, x: Node)
    requires -1 <= i < |chain|
    ensures var chain' := Linkage(chain, i, x);
      && |chain'| == |chain| + 1
      && (forall q :: 0 <= q < |chain'| ==> chain'[q] == if q <= i then chain[q] else if q == i + 1 then x else chain[q - 1])
  {}

  /** Another thread's scan of the same chain stays sound: the new node never comes in among the passed ones. */
  lemma ScanStays(chain: seq<Node>, i: int, x: Node, p: Phase, k: int)
    requires -1 <= i < |chain| && Sorted(chain) && p.Scanning? && Scanned(chain, p, k)
    requires forall q :: i < q < |chain| ==> Hash(chain[q]) > Hash(x)
    requires p.present ==> x.cls != p.node.cls
    ensures Scanned(Linkage(chain, i, x), p, if k <= i then k else k + 1)
  {
    var chain' := Linkage(chain, i, x);
    LinkedAt(chain, i, x);
    var c, k' := p.node.cls, if k <= i then k else k + 1;
    assert At(chain', p.prev, k');
    forall q | 0 <= q <= k' ensures chain'[q].cls != c {
      if q == i + 1 { assert Hash(x) < Hash(chain[k]) <= c.sig; }
    }
    if p.next.Some? {
      var j :| Reaches(chain, c, k, j, p.next.value, p.present);
      ReachStays(chain, i, x, c, k, j, p.next.value, p.present);
    }
  }

  lemma ReachStays(chain: seq<Node>, i: int, x: Node, c: KeyClass, k: int, j: int, next: Node, present: bool)
    requires -1 <= i < |chain| && Sorted(chain) && -1 <= k < |chain| && Reaches(chain, c, k, j, next, present)
    requires forall q :: i < q < |chain| ==> Hash(chain[q]) > Hash(x)
    requires present ==> x.cls != c
    ensures Reaches(Linkage(chain, i, x), c, if k <= i then k else k + 1, if j <= i then j else j + 1, next, present)
  {
    var chain' := Linkage(chain, i, x);
    LinkedAt(chain, i, x);
    var k', j' := if k <= i then k else k + 1, if j <= i then j else j + 1;
    if Hash(next) <= c.sig || present {
      forall q | k' < q < j' ensures chain'[q].cls != c {
        if q == i + 1 && !present { assert Hash(x) < Hash(chain[j]); }
      }
    }
  }

  lemma ChainStays(chain: seq<Node>, i: int, x: Node, p: Phase)
    requires -1 <= i < |chain| && Sorted(chain) && !p.Idle? && OnChain(p, chain)
    requires forall q :: i < q < |chain| ==> Hash(chain[q]) > Hash(x)
    requires !HasKey(chain, x.cls)
    ensures OnChain(p, Linkage(chain, i, x))
  {
    assert chain == chain[..i + 1] + chain[i + 1..];
    forall y | y in chain ensures y in Linkage(chain, i, x) {}
    if p.Scanning? {
      var k :| Scanned(chain, p, k);
      ScanStays(chain, i, x, p, k);
    }
    hide Linkage, Scanned;
  }

  // ------------------------------------------------------------------ the steps keep it

  /** In a sorted chain everything behind a node of greater hash, or behind the end, is of greater hash. */
  lemma SwapFits(chain: seq<Node>, p: Phase, i: int)
    requires Sorted(chain) && UniqueKeys(chain) && p.Scanning? && OnChain(p, chain) && Arrived(p)
    requires At(chain, p.prev, i) && After(chain, i) == p.next
    ensures forall q :: 0 <= q <= i ==> Hash(chain[q]) <= Hash(p.node) && chain[q].cls != p.node.cls
    ensures forall q :: i < q < |chain| ==> Hash(chain[q]) > Hash(p.node)
  {
    var k :| Scanned(chain, p, k);
    assert k == i;
  }

  lemma SwapKeeps(s: State, t: nat, i: int, s': State)
    requires Inv(s) && Swap(s, t, i, s')
    ensures Inv(s')
    ensures !HasKey(s.buckets[Hash(s.threads[t].node) % |s.buckets|], s.threads[t].node.cls)
    ensures Holds(s'.buckets, s.threads[t].node)
    ensures forall x :: Holds(s.buckets, x) ==> Holds(s'.buckets, x)
  {
    var p := s.threads[t];
    var n := |s.buckets|;
    var b := Hash(p.node) % n;
    var chain := s.buckets[b];
    SwapFacts(s, t, i, s');
    hide *;
    SwapFits(chain, p, i);
    LinkedChain(chain, i, p.node, b, n);
    BucketReplaced(s.buckets, b, Linkage(chain, i, p.node));
    AllLength(s.buckets, b, Linkage(chain, i, p.node));
    UncountedUpdate(s.threads, t, Linked(p.node));
    forall u | 0 <= u < |s.threads| && u != t ensures PhaseOk(s.threads[u], s'.buckets) {
      OtherThread(s.threads[u], s.buckets, b, i, p.node);
    }
    LinkedOk(p.node, s'.buckets, b);
    MakeInv(s');
  }

  lemma SwapFacts(s: State, t: nat, i: int, s': State)
    requires Inv(s) && Swap(s, t, i, s')
    ensures var p := s.threads[t];
      var b := Hash(p.node) % |s.buckets|;
      var chain := s.buckets[b];
      && BucketsOk(s.buckets) && ChainOk(chain, b, |s.buckets|) && Sorted(chain) && UniqueKeys(chain)
      && p.Scanning? && Arrived(p) && OnChain(p, chain)
      && -1 <= i < |chain| && At(chain, p.prev, i) && After(chain, i) == p.next
      && s' == State(s.buckets[b := Linkage(chain, i, p.node)], s.nItems, s.threads[t := Linked(p.node)])
      && (forall u :: 0 <= u < |s.threads| ==> PhaseOk(s.threads[u], s.buckets))
      && |All(s.buckets)| == s.nItems + Uncounted(s.threads)
  {
    var p := s.threads[t];
    assert PhaseOk(p, s.buckets);
    hide OnChain, All, Uncounted, Linkage, Arrived;
  }

  lemma MakeInv(s: State)
    requires BucketsOk(s.buckets)
    requires forall t :: 0 <= t < |s.threads| ==> PhaseOk(s.threads[t], s.buckets)
    requires |All(s.buckets)| == s.nItems + Uncounted(s.threads)
    ensures Inv(s)
  {
    hide PhaseOk, BucketsOk, All, Uncounted;
  }

  /** Another thread's phase after a node has been linked into bucket b. */
  lemma OtherThread(q: Phase, buckets: seq<seq<Node>>, b: nat, i: int, x: Node)
    requires buckets != [] && PhaseOk(q, buckets) && b < |buckets| && -1 <= i < |buckets[b]| && Sorted(buckets[b])
    requires forall k :: i < k < |buckets[b]| ==> Hash(buckets[b][k]) > Hash(x)
    requires !HasKey(buckets[b], x.cls)
    ensures PhaseOk(q, buckets[b := Linkage(buckets[b], i, x)])
  {
    hide Linkage, OnChain, Sorted, HasKey;
    if !q.Idle? && Hash(q.node) % |buckets| == b {
      ChainStays(buckets[b], i, x, q);
    }
  }

  lemma LinkedOk(x: Node, buckets: seq<seq<Node>>, b: nat)
    requires buckets != [] && b < |buckets| && b == Hash(x) % |buckets| && x in buckets[b]
    ensures PhaseOk(Linked(x), buckets) && Holds(buckets, x)
  {}

  /** A step that changes only thread t's phase. */
  lemma PhaseStep(s: State, t: nat, q: Phase, s': State)
    requires Inv(s) && t < |s.threads| && PhaseOk(q, s.buckets)
    requires s'.buckets == s.buckets && s'.threads == s.threads[t := q]
    requires s'.nItems == s.nItems + (if s.threads[t].Linked? then 1 else 0) - (if q.Linked? then 1 else 0)
    ensures Inv(s')
  {
    UncountedUpdate(s.threads, t, q);
    hide PhaseOk, BucketsOk, All, Uncounted;
  }

  /** A scan from the bucket head, after one read. */
  lemma Restart(chain: seq<Node>, p: Phase)
    requires p.Scanning? && p.prev.None? && p.next == After(chain, -1) && (p.present ==> HasKey(chain, p.node.cls))
    ensures OnChain(p, chain)
  {
    if p.next.Some? { assert Reaches(chain, p.node.cls, -1, 0, p.next.value, p.present); }
    assert Scanned(chain, p, -1);
  }

  lemma AdvanceKeeps(s: State, t: nat, next: Option<Node>, s': State)
    requires Inv(s) && Advance(s, t, next, s')
    ensures Inv(s')
  {
    var p := s.threads[t];
    var b := Hash(p.node) % |s.buckets|;
    assert PhaseOk(p, s.buckets) && ChainOk(s.buckets[b], b, |s.buckets|);
    AdvancedScan(s.buckets[b], p, next);
    hide OnChain, Passed, At, ChainOk, All, Uncounted, BucketsOk, PointsTo;
    PhaseStep(s, t, p.(prev := p.next, next := next), s');
  }

  lemma AdvancedScan(chain: seq<Node>, p: Phase, next: Option<Node>)
    requires Sorted(chain) && UniqueKeys(chain) && p.Scanning? && OnChain(p, chain) && !Arrived(p) && !Found(p)
    requires PointsTo(chain, p.next, next)
    ensures OnChain(p.(prev := p.next, next := next), chain)
  {
    var c := p.node.cls;
    var i :| Scanned(chain, p, i);
    var j :| Reaches(chain, c, i, j, p.next.value, p.present);
    var k :| At(chain, p.next, k) && next == After(chain, k);
    assert k == j;
    forall q | 0 <= q <= j ensures chain[q].cls != c {}
    if next.Some? { assert Reaches(chain, c, j, j + 1, next.value, p.present); }
    assert Scanned(chain, p.(prev := p.next, next := next), j);
  }

  /** Every step of every thread keeps the invariant, and no node once linked in is lost. */
  lemma StepKeeps(s: State, t: nat, s': State)
    requires Inv(s) && Step(s, t, s')
    ensures Inv(s')
    ensures forall x :: Holds(s.buckets, x) ==> Holds(s'.buckets, x)
  {
    hide Inv, Advance, Swap, Holds, PhaseOk, OnChain;
    if node, inserting :| Begin(s, t, node, inserting, s') {
      BeginKeeps(s, t, node, inserting, s');
    } else if next :| Advance(s, t, next, s') {
      AdvanceKeeps(s, t, next, s');
      assert s'.buckets == s.buckets by { AdvanceFrame(s, t, next, s'); }
    } else if i :| Swap(s, t, i, s') {
      SwapKeeps(s, t, i, s');
    } else if Retry(s, t, s') {
      RetryKeeps(s, t, s');
    } else {
      IdleOk(s);
      PhaseStep(s, t, Idle, s');
    }
  }

  lemma AdvanceFrame(s: State, t: nat, next: Option<Node>, s': State)
    requires Advance(s, t, next, s')
    ensures s'.buckets == s.buckets
  {}

  lemma IdleOk(s: State)
    requires Inv(s)
    ensures s.buckets != [] && PhaseOk(Idle, s.buckets)
  {}

  lemma BeginKeeps(s: State, t: nat, node: Node, inserting: bool, s': State)
    requires Inv(s) && Begin(s, t, node, inserting, s')
    ensures Inv(s')
  {
    var chain := s.buckets[Hash(node) % |s.buckets|];
    var q := Scanning(node, inserting, None, After(chain, -1), HasKey(chain, node.cls));
    Restart(chain, q);
    hide OnChain, BucketsOk, HasKey, Inv;
    PhaseStep(s, t, q, s');
  }

  lemma RetryKeeps(s: State, t: nat, s': State)
    requires Inv(s) && Retry(s, t, s')
    ensures Inv(s')
  {
    var p := s.threads[t];
    var chain := s.buckets[Hash(p.node) % |s.buckets|];
    var q := p.(prev := None, next := After(chain, -1));
    assert PhaseOk(p, s.buckets);
    Restart(chain, q);
    hide OnChain, BucketsOk, HasKey, Inv, PointsTo;
    PhaseStep(s, t, q, s');
  }

  // ------------------------------------------------------------------ runs

  ghost predicate Initial(s: State) {
    && BucketsOk(s.buckets) && s.nItems == |All(s.buckets)|
    && forall t :: 0 <= t < |s.threads| ==> s.threads[t].Idle?
  }

  ghost predicate Moves(s: State, s': State) {
    exists t :: Step(s, t, s')
  }

  ghost predicate IsRun(run: seq<State>) {
    && run != [] && Initial(run[0])
    && forall i :: 0 <= i < |run| - 1 ==> Moves(run[i], run[i + 1])
  }

  lemma {:induction false} NoneUncounted(threads: seq<Phase>)
    requires forall t :: 0 <= t < |threads| ==> threads[t].Idle?
    ensures Uncounted(threads) == 0
  {
    if threads != [] { NoneUncounted(threads[..|threads| - 1]); }
  }

  lemma InitialInv(s: State)
    requires Initial(s)
    ensures Inv(s)
  {
    NoneUncounted(s.threads);
    hide All, Uncounted, ChainOk;
  }

  /**
    In every state of every run the chains are sorted and without repeated keys, nothing
    inserted has been lost, and the nodes number the item count and the insertions between
    their compare-and-swap and their increment.
   */
  lemma {:induction false} RunKeeps(run: seq<State>, n: nat, m: nat)
    requires IsRun(run) && m <= n < |run|
    ensures Inv(run[n]) && BucketsOk(run[m].buckets) && BucketsOk(run[n].buckets)
    ensures |All(run[n].buckets)| == run[n].nItems + Uncounted(run[n].threads)
    ensures forall x :: Holds(run[m].buckets, x) ==> Holds(run[n].buckets, x)
  {
    hide Step, Holds, All, Uncounted, PhaseOk, BucketsOk;
    if n == 0 {
      InitialInv(run[0]);
    } else {
      RunKeeps(run, n - 1, if m < n then m else n - 1);
      assert Moves(run[n - 1], run[n]);
      var t :| Step(run[n - 1], t, run[n]);
      StepKeeps(run[n - 1], t, run[n]);
    }
  }

  /**
    What a scan concludes is right: it stops at a node only if the table holds that node; a
    look-up that arrives without finding the key was begun when the key was absent.
   */
  lemma ScansAreRight(run: seq<State>, n: nat, t: nat)
    requires IsRun(run) && n < |run| && t < |run[n].threads| && run[n].threads[t].Scanning?
    ensures run[n].buckets != []
    ensures var p := run[n].threads[t];
      && (Found(p) ==> Holds(run[n].buckets, p.next.value))
      && (Arrived(p) ==> !p.present)
  {
    RunKeeps(run, n, n);
    var s, p := run[n], run[n].threads[t];
    assert PhaseOk(p, s.buckets);
    var b := Hash(p.node) % |s.buckets|;
    var chain := s.buckets[b];
    assert ChainOk(chain, b, |s.buckets|);
    hide IsRun, Inv, BucketsOk;
    var i :| Scanned(chain, p, i);
  }
}
