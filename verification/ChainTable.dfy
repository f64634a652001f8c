/** HASH_TABLE under its exclusive lock: bucket chains sorted by hash, deletion and rehash. */
module ChainTables {
  import opened Records

  /** A node: the class of its key, with the hash, and the address of its record. */
  datatype Node = Node(cls: KeyClass, rec: nat)

  function Hash(x: Node): nat {
    x.cls.sig
  }

  ghost predicate Sorted(chain: seq<Node>) {
    forall i, j :: 0 <= i < j < |chain| ==> Hash(chain[i]) <= Hash(chain[j])
  }

  ghost predicate UniqueKeys(chain: seq<Node>) {
    forall i, j :: 0 <= i < j < |chain| ==> chain[i].cls != chain[j].cls
  }

  /** The chain of bucket b out of n. */
  ghost predicate ChainOk(chain: seq<Node>, b: nat, n: nat)
    requires n > 0
  {
    Sorted(chain) && UniqueKeys(chain) && forall x :: x in chain ==> Hash(x) % n == b
  }

  ghost predicate HasKey(chain: seq<Node>, c: KeyClass) {
    exists x :: x in chain && x.cls == c
  }

  /** Every bucket of the table is a proper chain. */
  ghost predicate BucketsOk(buckets: seq<seq<Node>>) {
    buckets != [] && forall b :: 0 <= b < |buckets| ==> ChainOk(buckets[b], b, |buckets|)
  }

  /**
    Look for a key: stop at its node, or at the first node of greater hash, or at the end.
    The stopping position is where a node of this key is, or belongs.
   */
  method FindNode(chain: seq<Node>, c: KeyClass) returns (found: bool, pos: nat)
    requires Sorted(chain)
    ensures found <==> HasKey(chain, c)
    ensures found ==> pos < |chain| && chain[pos].cls == c
    ensures !found ==> pos <= |chain|
    ensures !found ==> (forall i :: 0 <= i < pos ==> Hash(chain[i]) <= c.sig) && (forall i :: pos <= i < |chain| ==> Hash(chain[i]) > c.sig)
  {
    pos := 0;
    while pos < |chain|
      invariant pos <= |chain|
      invariant forall i :: 0 <= i < pos ==> chain[i].cls != c && Hash(chain[i]) <= c.sig
    {
      if Hash(chain[pos]) == c.sig {
        if chain[pos].cls == c {
          return true, pos;
        }
      } else if Hash(chain[pos]) > c.sig {
        return false, pos;
      }
      pos := pos + 1;
    }
    found := false;
  }

  // ------------------------------------------------------------------ nodes by hash

  /** The nodes of one hash, in their order. */
  function WithHash(chain: seq<Node>, h: nat): seq<Node> {
    if chain == [] then []
    else
      var n := |chain| - 1;
      WithHash(chain[..n], h) + (if Hash(chain[n]) == h then [chain[n]] else [])
  }

  lemma {:induction false} WithHashConcat(s: seq<Node>, t: seq<Node>, h: nat)
    ensures WithHash(s + t, h) == WithHash(s, h) + WithHash(t, h)
  {
    if t == [] {
      assert s + t == s;
    } else {
      var n := |t| - 1;
      WithHashConcat(s, t[..n], h);
      assert (s + t)[..|s + t| - 1] == s + t[..n];
    }
  }

  lemma {:induction false} WithHashMembers(chain: seq<Node>, h: nat, x: Node)
    ensures x in WithHash(chain, h) <==> x in chain && Hash(x) == h
  {
    if chain != [] {
      var n := |chain| - 1;
      WithHashMembers(chain[..n], h, x);
      assert chain == chain[..n] + [chain[n]];
    }
  }

  lemma {:induction false} WithHashNone(chain: seq<Node>, h: nat)
    requires forall x :: x in chain ==> Hash(x) != h
    ensures WithHash(chain, h) == []
  {
    if chain != [] { WithHashNone(chain[..|chain| - 1], h); }
  }

  /** A node is counted as often among those of its hash as in the chain. */
  lemma {:induction false} WithHashCount(chain: seq<Node>, h: nat, x: Node)
    requires Hash(x) == h
    ensures multiset(WithHash(chain, h))[x] == multiset(chain)[x]
  {
    if chain != [] {
      var n := |chain| - 1;
      WithHashCount(chain[..n], h, x);
      assert chain == chain[..n] + [chain[n]];
    }
  }

  // ------------------------------------------------------------------ rehash

  /** All nodes, bucket by bucket. */
  function All(buckets: seq<seq<Node>>): seq<Node> {
    if buckets == [] then [] else All(buckets[..|buckets| - 1]) + buckets[|buckets| - 1]
  }

  /** The same table, for every look-up: per hash the same nodes in the same order. */
  ghost predicate SameByHash(old0: seq<seq<Node>>, new0: seq<seq<Node>>)
    requires old0 != [] && new0 != []
  {
    forall h: nat :: WithHash(new0[h % |new0|], h) == WithHash(old0[h % |old0|], h)
  }

  /** Insert behind all nodes of smaller or equal hash. */
  method InsertSorted(chain: seq<Node>, x: Node) returns (chain': seq<Node>)
    requires Sorted(chain)
    ensures Sorted(chain')
    ensures forall h: nat :: WithHash(chain', h) == WithHash(chain, h) + (if Hash(x) == h then [x] else [])
    ensures forall y :: y in chain' <==> y in chain || y == x
    ensures |chain'| == |chain| + 1
  {
    var p := 0;
    while p < |chain| && Hash(chain[p]) <= Hash(x)
      invariant p <= |chain|
      invariant forall i :: 0 <= i < p ==> Hash(chain[i]) <= Hash(x)
    {
      p := p + 1;
    }
    chain' := chain[..p] + [x] + chain[p..];
    InsertedByHash(chain, p, x);
  }

  lemma InsertedByHash(chain: seq<Node>, p: nat, x: Node)
    requires p <= |chain| && forall i :: p <= i < |chain| ==> Hash(chain[i]) > Hash(x)
    ensures forall h: nat :: WithHash(chain[..p] + [x] + chain[p..], h) == WithHash(chain, h) + (if Hash(x) == h then [x] else [])
    ensures forall y :: y in chain[..p] + [x] + chain[p..] <==> y in chain || y == x
  {
    assert chain == chain[..p] + chain[p..];
    hide *;
    forall h: nat
      ensures WithHash(chain[..p] + [x] + chain[p..], h) == WithHash(chain, h) + (if Hash(x) == h then [x] else [])
    {
      if Hash(x) == h { WithHashNone(chain[p..], h); }
      InsertedForHash(chain[..p], chain[p..], x, h);
    }
  }

  lemma InsertedForHash(s: seq<Node>, t: seq<Node>, x: Node, h: nat)
    requires Hash(x) == h ==> WithHash(t, h) == []
    ensures WithHash(s + [x] + t, h) == WithHash(s + t, h) + (if Hash(x) == h then [x] else [])
  {
    WithHashConcat(s + [x], t, h);
    WithHashConcat(s, [x], h);
    WithHashConcat(s, t, h);
    WithHashOne(x, h);
    hide *;
  }

  lemma WithHashOne(x: Node, h: nat)
    ensures WithHash([x], h) == if Hash(x) == h then [x] else []
  {}

  /** The new buckets hold the nodes of `done`, each in its bucket, sorted, per hash in the order of `done`. */
  ghost predicate Rehashed(new0: seq<seq<Node>>, done: seq<Node>) {
    && new0 != []
    && (forall b :: 0 <= b < |new0| ==> Sorted(new0[b]) && forall x :: x in new0[b] ==> Hash(x) % |new0| == b)
    && (forall h: nat :: WithHash(new0[h % |new0|], h) == WithHash(done, h))
  }

  /** Move one node into the new buckets. */
  method Rehash1(new0: seq<seq<Node>>, x: Node, ghost done: seq<Node>) returns (new1: seq<seq<Node>>)
    requires Rehashed(new0, done)
    ensures Rehashed(new1, done + [x]) && |new1| == |new0|
  {
    var b := Hash(x) % |new0|;
    var chain := InsertSorted(new0[b], x);
    new1 := new0[b := chain];
    forall h: nat ensures WithHash(new1[h % |new1|], h) == WithHash(done + [x], h) {
      WithHashConcat(done, [x], h);
      assert WithHash([x], h) == if Hash(x) == h then [x] else [];
    }
    hide WithHash;
  }

  lemma {:induction false} AllConcat(buckets: seq<seq<Node>>, b: nat)
    requires b < |buckets|
    ensures All(buckets[..b + 1]) == All(buckets[..b]) + buckets[b]
  {
    assert buckets[..b + 1][..b] == buckets[..b];
  }

  /** All nodes of a hash are in that hash's bucket. */
  lemma {:induction false} AllWithHash(buckets: seq<seq<Node>>, n: nat, m: nat, h: nat)
    requires m <= n == |buckets| && n > 0
    requires forall b, x :: 0 <= b < n && x in buckets[b] ==> Hash(x) % n == b
    ensures WithHash(All(buckets[..m]), h) == if h % n < m then WithHash(buckets[h % n], h) else []
  {
    hide *;
    NoNodes(buckets, h);
    if m > 0 {
      AllWithHash(buckets, n, m - 1, h);
      AllConcat(buckets, m - 1);
      WithHashConcat(All(buckets[..m - 1]), buckets[m - 1], h);
      OtherBucket(buckets, m - 1, n, h);
    }
  }

  lemma NoNodes(buckets: seq<seq<Node>>, h: nat)
    ensures WithHash(All(buckets[..0]), h) == []
  {}

  lemma OtherBucket(buckets: seq<seq<Node>>, b: nat, n: nat, h: nat)
    requires b < |buckets| == n
    requires forall b, x :: 0 <= b < n && x in buckets[b] ==> Hash(x) % n == b
    ensures h % n != b ==> WithHash(buckets[b], h) == []
  {
    if h % n != b {
      forall x | x in buckets[b] ensures Hash(x) != h {}
      hide *;
      WithHashNone(buckets[b], h);
    }
  }

  /** Build the new buckets from the old ones, node by node. */
  method RehashAll(buckets: seq<seq<Node>>, size: nat) returns (new0: seq<seq<Node>>)
    requires BucketsOk(buckets) && size > 0
    ensures |new0| == size && Rehashed(new0, All(buckets))
  {
    new0 := seq(size, i => []);
    for b := 0 to |buckets|
      invariant |new0| == size && Rehashed(new0, All(buckets[..b]))
    {
      var chain := buckets[b];
      var i := 0;
      ghost var before := All(buckets[..b]);
      assert before + chain[..0] == before;
      while i < |chain|
        invariant i <= |chain| && |new0| == size && Rehashed(new0, before + chain[..i])
      {
        new0 := Rehash1(new0, chain[i], before + chain[..i]);
        assert before + chain[..i] + [chain[i]] == before + chain[..i + 1];
        i := i + 1;
      }
      assert chain[..|chain|] == chain;
      AllConcat(buckets, b);
      hide All, Rehashed;
    }
    assert buckets[..|buckets|] == buckets;
  }

  // ------------------------------------------------------------------ rehash keeps the table

  lemma {:induction false} UniqueCount(chain: seq<Node>, x: Node)
    requires UniqueKeys(chain)
    ensures multiset(chain)[x] == if x in chain then 1 else 0
  {
    if chain != [] {
      var n := |chain| - 1;
      UniqueCount(chain[..n], x);
      assert chain == chain[..n] + [chain[n]];
    }
  }

  lemma {:induction false} CountUnique(chain: seq<Node>)
    requires forall x :: multiset(chain)[x] <= 1
    requires forall x, y :: x in chain && y in chain && x.cls == y.cls ==> x == y
    ensures UniqueKeys(chain)
  {
    if chain != [] {
      var n := |chain| - 1;
      assert chain == chain[..n] + [chain[n]];
      forall x ensures multiset(chain[..n])[x] <= 1 { assert multiset(chain)[x] <= 1; }
      CountUnique(chain[..n]);
      assert multiset(chain)[chain[n]] <= 1;
      forall i | 0 <= i < n ensures chain[i].cls != chain[n].cls {
        assert chain[i] in multiset(chain[..n]);
      }
    }
  }

  /** Rebuilt buckets are proper chains again. */
  lemma RehashedOk(buckets: seq<seq<Node>>, new0: seq<seq<Node>>)
    requires BucketsOk(buckets) && Rehashed(new0, All(buckets))
    ensures BucketsOk(new0) && SameByHash(buckets, new0)
  {
    forall h: nat ensures WithHash(new0[h % |new0|], h) == WithHash(buckets[h % |buckets|], h) {
      AllWithHash(buckets, |buckets|, |buckets|, h);
      assert buckets[..|buckets|] == buckets;
    }
    hide WithHash, All;
    forall b | 0 <= b < |new0| ensures ChainOk(new0[b], b, |new0|) {
      NewUnique(buckets, new0, b);
    }
  }

  lemma NewUnique(buckets: seq<seq<Node>>, new0: seq<seq<Node>>, b: nat)
    requires BucketsOk(buckets) && new0 != [] && SameByHash(buckets, new0) && b < |new0|
    requires forall x :: x in new0[b] ==> Hash(x) % |new0| == b
    ensures UniqueKeys(new0[b])
  {
    hide WithHash, UniqueKeys;
    forall x ensures multiset(new0[b])[x] <= 1 && (x in new0[b] ==> x in buckets[Hash(x) % |buckets|]) {
      if x in new0[b] {
        var h := Hash(x);
        var chain := buckets[h % |buckets|];
        assert WithHash(new0[h % |new0|], h) == WithHash(chain, h);
        WithHashCount(new0[b], h, x);
        WithHashCount(chain, h, x);
        WithHashMembers(new0[b], h, x);
        WithHashMembers(chain, h, x);
        assert ChainOk(chain, h % |buckets|, |buckets|);
        UniqueCount(chain, x);
      }
    }
    forall x, y | x in new0[b] && y in new0[b] && x.cls == y.cls ensures x == y {
      var chain := buckets[Hash(x) % |buckets|];
      assert ChainOk(chain, Hash(x) % |buckets|, |buckets|);
      SameNode(chain, x, y);
    }
    CountUnique(new0[b]);
  }

  lemma SameNode(chain: seq<Node>, x: Node, y: Node)
    requires UniqueKeys(chain) && x in chain && y in chain && x.cls == y.cls
    ensures x == y
  {}

  /** A look-up of any key finds the same node, or none, before and after. */
  lemma SameAnswers(buckets: seq<seq<Node>>, new0: seq<seq<Node>>, x: Node)
    requires buckets != [] && new0 != [] && SameByHash(buckets, new0)
    ensures x in new0[Hash(x) % |new0|] <==> x in buckets[Hash(x) % |buckets|]
  {
    var h := Hash(x);
    WithHashMembers(new0[h % |new0|], h, x);
    WithHashMembers(buckets[h % |buckets|], h, x);
    assert WithHash(new0[h % |new0|], h) == WithHash(buckets[h % |buckets|], h);
    hide WithHash;
  }

  // ------------------------------------------------------------------ the table

  /** The table holds this node. */
  predicate Holds(buckets: seq<seq<Node>>, x: Node)
    requires buckets != []
  {
    x in buckets[Hash(x) % |buckets|]
  }

  lemma {:induction false} AllLength(buckets: seq<seq<Node>>, b: nat, chain: seq<Node>)
    requires b < |buckets|
    ensures |All(buckets[b := chain])| == |All(buckets)| - |buckets[b]| + |chain|
  {
    var n := |buckets| - 1;
    if b < n {
      AllLength(buckets[..n], b, chain);
      assert buckets[b := chain][..n] == buckets[..n][b := chain];
    } else {
      assert buckets[b := chain][..n] == buckets[..n];
    }
  }

  /** Replacing a chain by a proper one. */
  lemma BucketReplaced(buckets: seq<seq<Node>>, b: nat, chain: seq<Node>)
    requires BucketsOk(buckets) && b < |buckets| && ChainOk(chain, b, |buckets|)
    ensures BucketsOk(buckets[b := chain])
    ensures forall x :: Holds(buckets[b := chain], x) <==> if Hash(x) % |buckets| == b then x in chain else Holds(buckets, x)
  {
    hide ChainOk;
  }

  function Without(chain: seq<Node>, pos: nat): seq<Node>
    requires pos < |chain|
  {
    chain[..pos] + chain[pos + 1..]
  }

  lemma WithoutOk(chain: seq<Node>, pos: nat, b: nat, n: nat)
    requires n > 0 && ChainOk(chain, b, n) && pos < |chain|
    ensures ChainOk(Without(chain, pos), b, n)
    ensures forall x :: x in Without(chain, pos) <==> x in chain && x != chain[pos]
  {
    var chain' := Without(chain, pos);
    assert chain == chain[..pos] + [chain[pos]] + chain[pos + 1..];
    forall i | 0 <= i < |chain'| ensures chain'[i] == chain[if i < pos then i else i + 1] && chain'[i] != chain[pos] {}
  }

  /** The nodes whose records a predicate does not condemn. */
  function Kept(chain: seq<Node>, condemns: nat -> bool): seq<Node> {
    if chain == [] then []
    else
      var n := |chain| - 1;
      Kept(chain[..n], condemns) + (if condemns(chain[n].rec) then [] else [chain[n]])
  }

  lemma {:induction false} KeptOk(chain: seq<Node>, condemns: nat -> bool, b: nat, n: nat)
    requires n > 0 && ChainOk(chain, b, n)
    ensures ChainOk(Kept(chain, condemns), b, n)
    ensures forall x :: x in Kept(chain, condemns) <==> x in chain && !condemns(x.rec)
  {
    if chain != [] {
      var m := |chain| - 1;
      var rest := Kept(chain[..m], condemns);
      KeptOk(chain[..m], condemns, b, n);
      assert chain == chain[..m] + [chain[m]];
      forall x | x in rest ensures Hash(x) <= Hash(chain[m]) && x.cls != chain[m].cls {
        assert x in chain[..m];
      }
      SnocOk(rest, chain[m], b, n);
      hide ChainOk;
    }
  }

  lemma SnocOk(chain: seq<Node>, x: Node, b: nat, n: nat)
    requires n > 0 && ChainOk(chain, b, n) && Hash(x) % n == b
    requires forall y :: y in chain ==> Hash(y) <= Hash(x) && y.cls != x.cls
    ensures ChainOk(chain + [x], b, n)
  {}

  class ChainTable {
    var buckets: seq<seq<Node>>
    var nItems: nat

    ghost predicate Valid()
      reads this
    {
      BucketsOk(buckets) && nItems == |All(buckets)|
    }

    /** The node of a key, if there is one. */
    method FindKey(c: KeyClass) returns (rec: Option<nat>)
      requires Valid()
      ensures rec.Some? ==> Holds(buckets, Node(c, rec.value))
      ensures rec.None? ==> forall r :: !Holds(buckets, Node(c, r))
    {
      var b := c.sig % |buckets|;
      assert ChainOk(buckets[b], b, |buckets|);
      var found, pos := FindNode(buckets[b], c);
      rec := if found then Some(buckets[b][pos].rec) else None;
    }

    /** Remove the node of a key, and nothing else. */
    method DeleteKey(c: KeyClass)
      requires Valid()
      modifies this
      ensures Valid()
      ensures forall x :: Holds(buckets, x) <==> old(Holds(buckets, x)) && x.cls != c
      ensures nItems == old(nItems) - if exists r :: old(Holds(buckets, Node(c, r))) then 1 else 0
    {
      var b := c.sig % |buckets|;
      assert ChainOk(buckets[b], b, |buckets|);
      var found, pos := FindNode(buckets[b], c);
      if found {
        DeletedNode(buckets, b, pos);
        AllLength(buckets, b, Without(buckets[b], pos));
        assert Holds(buckets, Node(c, buckets[b][pos].rec));
        buckets, nItems := buckets[b := Without(buckets[b], pos)], nItems - 1;
      }
    }

    /** Remove the nodes whose records the predicate condemns. */
    method DeleteIf(condemns: nat -> bool)
      requires Valid()
      modifies this
      ensures Valid()
      ensures forall x :: Holds(buckets, x) <==> old(Holds(buckets, x)) && !condemns(x.rec)
    {
      ghost var was := buckets;
      for b := 0 to |buckets|
        invariant Valid() && |buckets| == |was|
        invariant SweptTo(was, buckets, b, condemns)
      {
        var chain, removed := Sweep(buckets[b], condemns);
        KeptOk(buckets[b], condemns, b, |buckets|);
        BucketReplaced(buckets, b, chain);
        AllLength(buckets, b, chain);
        buckets, nItems := buckets[b := chain], nItems - removed;
      }
    }

    /** Twice the buckets or more, once the items outnumber the new size; unless there is no memory. */
    method RehashIfNeeded(size: nat, hasMemory: bool)
      requires Valid() && size >= 2 * |buckets|
      modifies this
      ensures Valid() && nItems == old(nItems)
      ensures SameByHash(old(buckets), buckets)
      ensures nItems > size && hasMemory ==> |buckets| == size
      ensures nItems <= size || !hasMemory ==> buckets == old(buckets)
      ensures forall x :: Holds(buckets, x) <==> old(Holds(buckets, x))
    {
      if nItems <= size {
        return;
      }
      if hasMemory {
        var new0 := RehashAll(buckets, size);
        RehashedOk(buckets, new0);
        RehashedLength(new0, All(buckets));
        forall x ensures Holds(new0, x) <==> Holds(buckets, x) { SameAnswers(buckets, new0, x); }
        buckets := new0;
      }
    }
  }

  lemma DeletedNode(buckets: seq<seq<Node>>, b: nat, pos: nat)
    requires BucketsOk(buckets) && b < |buckets| && pos < |buckets[b]|
    ensures BucketsOk(buckets[b := Without(buckets[b], pos)])
    ensures forall x :: Holds(buckets[b := Without(buckets[b], pos)], x) <==> Holds(buckets, x) && x.cls != buckets[b][pos].cls
  {
    assert ChainOk(buckets[b], b, |buckets|);
    WithoutOk(buckets[b], pos, b, |buckets|);
    BucketReplaced(buckets, b, Without(buckets[b], pos));
    var gone := buckets[b][pos];
    hide ChainOk, Without, BucketsOk;
    forall x ensures Holds(buckets[b := Without(buckets[b], pos)], x) <==> Holds(buckets, x) && x.cls != gone.cls {
      if x in buckets[b] && x.cls == gone.cls {
        UniqueIn(buckets[b], b, |buckets|, x, gone);
      }
      if x.cls == gone.cls { HomeOf(buckets[b], b, |buckets|, gone); }
    }
  }

  lemma UniqueIn(chain: seq<Node>, b: nat, n: nat, x: Node, y: Node)
    requires n > 0 && ChainOk(chain, b, n) && x in chain && y in chain && x.cls == y.cls
    ensures x == y
  {
    SameNode(chain, x, y);
  }

  lemma HomeOf(chain: seq<Node>, b: nat, n: nat, x: Node)
    requires n > 0 && ChainOk(chain, b, n) && x in chain
    ensures Hash(x) % n == b
  {}

  /** Remove the condemned nodes of one chain. */
  method Sweep(chain0: seq<Node>, condemns: nat -> bool) returns (chain: seq<Node>, removed: nat)
    ensures chain == Kept(chain0, condemns) && removed + |chain| == |chain0|
  {
    chain, removed := chain0, 0;
    var pos := 0;
    while pos < |chain|
      invariant Halfway(chain0, chain, pos, removed, condemns)
      decreases |chain| - pos
    {
      SweepOne(chain0, chain, pos, removed, condemns);
      if condemns(chain[pos].rec) {
        chain := chain[..pos] + chain[pos + 1..];
        removed := removed + 1;
      } else {
        pos := pos + 1;
      }
    }
    assert chain0[..pos + removed] == chain0;
  }

  /** The first pos nodes have been kept, `removed` were taken out before them, the rest is as it was. */
  ghost predicate Halfway(chain0: seq<Node>, chain: seq<Node>, pos: nat, removed: nat, condemns: nat -> bool) {
    && pos <= |chain| && removed + |chain| == |chain0|
    && chain[..pos] == Kept(chain0[..pos + removed], condemns)
    && chain[pos..] == chain0[pos + removed..]
  }

  lemma SweepOne(chain0: seq<Node>, chain: seq<Node>, pos: nat, removed: nat, condemns: nat -> bool)
    requires Halfway(chain0, chain, pos, removed, condemns) && pos < |chain|
    ensures condemns(chain[pos].rec) ==> Halfway(chain0, chain[..pos] + chain[pos + 1..], pos, removed + 1, condemns)
    ensures !condemns(chain[pos].rec) ==> Halfway(chain0, chain, pos + 1, removed, condemns)
  {
    var q := pos + removed;
    assert chain0[..q + 1][..q] == chain0[..q];
    assert chain[pos] == chain[pos..][0] == chain0[q..][0] == chain0[q];
    assert Kept(chain0[..q + 1], condemns) == Kept(chain0[..q], condemns) + if condemns(chain0[q].rec) then [] else [chain0[q]];
    hide Kept;
    assert chain[..pos + 1] == chain[..pos] + [chain[pos]];
    assert chain[pos + 1..] == chain[pos..][1..] == chain0[q..][1..] == chain0[q + 1..];
    var cut := chain[..pos] + chain[pos + 1..];
    assert cut[..pos] == chain[..pos] && cut[pos..] == chain[pos + 1..];
  }

  ghost predicate SweptTo(was: seq<seq<Node>>, now: seq<seq<Node>>, b: nat, condemns: nat -> bool)
    requires was != [] && |now| == |was|
  {
    forall x :: Holds(now, x) <==> Holds(was, x) && (Hash(x) % |was| < b ==> !condemns(x.rec))
  }

  /** Rehashing keeps the number of nodes. */
  lemma RehashedLength(new0: seq<seq<Node>>, done: seq<Node>)
    requires Rehashed(new0, done)
    ensures |All(new0)| == |done|
  {
    forall x ensures multiset(All(new0))[x] == multiset(done)[x] {
      var h := Hash(x);
      AllWithHash(new0, |new0|, |new0|, h);
      assert new0[..|new0|] == new0;
      WithHashCount(All(new0), h, x);
      WithHashCount(done, h, x);
      assert WithHash(new0[h % |new0|], h) == WithHash(done, h);
    }
    assert multiset(All(new0)) == multiset(done);
    hide WithHash, All;
    assert |multiset(All(new0))| == |multiset(done)|;
  }
}
