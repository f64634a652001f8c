/** Moving the nodes of a TREE_HASH_TABLE to more hash chains. */
module TreeRehashing {
  import opened Trees
  import opened TreeInsertion

  /** Where a node whose hash is v goes in a chain: behind all nodes of no larger hash. */
  method PlaceFor(chain: seq<Id>, path: map<Id, Path>, h: Path -> nat, v: nat) returns (pos: nat)
    requires forall i :: 0 <= i < |chain| ==> chain[i] in path
    requires forall i, j :: 0 <= i < j < |chain| ==> h(path[chain[i]]) <= h(path[chain[j]])
    ensures pos <= |chain| && Fits(chain, path, h, pos, v)
  {
    pos := 0;
    while pos < |chain| && h(path[chain[pos]]) <= v
      invariant pos <= |chain|
      invariant forall i :: 0 <= i < pos ==> h(path[chain[i]]) <= v
    {
      pos := pos + 1;
    }
  }

  lemma ChainParts(buckets: seq<seq<Id>>, path: map<Id, Path>, pending: set<Id>, h: Path -> nat, b: nat)
    requires ChainsOk(buckets, path, pending, h) && b < |buckets|
    ensures var chain := buckets[b];
      && NoRepeats(chain)
      && (forall i :: 0 <= i < |chain| ==> chain[i] in path && h(path[chain[i]]) % |buckets| == b)
      && (forall i, j :: 0 <= i < j < |chain| ==> h(path[chain[i]]) <= h(path[chain[j]]))
  {
    var chain := buckets[b];
    assert ChainOk(chain, path, b, |buckets|, h);
    ChainNodes(chain, path, b, |buckets|, h);
    assert forall i :: 0 <= i < |chain| ==> chain[i] in chain;
    hide NoRepeats;
  }

  /** One chain with a node moved to it. */
  lemma MovedChain(chain: seq<Id>, path: map<Id, Path>, h: Path -> nat, b: nat, n: nat, x: Id, pos: nat)
    requires n > 0 && ChainOk(chain, path, b, n, h) && x in path && x !in chain && h(path[x]) % n == b
    requires pos <= |chain| && Fits(chain, path, h, pos, h(path[x]))
    ensures var chain' := chain[..pos] + [x] + chain[pos..];
      && ChainOk(chain', path, b, n, h)
      && (forall y :: y in chain' <==> y in chain || y == x)
  {
    var chain' := chain[..pos] + [x] + chain[pos..];
    assert chain == chain[..pos] + chain[pos..];
    ChainNodes(chain, path, b, n, h);
    assert forall i :: 0 <= i < |chain| ==> chain[i] in chain;
    InsertedOnce(chain, pos, x);
    MovedSorted(chain, path, h, x, pos);
    hide NoRepeats, Fits;
    forall y | y in chain' ensures y in path && h(path[y]) % n == b {}
  }

  lemma MovedSorted(chain: seq<Id>, path: map<Id, Path>, h: Path -> nat, x: Id, pos: nat)
    requires pos <= |chain| && x in path && (forall i :: 0 <= i < |chain| ==> chain[i] in path)
    requires forall i, j :: 0 <= i < j < |chain| ==> h(path[chain[i]]) <= h(path[chain[j]])
    requires Fits(chain, path, h, pos, h(path[x]))
    ensures var chain' := chain[..pos] + [x] + chain[pos..];
      && (forall i :: 0 <= i < |chain'| ==> chain'[i] in path)
      && (forall i, j :: 0 <= i < j < |chain'| ==> h(path[chain'[i]]) <= h(path[chain'[j]]))
  {
    InsertedAt(chain, pos, x);
  }

  /** The new chains with one more node moved to them. */
  lemma MovedOne(buckets: seq<seq<Id>>, path: map<Id, Path>, pending: set<Id>, h: Path -> nat, x: Id, pos: nat)
    requires ChainsOk(buckets, path, pending, h) && x in path && x in pending
    requires pos <= |buckets[h(path[x]) % |buckets|]| && Fits(buckets[h(path[x]) % |buckets|], path, h, pos, h(path[x]))
    ensures var b := h(path[x]) % |buckets|;
      ChainsOk(buckets[b := buckets[b][..pos] + [x] + buckets[b][pos..]], path, pending - {x}, h)
  {
    var n := |buckets|;
    var b := h(path[x]) % n;
    assert ChainOk(buckets[b], path, b, n, h);
    MovedChain(buckets[b], path, h, b, n, x, pos);
    hide ChainOk, Fits;
  }

  /** Node x is yet to be moved when chain b has been taken apart up to index i. */
  ghost predicate Left(buckets: seq<seq<Id>>, path: map<Id, Path>, h: Path -> nat, b: nat, i: nat, x: Id)
    requires x in path && buckets != []
  {
    var k := h(path[x]) % |buckets|;
    k > b || (k == b && i <= |buckets[k]| && x in buckets[k][i..])
  }

  /** The nodes yet to be moved. */
  ghost predicate AllLeft(buckets: seq<seq<Id>>, path: map<Id, Path>, h: Path -> nat, b: nat, i: nat, pending: set<Id>)
    requires buckets != []
  {
    forall x :: x in path ==> (x in pending <==> Left(buckets, path, h, b, i, x))
  }

  lemma NoneMoved(buckets: seq<seq<Id>>, path: map<Id, Path>, h: Path -> nat)
    requires ChainsOk(buckets, path, {}, h)
    ensures AllLeft(buckets, path, h, 0, 0, path.Keys)
  {
    hide ChainOk;
    forall x | x in path ensures Left(buckets, path, h, 0, 0, x) {
      var k := h(path[x]) % |buckets|;
      assert buckets[k][0..] == buckets[k];
    }
  }

  lemma NotAgain(chain: seq<Id>, i: nat)
    requires NoRepeats(chain) && i < |chain|
    ensures chain[i] !in chain[i + 1..]
  {
    forall j | i < j < |chain| ensures chain[j] != chain[i] { NoneTwice(chain, i, j); }
  }

  lemma LeftNext(buckets: seq<seq<Id>>, path: map<Id, Path>, h: Path -> nat, b: nat, i: nat, pending: set<Id>)
    requires ChainsOk(buckets, path, {}, h) && b < |buckets| && i < |buckets[b]| && AllLeft(buckets, path, h, b, i, pending)
    ensures var x := buckets[b][i];
      x in path && x in pending && AllLeft(buckets, path, h, b, i + 1, pending - {x})
  {
    var chain := buckets[b];
    var x := chain[i];
    ChainParts(buckets, path, {}, h, b);
    assert chain[i..] == [x] + chain[i + 1..];
    NotAgain(chain, i);
    assert Left(buckets, path, h, b, i, x);
    hide ChainsOk, NoRepeats;
  }

  lemma ChainDone(buckets: seq<seq<Id>>, path: map<Id, Path>, h: Path -> nat, b: nat, pending: set<Id>)
    requires ChainsOk(buckets, path, {}, h) && b < |buckets| && AllLeft(buckets, path, h, b, |buckets[b]|, pending)
    ensures AllLeft(buckets, path, h, b + 1, 0, pending)
  {
    hide ChainOk;
    forall x | x in path ensures Left(buckets, path, h, b, |buckets[b]|, x) <==> Left(buckets, path, h, b + 1, 0, x) {
      var k := h(path[x]) % |buckets|;
      assert buckets[k][0..] == buckets[k];
    }
  }

  lemma AllMoved(buckets: seq<seq<Id>>, path: map<Id, Path>, h: Path -> nat, pending: set<Id>, new0: seq<seq<Id>>)
    requires buckets != [] && AllLeft(buckets, path, h, |buckets|, 0, pending) && ChainsOk(new0, path, pending, h)
    ensures ChainsOk(new0, path, {}, h)
  {
    hide ChainOk;
  }

  lemma EmptyChains(new0: seq<seq<Id>>, path: map<Id, Path>, h: Path -> nat)
    requires new0 != [] && forall b :: 0 <= b < |new0| ==> new0[b] == []
    ensures ChainsOk(new0, path, path.Keys, h)
  {}

  /** Take the nodes out of the old chains, one after the other, into the new ones. */
  method RehashAll(buckets: seq<seq<Id>>, path: map<Id, Path>, size: nat, h: Path -> nat) returns (new0: seq<seq<Id>>)
    requires ChainsOk(buckets, path, {}, h) && buckets != [] && size > 0
    ensures |new0| == size && ChainsOk(new0, path, {}, h)
  {
    hide *;
    new0 := seq(size, i => []);
    ghost var pending := path.Keys;
    EmptyChains(new0, path, h);
    NoneMoved(buckets, path, h);
    for b := 0 to |buckets|
      invariant |new0| == size && ChainsOk(new0, path, pending, h) && AllLeft(buckets, path, h, b, 0, pending)
    {
      var i := 0;
      while i < |buckets[b]|
        invariant i <= |buckets[b]|
        invariant |new0| == size && ChainsOk(new0, path, pending, h) && AllLeft(buckets, path, h, b, i, pending)
      {
        var x := buckets[b][i];
        LeftNext(buckets, path, h, b, i, pending);
        var k := h(path[x]) % size;
        ChainParts(new0, path, pending, h, k);
        var pos := PlaceFor(new0[k], path, h, h(path[x]));
        MovedOne(new0, path, pending, h, x, pos);
        new0 := new0[k := new0[k][..pos] + [x] + new0[k][pos..]];
        pending := pending - {x};
        i := i + 1;
      }
      ChainDone(buckets, path, h, b, pending);
    }
    AllMoved(buckets, path, h, pending, new0);
  }
}
