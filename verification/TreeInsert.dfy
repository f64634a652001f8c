/** Inserting a record into a TREE_HASH_TABLE, with nodes for the paths leading to it. */
module TreeInsertion {
  import opened Records
  import opened Trees
  import opened TreeDeletion

  /** `WildRead`: the path buffer was read outside its bounds, after which nothing is known. */
  datatype Outcome = Ok | AlreadyExists | NoMemory | WildRead

  // ------------------------------------------------------------------ look-up

  /** Where a path's node is in its chain, or belongs. */
  ghost predicate SearchEnds(f: Forest, q: Path, h: Path -> nat, found: Option<Id>, pos: nat) {
    && f.buckets != []
    && var chain := f.buckets[h(q) % |f.buckets|];
       && (found.Some? ==> found.value in f.path && f.path[found.value] == q)
       && (found.None? ==> !Present(f.path, q) && pos <= |chain|)
       && (found.None? ==> Fits(chain, f.path, h, pos, h(q)))
  }

  /** Everything before the position hashes to v or less, everything from it on to more. */
  ghost predicate Fits(chain: seq<Id>, path: map<Id, Path>, h: Path -> nat, pos: nat, v: nat) {
    && (forall i :: 0 <= i < pos && i < |chain| && chain[i] in path ==> h(path[chain[i]]) <= v)
    && (forall i :: pos <= i < |chain| && chain[i] in path ==> h(path[chain[i]]) > v)
  }

  method FindNode(f: Forest, q: Path, h: Path -> nat) returns (found: Option<Id>, pos: nat)
    requires ForestOk(f, h)
    ensures SearchEnds(f, q, h, found, pos)
  {
    ChainFacts(f, q, h);
    var b := h(q) % |f.buckets|;
    var chain := f.buckets[b];
    hide ForestOk, Deleting, NoRepeats;
    pos := 0;
    while pos < |chain|
      invariant pos <= |chain|
      invariant forall i :: 0 <= i < pos ==> f.path[chain[i]] != q && h(f.path[chain[i]]) <= h(q)
    {
      assert chain[pos] in chain;
      var v := h(f.path[chain[pos]]);
      if v == h(q) {
        if f.path[chain[pos]] == q {
          return Some(chain[pos]), pos;
        }
      } else if v > h(q) {
        break;
      }
      pos := pos + 1;
    }
    found := None;
    NotPresent(f, q, h, pos);
  }

  lemma ChainFacts(f: Forest, q: Path, h: Path -> nat)
    requires ForestOk(f, h)
    ensures f.buckets != []
    ensures var chain := f.buckets[h(q) % |f.buckets|];
      && ChainOk(chain, f.path, h(q) % |f.buckets|, |f.buckets|, h)
      && (forall x :: x in chain ==> x in f.path)
      && (forall x :: x in f.path && f.path[x] == q ==> x in chain)
  {
    hide ChainOk, ParentsOk, ChildrenOk, UniquePaths;
    var b := h(q) % |f.buckets|;
    assert ChainOk(f.buckets[b], f.path, b, |f.buckets|, h);
    ChainNodes(f.buckets[b], f.path, b, |f.buckets|, h);
  }

  lemma ChainNodes(chain: seq<Id>, path: map<Id, Path>, b: nat, n: nat, h: Path -> nat)
    requires n > 0 && ChainOk(chain, path, b, n, h)
    ensures forall x :: x in chain ==> x in path
  {
    hide NoRepeats;
  }

  lemma NotPresent(f: Forest, q: Path, h: Path -> nat, pos: nat)
    requires ForestOk(f, h) && f.buckets != []
    requires var chain := f.buckets[h(q) % |f.buckets|];
      && pos <= |chain| && (forall x :: x in chain ==> x in f.path)
      && (forall i :: 0 <= i < pos ==> f.path[chain[i]] != q && h(f.path[chain[i]]) <= h(q))
      && (pos < |chain| ==> h(f.path[chain[pos]]) > h(q))
    ensures SearchEnds(f, q, h, None, pos)
  {
    ChainFacts(f, q, h);
    var b, n := h(q) % |f.buckets|, |f.buckets|;
    hide *;
    Searched(f.buckets[b], f.path, b, n, h, q, pos);
    AbsentEnds(f, q, h, pos);
  }

  lemma AbsentEnds(f: Forest, q: Path, h: Path -> nat, pos: nat)
    requires f.buckets != [] && pos <= |f.buckets[h(q) % |f.buckets|]|
    requires Fits(f.buckets[h(q) % |f.buckets|], f.path, h, pos, h(q))
    requires forall x :: x in f.path ==> f.path[x] != q
    ensures SearchEnds(f, q, h, None, pos)
  {
    hide Fits;
  }

  lemma Searched(chain: seq<Id>, path: map<Id, Path>, b: nat, n: nat, h: Path -> nat, q: Path, pos: nat)
    requires n > 0 && ChainOk(chain, path, b, n, h) && pos <= |chain|
    requires forall x :: x in chain ==> x in path
    requires forall x :: x in path && path[x] == q ==> x in chain
    requires forall i :: 0 <= i < pos ==> path[chain[i]] != q && h(path[chain[i]]) <= h(q)
    requires pos < |chain| ==> h(path[chain[pos]]) > h(q)
    ensures Fits(chain, path, h, pos, h(q))
    ensures forall x :: x in path ==> path[x] != q
  {
    forall i | pos <= i < |chain| ensures h(path[chain[i]]) > h(q) {
      assert chain[i] in chain && chain[pos] in chain;
    }
    hide NoRepeats, ChainOk;
    forall x | x in chain ensures path[x] != q {
      var i :| 0 <= i < |chain| && chain[i] == x;
    }
  }

  // ------------------------------------------------------------------ one node

  /** The forest with a new node, first among its parent's children. */
  function Added(f: Forest, x: Id, q: Path, rec: Option<nat>, parent: Option<Id>, pos: nat, h: Path -> nat): Forest
    requires f.buckets != [] && pos <= |f.buckets[h(q) % |f.buckets|]|
    requires parent.Some? ==> parent.value in f.children
  {
    var b := h(q) % |f.buckets|;
    var chain := f.buckets[b];
    Forest(
      f.path[x := q],
      if rec.Some? then f.rec[x := rec.value] else f.rec,
      if parent.Some? then f.parent[x := parent.value] else f.parent,
      Adopted(f.children, x, parent),
      f.buckets[b := chain[..pos] + [x] + chain[pos..]])
  }

  /** The child lists with a new, childless node in front of its parent's. */
  function Adopted(children: map<Id, seq<Id>>, x: Id, parent: Option<Id>): map<Id, seq<Id>>
    requires parent.Some? ==> parent.value in children
  {
    if parent.Some? then children[x := []][parent.value := [x] + children[parent.value]] else children[x := []]
  }

  /** The parent to give a node for path q: the node of its parent path. */
  ghost predicate ParentOf(f: Forest, q: Path, parent: Option<Id>) {
    && (ParentPath(q).None? ==> parent.None?)
    && (ParentPath(q).Some? ==> parent.Some? && parent.value in f.path && f.path[parent.value] == ParentPath(q).value)
  }

  lemma AddedOk(f: Forest, x: Id, q: Path, rec: Option<nat>, parent: Option<Id>, pos: nat, h: Path -> nat)
    requires ForestOk(f, h) && SearchEnds(f, q, h, None, pos) && ParentOf(f, q, parent) && x !in f.path && x !in f.parent
    ensures parent.Some? ==> parent.value in f.children
    ensures ForestOk(Added(f, x, q, rec, parent, pos, h), h)
  {
    ParentListed(f, q, parent, h);
    hide *;
    SplitOk(f, h);
    SearchFacts(f, q, h, pos);
    AddedFields(f, x, q, rec, parent, pos, h);
    AddedUnique(f.path, x, q);
    AddedChain(f.buckets, f.path, h, x, q, pos);
    AddedParents(f, x, q, parent);
    AddedChildren(f, x, q, parent);
    MakeForest(Added(f, x, q, rec, parent, pos, h), h);
  }

  lemma SplitOk(f: Forest, h: Path -> nat)
    requires ForestOk(f, h)
    ensures UniquePaths(f.path) && ChainsOk(f.buckets, f.path, {}, h) && ParentsOk(f.parent, f.path, {})
    ensures ChildrenOk(f.children, f.path, {}) && f.rec.Keys <= f.path.Keys
  {
    hide UniquePaths, ChainsOk, ParentsOk, ChildrenOk;
  }

  lemma MakeForest(f: Forest, h: Path -> nat)
    requires UniquePaths(f.path) && ChainsOk(f.buckets, f.path, {}, h) && ParentsOk(f.parent, f.path, {})
    requires ChildrenOk(f.children, f.path, {}) && f.rec.Keys <= f.path.Keys
    ensures ForestOk(f, h)
  {
    hide UniquePaths, ChainsOk, ParentsOk, ChildrenOk;
  }

  lemma SearchFacts(f: Forest, q: Path, h: Path -> nat, pos: nat)
    requires SearchEnds(f, q, h, None, pos)
    ensures f.buckets != [] && pos <= |f.buckets[h(q) % |f.buckets|]| && !Present(f.path, q)
    ensures Fits(f.buckets[h(q) % |f.buckets|], f.path, h, pos, h(q))
  {
    hide Fits, Present;
  }

  lemma ParentListed(f: Forest, q: Path, parent: Option<Id>, h: Path -> nat)
    requires ForestOk(f, h) && ParentOf(f, q, parent)
    ensures parent.Some? ==> parent.value in f.children && parent.value in f.path && ParentPath(q) == Some(f.path[parent.value])
    ensures parent.None? ==> ParentPath(q).None?
  {
    hide UniquePaths, ChainsOk, ParentsOk, NoRepeats, ParentPath;
  }

  lemma AddedFields(f: Forest, x: Id, q: Path, rec: Option<nat>, parent: Option<Id>, pos: nat, h: Path -> nat)
    requires f.buckets != [] && pos <= |f.buckets[h(q) % |f.buckets|]|
    requires parent.Some? ==> parent.value in f.children
    requires f.rec.Keys <= f.path.Keys
    ensures var g := Added(f, x, q, rec, parent, pos, h);
      var b := h(q) % |f.buckets|;
      && g.path == f.path[x := q]
      && g.parent == (if parent.Some? then f.parent[x := parent.value] else f.parent)
      && g.children == Adopted(f.children, x, parent)
      && g.buckets == f.buckets[b := f.buckets[b][..pos] + [x] + f.buckets[b][pos..]]
      && g.rec.Keys <= g.path.Keys
  {}

  lemma AddedUnique(path: map<Id, Path>, x: Id, q: Path)
    requires UniquePaths(path) && !Present(path, q)
    ensures UniquePaths(path[x := q])
  {}

  lemma AddedChain(buckets: seq<seq<Id>>, path: map<Id, Path>, h: Path -> nat, x: Id, q: Path, pos: nat)
    requires ChainsOk(buckets, path, {}, h) && x !in path && pos <= |buckets[h(q) % |buckets|]|
    requires Fits(buckets[h(q) % |buckets|], path, h, pos, h(q))
    ensures var b := h(q) % |buckets|;
      ChainsOk(buckets[b := buckets[b][..pos] + [x] + buckets[b][pos..]], path[x := q], {}, h)
  {
    var b, n := h(q) % |buckets|, |buckets|;
    var chain := buckets[b];
    var chain' := chain[..pos] + [x] + chain[pos..];
    assert ChainOk(chain, path, b, n, h);
    AddedOne(chain, path, b, n, h, x, q, pos);
    forall k | 0 <= k < n && k != b ensures ChainOk(buckets[k], path[x := q], k, n, h) && x !in buckets[k] {
      assert ChainOk(buckets[k], path, k, n, h);
      MorePaths(buckets[k], path, k, n, h, x, q);
    }
    hide ChainOk, Fits;
  }

  lemma MorePaths(chain: seq<Id>, path: map<Id, Path>, b: nat, n: nat, h: Path -> nat, x: Id, q: Path)
    requires n > 0 && ChainOk(chain, path, b, n, h) && x !in path
    ensures ChainOk(chain, path[x := q], b, n, h) && x !in chain
  {
    assert forall i :: 0 <= i < |chain| ==> chain[i] in chain;
    hide NoRepeats;
  }

  lemma AddedOne(chain: seq<Id>, path: map<Id, Path>, b: nat, n: nat, h: Path -> nat, x: Id, q: Path, pos: nat)
    requires n > 0 && ChainOk(chain, path, b, n, h) && x !in path && pos <= |chain| && b == h(q) % n
    requires Fits(chain, path, h, pos, h(q))
    ensures var chain' := chain[..pos] + [x] + chain[pos..];
      && ChainOk(chain', path[x := q], b, n, h)
      && (forall y :: y in chain' <==> y in chain || y == x)
  {
    var chain', path' := chain[..pos] + [x] + chain[pos..], path[x := q];
    assert chain == chain[..pos] + chain[pos..];
    InsertedAt(chain, pos, x);
    assert forall i :: 0 <= i < |chain| ==> chain[i] in chain;
    forall y | y in chain' ensures y in path' && h(path'[y]) % n == b {}
    InsertedSorted(chain, path, h, x, q, pos);
    InsertedOnce(chain, pos, x);
    hide NoRepeats, Fits;
  }

  lemma InsertedAt(chain: seq<Id>, pos: nat, x: Id)
    requires pos <= |chain|
    ensures var chain' := chain[..pos] + [x] + chain[pos..];
      && |chain'| == |chain| + 1
      && (forall i :: 0 <= i < |chain'| ==> chain'[i] == if i < pos then chain[i] else if i == pos then x else chain[i - 1])
  {}

  lemma InsertedOnce(chain: seq<Id>, pos: nat, x: Id)
    requires pos <= |chain| && NoRepeats(chain) && x !in chain
    ensures NoRepeats(chain[..pos] + [x] + chain[pos..])
  {
    InsertedAt(chain, pos, x);
    assert forall i :: 0 <= i < |chain| ==> chain[i] in chain;
    hide *;
    NoRepeatsInserted(chain, chain[..pos] + [x] + chain[pos..], pos, x);
  }

  lemma NoRepeatsInserted(chain: seq<Id>, chain': seq<Id>, pos: nat, x: Id)
    requires pos <= |chain| && NoRepeats(chain) && |chain'| == |chain| + 1
    requires forall i :: 0 <= i < |chain| ==> chain[i] != x
    requires forall i {:trigger chain'[i]} :: 0 <= i < |chain'| ==>
      chain'[i] == if i < pos then chain[i] else if i == pos then x else chain[i - 1]
    ensures NoRepeats(chain')
  {
    forall i, j | 0 <= i < j < |chain'| ensures chain'[i] != chain'[j] {
      var i', j' := if i < pos then i else i - 1, if j < pos then j else j - 1;
      if i == pos {
        assert chain'[i] == x && chain'[j] == chain[j'] != x;
      } else if j == pos {
        assert chain'[j] == x && chain'[i] == chain[i'] != x;
      } else {
        assert chain'[i] == chain[i'] && chain'[j] == chain[j'] && 0 <= i' < j' < |chain|;
        NoneTwice(chain, i', j');
      }
    }
  }

  lemma NoneTwice(s: seq<Id>, i: int, j: int)
    requires NoRepeats(s) && 0 <= i < j < |s|
    ensures s[i] != s[j]
  {}

  lemma InsertedSorted(chain: seq<Id>, path: map<Id, Path>, h: Path -> nat, x: Id, q: Path, pos: nat)
    requires pos <= |chain| && x !in path && (forall i :: 0 <= i < |chain| ==> chain[i] in path)
    requires forall i, j :: 0 <= i < j < |chain| ==> h(path[chain[i]]) <= h(path[chain[j]])
    requires Fits(chain, path, h, pos, h(q))
    ensures var chain', path' := chain[..pos] + [x] + chain[pos..], path[x := q];
      && (forall i :: 0 <= i < |chain'| ==> chain'[i] in path')
      && (forall i, j :: 0 <= i < j < |chain'| ==> h(path'[chain'[i]]) <= h(path'[chain'[j]]))
  {
    InsertedAt(chain, pos, x);
  }

  lemma AddedParents(f: Forest, x: Id, q: Path, parent: Option<Id>)
    requires ParentsOk(f.parent, f.path, {}) && !Present(f.path, q) && x !in f.path && x !in f.parent
    requires UniquePaths(f.path)
    requires parent.Some? ==> parent.value in f.path && ParentPath(q) == Some(f.path[parent.value])
    requires parent.None? ==> ParentPath(q).None?
    ensures ParentsOk(if parent.Some? then f.parent[x := parent.value] else f.parent, f.path[x := q], {})
  {
    hide *;
    AddedClosed(f, x, q, parent);
    LinkFacts(f.parent, f.path);
    NotOwnParent(q);
    forall y | y in f.path ensures ParentPath(f.path[y]) != Some(q) {
      NotAParent(f.parent, f.path, q, y);
    }
    NamedParents(f, x, q, parent);
    LinksOk(if parent.Some? then f.parent[x := parent.value] else f.parent, f.path[x := q]);
  }

  lemma LinkFacts(parent: map<Id, Id>, path: map<Id, Path>)
    requires ParentsOk(parent, path, {})
    ensures forall y :: y in path && ParentPath(path[y]).None? ==> y !in parent
    ensures forall y, z :: y in path && z in path && ParentPath(path[y]) == Some(path[z]) ==> y in parent && parent[y] == z
    ensures forall y :: y in parent && y in path ==> parent[y] in path && ParentPath(path[y]) == Some(path[parent[y]])
  {
    hide ParentPath, Present;
  }

  lemma NamedParents(f: Forest, x: Id, q: Path, parent: Option<Id>)
    requires x !in f.path && x !in f.parent && UniquePaths(f.path)
    requires forall y :: y in f.path && ParentPath(f.path[y]).None? ==> y !in f.parent
    requires forall y, z :: y in f.path && z in f.path && ParentPath(f.path[y]) == Some(f.path[z]) ==> y in f.parent && f.parent[y] == z
    requires forall y :: y in f.parent && y in f.path ==> f.parent[y] in f.path && ParentPath(f.path[y]) == Some(f.path[f.parent[y]])
    requires forall y :: y in f.path ==> ParentPath(f.path[y]) != Some(q)
    requires ParentPath(q) != Some(q)
    requires parent.Some? ==> parent.value in f.path && ParentPath(q) == Some(f.path[parent.value])
    requires parent.None? ==> ParentPath(q).None?
    ensures var path', parent' := f.path[x := q], if parent.Some? then f.parent[x := parent.value] else f.parent;
      && (forall y :: y in path' && ParentPath(path'[y]).None? ==> y !in parent')
      && (forall y, z :: y in path' && z in path' && ParentPath(path'[y]) == Some(path'[z]) ==> y in parent' && parent'[y] == z)
      && (forall y :: y in parent' && y in path' ==> parent'[y] in path' && ParentPath(path'[y]) == Some(path'[parent'[y]]))
  {
    var path', parent' := f.path[x := q], if parent.Some? then f.parent[x := parent.value] else f.parent;
    hide ParentPath;
    forall y, z | y in path' && z in path' && ParentPath(path'[y]) == Some(path'[z]) ensures y in parent' && parent'[y] == z {
      if y == x {
        assert z in f.path && f.path[z] == f.path[parent.value];
      } else {
        assert z in f.path;
      }
    }
  }

  lemma LinksOk(parent: map<Id, Id>, path: map<Id, Path>)
    requires forall y :: y in path && ParentPath(path[y]).Some? ==> Present(path, ParentPath(path[y]).value)
    requires forall y :: y in path && ParentPath(path[y]).None? ==> y !in parent
    requires forall y, z :: y in path && z in path && ParentPath(path[y]) == Some(path[z]) ==> y in parent && parent[y] == z
    requires forall y :: y in parent && y in path ==> parent[y] in path && ParentPath(path[y]) == Some(path[parent[y]])
    ensures ParentsOk(parent, path, {})
  {
    hide ParentPath, Present;
  }

  lemma AddedClosed(f: Forest, x: Id, q: Path, parent: Option<Id>)
    requires ParentsOk(f.parent, f.path, {}) && x !in f.path
    requires parent.Some? ==> parent.value in f.path && ParentPath(q) == Some(f.path[parent.value])
    requires parent.None? ==> ParentPath(q).None?
    ensures var path' := f.path[x := q];
      forall y :: y in path' && ParentPath(path'[y]).Some? ==> Present(path', ParentPath(path'[y]).value)
  {
    var path' := f.path[x := q];
    hide ParentPath;
    forall y | y in path' && ParentPath(path'[y]).Some? ensures Present(path', ParentPath(path'[y]).value) {
      var p := ParentPath(path'[y]).value;
      if y == x {
        assert path'[parent.value] == p;
      } else {
        assert Present(f.path, p);
        var z :| z in f.path && f.path[z] == p;
        assert path'[z] == p;
      }
    }
  }

  lemma NotOwnParent(q: Path)
    ensures ParentPath(q) != Some(q)
  {}

  lemma AddedChildren(f: Forest, x: Id, q: Path, parent: Option<Id>)
    requires ChildrenOk(f.children, f.path, {}) && ParentsOk(f.parent, f.path, {}) && UniquePaths(f.path)
    requires !Present(f.path, q) && x !in f.path
    requires parent.Some? ==> parent.value in f.path && parent.value in f.children && ParentPath(q) == Some(f.path[parent.value])
    requires parent.None? ==> ParentPath(q).None?
    ensures ChildrenOk(Adopted(f.children, x, parent), f.path[x := q], {})
  {
    var path', children' := f.path[x := q], Adopted(f.children, x, parent);
    NotOwnParent(q);
    forall y | y in f.path ensures ParentPath(f.path[y]) != Some(q) {
      NotAParent(f.parent, f.path, q, y);
    }
    hide ParentPath, NoRepeats, ParentsOk, Present;
    forall y | y in path' ensures ListOk(children', path', y) {
      if y == x {
        assert children'[x] == [] by { FreshList(f.children, f.path, x, parent); }
      } else if parent.Some? && y == parent.value {
        ListFacts(f.children, f.path, y);
        NewChildList(f.children, f.path, x, q, y);
      } else {
        ListFacts(f.children, f.path, y);
        OtherList(f, x, q, parent, y);
      }
    }
    hide ListOk;
    ListsOk(children', path');
  }

  /** The child list of one node. */
  ghost predicate ListOk(children: map<Id, seq<Id>>, path: map<Id, Path>, y: Id)
    requires y in path
  {
    && y in children && NoRepeats(children[y])
    && (forall z :: z in children[y] <==> z in path && ParentPath(path[z]) == Some(path[y]))
  }

  lemma ListFacts(children: map<Id, seq<Id>>, path: map<Id, Path>, y: Id)
    requires ChildrenOk(children, path, {}) && y in path
    ensures ListOk(children, path, y)
  {
    hide ParentPath, NoRepeats;
  }

  lemma ListsOk(children: map<Id, seq<Id>>, path: map<Id, Path>)
    requires forall y :: y in path ==> ListOk(children, path, y)
    ensures ChildrenOk(children, path, {})
  {
    hide ParentPath, NoRepeats;
  }

  lemma NotAParent(parent: map<Id, Id>, path: map<Id, Path>, q: Path, y: Id)
    requires ParentsOk(parent, path, {}) && !Present(path, q) && y in path
    ensures ParentPath(path[y]) != Some(q)
  {
    hide ParentPath;
  }

  lemma FreshList(children: map<Id, seq<Id>>, path: map<Id, Path>, x: Id, parent: Option<Id>)
    requires x !in path && (parent.Some? ==> parent.value in path && parent.value in children)
    ensures Adopted(children, x, parent)[x] == []
  {}

  lemma NewChildList(children: map<Id, seq<Id>>, path: map<Id, Path>, x: Id, q: Path, y: Id)
    requires x !in path && y in path && y in children && ListOk(children, path, y)
    requires ParentPath(q) == Some(path[y])
    ensures ListOk(Adopted(children, x, Some(y)), path[x := q], y)
  {
    hide ParentPath, NoRepeats;
    assert x !in children[y];
    FirstDiffers(x, children[y]);
    assert Adopted(children, x, Some(y))[y] == [x] + children[y];
  }

  lemma OtherList(f: Forest, x: Id, q: Path, parent: Option<Id>, y: Id)
    requires x !in f.path && y in f.path && ListOk(f.children, f.path, y) && UniquePaths(f.path)
    requires parent.Some? ==> parent.value in f.path && parent.value in f.children && ParentPath(q) == Some(f.path[parent.value])
    requires parent.Some? ==> y != parent.value
    requires parent.None? ==> ParentPath(q).None?
    ensures ListOk(Adopted(f.children, x, parent), f.path[x := q], y)
  {
    hide ParentPath, NoRepeats;
  }

  /** A new, childless node comes first among its parent's children; all other links are as they were. */
  ghost predicate JoinsParent(f: Forest, f': Forest, x: Id, parent: Option<Id>) {
    if parent.None? then f'.children == f.children[x := []] && f'.parent == f.parent
    else
      && parent.value in f.children
      && f'.children == f.children[x := []][parent.value := [x] + f.children[parent.value]]
      && f'.parent == f.parent[x := parent.value]
  }

  /** It comes into its hash chain behind the nodes whose hash is not larger; all other chains are as they were. */
  ghost predicate JoinsChain(f: Forest, f': Forest, x: Id, q: Path, h: Path -> nat) {
    && f.buckets != []
    && var b := h(q) % |f.buckets|;
       var chain := f.buckets[b];
       exists pos :: 0 <= pos <= |chain| && Fits(chain, f.path, h, pos, h(q))
         && f'.buckets == f.buckets[b := chain[..pos] + [x] + chain[pos..]]
  }

  lemma Joined(f: Forest, x: Id, q: Path, rec: Option<nat>, parent: Option<Id>, pos: nat, h: Path -> nat)
    requires SearchEnds(f, q, h, None, pos) && (parent.Some? ==> parent.value in f.children)
    ensures f.buckets != [] && pos <= |f.buckets[h(q) % |f.buckets|]|
    ensures var f' := Added(f, x, q, rec, parent, pos, h); JoinsParent(f, f', x, parent) && JoinsChain(f, f', x, q, h)
  {
    hide Fits;
  }

  /**
    Add a node for a path under its parent, unless it is there; then only give it the record
    if it has none. Memory for the new node is taken first.
   */
  method AddNode(f: Forest, x: Id, q: Path, rec: Option<nat>, parent: Option<Id>, hasMemory: bool, h: Path -> nat)
    returns (f': Forest, result: Outcome, id: Id)
    requires ForestOk(f, h) && ParentOf(f, q, parent) && x !in f.path && x !in f.parent
    ensures ForestOk(f', h) && !result.WildRead?
    ensures result.NoMemory? <==> !hasMemory
    ensures result.NoMemory? ==> f' == f
    ensures result.Ok? && !Present(f.path, q) ==> JoinsParent(f, f', x, parent) && JoinsChain(f, f', x, q, h)
    ensures Present(f.path, q) ==> f' == f.(rec := f'.rec)
    ensures !result.NoMemory? ==> id in f'.path && f'.path[id] == q
    ensures !result.NoMemory? ==> f'.path == (if Present(f.path, q) then f.path else f.path[x := q])
    ensures !result.NoMemory? ==> (id == x <==> !Present(f.path, q)) && (id != x ==> id in f.path)
    ensures result.AlreadyExists? <==> hasMemory && Present(f.path, q) && (rec.None? || id in f.rec)
    ensures result.AlreadyExists? ==> f' == f
    ensures result.Ok? ==> f'.rec == if rec.Some? then f.rec[id := rec.value] else f.rec
    ensures f'.parent.Keys <= f.parent.Keys + {x}
    ensures |f'.path| == |f.path| + if result.Ok? && !Present(f.path, q) then 1 else 0
  {
    hide *;
    if !hasMemory {
      return f, NoMemory, 0;
    }
    var found, pos := FindNode(f, q, h);
    FoundFacts(f, q, h, found, pos);
    if found.Some? {
      id := found.value;
      if rec.Some? && id !in f.rec {
        f' := f.(rec := f.rec[id := rec.value]);
        RecordSet(f, id, rec.value, h);
        return f', Ok, id;
      }
      return f, AlreadyExists, id;
    }
    AddedOk(f, x, q, rec, parent, pos, h);
    Joined(f, x, q, rec, parent, pos, h);
    NodeAdded(f, x, q, rec, parent, pos, h);
    f' := Added(f, x, q, rec, parent, pos, h);
    result, id := Ok, x;
  }

  lemma FoundFacts(f: Forest, q: Path, h: Path -> nat, found: Option<Id>, pos: nat)
    requires SearchEnds(f, q, h, found, pos)
    ensures f.buckets != []
    ensures found.Some? ==> found.value in f.path && f.path[found.value] == q && Present(f.path, q)
    ensures found.None? ==> !Present(f.path, q) && pos <= |f.buckets[h(q) % |f.buckets|]|
  {
    hide Fits;
  }

  lemma NodeAdded(f: Forest, x: Id, q: Path, rec: Option<nat>, parent: Option<Id>, pos: nat, h: Path -> nat)
    requires f.buckets != [] && pos <= |f.buckets[h(q) % |f.buckets|]|
    requires parent.Some? ==> parent.value in f.children
    requires x !in f.path
    ensures var g := Added(f, x, q, rec, parent, pos, h);
      && g.path == f.path[x := q] && x in g.path && g.path[x] == q && |g.path| == |f.path| + 1
      && g.rec == (if rec.Some? then f.rec[x := rec.value] else f.rec)
      && g.parent.Keys <= f.parent.Keys + {x}
  {
    assert f.path[x := q].Keys == f.path.Keys + {x};
  }

  lemma RecordSet(f: Forest, id: Id, r: nat, h: Path -> nat)
    requires ForestOk(f, h) && id in f.path
    ensures ForestOk(f.(rec := f.rec[id := r]), h)
  {
    hide UniquePaths, ChainsOk, ParentsOk, ChildrenOk;
  }

  // ------------------------------------------------------------------ the paths leading to a path

  /** Index i ends one of the paths leading to `key`, or `key` itself. */
  predicate Cut(key: Path, i: nat) {
    i == |key| || (0 < i < |key| && IsSeparator(key[i]))
  }

  lemma {:induction false} LastSeparatorPrefix(p: Path, e: nat, i: nat)
    requires e <= i <= |p|
    ensures LastSeparator(p[..i], e) == LastSeparator(p, e)
  {
    if e > 1 && !IsSeparator(p[e - 1]) { LastSeparatorPrefix(p, e - 1, i); }
  }

  /** The parent path of a prefix. */
  lemma PrefixParent(key: Path, i: nat)
    requires i <= |key|
    ensures ParentPath(key[..i]) == if LastSeparator(key, i) == 0 then None else Some(key[..LastSeparator(key, i)])
  {
    LastSeparatorPrefix(key, i, i);
    var j := LastSeparator(key, i);
    assert key[..i][..j] == key[..j];
  }

  /** The paths at or above a prefix of `key` that ends in a cut are the cuts up to it. */
  lemma {:induction false} UnderCuts(key: Path, i: nat, p: Path)
    requires 0 < i <= |key|
    ensures Under(key[..i], p) <==> p == key[..i] || exists k :: 0 < k < i && Cut(key, k) && p == key[..k]
  {
    PrefixParent(key, i);
    var j := LastSeparator(key, i);
    if j > 0 {
      UnderCuts(key, j, p);
      if k :| 0 < k < j && Cut(key, k) && p == key[..k] { assert 0 < k < i; }
      assert Cut(key, j);
    }
    forall k | j < k < i ensures !Cut(key, k) {
      assert !IsSeparator(key[k]);
    }
  }

  // ------------------------------------------------------------------ the path buffer

  /** The string a buffer holds: what comes before its first NUL. */
  function Text(buf: seq<char>): Path {
    if buf == [] || buf[0] == '\0' then [] else [buf[0]] + Text(buf[1..])
  }

  lemma {:induction false} TextOf(buf: seq<char>, e: nat)
    requires e < |buf| && buf[e] == '\0' && forall i :: 0 <= i < e ==> buf[i] != '\0'
    ensures Text(buf) == buf[..e]
  {
    if e > 0 {
      TextOf(buf[1..], e - 1);
      assert buf[..e] == [buf[0]] + buf[1..][..e - 1];
    }
  }

  /** The key up to index e; from there on a NUL at each cut. */
  ghost predicate CutFrom(buf: seq<char>, key: Path, e: nat) {
    && |buf| == |key| + 1
    && forall i :: 0 <= i < |buf| ==>
      buf[i] == if i == |key| || (i >= e && IsSeparator(key[i])) then '\0' else key[i]
  }

  // ------------------------------------------------------------------ insertion

  /** No path leading to `key` between index e and its end has a node. */
  ghost predicate NoneBetween(f: Forest, key: Path, e: nat)
    requires e <= |key|
  {
    forall k :: e < k < |key| && Cut(key, k) ==> !Present(f.path, key[..k])
  }

  /**
    Find the lowest present node above the key, cutting the buffer at each separator from
    the end on and restoring it where the node is found. For the empty key the index of the
    last character wraps around, and the first read is outside the buffer.
   */
  method LowestParent(f: Forest, key: Path, h: Path -> nat)
    returns (wild: bool, buf: seq<char>, e: nat, parent: Option<Id>)
    requires ForestOk(f, h) && '\0' !in key
    ensures wild <==> key == []
    ensures !wild ==> e < |key| && CutFrom(buf, key, e + 1) && NoneBetween(f, key, e)
    ensures !wild ==>
            if e == 0 then parent.None?
            else IsSeparator(key[e]) && parent.Some? && parent.value in f.path && f.path[parent.value] == key[..e]
  {
    hide *;
    wild, buf, e, parent := false, key + ['\0'], 0, None;
    if key == [] {
      wild := true;
      return;
    }
    e := |key| - 1;
    StartOfSearch(f, key);
    while e > 0
      invariant e < |key| && CutFrom(buf, key, e + 1) && NoneBetween(f, key, e)
    {
      Uncutting(buf, key, e);
      if IsSeparator(buf[e]) {
        buf := buf[e := '\0'];
        AtCut(buf, key, e);
        var found, pos := FindNode(f, Text(buf), h);
        FoundFacts(f, Text(buf), h, found, pos);
        if found.Some? {
          Uncut(buf, key, e);
          buf := buf[e := key[e]];
          parent := found;
          return;
        }
      }
      NoneHere(f, key, e);
      e := e - 1;
    }
  }

  lemma StartOfSearch(f: Forest, key: Path)
    requires key != []
    ensures CutFrom(key + ['\0'], key, |key|) && NoneBetween(f, key, |key| - 1)
  {}

  /** Cutting at a separator, or passing another character, on the way down. */
  lemma Uncutting(buf: seq<char>, key: Path, e: nat)
    requires CutFrom(buf, key, e + 1) && e < |key|
    ensures |buf| == |key| + 1 && buf[e] == key[e]
    ensures IsSeparator(key[e]) ==> CutFrom(buf[e := '\0'], key, e)
    ensures !IsSeparator(key[e]) ==> CutFrom(buf, key, e)
  {}

  lemma NoneHere(f: Forest, key: Path, e: nat)
    requires 0 < e < |key| && NoneBetween(f, key, e)
    ensures !IsSeparator(key[e]) || !Present(f.path, key[..e]) ==> NoneBetween(f, key, e - 1)
  {
    hide Present;
  }

  /** The node of the longest path leading to `key` that ends before index e. */
  ghost predicate ParentAt(f: Forest, key: Path, e: nat, parent: Option<Id>)
    requires e <= |key|
  {
    var j := LastSeparator(key, e);
    if j == 0 then parent.None? else parent.Some? && parent.value in f.path && f.path[parent.value] == key[..j]
  }

  /** Some path leading to `key` that ends before index e is p. */
  ghost predicate LeadsTo(key: Path, e: nat, p: Path)
    requires e <= |key|
  {
    exists k :: 0 < k < e && Cut(key, k) && p == key[..k]
  }

  /** The forest with nodes added for the paths leading to `key` that end before index e. */
  ghost predicate Grown(f0: Forest, f: Forest, key: Path, e: nat, h: Path -> nat)
    requires e <= |key|
  {
    && ForestOk(f, h)
    && (forall y :: y in f0.path ==> y in f.path && f.path[y] == f0.path[y])
    && (forall p :: Present(f.path, p) <==> Present(f0.path, p) || LeadsTo(key, e, p))
    && f.rec == f0.rec
    && ((forall k :: 0 < k < e && Cut(key, k) ==> Present(f0.path, key[..k])) ==> f == f0)
  }

  /** Numbers from this one on are free for new nodes. */
  ghost predicate FreshFrom(f: Forest, nextId: Id) {
    (forall x :: x in f.path ==> x < nextId) && (forall x :: x in f.parent ==> x < nextId)
  }

  /** Nothing need be added up to the lowest present parent: a forest has all paths above a node's. */
  lemma NothingToAdd(f: Forest, key: Path, e: nat, parent: Option<Id>, h: Path -> nat)
    requires ForestOk(f, h) && e < |key|
    requires if e == 0 then parent.None?
             else IsSeparator(key[e]) && parent.Some? && parent.value in f.path && f.path[parent.value] == key[..e]
    ensures Grown(f, f, key, e + 1, h) && ParentAt(f, key, e + 1, parent)
  {
    SplitOk(f, h);
    hide ForestOk;
    forall p | LeadsTo(key, e + 1, p) ensures Present(f.path, p) {
      var k :| 0 < k < e + 1 && Cut(key, k) && p == key[..k];
      UnderCuts(key, e, p);
      AncestorPresent(f.path, f.parent, {}, parent.value, p);
    }
  }

  /** One more path has its node. */
  lemma GrownNext(f0: Forest, f: Forest, f': Forest, x: Id, key: Path, e: nat, h: Path -> nat)
    requires 0 < e < |key| && Cut(key, e) && Grown(f0, f, key, e, h)
    requires ForestOk(f', h) && f'.path == (if Present(f.path, key[..e]) then f.path else f.path[x := key[..e]])
    requires f'.rec == f.rec && x !in f.path && (Present(f.path, key[..e]) ==> f' == f)
    ensures Grown(f0, f', key, e + 1, h)
  {
    hide ForestOk;
    PresentAdded(f.path, x, key[..e]);
    forall p ensures LeadsTo(key, e + 1, p) <==> LeadsTo(key, e, p) || p == key[..e] {
      LeadsNext(key, e, p);
    }
    if forall k :: 0 < k < e + 1 && Cut(key, k) ==> Present(f0.path, key[..k]) {
      assert Present(f0.path, key[..e]);
    }
    hide LeadsTo, Present, Cut;
  }

  lemma PresentAdded(path: map<Id, Path>, x: Id, q: Path)
    requires x !in path
    ensures forall p :: Present(path[x := q], p) <==> Present(path, p) || p == q
  {
    forall p ensures Present(path[x := q], p) <==> Present(path, p) || p == q {
      if Present(path, p) {
        var y :| y in path && path[y] == p;
        assert path[x := q][y] == p;
      }
      if p == q { assert path[x := q][x] == p; }
    }
  }

  lemma LeadsNext(key: Path, e: nat, p: Path)
    requires e < |key|
    ensures LeadsTo(key, e + 1, p) <==> LeadsTo(key, e, p) || (e > 0 && Cut(key, e) && p == key[..e])
  {}

  /** A place that is no cut adds nothing. */
  lemma NoCut(f0: Forest, f: Forest, key: Path, e: nat, parent: Option<Id>, h: Path -> nat)
    requires 0 < e < |key| && !IsSeparator(key[e]) && Grown(f0, f, key, e, h) && ParentAt(f, key, e, parent)
    ensures Grown(f0, f, key, e + 1, h) && ParentAt(f, key, e + 1, parent)
  {
    hide ForestOk;
    forall p ensures LeadsTo(key, e + 1, p) <==> LeadsTo(key, e, p) {
      LeadsNext(key, e, p);
    }
    hide LeadsTo, Present;
  }

  lemma ParentAtCut(f: Forest, key: Path, e: nat, parent: Option<Id>)
    requires e <= |key| && ParentAt(f, key, e, parent)
    ensures ParentOf(f, key[..e], parent)
  {
    PrefixParent(key, e);
    hide LastSeparator, ParentPath;
  }

  /** What an insertion of a record for `key` leaves. */
  ghost predicate Inserted(f0: Forest, f: Forest, key: Path, r: nat, result: Outcome, h: Path -> nat) {
    && ForestOk(f, h)
    && (forall y :: y in f0.path ==> y in f.path && f.path[y] == f0.path[y])
    && (forall p :: Present(f0.path, p) ==> Present(f.path, p))
    && (forall p :: Present(f.path, p) ==> Present(f0.path, p) || Under(key, p))
    && (result.Ok? ==>
      && (forall p :: Under(key, p) ==> Present(f.path, p))
      && (exists id :: id in f.path && f.path[id] == key && id !in f0.rec && f.rec == f0.rec[id := r]))
    && (result.AlreadyExists? ==> f == f0 && exists id :: id in f0.path && f0.path[id] == key && id in f0.rec)
    && (result.NoMemory? ==> f.rec == f0.rec)
  }

  lemma UnderLeads(key: Path, p: Path)
    requires key != []
    ensures Under(key, p) <==> p == key || LeadsTo(key, |key|, p)
  {
    UnderCuts(key, |key|, p);
    assert key[..|key|] == key;
  }

  lemma InsertionStopped(f0: Forest, f: Forest, key: Path, r: nat, e: nat, h: Path -> nat)
    requires key != [] && e <= |key| && Grown(f0, f, key, e, h)
    ensures Inserted(f0, f, key, r, NoMemory, h)
  {
    hide ForestOk;
    forall p | LeadsTo(key, e, p) ensures Under(key, p) {
      UnderLeads(key, p);
      var k :| 0 < k < e && Cut(key, k) && p == key[..k];
    }
    hide LeadsTo, Under, Present;
  }

  lemma InsertionDone(f0: Forest, f: Forest, f': Forest, x: Id, key: Path, r: nat, result: Outcome, id: Id, h: Path -> nat)
    requires key != [] && ForestOk(f0, h) && Grown(f0, f, key, |key|, h) && x !in f.path && ForestOk(f', h)
    requires !result.NoMemory? && !result.WildRead? && id in f'.path && f'.path[id] == key
    requires f'.path == (if Present(f.path, key) then f.path else f.path[x := key])
    requires (id == x <==> !Present(f.path, key)) && (id != x ==> id in f.path)
    requires result.AlreadyExists? <==> Present(f.path, key) && id in f.rec
    requires result.AlreadyExists? ==> f' == f
    requires result.Ok? ==> f'.rec == f.rec[id := r]
    ensures Inserted(f0, f', key, r, result, h)
  {
    hide *;
    GrownFacts(f0, f, key, |key|, h);
    RecordedNodes(f0, h);
    RecordedNodes(f, h);
    InsertedPaths(f0, f, f', x, key);
    if result.AlreadyExists? {
      AllWereThere(f0, f, key, id, h);
    }
    MakeInserted(f0, f, f', key, r, result, id, h);
  }

  lemma GrownFacts(f0: Forest, f: Forest, key: Path, e: nat, h: Path -> nat)
    requires e <= |key| && Grown(f0, f, key, e, h)
    ensures ForestOk(f, h) && f.rec == f0.rec
    ensures forall y :: y in f0.path ==> y in f.path && f.path[y] == f0.path[y]
    ensures forall p :: Present(f.path, p) <==> Present(f0.path, p) || LeadsTo(key, e, p)
    ensures (forall k :: 0 < k < e && Cut(key, k) ==> Present(f0.path, key[..k])) ==> f == f0
  {
    hide ForestOk, Present, LeadsTo, Cut;
  }

  /** With the last node added, the paths leading to the key and the key itself are present. */
  lemma InsertedPaths(f0: Forest, f: Forest, f': Forest, x: Id, key: Path)
    requires key != [] && x !in f.path
    requires forall p :: Present(f.path, p) <==> Present(f0.path, p) || LeadsTo(key, |key|, p)
    requires f'.path == (if Present(f.path, key) then f.path else f.path[x := key])
    requires forall y :: y in f0.path ==> y in f.path && f.path[y] == f0.path[y]
    ensures forall p :: Present(f'.path, p) <==> Present(f0.path, p) || Under(key, p)
    ensures forall y :: y in f0.path ==> y in f'.path && f'.path[y] == f0.path[y]
  {
    hide *;
    PresentAdded(f.path, x, key);
    forall p ensures Present(f'.path, p) <==> Present(f0.path, p) || Under(key, p) {
      UnderLeads(key, p);
    }
    assert x !in f0.path;
  }

  /** A key that had a node with a record had all the paths leading to it, so nothing has been added. */
  lemma AllWereThere(f0: Forest, f: Forest, key: Path, id: Id, h: Path -> nat)
    requires ForestOk(f0, h) && key != [] && id in f.rec && id in f.path && f.path[id] == key
    requires f.rec == f0.rec && (forall y :: y in f0.rec ==> y in f0.path)
    requires forall y :: y in f0.path ==> y in f.path && f.path[y] == f0.path[y]
    requires (forall k :: 0 < k < |key| && Cut(key, k) ==> Present(f0.path, key[..k])) ==> f == f0
    ensures f == f0 && id in f0.path && f0.path[id] == key && id in f0.rec
  {
    SplitOk(f0, h);
    hide ForestOk;
    forall k | 0 < k < |key| && Cut(key, k) ensures Present(f0.path, key[..k]) {
      UnderLeads(key, key[..k]);
      assert LeadsTo(key, |key|, key[..k]);
      AncestorPresent(f0.path, f0.parent, {}, id, key[..k]);
    }
  }

  lemma MakeInserted(f0: Forest, f: Forest, f': Forest, key: Path, r: nat, result: Outcome, id: Id, h: Path -> nat)
    requires ForestOk(f', h) && f.rec == f0.rec && !result.NoMemory?
    requires forall p :: Present(f'.path, p) <==> Present(f0.path, p) || Under(key, p)
    requires forall y :: y in f0.path ==> y in f'.path && f'.path[y] == f0.path[y]
    requires id in f'.path && f'.path[id] == key
    requires result.AlreadyExists? ==> f' == f == f0 && id in f0.rec
    requires result.Ok? ==> id !in f0.rec && f'.rec == f.rec[id := r]
    ensures Inserted(f0, f', key, r, result, h)
  {
    hide ForestOk, Present, Under;
  }

  lemma RecordedNodes(f: Forest, h: Path -> nat)
    requires ForestOk(f, h)
    ensures forall y :: y in f.rec ==> y in f.path
  {
    hide UniquePaths, ChainsOk, ParentsOk, ChildrenOk;
  }

  /**
    Insert a record: below the lowest present node above its path, a node is added for each
    separator, and one for the path itself. `memory` says which node allocations succeed.
   */
  method InsertRecord(f0: Forest, key: Path, r: nat, nextId0: Id, memory: nat -> bool, h: Path -> nat)
    returns (f: Forest, result: Outcome, nextId: Id, added: nat)
    requires ForestOk(f0, h) && '\0' !in key && FreshFrom(f0, nextId0)
    ensures result.WildRead? <==> key == []
    ensures !result.WildRead? ==> Inserted(f0, f, key, r, result, h) && FreshFrom(f, nextId) && |f.path| == |f0.path| + added
    ensures result.NoMemory? ==> exists n: nat :: !memory(n)
  {
    hide *;
    f, nextId, added := f0, nextId0, 0;
    var wild, buf, e, parent := LowestParent(f0, key, h);
    if wild {
      result := WildRead;
      return;
    }
    NothingToAdd(f0, key, e, parent, h);
    // the character at e is not cut: it was restored, or is the first one
    e := e + 1;
    while e < |key|
      invariant 0 < e <= |key| && CutFrom(buf, key, e)
      invariant Grown(f0, f, key, e, h) && ParentAt(f, key, e, parent)
      invariant FreshFrom(f, nextId) && nextId >= nextId0
      invariant |f.path| == |f0.path| + added
    {
      AtCut(buf, key, e);
      if buf[e] == '\0' {
        var f1, res, id := AddLeading(f0, f, nextId, buf, key, e, parent, memory(nextId - nextId0), h);
        if res.NoMemory? {
          InsertionStopped(f0, f, key, r, e, h);
          return f, NoMemory, nextId, added;
        }
        if res.Ok? { added := added + 1; }
        f, parent, nextId := f1, Some(id), nextId + 1;
        buf := buf[e := key[e]];
      } else {
        NoCut(f0, f, key, e, parent, h);
        Uncut(buf, key, e);
      }
      e := e + 1;
    }
    AtEnd(buf, key);
    ghost var f1 := f;
    var count;
    f, result, count := AddLast(f0, f, nextId, key, Text(buf), r, parent, memory(nextId - nextId0), h);
    nextId, added := nextId + 1, added + count;
  }

  /** Add the node for the path itself, with its record. */
  method AddLast(ghost f0: Forest, f: Forest, x: Id, ghost key: Path, q: Path, r: nat, parent: Option<Id>,
                 hasMemory: bool, h: Path -> nat)
    returns (f': Forest, result: Outcome, count: nat)
    requires q == key == key[..|key|] && key != [] && ForestOk(f0, h)
    requires Grown(f0, f, key, |key|, h) && ParentAt(f, key, |key|, parent) && FreshFrom(f, x)
    ensures Inserted(f0, f', key, r, result, h) && FreshFrom(f', x + 1)
    ensures result.NoMemory? <==> !hasMemory
    ensures !result.WildRead?
    ensures |f'.path| == |f.path| + count
  {
    hide *;
    ParentAtCut(f, key, |key|, parent);
    GrownOk(f0, f, key, |key|, h);
    FreshId(f, x);
    var id;
    f', result, id := AddNode(f, x, q, Some(r), parent, hasMemory, h);
    count := if result.Ok? && id == x then 1 else 0;
    if result.NoMemory? {
      InsertionStopped(f0, f, key, r, |key|, h);
      FreshStays(f, x);
    } else {
      InsertionDone(f0, f, f', x, key, r, result, id, h);
      FreshNext(f, f', x, key);
    }
  }

  lemma FreshStays(f: Forest, x: Id)
    requires FreshFrom(f, x)
    ensures FreshFrom(f, x + 1)
  {}

  /** Add the node for the path that ends at the cut e. */
  method AddLeading(ghost f0: Forest, f: Forest, x: Id, buf: seq<char>, key: Path, e: nat, parent: Option<Id>,
                    hasMemory: bool, h: Path -> nat)
    returns (f': Forest, result: Outcome, id: Id)
    requires 0 < e < |key| && '\0' !in key && CutFrom(buf, key, e) && buf[e] == '\0'
    requires Grown(f0, f, key, e, h) && ParentAt(f, key, e, parent) && FreshFrom(f, x)
    ensures result.NoMemory? <==> !hasMemory
    ensures !result.NoMemory? ==>
      && Grown(f0, f', key, e + 1, h) && ParentAt(f', key, e + 1, Some(id)) && FreshFrom(f', x + 1)
      && CutFrom(buf[e := key[e]], key, e + 1)
      && |f'.path| == |f.path| + if result.Ok? then 1 else 0
  {
    hide *;
    AtCut(buf, key, e);
    Uncut(buf, key, e);
    ParentAtCut(f, key, e, parent);
    GrownOk(f0, f, key, e, h);
    FreshId(f, x);
    f', result, id := AddNode(f, x, Text(buf), None, parent, hasMemory, h);
    if !result.NoMemory? {
      CutThere(key, e);
      GrownNext(f0, f, f', x, key, e, h);
      ParentNext(f', key, e, id);
      FreshNext(f, f', x, key[..e]);
    }
  }

  lemma CutThere(key: Path, e: nat)
    requires 0 < e < |key| && IsSeparator(key[e])
    ensures Cut(key, e)
  {}

  lemma AtCut(buf: seq<char>, key: Path, e: nat)
    requires CutFrom(buf, key, e) && e < |key| && '\0' !in key
    ensures |buf| == |key| + 1
    ensures buf[e] == '\0' <==> IsSeparator(key[e])
    ensures buf[e] == '\0' ==> Text(buf) == key[..e]
  {
    if buf[e] == '\0' {
      TextOf(buf, e);
      assert buf[..e] == key[..e];
    }
    hide Text;
  }

  lemma AtEnd(buf: seq<char>, key: Path)
    requires CutFrom(buf, key, |key|) && '\0' !in key
    ensures Text(buf) == key && key[..|key|] == key
  {
    TextOf(buf, |key|);
    assert buf[..|key|] == key;
  }

  /** Restoring the character at e, or passing one that was not cut. */
  lemma Uncut(buf: seq<char>, key: Path, e: nat)
    requires CutFrom(buf, key, e) && e < |key|
    ensures |buf| == |key| + 1 && CutFrom(buf[e := key[e]], key, e + 1)
    ensures !IsSeparator(key[e]) ==> CutFrom(buf, key, e + 1)
  {}

  lemma GrownOk(f0: Forest, f: Forest, key: Path, e: nat, h: Path -> nat)
    requires e <= |key| && Grown(f0, f, key, e, h)
    ensures ForestOk(f, h)
  {
    hide ForestOk, LeadsTo, Present, Cut;
  }

  lemma FreshId(f: Forest, x: Id)
    requires FreshFrom(f, x)
    ensures x !in f.path && x !in f.parent
  {}

  lemma FreshNext(f: Forest, f': Forest, x: Id, q: Path)
    requires FreshFrom(f, x) && (f'.path == f.path || f'.path == f.path[x := q]) && f'.parent.Keys <= f.parent.Keys + {x}
    ensures FreshFrom(f', x + 1)
  {}

  lemma ParentNext(f: Forest, key: Path, e: nat, id: Id)
    requires 0 < e < |key| && IsSeparator(key[e]) && id in f.path && f.path[id] == key[..e]
    ensures ParentAt(f, key, e + 1, Some(id))
  {}
}
