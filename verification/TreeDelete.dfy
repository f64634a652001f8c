/** Deleting a node with all its descendants from a TREE_HASH_TABLE. */
module TreeDeletion {
  import opened Records
  import opened Trees

  // ------------------------------------------------------------------ lists without one entry

  function Without(s: seq<Id>, x: Id): seq<Id> {
    if s == [] then [] else if s[0] == x then s[1..] else [s[0]] + Without(s[1..], x)
  }

  lemma {:induction false} WithoutMembers(s: seq<Id>, x: Id)
    requires NoRepeats(s)
    ensures NoRepeats(Without(s, x))
    ensures forall y :: y in Without(s, x) <==> y in s && y != x
  {
    if s != [] {
      assert NoRepeats(s[1..]);
      WithoutMembers(s[1..], x);
      assert s == [s[0]] + s[1..];
      forall y | y in Without(s[1..], x) ensures y != s[0] {}
      FirstDiffers(s[0], Without(s[1..], x));
    }
  }

  lemma FirstDiffers(x: Id, s: seq<Id>)
    requires NoRepeats(s) && forall y :: y in s ==> y != x
    ensures NoRepeats([x] + s)
  {
    var t := [x] + s;
    forall i, j | 0 <= i < j < |t| ensures t[i] != t[j] {
      assert t[j] == s[j - 1] && s[j - 1] in s && (i > 0 ==> t[i] == s[i - 1]);
    }
  }

  /** Unlinking a node from a list it is in: walk to the pointer that leads to it. */
  method Unlink(s: seq<Id>, x: Id) returns (s': seq<Id>)
    requires x in s
    ensures s' == Without(s, x)
  {
    hide Without;
    var i := 0;
    assert s[..0] + Without(s[0..], x) == Without(s, x) by { assert s[0..] == s; }
    while s[i] != x
      invariant i < |s| && x in s[i..] && Without(s, x) == s[..i] + Without(s[i..], x)
      decreases |s| - i
    {
      WithoutStep(s, i, x);
      assert s[..i + 1] + Without(s[i + 1..], x) == s[..i] + ([s[i]] + Without(s[i + 1..], x));
      i := i + 1;
    }
    WithoutStep(s, i, x);
    s' := s[..i] + s[i + 1..];
  }

  lemma WithoutStep(s: seq<Id>, i: nat, x: Id)
    requires i < |s|
    ensures s[i] != x ==> Without(s[i..], x) == [s[i]] + Without(s[i + 1..], x)
    ensures s[i] != x && x in s[i..] ==> x in s[i + 1..]
    ensures s[i] == x ==> Without(s[i..], x) == s[i + 1..]
  {
    assert s[i..][1..] == s[i + 1..];
    assert s[i..] == [s[i]] + s[i + 1..];
  }

  lemma {:induction false} WithoutSorted(s: seq<Id>, x: Id, path: map<Id, Path>, h: Path -> nat)
    requires forall y :: y in s ==> y in path
    requires forall i, j :: 0 <= i < j < |s| ==> h(path[s[i]]) <= h(path[s[j]])
    ensures forall y :: y in Without(s, x) ==> y in s
    ensures forall i, j :: 0 <= i < j < |Without(s, x)| ==> h(path[Without(s, x)[i]]) <= h(path[Without(s, x)[j]])
  {
    if s != [] && s[0] != x {
      WithoutSorted(s[1..], x, path, h);
      var rest := Without(s[1..], x);
      forall j | 0 <= j < |rest| ensures h(path[s[0]]) <= h(path[rest[j]]) {
        assert rest[j] in s[1..];
      }
    }
  }

  // ------------------------------------------------------------------ one node leaves the links

  /** Out of its hash chain, a node is pending. */
  lemma UnlinkedChain(buckets: seq<seq<Id>>, path: map<Id, Path>, pending: set<Id>, h: Path -> nat, x: Id)
    requires ChainsOk(buckets, path, pending, h) && x in path && x !in pending
    ensures var b := h(path[x]) % |buckets|;
      && x in buckets[b]
      && ChainsOk(buckets[b := Without(buckets[b], x)], path, pending + {x}, h)
  {
    var b := h(path[x]) % |buckets|;
    var chain := buckets[b];
    assert ChainOk(chain, path, b, |buckets|, h);
    UnlinkedOne(chain, path, b, |buckets|, h, x);
    hide Without, ChainOk;
  }

  lemma UnlinkedOne(chain: seq<Id>, path: map<Id, Path>, b: nat, n: nat, h: Path -> nat, x: Id)
    requires n > 0 && ChainOk(chain, path, b, n, h)
    ensures ChainOk(Without(chain, x), path, b, n, h)
    ensures forall y :: y in Without(chain, x) <==> y in chain && y != x
  {
    WithoutMembers(chain, x);
    WithoutSorted(chain, x, path, h);
    hide Without;
  }

  /** Out of its parent's child list, if it has a parent, a node is pending. */
  lemma UnlinkedParent(f: Forest, pending: set<Id>, x: Id)
    requires UniquePaths(f.path) && ParentsOk(f.parent, f.path, pending) && ChildrenOk(f.children, f.path, pending)
    requires x in f.path && x !in pending && (x in f.parent ==> f.parent[x] !in pending)
    ensures x in f.parent ==> f.parent[x] in f.children && x in f.children[f.parent[x]]
    ensures x in f.parent ==>
      ChildrenOk(f.children[f.parent[x] := Without(f.children[f.parent[x]], x)], f.path, pending + {x})
    ensures x !in f.parent ==> ChildrenOk(f.children, f.path, pending + {x})
    ensures ParentsOk(f.parent, f.path, pending + {x})
  {
    hide *;
    MorePending(f.parent, f.path, pending, x);
    ParentFacts(f.parent, f.path, pending, x);
    if x in f.parent {
      ChildListed(f, pending, x, f.parent[x]);
      ChildUnlinked(f, pending, x, f.parent[x]);
    } else {
      NobodysChild(f, pending, x);
    }
  }

  lemma ParentFacts(parent: map<Id, Id>, path: map<Id, Path>, pending: set<Id>, x: Id)
    requires ParentsOk(parent, path, pending) && x in path && x !in pending
    ensures x in parent ==> parent[x] in path && ParentPath(path[x]) == Some(path[parent[x]])
    ensures x !in parent ==> forall y :: y in path && y !in pending ==> ParentPath(path[x]) != Some(path[y])
  {
    hide ParentPath, Present;
  }

  lemma ChildListed(f: Forest, pending: set<Id>, x: Id, p: Id)
    requires ChildrenOk(f.children, f.path, pending)
    requires x in f.path && x !in pending && p in f.path && p !in pending && ParentPath(f.path[x]) == Some(f.path[p])
    ensures p in f.children && x in f.children[p]
  {
    hide ParentPath, NoRepeats;
  }

  lemma NobodysChild(f: Forest, pending: set<Id>, x: Id)
    requires ChildrenOk(f.children, f.path, pending) && x in f.path
    requires forall y :: y in f.path && y !in pending ==> ParentPath(f.path[x]) != Some(f.path[y])
    ensures ChildrenOk(f.children, f.path, pending + {x})
  {
    hide ParentPath, NoRepeats;
  }

  lemma ChildUnlinked(f: Forest, pending: set<Id>, x: Id, p: Id)
    requires UniquePaths(f.path) && ChildrenOk(f.children, f.path, pending)
    requires x in f.path && x !in pending && p in f.path && p !in pending && ParentPath(f.path[x]) == Some(f.path[p])
    requires p in f.children
    ensures ChildrenOk(f.children[p := Without(f.children[p], x)], f.path, pending + {x})
  {
    WithoutMembers(f.children[p], x);
    hide Without, ParentPath;
    var children', pending' := f.children[p := Without(f.children[p], x)], pending + {x};
    forall y | y in f.path && y !in pending'
      ensures y in children' && NoRepeats(children'[y])
      ensures forall z :: z in children'[y] <==> z in f.path && z !in pending' && ParentPath(f.path[z]) == Some(f.path[y])
    {
      if y != p { assert f.path[y] != f.path[p]; }
    }
    hide NoRepeats;
  }

  lemma MorePending(parent: map<Id, Id>, path: map<Id, Path>, pending: set<Id>, x: Id)
    requires ParentsOk(parent, path, pending)
    ensures ParentsOk(parent, path, pending + {x})
  {
    hide ParentPath, Present;
  }

  /** A pending node's child may drop its parent link. */
  lemma Detached(parent: map<Id, Id>, path: map<Id, Path>, pending: set<Id>, c: Id, x: Id)
    requires ParentsOk(parent, path, pending) && UniquePaths(path)
    requires x in path && x in pending && c in path && ParentPath(path[c]) == Some(path[x])
    ensures ParentsOk(parent - {c}, path, pending)
  {
    hide ParentPath, Present;
  }

  // ------------------------------------------------------------------ what is left

  /** The nodes not at or below a path. */
  ghost function Pruned(path: map<Id, Path>, top: Path): map<Id, Path> {
    map y | y in path && !Under(path[y], top) :: path[y]
  }

  /** The nodes not at or below any of the first k children. */
  ghost predicate PrunedBy(path: map<Id, Path>, cs: seq<Id>, k: nat, path': map<Id, Path>)
    requires k <= |cs| && forall c :: c in cs ==> c in path
  {
    && (forall y :: y in path' <==> y in path && forall j :: 0 <= j < k ==> !Under(path[y], path[cs[j]]))
    && (forall y :: y in path' ==> path'[y] == path[y])
  }

  /** Below a node, every path above a node's path has a node. */
  lemma {:induction false} AncestorPresent(path: map<Id, Path>, parent: map<Id, Id>, pending: set<Id>, y: Id, c: Path)
    requires ParentsOk(parent, path, pending) && y in path && Under(path[y], c)
    requires forall q :: q in pending && q in path ==> !Under(path[q], c) || path[q] == c
    ensures Present(path, c)
    decreases |path[y]|
  {
    if path[y] != c {
      assert y !in pending;
      var q := ParentPath(path[y]).value;
      var z :| z in path && path[z] == q;
      AncestorPresent(path, parent, pending, z, c);
    }
  }

  /** Without the children's subtrees nothing is left below a node but itself. */
  lemma AllBelowGone(f: Forest, pending: set<Id>, x: Id, cs: seq<Id>, path': map<Id, Path>)
    requires UniquePaths(f.path) && ParentsOk(f.parent, f.path, pending) && x in f.path
    requires forall q :: q in pending ==> q in f.path && !Under(f.path[q], f.path[x])
    requires forall c :: c in cs ==> c in f.path
    requires forall c :: c in f.path && c !in pending && ParentPath(f.path[c]) == Some(f.path[x]) ==> c in cs
    requires PrunedBy(f.path, cs, |cs|, path')
    ensures forall y :: y in path' && Under(path'[y], f.path[x]) ==> y == x
  {
    forall y | y in path' && Under(path'[y], f.path[x]) ensures y == x {
      if f.path[y] != f.path[x] {
        var j := BelowSome(f, pending, x, cs, y);
      }
    }
    hide Under;
  }

  /** A node properly below x is below one of x's children. */
  lemma BelowSome(f: Forest, pending: set<Id>, x: Id, cs: seq<Id>, y: Id) returns (j: nat)
    requires ParentsOk(f.parent, f.path, pending) && x in f.path && y in f.path
    requires forall q :: q in pending ==> q in f.path && !Under(f.path[q], f.path[x])
    requires forall c :: c in cs ==> c in f.path
    requires forall c :: c in f.path && c !in pending && ParentPath(f.path[c]) == Some(f.path[x]) ==> c in cs
    requires Under(f.path[y], f.path[x]) && f.path[y] != f.path[x]
    ensures j < |cs| && Under(f.path[y], f.path[cs[j]])
  {
    var cp := BelowChild(f.path[y], f.path[x]);
    ChildUnder(cp, f.path[x]);
    forall q | q in pending && q in f.path ensures !Under(f.path[q], cp) {
      if Under(f.path[q], cp) { UnderTransitive(f.path[q], cp, f.path[x]); }
    }
    hide Under;
    AncestorPresent(f.path, f.parent, pending, y, cp);
    var c :| c in f.path && f.path[c] == cp;
    assert c in cs;
    j :| 0 <= j < |cs| && cs[j] == c;
  }

  lemma ChildUnder(c: Path, top: Path)
    requires ParentPath(c) == Some(top)
    ensures Under(c, top) && |top| < |c|
  {
    assert Under(top, top);
  }

  // ------------------------------------------------------------------ recursive deletion

  /** The node's memory is gone. */
  function Freed(f: Forest, x: Id): Forest {
    Forest(f.path - {x}, f.rec - {x}, f.parent - {x}, f.children - {x}, f.buckets)
  }

  /** The node is out of its hash chain and out of its parent's child list. */
  function Unlinked(f: Forest, x: Id, h: Path -> nat): Forest
    requires x in f.path && f.buckets != [] && (x in f.parent ==> f.parent[x] in f.children)
  {
    var b := h(f.path[x]) % |f.buckets|;
    f.(buckets := f.buckets[b := Without(f.buckets[b], x)],
       children := if x in f.parent then f.children[f.parent[x] := Without(f.children[f.parent[x]], x)] else f.children)
  }

  /** The node's links lead somewhere. */
  ghost predicate Linked(f: Forest, x: Id) {
    x in f.path && x in f.children && f.buckets != [] && (x in f.parent ==> f.parent[x] in f.children)
  }

  lemma MakeLinked(f: Forest, x: Id)
    requires x in f.path && x in f.children && f.buckets != [] && (x in f.parent ==> f.parent[x] in f.children)
    ensures Linked(f, x)
  {}

  /** What a node to be deleted must be like while its ancestors are being deleted. */
  ghost predicate Deletable(f: Forest, x: Id, pending: set<Id>, h: Path -> nat) {
    && Deleting(f, pending, h) && x in f.path && x !in pending
    && (x in f.parent ==> f.parent[x] !in pending)
    && (forall q :: q in pending && q in f.path ==> !Under(f.path[q], f.path[x]))
  }

  lemma UnlinkedNode(f: Forest, x: Id, pending: set<Id>, h: Path -> nat)
    requires Deletable(f, x, pending, h)
    ensures f.buckets != [] && x in f.buckets[h(f.path[x]) % |f.buckets|]
    ensures x in f.children
    ensures x in f.parent ==> f.parent[x] in f.children && x in f.children[f.parent[x]]
    ensures Deleting(Unlinked(f, x, h), pending + {x}, h)
  {
    UnlinkedChain(f.buckets, f.path, pending, h, x);
    UnlinkedParent(f, pending, x);
    hide ChainsOk, ParentsOk, Without, NoRepeats, Under;
  }

  /** The first k children's subtrees are gone, and nothing else. */
  ghost predicate Halfway(f: Forest, g: Forest, x: Id, pending: set<Id>, cs: seq<Id>, k: nat, h: Path -> nat) {
    && k <= |cs| && (forall c :: c in cs ==> c in f.path)
    && Deleting(g, pending + {x}, h) && x in g.path
    && PrunedBy(f.path, cs, k, g.path)
    && RecordsKept(f, g)
  }

  /** The nodes left have the records they had. */
  ghost predicate RecordsKept(f: Forest, g: Forest) {
    forall y :: y in g.path ==> (y in g.rec <==> y in f.rec) && (y in g.rec ==> g.rec[y] == f.rec[y])
  }

  /** The child list: all children, each once. */
  ghost predicate ChildList(f: Forest, x: Id, pending: set<Id>, cs: seq<Id>) {
    && x in f.path && NoRepeats(cs)
    && (forall c :: c in cs <==> c in f.path && c !in pending && ParentPath(f.path[c]) == Some(f.path[x]))
  }

  lemma DeletionStart(f: Forest, x: Id, pending: set<Id>, h: Path -> nat)
    requires Deletable(f, x, pending, h)
    ensures x in f.path && f.buckets != [] && x in f.children && (x in f.parent ==> f.parent[x] in f.children)
    ensures ChildList(f, x, pending, f.children[x])
    ensures Halfway(f, Unlinked(f, x, h), x, pending, f.children[x], 0, h)
  {
    DeletableFacts(f, x, pending, h);
    hide *;
    UnlinkedNode(f, x, pending, h);
    ListOf(f, x, pending);
    UnlinkedFields(f, x, h);
    StartHalfway(f, Unlinked(f, x, h), x, pending, f.children[x], h);
  }

  lemma DeletableFacts(f: Forest, x: Id, pending: set<Id>, h: Path -> nat)
    requires Deletable(f, x, pending, h)
    ensures Deleting(f, pending, h) && ChildrenOk(f.children, f.path, pending) && x in f.path && x !in pending
    ensures UniquePaths(f.path)
    ensures x in f.parent ==> f.parent[x] !in pending
    ensures forall q :: q in pending && q in f.path ==> !Under(f.path[q], f.path[x])
  {
    hide ChainsOk, ParentsOk, ChildrenOk, Under, UniquePaths;
  }

  lemma ListOf(f: Forest, x: Id, pending: set<Id>)
    requires ChildrenOk(f.children, f.path, pending) && x in f.path && x !in pending
    ensures x in f.children && ChildList(f, x, pending, f.children[x])
  {
    hide ParentPath, NoRepeats;
  }

  lemma UnlinkedFields(f: Forest, x: Id, h: Path -> nat)
    requires x in f.path && f.buckets != [] && (x in f.parent ==> f.parent[x] in f.children)
    ensures Unlinked(f, x, h).path == f.path && Unlinked(f, x, h).rec == f.rec
  {
    hide Without;
  }

  lemma StartHalfway(f: Forest, g: Forest, x: Id, pending: set<Id>, cs: seq<Id>, h: Path -> nat)
    requires ChildList(f, x, pending, cs) && Deleting(g, pending + {x}, h) && g.path == f.path && g.rec == f.rec
    ensures Halfway(f, g, x, pending, cs, 0, h)
  {
    hide Deleting, Under, NoRepeats, ParentPath;
  }

  /** The next child is there to be deleted. */
  lemma ChildDeletable(f: Forest, g: Forest, x: Id, pending: set<Id>, cs: seq<Id>, k: nat, h: Path -> nat)
    requires Deletable(f, x, pending, h) && ChildList(f, x, pending, cs) && k < |cs|
    requires Halfway(f, g, x, pending, cs, k, h)
    ensures cs[k] in g.path && cs[k] in f.path && g.path[cs[k]] == f.path[cs[k]]
    ensures Deletable(g.(parent := g.parent - {cs[k]}), cs[k], pending + {x}, h)
  {
    DeletableFacts(f, x, pending, h);
    HalfwayFacts(f, g, x, pending, cs, k, h);
    ListedChild(f, x, pending, cs, k);
    hide *;
    StillThere(f, g, x, pending, cs, k);
    NotUnderChild(f, g, x, pending, cs[k]);
    DetachedChild(g, x, pending, cs[k], h);
    MakeDeletable(g, cs[k], pending + {x}, f.path[cs[k]], h);
  }

  lemma MakeDeletable(g: Forest, c: Id, pending: set<Id>, top: Path, h: Path -> nat)
    requires c in g.path && c !in pending && g.path[c] == top
    requires Deleting(g.(parent := g.parent - {c}), pending, h)
    requires forall q :: q in pending && q in g.path ==> !Under(g.path[q], top)
    ensures Deletable(g.(parent := g.parent - {c}), c, pending, h)
  {
    hide Deleting, Under;
  }

  lemma HalfwayFacts(f: Forest, g: Forest, x: Id, pending: set<Id>, cs: seq<Id>, k: nat, h: Path -> nat)
    requires Halfway(f, g, x, pending, cs, k, h)
    ensures k <= |cs| && (forall c :: c in cs ==> c in f.path)
    ensures Deleting(g, pending + {x}, h) && x in g.path && x in f.path && g.path[x] == f.path[x]
    ensures PrunedBy(f.path, cs, k, g.path) && RecordsKept(f, g)
    ensures forall y :: y in g.path ==> y in f.path && g.path[y] == f.path[y]
  {
    hide Deleting, Under;
  }

  lemma ListedChild(f: Forest, x: Id, pending: set<Id>, cs: seq<Id>, k: nat)
    requires ChildList(f, x, pending, cs) && k < |cs|
    ensures cs[k] in f.path && cs[k] !in pending && ParentPath(f.path[cs[k]]) == Some(f.path[x]) && cs[k] != x
    ensures cs[k] !in pending + {x}
  {
    assert cs[k] in cs;
    hide NoRepeats;
  }

  /** A child is not below its siblings, so it is still there. */
  lemma StillThere(f: Forest, g: Forest, x: Id, pending: set<Id>, cs: seq<Id>, k: nat)
    requires ChildList(f, x, pending, cs) && k < |cs| && UniquePaths(f.path)
    requires (forall c :: c in cs ==> c in f.path) && PrunedBy(f.path, cs, k, g.path)
    ensures cs[k] in g.path && g.path[cs[k]] == f.path[cs[k]]
  {
    assert cs[k] in cs;
    forall j | 0 <= j < k ensures !Under(f.path[cs[k]], f.path[cs[j]]) {
      assert cs[j] in cs && cs[j] != cs[k];
      NotUnderSibling(f.path[cs[k]], f.path[cs[j]]);
    }
    hide Under, NoRepeats, ParentPath;
  }

  lemma NotUnderSibling(c: Path, d: Path)
    requires ParentPath(c).Some? && ParentPath(c) == ParentPath(d) && c != d
    ensures !Under(c, d)
  {
    if Under(c, d) {
      assert Under(c, c);
      SiblingsDisjoint(c, c, d);
    }
  }

  lemma DetachedChild(g: Forest, x: Id, pending: set<Id>, c: Id, h: Path -> nat)
    requires Deleting(g, pending + {x}, h) && x in g.path && c in g.path && c !in pending && c != x
    requires ParentPath(g.path[c]) == Some(g.path[x])
    ensures Deleting(g.(parent := g.parent - {c}), pending + {x}, h)
  {
    Detached(g.parent, g.path, pending + {x}, c, x);
    hide ParentsOk, ChildrenOk, ChainsOk, ParentPath, UniquePaths;
  }

  /** Pending nodes, x among them, are not below its child c. */
  lemma NotUnderChild(f: Forest, g: Forest, x: Id, pending: set<Id>, c: Id)
    requires x in f.path && c in f.path && ParentPath(f.path[c]) == Some(f.path[x])
    requires forall q :: q in pending && q in f.path ==> !Under(f.path[q], f.path[x])
    requires forall y :: y in g.path ==> y in f.path && g.path[y] == f.path[y]
    ensures forall q :: q in pending + {x} && q in g.path ==> !Under(g.path[q], f.path[c])
  {
    ChildUnder(f.path[c], f.path[x]);
    forall q | q in pending + {x} && q in g.path ensures !Under(g.path[q], f.path[c]) {
      if Under(g.path[q], f.path[c]) {
        if q == x {
          UnderShorter(f.path[x], f.path[c]);
        } else {
          UnderTransitive(f.path[q], f.path[c], f.path[x]);
        }
      }
    }
  }

  /** One more child's subtree is gone. */
  lemma ChildDeleted(f: Forest, g: Forest, g': Forest, x: Id, pending: set<Id>, cs: seq<Id>, k: nat, h: Path -> nat)
    requires Deletable(f, x, pending, h) && ChildList(f, x, pending, cs) && k < |cs|
    requires Halfway(f, g, x, pending, cs, k, h) && cs[k] in f.path
    requires Deleting(g', pending + {x}, h) && g'.path == Pruned(g.path, f.path[cs[k]]) && RecordsKept(g, g')
    ensures Halfway(f, g', x, pending, cs, k + 1, h)
  {
    hide *;
    HalfwayFacts(f, g, x, pending, cs, k, h);
    ListedChild(f, x, pending, cs, k);
    NotUnderItsChild(f.path[x], f.path[cs[k]]);
    PrunedMore(f.path, cs, k, g.path, g'.path, x);
    PrunedSmaller(g.path, f.path[cs[k]]);
    RecordsKeptOn(f, g, g');
    MakeHalfway(f, g', x, pending, cs, k + 1, h);
  }

  lemma NotUnderItsChild(p: Path, c: Path)
    requires ParentPath(c) == Some(p)
    ensures !Under(p, c)
  {
    if Under(p, c) { UnderShorter(p, c); }
  }

  lemma PrunedMore(path: map<Id, Path>, cs: seq<Id>, k: nat, path1: map<Id, Path>, path2: map<Id, Path>, x: Id)
    requires k < |cs| && (forall c :: c in cs ==> c in path) && cs[k] in path
    requires PrunedBy(path, cs, k, path1) && path2 == Pruned(path1, path[cs[k]])
    requires x in path1 && !Under(path1[x], path[cs[k]])
    ensures PrunedBy(path, cs, k + 1, path2) && x in path2
  {
    hide Under;
  }

  lemma PrunedSmaller(path: map<Id, Path>, top: Path)
    ensures forall y :: y in Pruned(path, top) ==> y in path
  {
    hide Under;
  }

  lemma RecordsKeptOn(f: Forest, g: Forest, g': Forest)
    requires RecordsKept(f, g) && RecordsKept(g, g') && forall y :: y in g'.path ==> y in g.path
    ensures RecordsKept(f, g')
  {}

  lemma MakeHalfway(f: Forest, g: Forest, x: Id, pending: set<Id>, cs: seq<Id>, k: nat, h: Path -> nat)
    requires k <= |cs| && (forall c :: c in cs ==> c in f.path)
    requires Deleting(g, pending + {x}, h) && x in g.path && PrunedBy(f.path, cs, k, g.path) && RecordsKept(f, g)
    ensures Halfway(f, g, x, pending, cs, k, h)
  {
    hide Deleting, PrunedBy, RecordsKept;
  }

  /** The node itself goes last. */
  lemma DeletionEnd(f: Forest, g: Forest, x: Id, pending: set<Id>, cs: seq<Id>, h: Path -> nat)
    requires Deletable(f, x, pending, h) && ChildList(f, x, pending, cs) && Halfway(f, g, x, pending, cs, |cs|, h)
    ensures Deleting(Freed(g, x), pending, h)
    ensures Freed(g, x).path == Pruned(f.path, f.path[x]) && RecordsKept(f, Freed(g, x))
  {
    hide *;
    DeletableFacts(f, x, pending, h);
    PendingFacts(f, x, pending, h);
    HalfwayFacts(f, g, x, pending, cs, |cs|, h);
    AllListed(f, x, pending, cs);
    AllBelowGone(f, pending, x, cs, g.path);
    OnlyItselfLeft(f, g, x, cs);
    NoChildLeft(g, x, f.path[x]);
    FreedRecords(f, g, x);
    FreedOk(g, x, pending, h);
  }

  lemma AllListed(f: Forest, x: Id, pending: set<Id>, cs: seq<Id>)
    requires ChildList(f, x, pending, cs)
    ensures x in f.path
    ensures forall c :: c in f.path && c !in pending && ParentPath(f.path[c]) == Some(f.path[x]) ==> c in cs
    ensures forall c :: c in cs ==> c in f.path && ParentPath(f.path[c]) == Some(f.path[x])
  {
    hide NoRepeats, ParentPath;
  }

  lemma FreedRecords(f: Forest, g: Forest, x: Id)
    requires RecordsKept(f, g)
    ensures RecordsKept(f, Freed(g, x))
  {}

  lemma NoChildLeft(g: Forest, x: Id, top: Path)
    requires x in g.path && g.path[x] == top && forall y :: y in g.path && Under(g.path[y], top) ==> y == x
    ensures forall y :: y in g.path && ParentPath(g.path[y]) == Some(g.path[x]) ==> false
  {
    forall y | y in g.path && ParentPath(g.path[y]) == Some(g.path[x]) ensures false {
      ChildUnder(g.path[y], g.path[x]);
    }
  }

  lemma PendingFacts(f: Forest, x: Id, pending: set<Id>, h: Path -> nat)
    requires Deletable(f, x, pending, h)
    ensures UniquePaths(f.path) && ParentsOk(f.parent, f.path, pending)
    ensures forall q :: q in pending ==> q in f.path && !Under(f.path[q], f.path[x])
  {
    hide ChainsOk, ParentsOk, ChildrenOk, Under, UniquePaths;
  }

  lemma OnlyItselfLeft(f: Forest, g: Forest, x: Id, cs: seq<Id>)
    requires x in f.path && x in g.path && (forall c :: c in cs ==> c in f.path)
    requires forall c :: c in cs ==> ParentPath(f.path[c]) == Some(f.path[x])
    requires PrunedBy(f.path, cs, |cs|, g.path)
    requires forall y :: y in g.path && Under(g.path[y], f.path[x]) ==> y == x
    ensures Freed(g, x).path == Pruned(f.path, f.path[x])
  {
    assert Under(f.path[x], f.path[x]);
    hide Under, ParentPath;
    forall y | y in f.path && !Under(f.path[y], f.path[x]) ensures y in g.path && y != x {
      forall j | 0 <= j < |cs| ensures !Under(f.path[y], f.path[cs[j]]) {
        assert cs[j] in cs;
        if Under(f.path[y], f.path[cs[j]]) {
          ChildUnder(f.path[cs[j]], f.path[x]);
          UnderTransitive(f.path[y], f.path[cs[j]], f.path[x]);
        }
      }
    }
  }

  lemma FreedOk(g: Forest, x: Id, pending: set<Id>, h: Path -> nat)
    requires Deleting(g, pending + {x}, h) && x in g.path && x !in pending
    requires forall y :: y in g.path && ParentPath(g.path[y]) == Some(g.path[x]) ==> false
    ensures Deleting(Freed(g, x), pending, h)
  {
    FreedChains(g.buckets, g.path, pending, h, x);
    FreedParents(g.parent, g.path, pending, x);
    FreedChildren(g.children, g.path, pending, x);
    hide ChainsOk, ParentsOk, ChildrenOk, ParentPath;
  }

  lemma FreedChains(buckets: seq<seq<Id>>, path: map<Id, Path>, pending: set<Id>, h: Path -> nat, x: Id)
    requires ChainsOk(buckets, path, pending + {x}, h) && x in path
    ensures ChainsOk(buckets, path - {x}, pending, h)
  {
    forall b | 0 <= b < |buckets| ensures ChainOk(buckets[b], path - {x}, b, |buckets|, h) {
      assert ChainOk(buckets[b], path, b, |buckets|, h);
      assert x !in buckets[b];
    }
    hide NoRepeats, ChainOk;
  }

  lemma FreedParents(parent: map<Id, Id>, path: map<Id, Path>, pending: set<Id>, x: Id)
    requires ParentsOk(parent, path, pending + {x}) && x in path
    requires forall y :: y in path && ParentPath(path[y]) == Some(path[x]) ==> false
    ensures ParentsOk(parent - {x}, path - {x}, pending)
  {
    hide ParentPath;
    forall y | y in path - {x} && y !in pending && ParentPath(path[y]).Some? ensures Present(path - {x}, ParentPath(path[y]).value) {
      assert y !in pending + {x};
      var z :| z in path && path[z] == ParentPath(path[y]).value;
      assert z != x && z in path - {x};
    }
    hide Present;
  }

  lemma FreedChildren(children: map<Id, seq<Id>>, path: map<Id, Path>, pending: set<Id>, x: Id)
    requires ChildrenOk(children, path, pending + {x})
    ensures ChildrenOk(children - {x}, path - {x}, pending)
  {
    hide ParentPath, NoRepeats;
  }

  /** Delete a node: out of its chain and its parent's list, then its children one by one, then itself. */
  method DeleteNode(f: Forest, x: Id, ghost pending: set<Id>, h: Path -> nat) returns (f': Forest, removed: nat)
    requires Deletable(f, x, pending, h)
    ensures Deleting(f', pending, h)
    ensures f'.path == Pruned(f.path, f.path[x]) && RecordsKept(f, f')
    ensures removed == |f.path| - |f'.path|
    ensures |f'.buckets| == |f.buckets|
    ensures f'.parent.Keys <= f.parent.Keys
    ensures Linked(f, x)
    ensures f.children[x] == [] ==> f' == Freed(Unlinked(f, x, h), x)
    decreases f.path.Keys - pending
  {
    hide *;
    DeletableFacts(f, x, pending, h);
    DeletionStart(f, x, pending, h);
    UnlinkedNode(f, x, pending, h);
    MakeLinked(f, x);
    var cs := f.children[x];
    var g := UnlinkNode(f, x, h);
    removed := 0;
    for k := 0 to |cs|
      invariant Halfway(f, g, x, pending, cs, k, h)
      invariant removed == |f.path| - |g.path| && |g.buckets| == |f.buckets|
      invariant cs == [] ==> g == Unlinked(f, x, h)
      invariant g.parent.Keys <= f.parent.Keys
    {
      ChildDeletable(f, g, x, pending, cs, k, h);
      FewerLeft(f, g, x, pending, cs, k, h);
      var g', r := DeleteNode(g.(parent := g.parent - {cs[k]}), cs[k], pending + {x}, h);
      SameRecords(g, g.(parent := g.parent - {cs[k]}), g');
      ChildDeleted(f, g, g', x, pending, cs, k, h);
      g, removed := g', removed + r;
    }
    DeletionEnd(f, g, x, pending, cs, h);
    OneFewer(f, g, x, pending, cs, h);
    f', removed := Freed(g, x), removed + 1;
  }

  lemma SameRecords(g: Forest, d: Forest, g': Forest)
    requires RecordsKept(d, g') && d.rec == g.rec
    ensures RecordsKept(g, g')
  {}

  lemma FewerLeft(f: Forest, g: Forest, x: Id, pending: set<Id>, cs: seq<Id>, k: nat, h: Path -> nat)
    requires Halfway(f, g, x, pending, cs, k, h) && x in f.path && x !in pending
    ensures g.path.Keys - (pending + {x}) < f.path.Keys - pending
  {
    hide Deleting, Under;
    assert x in f.path.Keys - pending;
  }

  lemma OneFewer(f: Forest, g: Forest, x: Id, pending: set<Id>, cs: seq<Id>, h: Path -> nat)
    requires Halfway(f, g, x, pending, cs, |cs|, h)
    ensures |Freed(g, x).path| == |g.path| - 1 && Freed(g, x).buckets == g.buckets
    ensures Freed(g, x).parent.Keys <= g.parent.Keys
  {
    hide Deleting, PrunedBy, RecordsKept;
    assert Freed(g, x).path.Keys == g.path.Keys - {x};
  }

  /** Take a node out of its hash chain and its parent's child list. */
  method UnlinkNode(f: Forest, x: Id, h: Path -> nat) returns (g: Forest)
    requires x in f.path && f.buckets != [] && x in f.buckets[h(f.path[x]) % |f.buckets|]
    requires x in f.parent ==> f.parent[x] in f.children && x in f.children[f.parent[x]]
    ensures g == Unlinked(f, x, h) && g.path == f.path && g.parent == f.parent && |g.buckets| == |f.buckets|
  {
    hide Without;
    var b := h(f.path[x]) % |f.buckets|;
    var chain := Unlink(f.buckets[b], x);
    g := f.(buckets := f.buckets[b := chain]);
    if x in f.parent {
      var list := Unlink(f.children[f.parent[x]], x);
      g := g.(children := f.children[f.parent[x] := list]);
    }
  }
}
