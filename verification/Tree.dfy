/**
  TREE_HASH_TABLE: nodes for paths, in hash chains and in a forest of path prefixes. Nodes
  are identified by numbers, as by their addresses; each node field is a map from them.
 */
module Trees {
  import opened Records

  type Path = seq<char>
  type Id = nat

  // ------------------------------------------------------------------ paths

  predicate IsSeparator(c: char) {
    c == '/' || c == '\\'
  }

  /** The last separator before index e, the one at index 0 excepted; 0 if there is none. */
  function LastSeparator(p: Path, e: nat): (i: nat)
    requires e <= |p|
    ensures i == 0 || (0 < i < e && IsSeparator(p[i]))
    ensures forall k :: i < k < e ==> !IsSeparator(p[k])
  {
    if e <= 1 then 0 else if IsSeparator(p[e - 1]) then e - 1 else LastSeparator(p, e - 1)
  }

  /** The path cut at its last separator at an index above 0, if it has one. */
  function ParentPath(p: Path): (q: Option<Path>)
    ensures q.Some? ==> q.value != [] && |q.value| < |p| && q.value == p[..|q.value|]
  {
    var i := LastSeparator(p, |p|);
    if i == 0 then None else Some(p[..i])
  }

  /** Path p is `top` or lies below it. */
  ghost predicate Under(p: Path, top: Path)
    decreases |p|
  {
    p == top || (ParentPath(p).Some? && Under(ParentPath(p).value, top))
  }

  lemma {:induction false} UnderShorter(p: Path, top: Path)
    requires Under(p, top)
    ensures |top| <= |p| && (p != top ==> |top| < |p|)
    decreases |p|
  {
    if p != top { UnderShorter(ParentPath(p).value, top); }
  }

  lemma {:induction false} UnderTransitive(p: Path, q: Path, top: Path)
    requires Under(p, q) && Under(q, top)
    ensures Under(p, top)
    decreases |p|
  {
    if p != q { UnderTransitive(ParentPath(p).value, q, top); }
  }

  /** Of two paths above the same path, one is above the other. */
  lemma {:induction false} UnderLinear(p: Path, q: Path, r: Path)
    requires Under(p, q) && Under(p, r)
    ensures Under(q, r) || Under(r, q)
    decreases |p|
  {
    if p != q && p != r { UnderLinear(ParentPath(p).value, q, r); }
  }

  /** Below two different children of one path there is no common path. */
  lemma SiblingsDisjoint(p: Path, c: Path, d: Path)
    requires ParentPath(c).Some? && ParentPath(c) == ParentPath(d) && Under(p, c) && Under(p, d)
    ensures c == d
  {
    UnderLinear(p, c, d);
    if c != d {
      if Under(c, d) { UnderShorter(ParentPath(c).value, d); } else { UnderShorter(ParentPath(d).value, c); }
    }
  }

  /** A path properly below `top` is below a child of `top`. */
  lemma {:induction false} BelowChild(p: Path, top: Path) returns (c: Path)
    requires Under(p, top) && p != top
    ensures Under(p, c) && ParentPath(c) == Some(top)
    decreases |p|
  {
    if ParentPath(p) == Some(top) {
      c := p;
    } else {
      c := BelowChild(ParentPath(p).value, top);
    }
  }

  // ------------------------------------------------------------------ forests

  /** The heap of nodes: their paths, records, parents and child lists; and the hash chains. */
  datatype Forest = Forest(
    path: map<Id, Path>,
    rec: map<Id, nat>,
    parent: map<Id, Id>,
    children: map<Id, seq<Id>>,
    buckets: seq<seq<Id>>)

  ghost predicate Present(path: map<Id, Path>, q: Path) {
    exists x :: x in path && path[x] == q
  }

  ghost predicate UniquePaths(path: map<Id, Path>) {
    forall x, y :: x in path && y in path && path[x] == path[y] ==> x == y
  }

  ghost predicate NoRepeats(s: seq<Id>) {
    forall i, j :: 0 <= i < j < |s| ==> s[i] != s[j]
  }

  /** A hash chain: sorted by hash, its nodes in their bucket, none twice. */
  ghost predicate ChainOk(chain: seq<Id>, path: map<Id, Path>, b: nat, n: nat, h: Path -> nat)
    requires n > 0
  {
    && (forall x :: x in chain ==> x in path && h(path[x]) % n == b)
    && NoRepeats(chain)
    && (forall i, j :: 0 <= i < j < |chain| && chain[i] in path && chain[j] in path ==> h(path[chain[i]]) <= h(path[chain[j]]))
  }

  /** The chains hold exactly the nodes that are not pending. */
  ghost predicate ChainsOk(buckets: seq<seq<Id>>, path: map<Id, Path>, pending: set<Id>, h: Path -> nat) {
    && buckets != []
    && (forall b :: 0 <= b < |buckets| ==> ChainOk(buckets[b], path, b, |buckets|, h))
    && (forall x :: x in path ==> (x in buckets[h(path[x]) % |buckets|] <==> x !in pending))
  }

  /** Each node names the node of its parent path, if that one is not pending. */
  ghost predicate ParentsOk(parent: map<Id, Id>, path: map<Id, Path>, pending: set<Id>) {
    && (forall x :: x in path && x !in pending && ParentPath(path[x]).Some? ==> Present(path, ParentPath(path[x]).value))
    && (forall x :: x in path && x !in pending && ParentPath(path[x]).None? ==> x !in parent)
    && (forall x, y :: x in path && x !in pending && y in path && y !in pending && ParentPath(path[x]) == Some(path[y]) ==>
          x in parent && parent[x] == y)
    && (forall x :: x in parent && x in path && x !in pending ==>
          parent[x] in path && ParentPath(path[x]) == Some(path[parent[x]]))
  }

  /** Each child list names exactly the nodes whose parent path is this node's, each once. */
  ghost predicate ChildrenOk(children: map<Id, seq<Id>>, path: map<Id, Path>, pending: set<Id>) {
    forall y :: y in path && y !in pending ==>
      && y in children && NoRepeats(children[y])
      && (forall x :: x in children[y] <==> x in path && x !in pending && ParentPath(path[x]) == Some(path[y]))
  }

  /** A forest some of whose nodes are being deleted. */
  ghost predicate Deleting(f: Forest, pending: set<Id>, h: Path -> nat) {
    && pending <= f.path.Keys
    && UniquePaths(f.path)
    && ChainsOk(f.buckets, f.path, pending, h)
    && ParentsOk(f.parent, f.path, pending)
    && ChildrenOk(f.children, f.path, pending)
    && f.rec.Keys <= f.path.Keys
  }

  /** A forest at rest: closed under parent paths, all links agreeing with the paths. */
  ghost predicate ForestOk(f: Forest, h: Path -> nat) {
    Deleting(f, {}, h)
  }
}
