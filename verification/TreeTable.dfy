/** TREE_HASH_TABLE: records by path, found by hash, deleted with everything below them. */
module TreeTables {
  import opened Records
  import opened Trees
  import opened TreeDeletion
  import opened TreeInsertion
  import opened TreeRehashing

  /** A node that may be deleted: any node of a forest at rest. */
  lemma AnyDeletable(f: Forest, x: Id, h: Path -> nat)
    requires ForestOk(f, h) && x in f.path
    ensures Deletable(f, x, {}, h)
  {
    hide ChainsOk, ParentsOk, ChildrenOk, UniquePaths, Under;
  }

  /** The paths left when those at or below q are gone. */
  lemma PrunedPaths(path: map<Id, Path>, q: Path)
    ensures forall p :: Present(Pruned(path, q), p) <==> Present(path, p) && !Under(p, q)
  {
    hide Under;
    forall p ensures Present(Pruned(path, q), p) <==> Present(path, p) && !Under(p, q) {
      if Present(path, p) && !Under(p, q) {
        var x :| x in path && path[x] == p;
        assert x in Pruned(path, q);
      }
    }
  }

  /** With no node for q there is none below q. */
  lemma NothingBelow(f: Forest, q: Path, h: Path -> nat)
    requires ForestOk(f, h) && !Present(f.path, q)
    ensures forall p :: Present(f.path, p) ==> !Under(p, q)
  {
    SplitOk(f, h);
    hide ForestOk, Under;
    forall p | Present(f.path, p) ensures !Under(p, q) {
      var y :| y in f.path && f.path[y] == p;
      if Under(p, q) { AncestorPresent(f.path, f.parent, {}, y, q); }
    }
  }

  // ------------------------------------------------------------------ sweep

  /** Some condemned records are gone, all others are as they were. */
  ghost predicate Sparing(rec0: map<Id, nat>, rec: map<Id, nat>, condemns: nat -> bool) {
    && (forall y :: y in rec ==> y in rec0 && rec[y] == rec0[y])
    && (forall y :: y in rec0 && !condemns(rec0[y]) ==> y in rec)
  }

  /** The condemned records still there belong to nodes not yet visited. */
  ghost predicate Visited(f: Forest, b: nat, rest: seq<Id>, condemns: nat -> bool, h: Path -> nat) {
    f.buckets != [] &&
    forall y :: y in f.rec && y in f.path && condemns(f.rec[y]) ==>
      h(f.path[y]) % |f.buckets| > b || (h(f.path[y]) % |f.buckets| == b && y in rest)
  }

  /** The state of a sweep before the node at `pos` of chain b. */
  ghost predicate Sweeping(f0: Forest, f: Forest, b: nat, pos: nat, condemns: nat -> bool, h: Path -> nat) {
    && ForestOk(f, h) && b < |f.buckets| == |f0.buckets| && pos <= |f.buckets[b]|
    && Sparing(f0.rec, f.rec, condemns)
    && Visited(f, b, f.buckets[b][pos..], condemns, h)
  }

  lemma SweepingFacts(f0: Forest, f: Forest, b: nat, pos: nat, condemns: nat -> bool, h: Path -> nat)
    requires Sweeping(f0, f, b, pos, condemns, h)
    ensures ForestOk(f, h) && b < |f.buckets| == |f0.buckets| && pos <= |f.buckets[b]|
    ensures Sparing(f0.rec, f.rec, condemns) && Visited(f, b, f.buckets[b][pos..], condemns, h)
    ensures pos < |f.buckets[b]| ==> f.buckets[b][pos] in f.path && f.buckets[b][pos] in f.children
    ensures NoRepeats(f.buckets[b])
  {
    assert ChainOk(f.buckets[b], f.path, b, |f.buckets|, h);
    if pos < |f.buckets[b]| { assert f.buckets[b][pos] in f.buckets[b]; }
    hide ParentsOk, UniquePaths, NoRepeats, ParentPath, Visited, Sparing;
  }

  /** A node that keeps its record, or has children and no record, is passed. */
  lemma Passed(f0: Forest, f: Forest, b: nat, pos: nat, condemns: nat -> bool, h: Path -> nat)
    requires Sweeping(f0, f, b, pos, condemns, h) && pos < |f.buckets[b]|
    requires f.buckets[b][pos] in f.rec ==> !condemns(f.rec[f.buckets[b][pos]])
    ensures Sweeping(f0, f, b, pos + 1, condemns, h)
  {
    hide ForestOk, Sparing;
    assert f.buckets[b][pos..] == [f.buckets[b][pos]] + f.buckets[b][pos + 1..];
  }

  /** A condemned record of a node with children is dropped. */
  lemma Dropped(f0: Forest, f: Forest, b: nat, pos: nat, condemns: nat -> bool, h: Path -> nat)
    requires Sweeping(f0, f, b, pos, condemns, h) && pos < |f.buckets[b]|
    requires f.buckets[b][pos] in f.rec && condemns(f.rec[f.buckets[b][pos]])
    ensures Sweeping(f0, f.(rec := f.rec - {f.buckets[b][pos]}), b, pos, condemns, h)
  {
    SweepingFacts(f0, f, b, pos, condemns, h);
    hide *;
    var x := f.buckets[b][pos];
    RecordDropped(f, x, h);
    SparingLess(f0.rec, f.rec, x, condemns);
    VisitedDropped(f, b, f.buckets[b][pos..], x, condemns, h);
    MakeSweeping(f0, f.(rec := f.rec - {x}), b, pos, condemns, h);
  }

  lemma VisitedDropped(f: Forest, b: nat, rest: seq<Id>, x: Id, condemns: nat -> bool, h: Path -> nat)
    requires Visited(f, b, rest, condemns, h)
    ensures Visited(f.(rec := f.rec - {x}), b, rest, condemns, h)
  {}

  lemma RecordDropped(f: Forest, x: Id, h: Path -> nat)
    requires ForestOk(f, h)
    ensures ForestOk(f.(rec := f.rec - {x}), h)
  {
    hide UniquePaths, ChainsOk, ParentsOk, ChildrenOk;
  }

  /** A childless node whose record is condemned, or that has none, is gone; the next one is in its place. */
  lemma Removed(f0: Forest, f: Forest, b: nat, pos: nat, condemns: nat -> bool, h: Path -> nat, f': Forest)
    requires Sweeping(f0, f, b, pos, condemns, h) && pos < |f.buckets[b]|
    requires var x := f.buckets[b][pos];
      && Linked(f, x) && f' == Freed(Unlinked(f, x, h), x) && ForestOk(f', h)
      && (x in f.rec ==> condemns(f.rec[x]))
    ensures Sweeping(f0, f', b, pos, condemns, h) && |f'.buckets[b]| == |f.buckets[b]| - 1
  {
    var x := f.buckets[b][pos];
    SweepingFacts(f0, f, b, pos, condemns, h);
    HomeBucket(f, b, pos, h);
    WithoutAt(f.buckets[b], pos);
    RemovedFields(f, x, b, h);
    hide *;
    SparingLess(f0.rec, f.rec, x, condemns);
    VisitedLess(f, f', b, pos, x, condemns, h);
    MakeSweeping(f0, f', b, pos, condemns, h);
  }

  lemma HomeBucket(f: Forest, b: nat, pos: nat, h: Path -> nat)
    requires ForestOk(f, h) && b < |f.buckets| && pos < |f.buckets[b]| && f.buckets[b][pos] in f.path
    ensures h(f.path[f.buckets[b][pos]]) % |f.buckets| == b
  {
    assert ChainOk(f.buckets[b], f.path, b, |f.buckets|, h);
    assert f.buckets[b][pos] in f.buckets[b];
    hide ParentsOk, UniquePaths, NoRepeats, ChildrenOk;
  }

  /** Taking out the element at an index keeps what is before and behind it. */
  lemma {:induction false} WithoutAt(s: seq<Id>, pos: nat)
    requires NoRepeats(s) && pos < |s|
    ensures Without(s, s[pos]) == s[..pos] + s[pos + 1..]
  {
    if pos > 0 {
      assert s[0] != s[pos];
      assert NoRepeats(s[1..]);
      WithoutAt(s[1..], pos - 1);
      assert s[1..][..pos - 1] == s[1..pos] && s[1..][pos..] == s[pos + 1..];
    }
  }

  lemma RemovedFields(f: Forest, x: Id, b: nat, h: Path -> nat)
    requires Linked(f, x) && b < |f.buckets| && b == h(f.path[x]) % |f.buckets|
    ensures var g := Freed(Unlinked(f, x, h), x);
      && g.path == f.path - {x} && g.rec == f.rec - {x} && g.buckets == f.buckets[b := Without(f.buckets[b], x)]
  {
    hide Without;
  }

  lemma SparingLess(rec0: map<Id, nat>, rec: map<Id, nat>, x: Id, condemns: nat -> bool)
    requires Sparing(rec0, rec, condemns) && (x in rec ==> condemns(rec[x]))
    ensures Sparing(rec0, rec - {x}, condemns)
  {}

  lemma VisitedLess(f: Forest, f': Forest, b: nat, pos: nat, x: Id, condemns: nat -> bool, h: Path -> nat)
    requires b < |f.buckets| && pos < |f.buckets[b]| && x == f.buckets[b][pos]
    requires Visited(f, b, f.buckets[b][pos..], condemns, h)
    requires f'.path == f.path - {x} && f'.rec == f.rec - {x}
    requires f'.buckets == f.buckets[b := f.buckets[b][..pos] + f.buckets[b][pos + 1..]]
    ensures |f'.buckets| == |f.buckets| && pos <= |f'.buckets[b]| == |f.buckets[b]| - 1
    ensures Visited(f', b, f'.buckets[b][pos..], condemns, h)
  {
    assert f.buckets[b][pos..] == [x] + f.buckets[b][pos + 1..];
    assert f'.buckets[b][pos..] == f.buckets[b][pos + 1..];
  }

  lemma MakeSweeping(f0: Forest, f: Forest, b: nat, pos: nat, condemns: nat -> bool, h: Path -> nat)
    requires ForestOk(f, h) && b < |f.buckets| == |f0.buckets| && pos <= |f.buckets[b]|
    requires Sparing(f0.rec, f.rec, condemns) && Visited(f, b, f.buckets[b][pos..], condemns, h)
    ensures Sweeping(f0, f, b, pos, condemns, h)
  {
    hide ForestOk, Sparing, Visited;
  }

  lemma NextBucket(f0: Forest, f: Forest, b: nat, condemns: nat -> bool, h: Path -> nat)
    requires b < |f.buckets| && Sweeping(f0, f, b, |f.buckets[b]|, condemns, h)
    ensures b + 1 < |f.buckets| ==> Sweeping(f0, f, b + 1, 0, condemns, h)
    ensures b + 1 == |f.buckets| ==> forall y :: y in f.rec && y in f.path ==> !condemns(f.rec[y])
  {
    SweepingFacts(f0, f, b, |f.buckets[b]|, condemns, h);
    if b + 1 < |f.buckets| {
      assert f.buckets[b + 1][0..] == f.buckets[b + 1];
      NextVisited(f, b, condemns, h);
    }
    hide ForestOk, Sparing;
  }

  lemma NextVisited(f: Forest, b: nat, condemns: nat -> bool, h: Path -> nat)
    requires ForestOk(f, h) && b + 1 < |f.buckets| && Visited(f, b, f.buckets[b][|f.buckets[b]|..], condemns, h)
    ensures Visited(f, b + 1, f.buckets[b + 1], condemns, h)
  {
    hide ParentsOk, UniquePaths, NoRepeats, ChildrenOk, ChainOk;
  }

  lemma FirstBucket(f: Forest, condemns: nat -> bool, h: Path -> nat)
    requires ForestOk(f, h)
    ensures f.buckets != [] && Sweeping(f, f, 0, 0, condemns, h)
  {
    hide ParentsOk, UniquePaths, NoRepeats, ChildrenOk, ChainOk;
    assert f.buckets[0][0..] == f.buckets[0];
  }

  // ------------------------------------------------------------------ which nodes go

  /** The node's record, if it has one, is condemned. */
  ghost predicate Clean(f: Forest, x: Id, condemns: nat -> bool) {
    x in f.rec ==> condemns(f.rec[x])
  }

  /** A sweep visits y before z: in an earlier chain, or earlier in the same one. */
  ghost predicate Before(f: Forest, y: Id, z: Id, h: Path -> nat) {
    && y in f.path && z in f.path && f.buckets != []
    && var a, b := h(f.path[y]) % |f.buckets|, h(f.path[z]) % |f.buckets|;
       a < b || (a == b && exists k :: 0 <= k < |f.buckets[b]| && f.buckets[b][k] == z && y in f.buckets[b][..k])
  }

  /** z is the parent of y, which a sweep visits first. */
  ghost predicate FirstVisited(f: Forest, y: Id, h: Path -> nat) {
    forall z :: y in f.path && z in f.path && ParentPath(f.path[y]) == Some(f.path[z]) ==> Before(f, y, z, h)
  }

  /**
    What a sweep removes: a node at or below which every record is condemned and every node
    but itself is visited before its parent.
   */
  ghost predicate Gone(f: Forest, x: Id, condemns: nat -> bool, h: Path -> nat) {
    && x in f.path
    && forall y :: y in f.path && Under(f.path[y], f.path[x]) ==> Clean(f, y, condemns) && (y != x ==> FirstVisited(f, y, h))
  }

  ghost predicate IsChild(f: Forest, c: Id, x: Id) {
    c in f.path && x in f.path && ParentPath(f.path[c]) == Some(f.path[x])
  }

  /** A node goes if and only if its record may and its children have gone before it is visited. */
  lemma GoneStep(f: Forest, x: Id, condemns: nat -> bool, h: Path -> nat)
    requires ForestOk(f, h) && x in f.path
    ensures Gone(f, x, condemns, h) <==>
      Clean(f, x, condemns) && forall c :: IsChild(f, c, x) ==> Before(f, c, x, h) && Gone(f, c, condemns, h)
  {
    SplitOk(f, h);
    OnlyNode(f, h, f.path[x]);
    assert Under(f.path[x], f.path[x]);
    hide ForestOk, Under, Clean, Before, ParentPath;
    if Gone(f, x, condemns, h) {
      forall c | IsChild(f, c, x) ensures Before(f, c, x, h) && Gone(f, c, condemns, h) {
        ChildGone(f, x, c, condemns, h);
      }
    } else if forall c :: IsChild(f, c, x) ==> Before(f, c, x, h) && Gone(f, c, condemns, h) {
      var y :| y in f.path && Under(f.path[y], f.path[x]) && !(Clean(f, y, condemns) && (y != x ==> FirstVisited(f, y, h)));
      if y != x {
        var c := ChildAbove(f, x, y, h);
        if y == c { ParentOnly(f, c, x, h); }
        assert false;
      }
    }
  }

  lemma ParentOnly(f: Forest, c: Id, x: Id, h: Path -> nat)
    requires ForestOk(f, h) && IsChild(f, c, x) && Before(f, c, x, h)
    ensures FirstVisited(f, c, h)
  {
    OnlyNode(f, h, f.path[x]);
    hide ForestOk, Before, ParentPath;
  }

  lemma ChildGone(f: Forest, x: Id, c: Id, condemns: nat -> bool, h: Path -> nat)
    requires Gone(f, x, condemns, h) && IsChild(f, c, x)
    ensures Before(f, c, x, h) && Gone(f, c, condemns, h)
  {
    ChildUnder(f.path[c], f.path[x]);
    hide Clean, Before, ParentPath;
    forall y | y in f.path && Under(f.path[y], f.path[c])
      ensures Clean(f, y, condemns) && (y != c ==> FirstVisited(f, y, h))
    {
      UnderTransitive(f.path[y], f.path[c], f.path[x]);
      UnderShorter(f.path[y], f.path[c]);
    }
    hide Under;
    assert FirstVisited(f, c, h);
  }

  /** A node properly below x is at or below a child of x. */
  lemma ChildAbove(f: Forest, x: Id, y: Id, h: Path -> nat) returns (c: Id)
    requires ForestOk(f, h) && x in f.path && y in f.path && y != x && Under(f.path[y], f.path[x])
    ensures IsChild(f, c, x) && Under(f.path[y], f.path[c])
  {
    OnlyNode(f, h, f.path[x]);
    SplitOk(f, h);
    hide ForestOk, ParentsOk, Under, ParentPath;
    var cp := BelowChild(f.path[y], f.path[x]);
    AncestorPresent(f.path, f.parent, {}, y, cp);
    c :| c in f.path && f.path[c] == cp;
  }

  /** Without children a node goes with its record, or having none. */
  lemma LeafGoes(f: Forest, x: Id, condemns: nat -> bool, h: Path -> nat)
    requires ForestOk(f, h) && x in f.path && forall c :: !IsChild(f, c, x)
    ensures Gone(f, x, condemns, h) <==> Clean(f, x, condemns)
  {
    GoneStep(f, x, condemns, h);
    hide ForestOk, Gone, Clean, IsChild;
  }

  /** Above a node that stays all nodes stay, and so do those above a record that stays. */
  lemma AncestorsStay(f: Forest, x: Id, y: Id, condemns: nat -> bool, h: Path -> nat)
    requires ForestOk(f, h) && x in f.path && y in f.path && Under(f.path[y], f.path[x])
    requires !Gone(f, y, condemns, h) || !Clean(f, y, condemns)
    ensures !Gone(f, x, condemns, h)
  {
    OnlyNode(f, h, f.path[x]);
    if Gone(f, x, condemns, h) {
      hide ForestOk, Clean, FirstVisited;
      var z :| z in f.path && Under(f.path[z], f.path[y]) && !(Clean(f, z, condemns) && (z != y ==> FirstVisited(f, z, h)));
      UnderTransitive(f.path[z], f.path[y], f.path[x]);
      if z == x { UnderShorter(f.path[x], f.path[y]); UnderShorter(f.path[y], f.path[x]); }
      assert false;
    }
  }

  /** The node has been visited when the first j nodes of chain b are. */
  ghost predicate Seen(f: Forest, b: nat, j: nat, y: Id, h: Path -> nat) {
    && y in f.path && b < |f.buckets| && j <= |f.buckets[b]|
    && var a := h(f.path[y]) % |f.buckets|; a < b || (a == b && y in f.buckets[b][..j])
  }

  lemma SeenBefore(f: Forest, b: nat, j: nat, y: Id, h: Path -> nat)
    requires ForestOk(f, h) && b < |f.buckets| && j < |f.buckets[b]| && y in f.path
    ensures Before(f, y, f.buckets[b][j], h) <==> Seen(f, b, j, y, h)
  {
    var z := f.buckets[b][j];
    assert ChainOk(f.buckets[b], f.path, b, |f.buckets|, h);
    assert z in f.buckets[b];
    hide ParentsOk, UniquePaths, ChildrenOk;
  }

  /** The chains ahead are as they were. */
  ghost predicate Ahead(f0: Forest, f: Forest, b: nat, pos: nat, j: nat) {
    && b < |f0.buckets| == |f.buckets| && pos <= |f.buckets[b]| && j <= |f0.buckets[b]|
    && f.buckets[b][pos..] == f0.buckets[b][j..]
    && (forall a :: b < a < |f.buckets| ==> f.buckets[a] == f0.buckets[a])
  }

  /** Of the nodes visited, those that are to go have gone. */
  ghost predicate Judged(f0: Forest, f: Forest, b: nat, j: nat, condemns: nat -> bool, h: Path -> nat) {
    && (forall y :: y in f0.path ==> (y in f.path <==> !(Seen(f0, b, j, y, h) && Gone(f0, y, condemns, h))))
    && (forall y :: y in f.path ==> y in f0.path && f.path[y] == f0.path[y])
  }

  lemma NothingJudged(f: Forest, condemns: nat -> bool, h: Path -> nat)
    requires f.buckets != []
    ensures Ahead(f, f, 0, 0, 0) && Judged(f, f, 0, 0, condemns, h)
  {
    hide Gone;
  }

  lemma ChainFacts(f: Forest, b: nat, h: Path -> nat)
    requires ForestOk(f, h) && b < |f.buckets|
    ensures NoRepeats(f.buckets[b])
    ensures forall y :: y in f.buckets[b] <==> y in f.path && h(f.path[y]) % |f.buckets| == b
  {
    assert ChainOk(f.buckets[b], f.path, b, |f.buckets|, h);
    hide ParentsOk, UniquePaths, ChildrenOk, NoRepeats;
  }

  /** After j nodes of chain b, x is visited next. */
  ghost predicate SeenToo(f: Forest, b: nat, j: nat, x: Id, h: Path -> nat) {
    forall y {:trigger Seen(f, b, j, y, h)} :: Seen(f, b, j + 1, y, h) <==> Seen(f, b, j, y, h) || y == x
  }

  /** Visiting a node in the chains as they were. */
  lemma SeenNext(f: Forest, b: nat, j: nat, h: Path -> nat)
    requires ForestOk(f, h) && b < |f.buckets| && j < |f.buckets[b]|
    ensures f.buckets[b][j] in f.path
    ensures SeenToo(f, b, j, f.buckets[b][j], h)
  {
    hide *;
    ChainFacts(f, b, h);
    assert f.buckets[b][j] in f.buckets[b];
    OneMoreSeen(f, b, j, h);
  }

  lemma OneMoreSeen(f: Forest, b: nat, j: nat, h: Path -> nat)
    requires b < |f.buckets| && j < |f.buckets[b]|
    requires f.buckets[b][j] in f.path && h(f.path[f.buckets[b][j]]) % |f.buckets| == b
    ensures SeenToo(f, b, j, f.buckets[b][j], h)
  {
    forall y ensures Seen(f, b, j + 1, y, h) <==> Seen(f, b, j, y, h) || y == f.buckets[b][j] {
      OneMoreIn(f.buckets[b], j, y);
    }
  }

  lemma OneMoreIn(s: seq<Id>, j: nat, y: Id)
    requires j < |s|
    ensures y in s[..j + 1] <==> y in s[..j] || y == s[j]
  {
    assert s[..j + 1] == s[..j] + [s[j]];
  }

  lemma Tails(s: seq<Id>, t: seq<Id>, pos: nat, j: nat)
    requires pos < |s| && j <= |t| && s[pos..] == t[j..]
    ensures j < |t| && t[j] == s[pos] && s[pos + 1..] == t[j + 1..]
  {
    assert |t[j..]| == |t| - j > 0;
    assert s[pos..][0] == s[pos] && t[j..][0] == t[j];
    assert s[pos + 1..] == s[pos..][1..] && t[j + 1..] == t[j..][1..];
  }

  lemma AheadNext(f0: Forest, f: Forest, f': Forest, b: nat, pos: nat, pos': nat, j: nat)
    requires Ahead(f0, f, b, pos, j) && pos < |f.buckets[b]|
    requires |f'.buckets| == |f.buckets| && pos' <= |f'.buckets[b]| && f'.buckets[b][pos'..] == f.buckets[b][pos + 1..]
    requires forall a :: b < a < |f.buckets| ==> f'.buckets[a] == f.buckets[a]
    ensures Ahead(f0, f', b, pos', j + 1)
    ensures j < |f0.buckets[b]| && f0.buckets[b][j] == f.buckets[b][pos]
  {
    Tails(f.buckets[b], f0.buckets[b], pos, j);
  }

  lemma JudgedNext(f0: Forest, f: Forest, f': Forest, b: nat, j: nat, condemns: nat -> bool, h: Path -> nat)
    requires ForestOk(f0, h) && b < |f0.buckets| && j < |f0.buckets[b]| && Judged(f0, f, b, j, condemns, h)
    requires var x := f0.buckets[b][j];
      f'.path == if Gone(f0, x, condemns, h) then f.path - {x} else f.path
    ensures Judged(f0, f', b, j + 1, condemns, h)
  {
    hide *;
    SeenNext(f0, b, j, h);
    JudgedOneMore(f0, f, f', b, j, f0.buckets[b][j], condemns, h);
  }

  lemma JudgedOneMore(f0: Forest, f: Forest, f': Forest, b: nat, j: nat, x: Id, condemns: nat -> bool, h: Path -> nat)
    requires Judged(f0, f, b, j, condemns, h) && x in f0.path
    requires SeenToo(f0, b, j, x, h)
    requires f'.path == if Gone(f0, x, condemns, h) then f.path - {x} else f.path
    ensures Judged(f0, f', b, j + 1, condemns, h)
  {
    hide Gone, Seen;
  }

  /** The node being visited goes if and only if its record may and it has no children left. */
  lemma Verdict(f0: Forest, f: Forest, b: nat, pos: nat, j: nat, condemns: nat -> bool, h: Path -> nat)
    requires ForestOk(f0, h) && ForestOk(f, h) && Ahead(f0, f, b, pos, j) && pos < |f.buckets[b]|
    requires Judged(f0, f, b, j, condemns, h)
    requires Sparing(f0.rec, f.rec, condemns)
    requires f.buckets[b][pos] in f.path && f.buckets[b][pos] in f.children
    ensures var x := f.buckets[b][pos];
      Gone(f0, x, condemns, h) <==> (x in f.rec ==> condemns(f.rec[x])) && f.children[x] == []
  {
    var x := f.buckets[b][pos];
    Tails(f.buckets[b], f0.buckets[b], pos, j);
    SamePath(f0, f, b, j, condemns, h, x);
    GoneStep(f0, x, condemns, h);
    forall c | c in f0.path ensures Before(f0, c, x, h) <==> Seen(f0, b, j, c, h) {
      SeenBefore(f0, b, j, c, h);
    }
    NoChildren(f, x, h);
    CleanSame(f0, f, x, condemns);
    hide Gone, Seen, ForestOk, Before, Clean, Sparing, Judged;
    ChildrenLeft(f0, f, b, j, x, condemns, h);
  }

  lemma SamePath(f0: Forest, f: Forest, b: nat, j: nat, condemns: nat -> bool, h: Path -> nat, x: Id)
    requires Judged(f0, f, b, j, condemns, h) && x in f.path
    ensures x in f0.path && f.path[x] == f0.path[x]
  {
    hide Gone, Seen;
  }

  lemma ChildrenLeft(f0: Forest, f: Forest, b: nat, j: nat, x: Id, condemns: nat -> bool, h: Path -> nat)
    requires Judged(f0, f, b, j, condemns, h) && x in f.path
    ensures (forall c :: !IsChild(f, c, x)) <==>
      forall c :: IsChild(f0, c, x) ==> Seen(f0, b, j, c, h) && Gone(f0, c, condemns, h)
  {
    hide Gone, Seen, ParentPath;
    if forall c :: IsChild(f0, c, x) ==> Seen(f0, b, j, c, h) && Gone(f0, c, condemns, h) {
      forall c ensures !IsChild(f, c, x) {
        if c in f.path { assert IsChild(f, c, x) == IsChild(f0, c, x); }
      }
    } else {
      var c :| IsChild(f0, c, x) && !(Seen(f0, b, j, c, h) && Gone(f0, c, condemns, h));
      assert IsChild(f, c, x);
    }
  }

  lemma NoChildren(f: Forest, x: Id, h: Path -> nat)
    requires ForestOk(f, h) && x in f.path && x in f.children
    ensures f.children[x] == [] <==> forall c :: !IsChild(f, c, x)
  {
    hide ChainsOk, ParentsOk, UniquePaths, ParentPath, NoRepeats;
    if f.children[x] != [] {
      assert f.children[x][0] in f.children[x];
      assert IsChild(f, f.children[x][0], x);
    }
  }

  lemma CleanSame(f0: Forest, f: Forest, x: Id, condemns: nat -> bool)
    requires Sparing(f0.rec, f.rec, condemns)
    ensures Clean(f0, x, condemns) <==> (x in f.rec ==> condemns(f.rec[x]))
  {}

  /** At the end of a chain all its nodes have been visited. */
  lemma JudgedChain(f0: Forest, f: Forest, b: nat, j: nat, condemns: nat -> bool, h: Path -> nat)
    requires ForestOk(f0, h) && b < |f.buckets| && Ahead(f0, f, b, |f.buckets[b]|, j) && Judged(f0, f, b, j, condemns, h)
    ensures b + 1 < |f.buckets| ==> Ahead(f0, f, b + 1, 0, 0) && Judged(f0, f, b + 1, 0, condemns, h)
    ensures b + 1 == |f.buckets| ==> AllJudged(f0, f, condemns, h)
  {
    hide *;
    AheadChain(f0, f, b, j);
    SeenChain(f0, b, h);
    JudgedAsFar(f0, f, b, j, condemns, h);
  }

  lemma JudgedAsFar(f0: Forest, f: Forest, b: nat, j: nat, condemns: nat -> bool, h: Path -> nat)
    requires Judged(f0, f, b, j, condemns, h)
    ensures (forall y :: Seen(f0, b, j, y, h) <==> Seen(f0, b + 1, 0, y, h)) ==> Judged(f0, f, b + 1, 0, condemns, h)
    ensures (forall y :: y in f0.path ==> Seen(f0, b, j, y, h)) ==> AllJudged(f0, f, condemns, h)
  {
    hide Gone, Seen;
  }

  lemma AheadChain(f0: Forest, f: Forest, b: nat, j: nat)
    requires b < |f.buckets| && Ahead(f0, f, b, |f.buckets[b]|, j)
    ensures |f0.buckets| == |f.buckets| && j == |f0.buckets[b]|
    ensures b + 1 < |f.buckets| ==> Ahead(f0, f, b + 1, 0, 0)
  {
    assert |f.buckets[b][|f.buckets[b]|..]| == 0;
    assert j == |f0.buckets[b]| by { assert |f0.buckets[b][j..]| == 0; }
    if b + 1 < |f.buckets| {
      assert f.buckets[b + 1][0..] == f.buckets[b + 1] && f0.buckets[b + 1][0..] == f0.buckets[b + 1];
    }
  }

  lemma SeenChain(f: Forest, b: nat, h: Path -> nat)
    requires ForestOk(f, h) && b < |f.buckets|
    ensures b + 1 < |f.buckets| ==> forall y :: Seen(f, b, |f.buckets[b]|, y, h) <==> Seen(f, b + 1, 0, y, h)
    ensures b + 1 == |f.buckets| ==> forall y :: y in f.path ==> Seen(f, b, |f.buckets[b]|, y, h)
  {
    ChainFacts(f, b, h);
    hide ForestOk, NoRepeats;
    assert f.buckets[b][..|f.buckets[b]|] == f.buckets[b];
  }

  lemma JudgedDropped(f0: Forest, f: Forest, x: Id, b: nat, pos: nat, j: nat, condemns: nat -> bool, h: Path -> nat)
    requires Ahead(f0, f, b, pos, j) && Judged(f0, f, b, j, condemns, h)
    ensures var f' := f.(rec := f.rec - {x}); Ahead(f0, f', b, pos, j) && Judged(f0, f', b, j, condemns, h)
  {
    hide Gone, Seen;
  }

  lemma JudgedPassed(f0: Forest, f: Forest, b: nat, pos: nat, j: nat, condemns: nat -> bool, h: Path -> nat)
    requires ForestOk(f0, h) && Ahead(f0, f, b, pos, j) && pos < |f.buckets[b]| && Judged(f0, f, b, j, condemns, h)
    requires !Gone(f0, f.buckets[b][pos], condemns, h)
    ensures Ahead(f0, f, b, pos + 1, j + 1) && Judged(f0, f, b, j + 1, condemns, h)
  {
    hide *;
    AheadBounds(f0, f, b, pos, j);
    AheadNext(f0, f, f, b, pos, pos + 1, j);
    JudgedNext(f0, f, f, b, j, condemns, h);
  }

  lemma JudgedRemoved(f0: Forest, f: Forest, f': Forest, b: nat, pos: nat, j: nat, condemns: nat -> bool, h: Path -> nat)
    requires ForestOk(f0, h) && ForestOk(f, h)
    requires Ahead(f0, f, b, pos, j) && pos < |f.buckets[b]| && Judged(f0, f, b, j, condemns, h)
    requires f.buckets[b][pos] in f.path && NoRepeats(f.buckets[b])
    requires var x := f.buckets[b][pos];
      Linked(f, x) && f' == Freed(Unlinked(f, x, h), x) && Gone(f0, x, condemns, h)
    ensures Ahead(f0, f', b, pos, j + 1) && Judged(f0, f', b, j + 1, condemns, h)
  {
    hide *;
    AheadBounds(f0, f, b, pos, j);
    var x := f.buckets[b][pos];
    HomeBucket(f, b, pos, h);
    WithoutAt(f.buckets[b], pos);
    RemovedFields(f, x, b, h);
    assert f'.buckets[b][pos..] == f.buckets[b][pos + 1..];
    AheadNext(f0, f, f', b, pos, pos, j);
    JudgedNext(f0, f, f', b, j, condemns, h);
  }

  lemma AheadBounds(f0: Forest, f: Forest, b: nat, pos: nat, j: nat)
    requires Ahead(f0, f, b, pos, j)
    ensures b < |f0.buckets| == |f.buckets| && pos <= |f.buckets[b]| && j <= |f0.buckets[b]|
  {}

  /** Exactly the nodes that are to go have gone. */
  ghost predicate AllJudged(f0: Forest, f: Forest, condemns: nat -> bool, h: Path -> nat) {
    forall y :: y in f.path <==> y in f0.path && !Gone(f0, y, condemns, h)
  }

  /** Visit every node, chain by chain. */
  method SweepAll(f0: Forest, h: Path -> nat, condemns: nat -> bool) returns (f: Forest, count: nat)
    requires ForestOk(f0, h)
    ensures ForestOk(f, h) && |f.path| + count == |f0.path|
    ensures f.rec == map y | y in f0.rec && !condemns(f0.rec[y]) :: f0.rec[y]
    ensures Smaller(f0, f) && AllJudged(f0, f, condemns, h)
  {
    hide *;
    FirstBucket(f0, condemns, h);
    NothingJudged(f0, condemns, h);
    f, count := f0, 0;
    SmallerSame(f0);
    var b := 0;
    while b < |f.buckets|
      invariant b <= |f.buckets| == |f0.buckets| && ForestOk(f, h)
      invariant b < |f.buckets| ==> Sweeping(f0, f, b, 0, condemns, h)
      invariant b < |f.buckets| ==> Ahead(f0, f, b, 0, 0) && Judged(f0, f, b, 0, condemns, h)
      invariant b == |f.buckets| ==> SweptAll(f0, f, condemns) && AllJudged(f0, f, condemns, h)
      invariant |f.path| + count == |f0.path| && Smaller(f0, f)
    {
      var pos := 0;
      ghost var j := 0;
      while pos < |f.buckets[b]|
        invariant Sweeping(f0, f, b, pos, condemns, h) && b < |f.buckets| == |f0.buckets| && pos <= |f.buckets[b]|
        invariant |f.path| + count == |f0.path| && Smaller(f0, f)
        invariant Ahead(f0, f, b, pos, j) && Judged(f0, f, b, j, condemns, h)
        decreases |f.buckets[b]| - pos, f.rec.Keys
      {
        SweepingFacts(f0, f, b, pos, condemns, h);
        var x := f.buckets[b][pos];
        Verdict(f0, f, b, pos, j, condemns, h);
        var doomed := if x in f.rec then condemns(f.rec[x]) else f.children[x] == [];
        if doomed && f.children[x] == [] {
          AnyDeletable(f, x, h);
          ghost var was := f;
          var removed;
          f, removed := DeleteNode(f, x, {}, h);
          DeletingIsOk(f, h);
          Removed(f0, was, b, pos, condemns, h, f);
          SmallerPruned(f0, was, f, was.path[x]);
          JudgedRemoved(f0, was, f, b, pos, j, condemns, h);
          j := j + 1;
          count := count + removed;
        } else if doomed {
          Dropped(f0, f, b, pos, condemns, h);
          SmallerDropped(f0, f, x);
          JudgedDropped(f0, f, x, b, pos, j, condemns, h);
          f := f.(rec := f.rec - {x});
        } else {
          Passed(f0, f, b, pos, condemns, h);
          JudgedPassed(f0, f, b, pos, j, condemns, h);
          pos, j := pos + 1, j + 1;
        }
      }
      SweepingFacts(f0, f, b, pos, condemns, h);
      NextBucket(f0, f, b, condemns, h);
      SweptWhole(f0, f, b, condemns, h);
      JudgedChain(f0, f, b, j, condemns, h);
      b := b + 1;
    }
    SweptRecords(f0, f, condemns);
  }

  /** Nodes have only gone away. */
  ghost predicate Smaller(f0: Forest, f: Forest) {
    (forall y :: y in f.path ==> y in f0.path && f.path[y] == f0.path[y]) && f.parent.Keys <= f0.parent.Keys
  }

  lemma SmallerSame(f: Forest)
    ensures Smaller(f, f)
  {}

  lemma SmallerPruned(f0: Forest, f: Forest, f': Forest, q: Path)
    requires Smaller(f0, f) && f'.path == Pruned(f.path, q) && f'.parent.Keys <= f.parent.Keys
    ensures Smaller(f0, f')
  {
    hide Under;
  }

  lemma SmallerDropped(f0: Forest, f: Forest, x: Id)
    requires Smaller(f0, f)
    ensures Smaller(f0, f.(rec := f.rec - {x}))
  {}

  /** No condemned record is left, and only such have gone. */
  ghost predicate SweptAll(f0: Forest, f: Forest, condemns: nat -> bool) {
    Sparing(f0.rec, f.rec, condemns) && forall y :: y in f.rec ==> !condemns(f.rec[y])
  }

  lemma SweptWhole(f0: Forest, f: Forest, b: nat, condemns: nat -> bool, h: Path -> nat)
    requires ForestOk(f, h) && Sparing(f0.rec, f.rec, condemns)
    ensures (forall y :: y in f.rec && y in f.path ==> !condemns(f.rec[y])) ==> SweptAll(f0, f, condemns)
  {
    RecordedNodes(f, h);
    hide ForestOk, Sparing;
  }

  lemma SweptRecords(f0: Forest, f: Forest, condemns: nat -> bool)
    requires SweptAll(f0, f, condemns)
    ensures f.rec == map y | y in f0.rec && !condemns(f0.rec[y]) :: f0.rec[y]
  {}

  // ------------------------------------------------------------------ the table

  class TreeTable {
    const h: Path -> nat
    var f: Forest
    var nItems: nat
    var nextId: Id

    ghost predicate Valid()
      reads this
    {
      ForestOk(f, h) && nItems == |f.path| && FreshFrom(f, nextId)
    }

    lemma Facts()
      requires Valid()
      ensures ForestOk(f, h) && nItems == |f.path| && FreshFrom(f, nextId)
    {
      hide ForestOk, FreshFrom;
    }

    lemma MakeValid()
      requires ForestOk(f, h) && nItems == |f.path| && FreshFrom(f, nextId)
      ensures Valid()
    {
      hide ForestOk, FreshFrom;
    }

    /** The record stored for a path, if any. */
    method FindKey(q: Path) returns (rec: Option<nat>)
      requires Valid()
      ensures rec.Some? ==> exists x :: x in f.rec && x in f.path && f.path[x] == q && f.rec[x] == rec.value
      ensures rec.None? ==> forall x :: x in f.rec && x in f.path ==> f.path[x] != q
    {
      hide ForestOk;
      var found, pos := FindNode(f, q, h);
      FoundFacts(f, q, h, found, pos);
      hide SearchEnds;
      if found.Some? && found.value in f.rec {
        return Some(f.rec[found.value]);
      }
      rec := None;
      OnlyNode(f, h, q);
    }

    /**
      Insert a record for a path, creating exactly the missing nodes for the paths leading to it;
      after a success the chains are rehashed if need be, to `size` of them. With the empty path
      the search reads outside its buffer; nothing is promised then.
     */
    method InsertRecord(key: Path, r: nat, memory: nat -> bool, size: nat, roomForChains: bool) returns (result: Outcome)
      requires Valid() && '\0' !in key && size > 0
      modifies this
      ensures result.WildRead? <==> key == []
      ensures !result.WildRead? ==> Valid() && Inserted(old(f), f, key, r, result, h)
      ensures result.NoMemory? ==> exists n: nat :: !memory(n)
      ensures result.Ok? && nItems > size && roomForChains ==> |f.buckets| == size
    {
      hide *;
      Facts();
      ghost var f0 := f;
      var added, g, next;
      g, result, next, added := TreeInsertion.InsertRecord(f, key, r, nextId, memory, h);
      if result.WildRead? { return; }
      InsertedOk(f, g, key, r, result, h);
      f, nextId, nItems := g, next, nItems + added;
      MakeValid();
      if result.Ok? {
        RehashIfNeeded(size, roomForChains);
        Facts();
        RehashedInsert(f0, g, f.buckets, key, r, h);
      }
    }

    /** `size` chains, once the nodes outnumber that; unless there is no memory. Nothing but the chains changes. */
    method RehashIfNeeded(size: nat, hasMemory: bool)
      requires Valid() && size > 0
      modifies this
      ensures Valid() && nItems == old(nItems) && nextId == old(nextId)
      ensures f == Forest(old(f).path, old(f).rec, old(f).parent, old(f).children, f.buckets)
      ensures nItems > size && hasMemory ==> |f.buckets| == size
      ensures nItems <= size || !hasMemory ==> f == old(f)
    {
      hide *;
      if nItems <= size {
        return;
      }
      if hasMemory {
        Facts();
        SplitOk(f, h);
        HasChains(f, h);
        var new0 := RehashAll(f.buckets, f.path, size, h);
        f := Forest(f.path, f.rec, f.parent, f.children, new0);
        MakeForest(f, h);
        SameFresh(old(f), f, nextId);
        MakeValid();
      }
    }

    /** Delete the node of a path and everything below it, and nothing else. */
    method DeleteKey(q: Path)
      requires Valid()
      modifies this
      ensures Valid()
      ensures forall p :: Present(f.path, p) <==> old(Present(f.path, p)) && !Under(p, q)
      ensures RecordsKept(old(f), f)
      ensures forall y :: y in f.path ==> y in old(f).path && f.path[y] == old(f).path[y]
    {
      hide *;
      Facts();
      var found, pos := FindNode(f, q, h);
      FoundFacts(f, q, h, found, pos);
      if found.Some? {
        AnyDeletable(f, found.value, h);
        var g, removed := DeleteNode(f, found.value, {}, h);
        PrunedPaths(f.path, q);
        PrunedSame(f.path, q);
        StillFresh(f, g, nextId);
        DeletingIsOk(g, h);
        f, nItems := g, nItems - removed;
        MakeValid();
      } else {
        NothingBelow(f, q, h);
        KeptAll(f);
      }
    }

    /**
      Drop the records the predicate condemns. A node that has no record left goes if it has no
      children left either when it is visited. A node with children at that time stays, even if
      they go later.
     */
    method DeleteIf(condemns: nat -> bool)
      requires Valid()
      modifies this
      ensures Valid()
      ensures f.rec == map y | y in old(f).rec && !condemns(old(f).rec[y]) :: old(f).rec[y]
      ensures forall y :: y in f.path <==> y in old(f).path && !Gone(old(f), y, condemns, h)
      ensures forall y :: y in f.path ==> f.path[y] == old(f).path[y]
    {
      hide *;
      Facts();
      ghost var f0 := f;
      var g, count := SweepAll(f, h, condemns);
      SmallerFacts(f0, g);
      JudgedFacts(f0, g, condemns, h);
      StillFresh(f0, g, nextId);
      f, nItems := g, nItems - count;
      MakeValid();
    }
  }

  lemma JudgedFacts(f0: Forest, f: Forest, condemns: nat -> bool, h: Path -> nat)
    requires AllJudged(f0, f, condemns, h)
    ensures forall y :: y in f.path <==> y in f0.path && !Gone(f0, y, condemns, h)
  {
    hide Gone;
  }

  lemma SmallerFacts(f0: Forest, f: Forest)
    requires Smaller(f0, f)
    ensures forall y :: y in f.path ==> y in f0.path && f.path[y] == f0.path[y]
    ensures f.parent.Keys <= f0.parent.Keys
  {}

  lemma OnlyNode(f: Forest, h: Path -> nat, q: Path)
    requires ForestOk(f, h)
    ensures forall x, y :: x in f.path && y in f.path && f.path[x] == q && f.path[y] == q ==> x == y
  {
    hide ChainsOk, ParentsOk, ChildrenOk;
  }

  lemma InsertedOk(f0: Forest, f: Forest, key: Path, r: nat, result: Outcome, h: Path -> nat)
    requires Inserted(f0, f, key, r, result, h)
    ensures ForestOk(f, h)
  {
    hide ForestOk, Present, Under;
  }

  /** Other chains for the same nodes make no difference to what has been inserted. */
  lemma RehashedInsert(f0: Forest, f: Forest, new0: seq<seq<Id>>, key: Path, r: nat, h: Path -> nat)
    requires Inserted(f0, f, key, r, Ok, h) && ForestOk(Forest(f.path, f.rec, f.parent, f.children, new0), h)
    ensures Inserted(f0, Forest(f.path, f.rec, f.parent, f.children, new0), key, r, Ok, h)
  {
    hide ForestOk, Present, Under;
  }

  lemma HasChains(f: Forest, h: Path -> nat)
    requires ForestOk(f, h)
    ensures f.buckets != []
  {
    hide ChainOk, ParentsOk, ChildrenOk, UniquePaths;
  }

  lemma SameFresh(f: Forest, g: Forest, nextId: Id)
    requires FreshFrom(f, nextId) && g.path == f.path && g.parent == f.parent
    ensures FreshFrom(g, nextId)
  {}

  lemma PrunedSame(path: map<Id, Path>, q: Path)
    ensures forall y :: y in Pruned(path, q) ==> y in path && Pruned(path, q)[y] == path[y]
  {
    hide Under;
  }

  lemma StillFresh(f: Forest, g: Forest, nextId: Id)
    requires FreshFrom(f, nextId) && g.parent.Keys <= f.parent.Keys && forall y :: y in g.path ==> y in f.path
    ensures FreshFrom(g, nextId)
  {}

  lemma DeletingIsOk(f: Forest, h: Path -> nat)
    requires Deleting(f, {}, h)
    ensures ForestOk(f, h)
  {}

  lemma KeptAll(f: Forest)
    ensures RecordsKept(f, f)
  {}
}
