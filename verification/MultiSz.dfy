/** MULTISZ: a list of strings in one buffer, each ended by a NUL and the list by one more. */
module MultiStrings {

  type WChar = x: int | 0 <= x < 0x1_0000

  predicate NulFree(s: seq<WChar>) {
    forall i :: 0 <= i < |s| ==> s[i] != 0
  }

  /** wcslen, or everything when there is no NUL. */
  function ZLen(t: seq<WChar>): (n: nat)
    ensures n <= |t| && (n < |t| ==> t[n] == 0) && NulFree(t[..n])
  {
    if t == [] || t[0] == 0 then 0
    else var n := 1 + ZLen(t[1..]); assert t[..n] == [t[0]] + t[1..][..n - 1]; n
  }

  function Rest(t: seq<WChar>): (r: seq<WChar>)
    ensures t != [] ==> |r| < |t|
  {
    if ZLen(t) < |t| then t[ZLen(t) + 1..] else []
  }

  /** The list a buffer holds: strings up to the first empty one. */
  function Strings(t: seq<WChar>): seq<seq<WChar>>
    decreases |t|
  {
    if t == [] || t[0] == 0 then [] else [t[..ZLen(t)]] + Strings(Rest(t))
  }

  /** The list does end inside the buffer. */
  predicate Closed(t: seq<WChar>)
    decreases |t|
  {
    t != [] && (t[0] == 0 || (ZLen(t) < |t| && Closed(Rest(t))))
  }

  function Pack(l: seq<seq<WChar>>): seq<WChar> {
    if l == [] then [] else l[0] + [0] + Pack(l[1..])
  }

  predicate Listable(l: seq<seq<WChar>>) {
    forall i :: 0 <= i < |l| ==> l[i] != [] && NulFree(l[i])
  }

  lemma {:induction false} ZLenIs(s: seq<WChar>, t: seq<WChar>)
    requires NulFree(s) && t != [] && t[0] == 0
    ensures ZLen(s + t) == |s|
  {
    if s != [] {
      ZLenIs(s[1..], t);
      assert (s + t)[1..] == s[1..] + t;
    } else {
      assert s + t == t;
    }
  }

  lemma FirstString(s: seq<WChar>, t: seq<WChar>)
    requires s != [] && NulFree(s)
    ensures Strings(s + [0] + t) == [s] + Strings(t)
    ensures Closed(s + [0] + t) <==> Closed(t)
  {
    ZLenIs(s, [0] + t);
    var u := s + [0] + t;
    assert u == s + ([0] + t);
    assert u[..|s|] == s && u[|s| + 1..] == t;
    assert Rest(u) == t;
    assert u[0] == s[0];
  }

  lemma PackCons(a: seq<WChar>, l: seq<seq<WChar>>)
    ensures Pack([a] + l) == a + [0] + Pack(l)
  {
    assert ([a] + l)[1..] == l;
  }

  lemma JoinedLists(a: seq<WChar>, b: seq<WChar>, c: seq<WChar>, d: seq<WChar>)
    ensures (a + b + c) + d == a + b + (c + d)
  {
  }

  lemma JoinedStrings(a: seq<seq<WChar>>, b: seq<seq<WChar>>, c: seq<seq<WChar>>)
    ensures (a + b) + c == a + (b + c)
  {
  }

  /** Reading back what was packed, with whatever follows. */
  lemma {:induction false} StringsOfPack(l: seq<seq<WChar>>, t: seq<WChar>)
    requires Listable(l)
    ensures Strings(Pack(l) + t) == l + Strings(t)
    ensures Closed(Pack(l) + t) <==> Closed(t)
  {
    hide *;
    if l == [] {
      EmptyList(t);
    } else {
      ListableParts(l);
      StringsOfPack(l[1..], t);
      assert l == [l[0]] + l[1..];
      PackCons(l[0], l[1..]);
      FirstString(l[0], Pack(l[1..]) + t);
      JoinedLists(l[0], [0], Pack(l[1..]), t);
      JoinedStrings([l[0]], l[1..], Strings(t));
    }
  }

  lemma EmptyList(t: seq<WChar>)
    ensures Pack([]) == [] && Pack([]) + t == t
  {
  }

  lemma ListableParts(l: seq<seq<WChar>>)
    requires Listable(l) && l != []
    ensures l[0] != [] && NulFree(l[0]) && Listable(l[1..])
  {
  }

  /** Packing what was read gives the buffer back up to the list's end. */
  lemma {:induction false} PackOfStrings(t: seq<WChar>)
    requires Closed(t)
    ensures Listable(Strings(t))
    ensures |Pack(Strings(t))| < |t| && t[..|Pack(Strings(t))| + 1] == Pack(Strings(t)) + [0]
    decreases |t|
  {
    if t[0] != 0 {
      var n := ZLen(t);
      var rest := Rest(t);
      PackOfStrings(rest);
      Unfolded(t);
      hide *;
      ListableCons(t[..n], Strings(rest));
      PackCons(t[..n], Strings(rest));
      Reassemble(t, n, rest, Pack(Strings(rest)));
    }
  }

  /** A list whose first string is not empty. */
  lemma Unfolded(t: seq<WChar>)
    requires Closed(t) && t[0] != 0
    ensures 0 < ZLen(t) < |t| && NulFree(t[..ZLen(t)]) && Closed(Rest(t))
    ensures t == t[..ZLen(t)] + [0] + Rest(t)
    ensures Strings(t) == [t[..ZLen(t)]] + Strings(Rest(t))
  {
    assert ZLen(t) > 0 && ZLen(t) < |t| && Rest(t) == t[ZLen(t) + 1..];
    assert Strings(t) == [t[..ZLen(t)]] + Strings(Rest(t));
    hide *;
    CutAt(t, ZLen(t));
  }

  lemma CutAt(t: seq<WChar>, n: nat)
    requires n < |t| && t[n] == 0
    ensures t == t[..n] + [0] + t[n + 1..]
  {
  }

  lemma ListableCons(a: seq<WChar>, l: seq<seq<WChar>>)
    requires a != [] && NulFree(a) && Listable(l)
    ensures Listable([a] + l)
  {
  }

  lemma Reassemble(t: seq<WChar>, n: nat, rest: seq<WChar>, p: seq<WChar>)
    requires n < |t| && t == t[..n] + [0] + rest
    requires |p| < |rest| && rest[..|p| + 1] == p + [0]
    ensures var q := t[..n] + [0] + p; |q| < |t| && t[..|q| + 1] == q + [0]
  {
  }

  /** Two NULs in a row end whatever list stands before them. */
  lemma {:induction false} EndsAtDoubleNul(s: seq<WChar>, junk: seq<WChar>)
    ensures Closed(s + [0, 0] + junk) && Strings(s + [0, 0] + junk) == Strings(s)
    decreases |s|
  {
    if s != [] && s[0] != 0 {
      var n := ZLen(s);
      if n == |s| {
        EndsAfterOne(s, junk);
      } else {
        var head, rest := s[..n], s[n + 1..];
        EndsAtDoubleNul(rest, junk);
        HeadAndRest(s);
        hide *;
        FirstString(head, rest + [0, 0] + junk);
        FirstString(head, rest);
        Regroup(head, rest, junk);
      }
    }
  }

  lemma HeadAndRest(s: seq<WChar>)
    requires s != [] && s[0] != 0 && ZLen(s) < |s|
    ensures ZLen(s) > 0 && s == s[..ZLen(s)] + [0] + s[ZLen(s) + 1..] && NulFree(s[..ZLen(s)])
  {
    assert ZLen(s) > 0;
    hide *;
    CutAt(s, ZLen(s));
  }

  lemma Regroup(head: seq<WChar>, rest: seq<WChar>, junk: seq<WChar>)
    ensures (head + [0] + rest) + [0, 0] + junk == head + [0] + (rest + [0, 0] + junk)
  {
  }

  lemma EndsAfterOne(s: seq<WChar>, junk: seq<WChar>)
    requires s != [] && s[0] != 0 && ZLen(s) == |s|
    ensures Closed(s + [0, 0] + junk) && Strings(s + [0, 0] + junk) == Strings(s)
  {
    Whole(s);
    NothingListed(junk);
    hide *;
    assert s + [0, 0] + junk == s + [0] + ([0] + junk);
    FirstString(s, [0] + junk);
  }

  lemma Whole(s: seq<WChar>)
    requires s != [] && s[0] != 0 && ZLen(s) == |s|
    ensures Strings(s) == [s] && NulFree(s)
  {
    assert s[..|s|] == s;
  }

  lemma NothingListed(junk: seq<WChar>)
    ensures Strings([0] + junk) == [] && Closed([0] + junk)
  {
  }

  /** What appending `bytes` behind a packed list makes of the buffer. */
  lemma AppendedList(l: seq<seq<WChar>>, bytes: seq<WChar>, junk: seq<WChar>)
    requires Listable(l)
    ensures var t := Pack(l) + bytes + [0, 0] + junk;
            Closed(t) && Strings(t) == l + Strings(bytes)
  {
    hide *;
    EndsAtDoubleNul(bytes, junk);
    StringsOfPack(l, bytes + [0, 0] + junk);
    assert Pack(l) + bytes + [0, 0] + junk == Pack(l) + (bytes + [0, 0] + junk);
  }

  /** One string appended is one string more; an empty one vanishes. */
  lemma OneString(s: seq<WChar>)
    requires NulFree(s)
    ensures Strings(s) == if s == [] then [] else [s]
  {
    if s != [] {
      assert s[0] != 0 && ZLen(s) == |s|;
      hide *;
      Whole(s);
    }
  }

  // ------------------------------------------------------------------------------- scanning

  /** The part of the list still to be read from position i on. */
  ghost function From(t: seq<WChar>, i: nat): seq<seq<WChar>>
    requires i <= |t|
  {
    Strings(t[i..])
  }

  ghost predicate ClosedFrom(t: seq<WChar>, i: nat) {
    i <= |t| && Closed(t[i..])
  }

  /** Moving from one string to the next. */
  lemma StepOn(t: seq<WChar>, i: nat, n: nat)
    requires ClosedFrom(t, i) && i < |t| && t[i] != 0
    requires i + n < |t| && t[i + n] == 0 && NulFree(t[i..i + n])
    ensures ClosedFrom(t, i + n + 1)
    ensures From(t, i) == [t[i..i + n]] + From(t, i + n + 1)
    ensures |Pack(From(t, i))| == n + 1 + |Pack(From(t, i + n + 1))|
  {
    var u := t[i..];
    ZLenIs(t[i..i + n], t[i + n..]);
    TailParts(t, i, n);
    Unfolded(u);
    assert Rest(u) == u[n + 1..];
    hide *;
    PackCons(t[i..i + n], Strings(t[i + n + 1..]));
  }

  lemma TailParts(t: seq<WChar>, i: nat, n: nat)
    requires i + n < |t|
    ensures t[i..] == t[i..i + n] + t[i + n..]
    ensures t[i..][..n] == t[i..i + n] && t[i..][n + 1..] == t[i + n + 1..]
  {
  }

  lemma NotOver(t: seq<WChar>, i: nat)
    requires ClosedFrom(t, i)
    ensures i < |t|
    ensures t[i] == 0 ==> From(t, i) == []
    ensures t[i] != 0 ==> From(t, i) != [] && exists j :: i <= j < |t| && t[j] == 0
  {
    if t[i] != 0 {
      Unfolded(t[i..]);
      assert t[i + ZLen(t[i..])] == 0;
    }
  }

  lemma FromStart(t: seq<WChar>)
    ensures From(t, 0) == Strings(t) && (ClosedFrom(t, 0) <==> Closed(t))
  {
    assert t[0..] == t;
  }

  /** wcslen at a position inside the buffer. */
  method WcsLen(buf: array<WChar>, i: nat) returns (n: nat)
    requires ClosedFrom(buf[..], i)
    ensures i + n < buf.Length && buf[i + n] == 0 && NulFree(buf[i..i + n])
  {
    hide ClosedFrom, From;
    NotOver(buf[..], i);
    ghost var end :| i <= end < buf.Length && buf[end] == 0;
    n := 0;
    while buf[i + n] != 0
      invariant i + n <= end && NulFree(buf[i..i + n])
      decreases end - n
    {
      n := n + 1;
    }
  }

  /** MULTISZ::CalcLength. */
  method CalcLength(buf: array<WChar>) returns (total: nat, count: nat)
    requires Closed(buf[..])
    ensures total == |Pack(Strings(buf[..]))| + 1 && count == |Strings(buf[..])|
  {
    hide *;
    ghost var t := buf[..];
    FromStart(t);
    total, count := 1, 0;
    var i := 0;
    NotOver(t, i);
    while buf[i] != 0
      invariant ClosedFrom(t, i) && i < buf.Length
      invariant total + |Pack(From(t, i))| == |Pack(Strings(t))| + 1
      invariant count + |From(t, i)| == |Strings(t)|
      decreases buf.Length - i
    {
      var len := WcsLen(buf, i);
      StepOn(t, i, len);
      total := total + (len + 1);
      i := i + (len + 1);
      count := count + 1;
      NotOver(t, i);
    }
    NotOver(t, i);
    PackNothing();
  }

  lemma PackNothing()
    ensures Pack([]) == []
  {
  }

  // ----------------------------------------------------------------------------- the class

  /** The characters to spare: 128 bytes. */
  const STR_SLOP: nat := 64

  class MultiSz {
    var buf: array<WChar>
    var cch: nat
    var count: nat

    /** The cached length of an empty list is 2 after Reset, and 1 once it has been recounted. */
    ghost predicate Valid()
      reads this, buf
    {
      && buf.Length >= 2 && Closed(buf[..]) && count == |Strings(buf[..])|
      && (cch == |Pack(Strings(buf[..]))| + 1 || (cch == 2 && buf[0] == 0))
    }

    ghost function Contents(): seq<seq<WChar>>
      requires Valid()
      reads this, buf
    {
      Strings(buf[..])
    }

    constructor ()
      ensures Valid() && Contents() == [] && fresh(buf)
    {
      buf := new WChar[2](_ => 0);
      cch, count := 2, 0;
    }

    /** MULTISZ::Reset. */
    method Reset()
      requires Valid()
      modifies this`cch, this`count, buf
      ensures Valid() && Contents() == []
    {
      buf[0], buf[1] := 0, 0;
      cch, count := 2, 0;
    }

    /** Where text is appended: over the final terminator, or at the start of an empty list. */
    function Base(): nat
      reads this
    {
      if cch == 2 || cch == 0 then 0 else cch - 1
    }

    /** MULTISZ::AuxAppend; `granted` says whether a larger buffer can be had. */
    method AuxAppend(bytes: seq<WChar>, granted: bool, slop: nat) returns (ok: bool)
      requires Valid()
      modifies this, buf
      ensures Valid() && (buf == old(buf) || fresh(buf))
      ensures ok <==> granted || old(Base()) + |bytes| + 2 <= old(buf.Length)
      ensures Contents() == if ok then old(Contents()) + Strings(bytes) else old(Contents())
      ensures ok ==> cch == |Pack(Contents())| + 1
    {
      PackedPrefix(buf[..], if cch == 2 then 0 else cch - 1);
      var b, total, strings;
      ok, b, total, strings := AppendTo(buf, if cch == 2 then 0 else cch - 1, bytes, granted, slop, Strings(buf[..]));
      if ok {
        buf, cch, count := b, total, strings;
      }
    }

    /** MULTISZ::Append: a buffer that grows gets some characters to spare. */
    method Append(bytes: seq<WChar>, granted: bool) returns (ok: bool)
      requires Valid()
      modifies this, buf
      ensures Valid() && (buf == old(buf) || fresh(buf))
      ensures ok <==> granted || old(Base()) + |bytes| + 2 <= old(buf.Length)
      ensures Contents() == if ok then old(Contents()) + Strings(bytes) else old(Contents())
      ensures ok ==> cch == |Pack(Contents())| + 1
    {
      ok := AuxAppend(bytes, granted, STR_SLOP);
    }

    /**
      MULTISZ::Copy of a list, its terminators included. A list copied onto itself is emptied
      before it is read; if it then needs a larger buffer it is read where it no longer is.
     */
    method Copy(rhs: MultiSz, granted: bool) returns (ok: bool, wild: bool)
      requires Valid() && rhs.Valid() && (rhs == this || rhs.buf != buf)
      modifies this, buf
      ensures ok <==> granted || old(rhs.cch) + 2 <= old(buf.Length)
      ensures wild <==> rhs == this && granted && old(buf.Length) < old(cch) + 2
      ensures !wild ==> Valid() && (buf == old(buf) || fresh(buf))
      ensures !wild ==> Contents() == if ok && rhs != this then old(rhs.Contents()) else []
    {
      CachedPart(rhs.buf[..], rhs.cch);
      var n := rhs.cch;
      wild := rhs == this && granted && buf.Length < n + 2;
      Reset();
      if wild {
        return true, wild;
      }
      ghost var bytes := rhs.buf[..n];
      EmptiedFirst(bytes);
      ok := AuxAppend(rhs.buf[..n], granted, 0);
    }

    /** MULTISZ::FindString. */
    method FindString(str: seq<WChar>) returns (found: bool)
      requires Valid()
      ensures found <==> str in Contents()
    {
      found := Scan(buf, str);
    }

    /** MULTISZ::Equals. */
    method Equals(rhs: MultiSz) returns (equal: bool)
      requires Valid() && rhs.Valid()
      ensures equal <==> Contents() == rhs.Contents()
    {
      if count != rhs.count {
        return false;
      }
      equal := SameLists(buf, rhs.buf);
    }
  }

  /** Whether a string of the list is `str`, by reading the list front to back. */
  method Scan(buf: array<WChar>, str: seq<WChar>) returns (found: bool)
    requires Closed(buf[..])
    ensures found <==> str in Strings(buf[..])
  {
    hide *;
    ghost var t := buf[..];
    FromStart(t);
    var i := 0;
    NotOver(t, i);
    while buf[i] != 0
      invariant ClosedFrom(t, i) && i < buf.Length
      invariant str in From(t, i) <==> str in Strings(t)
      decreases buf.Length - i
    {
      var len := WcsLen(buf, i);
      StepOn(t, i, len);
      if buf[i..i + len] == str {
        return true;
      }
      i := i + (len + 1);
      NotOver(t, i);
    }
    NotOver(t, i);
    found := false;
  }

  /** Walking two lists of equal length side by side. */
  method SameLists(a: array<WChar>, b: array<WChar>) returns (same: bool)
    requires Closed(a[..]) && Closed(b[..]) && |Strings(a[..])| == |Strings(b[..])|
    ensures same <==> Strings(a[..]) == Strings(b[..])
  {
    hide *;
    ghost var s, t := a[..], b[..];
    FromStart(s);
    FromStart(t);
    var i: nat, j: nat := 0, 0;
    NotOver(s, i);
    NotOver(t, j);
    while a[i] != 0
      invariant ClosedFrom(s, i) && i < a.Length && ClosedFrom(t, j) && j < b.Length
      invariant |From(s, i)| == |From(t, j)|
      invariant From(s, i) == From(t, j) <==> Strings(s) == Strings(t)
      decreases a.Length - i
    {
      NotOver(s, i);
      NotOver(t, j);
      var m := WcsLen(a, i);
      var n := WcsLen(b, j);
      StepOn(s, i, m);
      StepOn(t, j, n);
      SameHeads(From(s, i), From(t, j), s[i..i + m], From(s, i + m + 1), t[j..j + n], From(t, j + n + 1));
      if a[i..i + m] != b[j..j + n] {
        return false;
      }
      i, j := i + (m + 1), j + (n + 1);
      NotOver(s, i);
      NotOver(t, j);
    }
    NotOver(s, i);
    same := true;
  }

  lemma SameHeads(a: seq<seq<WChar>>, b: seq<seq<WChar>>, x: seq<WChar>, a': seq<seq<WChar>>, y: seq<WChar>, b': seq<seq<WChar>>)
    requires a == [x] + a' && b == [y] + b'
    ensures a == b <==> x == y && a' == b'
  {
    assert a[1..] == a' && b[1..] == b';
  }

  /** Nothing is read from a list that starts with a terminator. */
  lemma EmptiedFirst(t: seq<WChar>)
    ensures t == [] || t[0] == 0 ==> Strings(t) == []
  {
  }

  /** The text goes over the final terminator, in a larger buffer if need be. */
  method AppendTo(buf: array<WChar>, base: nat, bytes: seq<WChar>, granted: bool, slop: nat, ghost l: seq<seq<WChar>>)
    returns (ok: bool, b: array<WChar>, total: nat, count: nat)
    requires base <= buf.Length && buf[..base] == Pack(l) && Listable(l)
    modifies buf
    ensures ok <==> granted || base + |bytes| + 2 <= buf.Length
    ensures b == buf || fresh(b)
    ensures ok ==> b.Length >= 2 && Closed(b[..]) && Strings(b[..]) == l + Strings(bytes)
    ensures ok ==> total == |Pack(l + Strings(bytes))| + 1 && count == |l + Strings(bytes)|
    ensures (ok ==> b != buf) ==> buf[..] == old(buf[..])
  {
    hide *;
    b, total, count := buf, 0, 0;
    if buf.Length < base + |bytes| + 2 {
      if !granted {
        return false, b, total, count;
      }
      b := Grown(buf, base, base + |bytes| + 2 + slop);
    }
    Paste(b, base, bytes);
    AppendedBuffer(l, bytes, b[..]);
    total, count := CalcLength(b);
    ok := true;
  }

  /** The characters a valid length covers hold the whole list. */
  lemma CachedPart(t: seq<WChar>, cch: nat)
    requires Closed(t) && |t| >= 2
    requires cch == |Pack(Strings(t))| + 1 || (cch == 2 && t[0] == 0)
    ensures cch <= |t| && Strings(t[..cch]) == Strings(t)
  {
    hide Pack, Listable;
    PackOfStrings(t);
    if cch == |Pack(Strings(t))| + 1 {
      StringsOfPack(Strings(t), [0]);
    }
  }

  lemma PackedPrefix(t: seq<WChar>, base: nat)
    requires Closed(t) && |t| >= 2
    requires base == |Pack(Strings(t))| || (base == 0 && t[0] == 0)
    ensures base <= |t| && t[..base] == Pack(Strings(t)) && Listable(Strings(t))
  {
    if t[0] == 0 {
      assert Strings(t) == [] && Pack([]) == [];
    }
    hide *;
    PackOfStrings(t);
    ShorterPrefix(t, Pack(Strings(t)));
  }

  lemma ShorterPrefix(t: seq<WChar>, p: seq<WChar>)
    requires |p| < |t| && t[..|p| + 1] == p + [0]
    ensures t[..|p|] == p
  {
    assert t[..|p|] == t[..|p| + 1][..|p|];
  }

  lemma AppendedBuffer(l: seq<seq<WChar>>, bytes: seq<WChar>, t: seq<WChar>)
    requires Listable(l) && |Pack(l)| + |bytes| + 2 <= |t|
    requires t[..|Pack(l)|] == Pack(l) && t[|Pack(l)|..|Pack(l)| + |bytes|] == bytes
    requires t[|Pack(l)| + |bytes|] == 0 && t[|Pack(l)| + |bytes| + 1] == 0
    ensures Closed(t) && Strings(t) == l + Strings(bytes)
  {
    hide *;
    var n := |Pack(l)| + |bytes|;
    AppendedList(l, bytes, t[n + 2..]);
    ThreeParts(t, Pack(l), bytes);
  }

  lemma ThreeParts(t: seq<WChar>, a: seq<WChar>, b: seq<WChar>)
    requires |a| + |b| + 2 <= |t| && t[..|a|] == a && t[|a|..|a| + |b|] == b
    requires t[|a| + |b|] == 0 && t[|a| + |b| + 1] == 0
    ensures t == a + b + [0, 0] + t[|a| + |b| + 2..]
  {
    var n := |a| + |b|;
    assert t[..n] == a + b by { TwoParts(t[..n], a, b); }
    assert t[n..] == [0, 0] + t[n + 2..];
    assert t == t[..n] + t[n..];
  }

  lemma TwoParts(t: seq<WChar>, a: seq<WChar>, b: seq<WChar>)
    requires |t| == |a| + |b| && t[..|a|] == a && t[|a|..] == b
    ensures t == a + b
  {
  }

  /** A larger buffer with the same beginning. */
  method Grown(buf: array<WChar>, keep: nat, size: nat) returns (grown: array<WChar>)
    requires keep <= buf.Length && keep <= size
    ensures fresh(grown) && grown.Length == size && grown[..keep] == buf[..keep]
  {
    grown := new WChar[size](_ => 0);
    var k := 0;
    while k < keep
      invariant k <= keep && grown[..k] == buf[..k]
    {
      grown[k] := buf[k];
      k := k + 1;
    }
  }

  /** The new text and the double terminator. */
  method Paste(buf: array<WChar>, base: nat, bytes: seq<WChar>)
    requires base + |bytes| + 2 <= buf.Length
    modifies buf
    ensures buf[..base] == old(buf[..base]) && buf[base..base + |bytes|] == bytes
    ensures buf[base + |bytes|] == 0 && buf[base + |bytes| + 1] == 0
  {
    var k := 0;
    while k < |bytes|
      invariant k <= |bytes| && buf[..base] == old(buf[..base])
      invariant buf[base..base + k] == bytes[..k]
    {
      buf[base + k] := bytes[k];
      k := k + 1;
    }
    buf[base + k], buf[base + k + 1] := 0, 0;
  }

  // ------------------------------------------------------------- comma-delimited lists

  const COMMA: WChar := 0x2C

  predicate IsWhite(ch: WChar) {
    ch == 0x20 || ch == 0x09 || ch == 0x0D
  }

  function NextComma(s: seq<WChar>): (n: nat)
    ensures n <= |s| && (n < |s| ==> s[n] == COMMA) && COMMA !in s[..n]
  {
    if s == [] || s[0] == COMMA then 0
    else var n := 1 + NextComma(s[1..]); assert s[..n] == [s[0]] + s[1..][..n - 1]; n
  }

  function TrimLeft(s: seq<WChar>): seq<WChar> {
    if s != [] && IsWhite(s[0]) then TrimLeft(s[1..]) else s
  }

  function TrimRight(s: seq<WChar>): seq<WChar> {
    if s != [] && IsWhite(s[|s| - 1]) then TrimRight(s[..|s| - 1]) else s
  }

  function Piece(s: seq<WChar>, trim: bool): seq<WChar> {
    if trim then TrimRight(TrimLeft(s)) else s
  }

  /** What stands between the commas, trimmed or not. */
  function Pieces(s: seq<WChar>, trim: bool): (l: seq<seq<WChar>>)
    ensures l != []
  {
    var n := NextComma(s);
    [Piece(s[..n], trim)] + if n == |s| then [] else Pieces(s[n + 1..], trim)
  }

  function NonEmpty(l: seq<seq<WChar>>): seq<seq<WChar>> {
    if l == [] then [] else (if l[0] == [] then [] else [l[0]]) + NonEmpty(l[1..])
  }

  /** The entries between the commas, without the empty ones. */
  function Entries(s: seq<WChar>, trim: bool): seq<seq<WChar>> {
    NonEmpty(Pieces(s, trim))
  }

  /** The pieces appended: all, or all but the empty ones. */
  function Listed(l: seq<seq<WChar>>, removeEmpty: bool): seq<seq<WChar>> {
    if removeEmpty then NonEmpty(l) else l
  }

  /** The two trimming loops: both ends move over white space. */
  method Trim(list: seq<WChar>, current: nat, end: nat) returns (current': nat, end': nat)
    requires current <= end <= |list|
    ensures current <= current' <= end' <= end
    ensures list[current'..end'] == TrimRight(TrimLeft(list[current..end]))
  {
    current', end' := current, end;
    while current' < end' && IsWhite(list[current'])
      invariant current <= current' <= end' == end
      invariant TrimLeft(list[current'..end]) == TrimLeft(list[current..end])
    {
      assert list[current'..end][1..] == list[current' + 1..end];
      current' := current' + 1;
    }
    ghost var left := list[current'..end];
    assert left == TrimLeft(list[current..end]);
    while end' > current' && IsWhite(list[end' - 1])
      invariant current' <= end' <= end
      invariant TrimRight(list[current'..end']) == TrimRight(left)
    {
      var u := list[current'..end'];
      assert u[..|u| - 1] == list[current'..end' - 1];
      end' := end' - 1;
    }
  }

  lemma PieceNulFree(s: seq<WChar>, trim: bool)
    requires NulFree(s)
    ensures NulFree(Piece(s, trim))
  {
    if trim {
      TrimLeftNulFree(s);
      TrimRightNulFree(TrimLeft(s));
    }
  }

  lemma {:induction false} TrimLeftNulFree(s: seq<WChar>)
    requires NulFree(s)
    ensures NulFree(TrimLeft(s))
  {
    if s != [] && IsWhite(s[0]) {
      TrimLeftNulFree(s[1..]);
    }
  }

  lemma {:induction false} TrimRightNulFree(s: seq<WChar>)
    requires NulFree(s)
    ensures NulFree(TrimRight(s))
  {
    if s != [] && IsWhite(s[|s| - 1]) {
      TrimRightNulFree(s[..|s| - 1]);
    }
  }

  lemma {:induction false} NonEmptyJoin(a: seq<seq<WChar>>, b: seq<seq<WChar>>)
    ensures NonEmpty(a + b) == NonEmpty(a) + NonEmpty(b)
  {
    if a == [] {
      assert a + b == b;
    } else {
      assert (a + b)[1..] == a[1..] + b;
      NonEmptyJoin(a[1..], b);
    }
  }

  lemma {:induction false} NonEmptyTwice(l: seq<seq<WChar>>)
    ensures NonEmpty(NonEmpty(l)) == NonEmpty(l)
  {
    if l != [] {
      NonEmptyTwice(l[1..]);
      NonEmptyJoin(if l[0] == [] then [] else [l[0]], NonEmpty(l[1..]));
      assert l[0] != [] ==> NonEmpty([l[0]]) == [l[0]];
    }
  }

  /** The first k pieces have been dealt with: those among them to be listed have been appended, and granted. */
  ghost predicate SplitSoFar(list: seq<WChar>, trim: bool, removeEmpty: bool, granted: nat -> bool,
                             current: nat, k: nat, more: bool, asked: nat, l: seq<seq<WChar>>)
  {
    var all := Pieces(list, trim);
    && current <= |list| && k <= |all| && (more ==> all[k..] == Pieces(list[current..], trim)) && (!more ==> k == |all|)
    && asked == |Listed(all[..k], removeEmpty)| && l == NonEmpty(all[..k])
  }

  lemma SplitStarts(list: seq<WChar>, trim: bool, removeEmpty: bool, granted: nat -> bool)
    ensures SplitSoFar(list, trim, removeEmpty, granted, 0, 0, true, 0, [])
  {
    assert list[0..] == list && Pieces(list, trim)[0..] == Pieces(list, trim);
    assert Pieces(list, trim)[..0] == [];
    hide Pieces;
  }

  /** One piece more. */
  lemma SplitGoesOn(list: seq<WChar>, trim: bool, removeEmpty: bool, granted: nat -> bool,
                    current: nat, k: nat, asked: nat, l: seq<seq<WChar>>)
    requires NulFree(list) && SplitSoFar(list, trim, removeEmpty, granted, current, k, true, asked, l)
    ensures current <= |list| && k < |Pieces(list, trim)|
    ensures var n := NextComma(list[current..]);
      var piece := Piece(list[current..current + n], trim);
      && piece == Pieces(list, trim)[k] && NulFree(piece)
      && Strings(piece) == (if piece == [] then [] else [piece])
      && asked == |Listed(Pieces(list, trim)[..k], removeEmpty)| && l == NonEmpty(Pieces(list, trim)[..k])
      && SplitSoFar(list, trim, removeEmpty, granted, if current + n == |list| then current else current + n + 1, k + 1,
                    current + n != |list|, if piece == [] && removeEmpty then asked else asked + 1, l + Strings(piece))
  {
    hide *;
    SplitFacts(list, trim, removeEmpty, granted, current, k, asked, l);
    var all, t := Pieces(list, trim), list[current..];
    var n := NextComma(t);
    var piece := Piece(list[current..current + n], trim);
    assert t[..n] == list[current..current + n];
    PiecesUnfolded(t, trim);
    TailNulFree(list, current);
    HeadNulFree(t, n);
    PieceNulFree(t[..n], trim);
    OneString(piece);
    NextPiece(all, k, Pieces(t, trim), removeEmpty);
    if n < |t| { assert t[n + 1..] == list[current + n + 1..]; }
    MakeSplit(list, trim, removeEmpty, granted, if current + n == |list| then current else current + n + 1, k + 1,
              current + n != |list|, if piece == [] && removeEmpty then asked else asked + 1, l + Strings(piece));
  }

  lemma SplitFacts(list: seq<WChar>, trim: bool, removeEmpty: bool, granted: nat -> bool,
                   current: nat, k: nat, asked: nat, l: seq<seq<WChar>>)
    requires SplitSoFar(list, trim, removeEmpty, granted, current, k, true, asked, l)
    ensures var all := Pieces(list, trim);
      && current <= |list| && k <= |all| && all[k..] == Pieces(list[current..], trim)
      && asked == |Listed(all[..k], removeEmpty)| && l == NonEmpty(all[..k])
  {
    hide Pieces, NonEmpty, Listed;
  }

  lemma MakeSplit(list: seq<WChar>, trim: bool, removeEmpty: bool, granted: nat -> bool,
                  current: nat, k: nat, more: bool, asked: nat, l: seq<seq<WChar>>)
    requires var all := Pieces(list, trim);
      && current <= |list| && k <= |all| && (more ==> all[k..] == Pieces(list[current..], trim)) && (!more ==> k == |all|)
      && asked == |Listed(all[..k], removeEmpty)| && l == NonEmpty(all[..k])
    ensures SplitSoFar(list, trim, removeEmpty, granted, current, k, more, asked, l)
  {
    hide Pieces, NonEmpty, Listed;
  }

  lemma HeadNulFree(s: seq<WChar>, n: nat)
    requires NulFree(s) && n <= |s|
    ensures NulFree(s[..n])
  {
  }

  lemma NextPiece(all: seq<seq<WChar>>, k: nat, rest: seq<seq<WChar>>, removeEmpty: bool)
    requires k <= |all| && all[k..] == rest && rest != []
    ensures k < |all| && all[k] == rest[0] && all[k + 1..] == rest[1..] && (rest[1..] == [] ==> k + 1 == |all|)
    ensures NonEmpty(all[..k + 1]) == NonEmpty(all[..k]) + if rest[0] == [] then [] else [rest[0]]
    ensures |Listed(all[..k + 1], removeEmpty)| ==
            |Listed(all[..k], removeEmpty)| + if rest[0] == [] && removeEmpty then 0 else 1
  {
    assert |all| == k + |rest| && all[k..][0] == all[k];
    assert all[k + 1..] == all[k..][1..];
    assert all[..k + 1] == all[..k] + [all[k]];
    NonEmptyJoin(all[..k], [all[k]]);
    assert NonEmpty([all[k]]) == (if all[k] == [] then [] else [all[k]]) + NonEmpty([]);
  }

  lemma PiecesUnfolded(t: seq<WChar>, trim: bool)
    ensures var n := NextComma(t);
      && Pieces(t, trim)[0] == Piece(t[..n], trim)
      && Pieces(t, trim)[1..] == if n == |t| then [] else Pieces(t[n + 1..], trim)
  {
    hide Piece;
  }

  lemma TailNulFree(s: seq<WChar>, i: nat)
    requires NulFree(s) && i <= |s|
    ensures NulFree(s[i..])
  {
  }

  /**
    SplitCommaDelimitedString. Whether empty entries are to be removed makes no difference to
    the list: an empty string appended to a MULTISZ leaves no trace in it. `granted(i)` says
    whether memory can be had for the i-th append; when one is refused the list holds the
    entries before it.
   */
  method SplitCommaDelimitedString(list: seq<WChar>, trim: bool, removeEmpty: bool, out: MultiSz, granted: nat -> bool)
    returns (ok: bool)
    requires NulFree(list) && out.Valid()
    modifies out, out.buf
    ensures out.Valid()
    ensures ok ==> out.Contents() == Entries(list, trim)
    ensures var listed := Listed(Pieces(list, trim), removeEmpty);
      && ((forall i: nat :: i < |listed| ==> granted(i)) ==> ok)
      && (!ok ==> exists i: nat :: i < |listed| && !granted(i) && out.Contents() == NonEmpty(listed[..i]))
  {
    hide *;
    out.Reset();
    var current: nat, more, asked := 0, true, 0;
    ghost var k := 0;
    ghost var all := Pieces(list, trim);
    SplitStarts(list, trim, removeEmpty, granted);
    while more
      invariant out.Valid() && (out.buf == old(out.buf) || fresh(out.buf))
      invariant current <= |list|
      invariant SplitSoFar(list, trim, removeEmpty, granted, current, k, more, asked, out.Contents())
      decreases if more then 1 else 0, |list| - current
    {
      SplitGoesOn(list, trim, removeEmpty, granted, current, k, asked, out.Contents());
      var next := current + NextComma(list[current..]);
      var start, end := current, next;
      if trim {
        start, end := Trim(list, current, next);
      }
      PieceIs(list, current, next, start, end, trim);
      if start != end || !removeEmpty {
        SplitRefused(all, k, removeEmpty);
        var appended := out.Append(list[start..end], granted(asked));
        if !appended {
          return false;
        }
        asked := asked + 1;
      }
      assert out.Contents() + [] == out.Contents();
      k := k + 1;
      more := next != |list|;
      if more {
        current := next + 1;
      }
    }
    SplitEnds(list, trim, removeEmpty, granted, current, k, asked, out.Contents());
    ok := true;
  }

  lemma SplitEnds(list: seq<WChar>, trim: bool, removeEmpty: bool, granted: nat -> bool,
                  current: nat, k: nat, asked: nat, l: seq<seq<WChar>>)
    requires SplitSoFar(list, trim, removeEmpty, granted, current, k, false, asked, l)
    ensures l == Entries(list, trim)
  {
    var all := Pieces(list, trim);
    assert all[..|all|] == all;
    hide Pieces;
  }

  /** A piece to be listed is the next of those listed, behind the entries so far. */
  lemma SplitRefused(all: seq<seq<WChar>>, k: nat, removeEmpty: bool)
    requires k < |all| && (all[k] != [] || !removeEmpty)
    ensures var i, listed := |Listed(all[..k], removeEmpty)|, Listed(all, removeEmpty);
      i < |listed| && listed[..i] == Listed(all[..k], removeEmpty) && NonEmpty(listed[..i]) == NonEmpty(all[..k])
  {
    assert all == all[..k] + all[k..];
    NonEmptyJoin(all[..k], all[k..]);
    NonEmptyTwice(all[..k]);
    if removeEmpty {
      assert NonEmpty(all[k..]) == [all[k]] + NonEmpty(all[k..][1..]);
    }
  }

  lemma PieceIs(list: seq<WChar>, current: nat, next: nat, start: nat, end: nat, trim: bool)
    requires current <= next <= |list| && start <= end <= |list|
    requires list[start..end] == if trim then TrimRight(TrimLeft(list[current..next])) else list[current..next]
    ensures list[start..end] == Piece(list[current..next], trim)
    ensures start == end <==> list[start..end] == []
  {
  }

  function Joined(l: seq<seq<WChar>>): seq<WChar>
    requires l != []
  {
    if |l| == 1 then l[0] else l[0] + [COMMA] + Joined(l[1..])
  }

  /** A list written with commas is read back if and only if no entry is empty or holds a comma. */
  lemma EntriesOfJoined(l: seq<seq<WChar>>)
    requires l != []
    ensures Entries(Joined(l), false) == l <==> forall i :: 0 <= i < |l| ==> l[i] != [] && COMMA !in l[i]
  {
    hide *;
    if forall i :: 0 <= i < |l| ==> l[i] != [] && COMMA !in l[i] {
      PiecesOfJoined(l);
      NothingToRemove(l);
      EntriesAre(Joined(l), false);
    } else {
      EntriesAre(Joined(l), false);
      PiecesHoldNoComma(Joined(l));
      WhatIsLeft(Pieces(Joined(l), false));
    }
  }

  lemma EntriesAre(s: seq<WChar>, trim: bool)
    ensures Entries(s, trim) == NonEmpty(Pieces(s, trim))
  {
  }

  lemma {:induction false} PiecesOfJoined(l: seq<seq<WChar>>)
    requires l != [] && forall i :: 0 <= i < |l| ==> COMMA !in l[i]
    ensures Pieces(Joined(l), false) == l
  {
    hide *;
    JoinedStep(l);
    var s := Joined(l);
    PiecesUnfolded(s, false);
    if |l| == 1 {
      NextCommaIs(l[0], []);
      assert l[0] + [] == s && s[..|s|] == s;
      Untrimmed(s);
      OnePiece(Pieces(s, false), l);
    } else {
      var rest := [COMMA] + Joined(l[1..]);
      NextCommaIs(l[0], rest);
      PiecesOfJoined(l[1..]);
      assert s == l[0] + rest;
      assert s[..|l[0]|] == l[0] && s[|l[0]| + 1..] == Joined(l[1..]);
      Untrimmed(l[0]);
      OnePiece(Pieces(s, false), l);
    }
  }

  lemma JoinedStep(l: seq<seq<WChar>>)
    requires l != []
    ensures Joined(l) == if |l| == 1 then l[0] else l[0] + [COMMA] + Joined(l[1..])
  {
  }

  lemma Untrimmed(s: seq<WChar>)
    ensures Piece(s, false) == s
  {
  }

  lemma OnePiece(pieces: seq<seq<WChar>>, l: seq<seq<WChar>>)
    requires pieces != [] && l != [] && pieces[0] == l[0] && pieces[1..] == l[1..]
    ensures pieces == l
  {
    assert pieces == [pieces[0]] + pieces[1..] && l == [l[0]] + l[1..];
  }

  lemma {:induction false} PiecesHoldNoComma(s: seq<WChar>)
    ensures forall i :: 0 <= i < |Pieces(s, false)| ==> COMMA !in Pieces(s, false)[i]
  {
    var n := NextComma(s);
    if n < |s| { PiecesHoldNoComma(s[n + 1..]); }
  }

  /** Filtering leaves pieces only, and no empty one. */
  lemma {:induction false} WhatIsLeft(l: seq<seq<WChar>>)
    ensures forall i :: 0 <= i < |NonEmpty(l)| ==> NonEmpty(l)[i] != [] && NonEmpty(l)[i] in l
  {
    if l != [] {
      WhatIsLeft(l[1..]);
      forall i | 0 <= i < |NonEmpty(l)| ensures NonEmpty(l)[i] != [] && NonEmpty(l)[i] in l {
        var j := if l[0] == [] then i else i - 1;
        if j >= 0 { assert NonEmpty(l)[i] == NonEmpty(l[1..])[j] && NonEmpty(l[1..])[j] in l[1..]; }
      }
    }
  }

  /** Filtering changes nothing if and only if nothing is empty. */
  lemma {:induction false} NothingToRemove(l: seq<seq<WChar>>)
    ensures NonEmpty(l) == l <==> forall i :: 0 <= i < |l| ==> l[i] != []
    ensures |NonEmpty(l)| <= |l|
  {
    if l != [] {
      NothingToRemove(l[1..]);
      assert l == [l[0]] + l[1..];
      if l[0] != [] && NonEmpty(l) == l {
        assert NonEmpty(l)[1..] == NonEmpty(l[1..]) && NonEmpty(l)[1..] == l[1..];
      }
    }
  }

  /**
    Asked to keep empty entries, the split does so only when there are none to keep: what it
    lists is all the pieces if and only if no piece is empty.
   */
  lemma EmptyEntriesAreKept(list: seq<WChar>, trim: bool)
    ensures Entries(list, trim) == Pieces(list, trim) <==>
            forall i :: 0 <= i < |Pieces(list, trim)| ==> Pieces(list, trim)[i] != []
  {
    NothingToRemove(Pieces(list, trim));
    hide Pieces;
  }

  /** "a,,b" has three pieces, of which two are listed whatever the flag. */
  lemma EmptyEntryIsLost()
    ensures var list: seq<WChar> := [0x61, COMMA, COMMA, 0x62];
      Pieces(list, false) == [[0x61], [], [0x62]] && Entries(list, false) == [[0x61], [0x62]]
  {
    var l: seq<seq<WChar>> := [[0x61], [], [0x62]];
    var list: seq<WChar> := [0x61, COMMA, COMMA, 0x62];
    assert l[1..] == [[], [0x62]] && l[2..] == [[0x62]] && l[1..][1..] == l[2..];
    assert Joined(l[2..]) == [0x62] && Joined(l[1..]) == [COMMA, 0x62] && Joined(l) == list;
    PiecesOfJoined(l);
    hide Pieces;
    assert NonEmpty(l[2..]) == [[0x62]] && NonEmpty(l[1..]) == [[0x62]];
  }

  lemma {:induction false} NextCommaIs(a: seq<WChar>, rest: seq<WChar>)
    requires COMMA !in a && (rest == [] || rest[0] == COMMA)
    ensures NextComma(a + rest) == |a|
  {
    if a == [] {
      assert a + rest == rest;
    } else {
      assert (a + rest)[1..] == a[1..] + rest;
      NextCommaIs(a[1..], rest);
    }
  }
}
