/** STRA: a NUL-terminated byte string in a growable buffer, escaped through a temporary
    and unescaped in place. */
module Stras {
  import opened EscapeCodes

  // --------------------------------------------------------------- escaping under pressure

  const MAXDWORD: nat := 0xFFFF_FFFF

  /** The temporary's inline buffer. */
  const INLINE_SIZE: nat := 512

  /**
    The temporary string while a text is scanned: whether it has been started, what it holds,
    the size of its buffer, and how many requests for memory have been made. `Failed` when one
    of them was refused, or could not be made, and the result was looked at.
   */
  datatype Temp = Temp(started: bool, text: seq<Byte>, size: nat, asks: nat) | Failed

  /** A buffer of this size cannot be had large enough; `refused(k)` is the answer to request k. */
  predicate Denied(size: nat, want: nat, asks: nat, refused: nat -> bool) {
    want > size && (want > MAXDWORD || refused(asks))
  }

  /** BUFFER::Resize: memory is asked for only beyond the present size, and then exactly what is wanted. */
  function Resized(t: Temp, want: nat, refused: nat -> bool): Temp {
    if t.Failed? || want <= t.size then t
    else if Denied(t.size, want, t.asks, refused) then Failed
    else t.(size := want, asks := t.asks + 1)
  }

  /** Put text behind the first n characters of the temporary, with room for the NUL. */
  function Put(t: Temp, n: nat, piece: seq<Byte>, refused: nat -> bool): Temp
    requires t.Temp? ==> n <= |t.text|
  {
    var r := Resized(t, n + |piece| + 1, refused);
    if r.Failed? then Failed else r.(text := r.text[..n] + piece)
  }

  /** The first character to be escaped: twice the length, in a DWORD, and what has been passed. */
  function Started(t: Temp, s: seq<Byte>, i: nat, refused: nat -> bool): Temp
    requires i <= |s| && t.Temp?
  {
    var r := Resized(t.(started := true), (2 * |s|) % (MAXDWORD + 1), refused);
    if i > 0 then Put(r, 0, s[..i], refused) else r
  }

  /** A character that is escaped; the whole text's length and three more is asked for each time. */
  function WithTriplet(t: Temp, s: seq<Byte>, ch: Byte, refused: nat -> bool): Temp {
    var r := Resized(t, |s| + 3, refused);
    if r.Failed? then Failed else Put(r, |r.text|, Triplet(ch), refused)
  }

  /** A character that is not escaped: nobody looks whether it could be appended. */
  function Loose(t: Temp, ch: Byte, refused: nat -> bool): Temp {
    if t.Failed? then Failed
    else if Denied(t.size, |t.text| + 2, t.asks, refused) then
      t.(asks := if |t.text| + 2 > MAXDWORD then t.asks else t.asks + 1)
    else Put(t, |t.text|, [ch], refused)
  }

  function Scanned(p: Byte -> bool, refused: nat -> bool, s: seq<Byte>, i: nat, t: Temp): Temp
    requires i < |s|
  {
    if t.Failed? then Failed
    else if p(s[i]) then WithTriplet(if t.started then t else Started(t, s, i, refused), s, s[i], refused)
    else if t.started then Loose(t, s[i], refused)
    else t
  }

  /** The temporary after the first n characters. */
  ghost function Filled(p: Byte -> bool, refused: nat -> bool, s: seq<Byte>, n: nat): Temp
    requires n <= |s|
  {
    if n == 0 then Temp(false, [], INLINE_SIZE, 0)
    else Scanned(p, refused, s, n - 1, Filled(p, refused, s, n - 1))
  }

  /** Character i needs no escape, its append outgrows the buffer, and memory for it is refused. */
  ghost predicate Dropped(p: Byte -> bool, refused: nat -> bool, s: seq<Byte>, i: nat)
    requires i < |s|
  {
    var t := Filled(p, refused, s, i);
    && (exists k :: 0 <= k < i && p(s[k])) && !p(s[i])
    && t.Temp? && Denied(t.size, |t.text| + 2, t.asks, refused)
  }

  /** The buffer once escaping has started, before anything has outgrown it. */
  function Room(s: seq<Byte>): nat {
    var twice := (2 * |s|) % (MAXDWORD + 1);
    var room := if twice > INLINE_SIZE then twice else INLINE_SIZE;
    if |s| + 3 > room then |s| + 3 else room
  }

  ghost predicate NeedsEscape(p: Byte -> bool, s: seq<Byte>) {
    exists i :: 0 <= i < |s| && p(s[i])
  }

  /** None of the first n characters is dropped. */
  ghost predicate Lossless(p: Byte -> bool, refused: nat -> bool, s: seq<Byte>, n: nat)
    requires n <= |s|
  {
    forall i: nat :: i < n ==> !Dropped(p, refused, s, i)
  }

  /** What is known of the temporary after n characters. */
  ghost predicate Sound(p: Byte -> bool, refused: nat -> bool, s: seq<Byte>, n: nat)
    requires n <= |s|
  {
    var t := Filled(p, refused, s, n);
    t.Temp? ==>
      && (t.started <==> exists k :: 0 <= k < n && p(s[k]))
      && (!t.started ==> t.text == [] && t.size == INLINE_SIZE && t.asks == 0)
      && (t.started ==> Room(s) <= t.size && (t.size == Room(s) || t.size == |t.text| + 1))
      && (t.started ==> |t.text| <= |Escaped(p, s[..n])|)
      && (t.started && Lossless(p, refused, s, n) ==> t.text == Escaped(p, s[..n]))
      && (t.started && !Lossless(p, refused, s, n) ==> |t.text| < |Escaped(p, s[..n])|)
  }

  lemma {:induction false} AllSound(p: Byte -> bool, refused: nat -> bool, s: seq<Byte>, n: nat)
    requires n <= |s|
    ensures Sound(p, refused, s, n)
  {
    hide *;
    FilledStep(p, refused, s, n);
    if n == 0 {
      StartsSound(p, refused, s);
    } else {
      AllSound(p, refused, s, n - 1);
      EscapedMore(p, s[..n - 1], s[n - 1]);
      assert s[..n] == s[..n - 1] + [s[n - 1]];
      StaysSound(p, refused, s, n);
    }
  }

  lemma FilledStep(p: Byte -> bool, refused: nat -> bool, s: seq<Byte>, n: nat)
    requires n <= |s|
    ensures n == 0 ==> Filled(p, refused, s, n) == Temp(false, [], INLINE_SIZE, 0)
    ensures n > 0 ==> Filled(p, refused, s, n) == Scanned(p, refused, s, n - 1, Filled(p, refused, s, n - 1))
  {}

  lemma StartsSound(p: Byte -> bool, refused: nat -> bool, s: seq<Byte>)
    ensures Sound(p, refused, s, 0)
  {}

  lemma StaysSound(p: Byte -> bool, refused: nat -> bool, s: seq<Byte>, n: nat)
    requires 0 < n <= |s| && Sound(p, refused, s, n - 1)
    requires Filled(p, refused, s, n) == Scanned(p, refused, s, n - 1, Filled(p, refused, s, n - 1))
    requires Escaped(p, s[..n]) == Escaped(p, s[..n - 1]) + Piece(p, s[n - 1])
    ensures Sound(p, refused, s, n)
  {
    var t := Filled(p, refused, s, n - 1);
    if t.Temp? {
      ScannedShape(p, refused, s, n - 1, t);
      LosslessStep(p, refused, s, n);
      PieceNotEmpty(p, s[n - 1]);
      if !t.started {
        EscapedUntouched(p, s[..n - 1]);
        LosslessSoFar(p, refused, s, n);
      }
    }
    hide Filled, Escaped, Scanned, Denied, Room, Dropped, Piece, Lossless;
  }

  lemma LosslessStep(p: Byte -> bool, refused: nat -> bool, s: seq<Byte>, n: nat)
    requires 0 < n <= |s|
    ensures Lossless(p, refused, s, n) <==> Lossless(p, refused, s, n - 1) && !Dropped(p, refused, s, n - 1)
    ensures var t := Filled(p, refused, s, n - 1);
      Dropped(p, refused, s, n - 1) <==>
        (exists k :: 0 <= k < n - 1 && p(s[k])) && !p(s[n - 1]) && t.Temp? && Denied(t.size, |t.text| + 2, t.asks, refused)
  {
    hide Filled, Denied;
  }

  lemma LosslessSoFar(p: Byte -> bool, refused: nat -> bool, s: seq<Byte>, n: nat)
    requires 0 < n <= |s| && forall k :: 0 <= k < n - 1 ==> !p(s[k])
    ensures Lossless(p, refused, s, n)
  {
    hide Filled, Denied;
  }

  lemma ResizedShape(t: Temp, want: nat, refused: nat -> bool)
    requires t.Temp?
    ensures var r := Resized(t, want, refused);
      r.Temp? ==>
        && r.started == t.started && r.text == t.text && r.asks >= t.asks
        && r.size == if want > t.size then want else t.size
  {}

  lemma PutShape(t: Temp, n: nat, piece: seq<Byte>, refused: nat -> bool)
    requires t.Temp? && n <= |t.text|
    ensures var r := Put(t, n, piece, refused);
      r.Temp? ==>
        && r.started == t.started && r.text == t.text[..n] + piece && r.asks >= t.asks
        && r.size == if n + |piece| + 1 > t.size then n + |piece| + 1 else t.size
  {}

  lemma StartedShape(t: Temp, s: seq<Byte>, i: nat, refused: nat -> bool)
    requires i < |s| && t.Temp? && t.text == [] && t.size == INLINE_SIZE
    ensures var r := Started(t, s, i, refused);
      r.Temp? ==>
        && r.started && r.text == s[..i] && r.asks >= t.asks && t.size <= r.size
        && (if |s| + 3 > r.size then |s| + 3 else r.size) == Room(s)
  {
    var twice := (2 * |s|) % (MAXDWORD + 1);
    ResizedShape(t.(started := true), twice, refused);
    var r := Resized(t.(started := true), twice, refused);
    if r.Temp? && i > 0 { PutShape(r, 0, s[..i], refused); }
    hide Resized, Put;
  }

  /** One character's effect on a temporary that has not failed. */
  lemma ScannedShape(p: Byte -> bool, refused: nat -> bool, s: seq<Byte>, i: nat, t: Temp)
    requires i < |s| && t.Temp?
    requires !t.started ==> t.text == [] && t.size == INLINE_SIZE && t.asks == 0
    requires t.started ==> Room(s) <= t.size
    ensures var t' := Scanned(p, refused, s, i, t);
      t'.Temp? ==>
        && (t'.started <==> t.started || p(s[i]))
        && (!t'.started ==> t' == t)
        && (t'.started ==> Room(s) <= t'.size && t.size <= t'.size && t.asks <= t'.asks)
        && (t'.started && (t.size == Room(s) || t.size == |t.text| + 1 || !t.started) ==>
             t'.size == Room(s) || t'.size == |t'.text| + 1)
        && (t'.started ==>
             t'.text == (if t.started then t.text else s[..i]) +
                        if t.started && !p(s[i]) && Denied(t.size, |t.text| + 2, t.asks, refused) then [] else Piece(p, s[i]))
  {
    if p(s[i]) {
      if !t.started { StartedShape(t, s, i, refused); }
      var b := if t.started then t else Started(t, s, i, refused);
      if b.Temp? {
        ResizedShape(b, |s| + 3, refused);
        var r := Resized(b, |s| + 3, refused);
        if r.Temp? { PutShape(r, |r.text|, Triplet(s[i]), refused); }
      }
    } else if t.started {
      PutShape(t, |t.text|, [s[i]], refused);
    }
    RoomAtLeast(s);
    hide Triplet, Resized, Put, Started, Room;
  }

  lemma RoomAtLeast(s: seq<Byte>)
    ensures |s| + 3 <= Room(s) && INLINE_SIZE <= Room(s)
  {}

  /**
    Where the scan reports success the result is the right one if and only if no character was
    dropped; nothing is dropped if the right one fits the buffer as it is when escaping starts.
   */
  lemma EscapeIsRight(p: Byte -> bool, refused: nat -> bool, s: seq<Byte>)
    ensures var t := Filled(p, refused, s, |s|);
      && (t.Temp? && !t.started ==> Escaped(p, s) == s)
      && (t.Temp? && t.started ==> (t.text == Escaped(p, s) <==> forall i: nat :: i < |s| ==> !Dropped(p, refused, s, i)))
    ensures |Escaped(p, s)| + 1 <= Room(s) ==> forall i: nat :: i < |s| ==> !Dropped(p, refused, s, i)
  {
    AllSound(p, refused, s, |s|);
    assert s[..|s|] == s;
    var t := Filled(p, refused, s, |s|);
    if t.Temp? && !t.started { EscapedUntouched(p, s); }
    if |Escaped(p, s)| + 1 <= Room(s) {
      forall i: nat | i < |s| ensures !Dropped(p, refused, s, i) {
        AllSound(p, refused, s, i);
        EscapedPrefix(p, s, i);
      }
    }
    hide Filled, Escaped, Room;
  }

  lemma {:induction false} EscapedPrefix(p: Byte -> bool, s: seq<Byte>, n: nat)
    requires n < |s|
    ensures |Escaped(p, s[..n])| + |Piece(p, s[n])| <= |Escaped(p, s)|
    decreases |s| - n
  {
    EscapedMore(p, s[..n], s[n]);
    assert s[..n + 1] == s[..n] + [s[n]];
    if n + 1 < |s| {
      EscapedPrefix(p, s, n + 1);
    } else {
      assert s[..n + 1] == s;
    }
    hide Escaped;
  }

  /** Character i needs no escape, comes after one that does, and outgrows the buffer escaping starts with. */
  predicate Outgrows(p: Byte -> bool, s: seq<Byte>, i: nat)
    requires i < |s|
  {
    !p(s[i]) && (exists k :: 0 <= k < i && p(s[k])) && |Escaped(p, s[..i])| + 2 > Room(s)
  }

  /** Success is reported, the copy back included, and the text is not the right one. */
  ghost predicate LosesSilently(p: Byte -> bool, refused: nat -> bool, s: seq<Byte>) {
    var t := Filled(p, refused, s, |s|);
    t.Temp? && t.started && t.text != Escaped(p, s) && |t.text| < MAXDWORD && !refused(t.asks)
  }

  /** Of a text whose escaped form fits a DWORD, characters can be lost silently if and only if one outgrows the buffer. */
  lemma LossIsPossible(p: Byte -> bool, s: seq<Byte>)
    requires |Escaped(p, s)| < MAXDWORD
    ensures (exists refused :: LosesSilently(p, refused, s)) <==> exists i: nat :: i < |s| && Outgrows(p, s, i)
  {
    if refused :| LosesSilently(p, refused, s) {
      var i := LossOutgrows(p, refused, s);
    }
    if i: nat :| i < |s| && Outgrows(p, s, i) {
      var refused := LosesAt(p, s, i);
    }
    hide Outgrows, LosesSilently;
  }

  lemma LossOutgrows(p: Byte -> bool, refused: nat -> bool, s: seq<Byte>) returns (i: nat)
    requires LosesSilently(p, refused, s)
    ensures i < |s| && Outgrows(p, s, i)
  {
    EscapeIsRight(p, refused, s);
    hide Filled, Escaped, Room, Denied;
    i := 0;
    while !Dropped(p, refused, s, i)
      invariant i < |s| && forall k: nat :: k < i ==> !Dropped(p, refused, s, k)
      decreases |s| - i
    {
      if i + 1 == |s| { assert false; }
      i := i + 1;
    }
    AllSound(p, refused, s, i);
    DroppedOutgrows(p, refused, s, i);
  }

  lemma DroppedOutgrows(p: Byte -> bool, refused: nat -> bool, s: seq<Byte>, i: nat)
    requires i < |s| && Dropped(p, refused, s, i) && Sound(p, refused, s, i)
    requires forall k: nat :: k < i ==> !Dropped(p, refused, s, k)
    ensures Outgrows(p, s, i)
  {
    hide Filled, Escaped, Room;
  }

  /** Refusing the request made for that character, and no other, loses it. */
  lemma LosesAt(p: Byte -> bool, s: seq<Byte>, i: nat) returns (refused: nat -> bool)
    requires |Escaped(p, s)| < MAXDWORD && i < |s| && Outgrows(p, s, i)
    ensures LosesSilently(p, refused, s)
  {
    hide *;
    var none := (k: nat) => false;
    SomeEscape(p, s, i);
    AllGranted(p, none, s, 0, i);
    NoneDropped(p, none, s, i);
    var a := Filled(p, none, s, i).asks;
    refused := (k: nat) => k == a;
    AreAlike(none, refused, a);
    SameUntil(p, none, refused, s, i, a);
    DroppedThere(p, none, refused, s, i);
    AllGranted(p, refused, s, i + 1, |s|);
    SilentLoss(p, refused, s, i);
  }

  lemma AreAlike(f: nat -> bool, g: nat -> bool, a: nat)
    requires forall k: nat :: !f(k) && (g(k) <==> k == a)
    ensures Alike(f, g, a)
  {}

  lemma SomeEscape(p: Byte -> bool, s: seq<Byte>, i: nat)
    requires i < |s| && Outgrows(p, s, i)
    ensures NeedsEscape(p, s) && !p(s[i]) && |Escaped(p, s[..i])| + 2 > Room(s)
    ensures exists k :: 0 <= k < i && p(s[k])
  {
    hide Escaped, Room;
  }

  lemma NoneDropped(p: Byte -> bool, refused: nat -> bool, s: seq<Byte>, n: nat)
    requires n < |s| && (forall k: nat :: !refused(k)) && |Escaped(p, s)| < MAXDWORD
    ensures forall i: nat :: i < n ==> !Dropped(p, refused, s, i)
  {
    forall i: nat | i < n ensures !Dropped(p, refused, s, i) {
      AllSound(p, refused, s, i);
      EscapedPrefix(p, s, i);
      PieceNotEmpty(p, s[i]);
      hide Filled, Escaped, Piece, Room;
    }
    hide Dropped;
  }

  /** From n on no request is refused, so the scan goes on to m. */
  lemma {:induction false} AllGranted(p: Byte -> bool, refused: nat -> bool, s: seq<Byte>, n: nat, m: nat)
    requires n <= m <= |s| && |Escaped(p, s)| < MAXDWORD && NeedsEscape(p, s)
    requires Filled(p, refused, s, n).Temp? || n == 0
    requires n == 0 ==> forall k: nat :: !refused(k)
    requires n > 0 ==> forall k: nat :: k >= Filled(p, refused, s, n).asks ==> !refused(k)
    ensures Filled(p, refused, s, m).Temp?
    ensures n > 0 ==> Filled(p, refused, s, m).asks >= Filled(p, refused, s, n).asks
    decreases m - n
  {
    hide *;
    FilledStep(p, refused, s, m);
    if m > n {
      AllGranted(p, refused, s, n, m - 1);
      AllSound(p, refused, s, m - 1);
      SoundSize(p, refused, s, m - 1);
      ScannedGranted(p, refused, s, m - 1, Filled(p, refused, s, m - 1));
    }
  }

  lemma SoundSize(p: Byte -> bool, refused: nat -> bool, s: seq<Byte>, i: nat)
    requires i < |s| && Sound(p, refused, s, i) && Filled(p, refused, s, i).Temp?
    requires |Escaped(p, s)| < MAXDWORD && NeedsEscape(p, s)
    ensures var t := Filled(p, refused, s, i);
      && (!t.started ==> t.text == [] && t.size == INLINE_SIZE && t.asks == 0)
      && (t.started ==> |t.text| + |Piece(p, s[i])| < MAXDWORD && Room(s) <= t.size)
      && (!t.started ==> i + |Piece(p, s[i])| < MAXDWORD)
      && |s| + 3 <= MAXDWORD
  {
    EscapedPrefix(p, s, i);
    AtLeastTwoMore(p, s);
    if !Filled(p, refused, s, i).started { EscapedUntouched(p, s[..i]); }
    hide Filled, Escaped, Room, Dropped, Piece;
  }

  lemma AtLeastTwoMore(p: Byte -> bool, s: seq<Byte>)
    requires NeedsEscape(p, s)
    ensures |Escaped(p, s)| >= |s| + 2
  {
    var i :| 0 <= i < |s| && p(s[i]);
    AtLeastAsLong(p, s[..i]);
    EscapedMore(p, s[..i], s[i]);
    assert s == s[..i] + [s[i]] + s[i + 1..];
    AtLeastAsLong(p, s[i + 1..]);
    EscapedJoin(p, s[..i] + [s[i]], s[i + 1..]);
    hide Escaped;
  }

  lemma {:induction false} EscapedJoin(p: Byte -> bool, a: seq<Byte>, b: seq<Byte>)
    ensures Escaped(p, a + b) == Escaped(p, a) + Escaped(p, b)
  {
    hide *;
    EscapedStep(p, a);
    EscapedStep(p, a + b);
    if a == [] {
      assert a + b == b;
    } else {
      EscapedJoin(p, a[1..], b);
      assert (a + b)[1..] == a[1..] + b;
      Joined(Piece(p, a[0]), Escaped(p, a[1..]), Escaped(p, b));
    }
  }

  lemma EscapedStep(p: Byte -> bool, s: seq<Byte>)
    ensures Escaped(p, s) == if s == [] then [] else Piece(p, s[0]) + Escaped(p, s[1..])
  {
  }

  lemma {:induction false} AtLeastAsLong(p: Byte -> bool, s: seq<Byte>)
    ensures |Escaped(p, s)| >= |s|
  {
    if s != [] {
      AtLeastAsLong(p, s[1..]);
      PieceNotEmpty(p, s[0]);
    }
    hide Piece;
  }

  lemma PieceNotEmpty(p: Byte -> bool, ch: Byte)
    ensures |Piece(p, ch)| > 0
    ensures ch != 0 ==> NulFree(Piece(p, ch))
  {
  }

  lemma ScannedGranted(p: Byte -> bool, refused: nat -> bool, s: seq<Byte>, i: nat, t: Temp)
    requires i < |s| && t.Temp? && (forall k: nat :: k >= t.asks ==> !refused(k))
    requires !t.started ==> t.text == [] && t.size == INLINE_SIZE && t.asks == 0
    requires t.started ==> |t.text| + |Piece(p, s[i])| < MAXDWORD
    requires !t.started ==> i + |Piece(p, s[i])| < MAXDWORD
    requires |s| + 3 <= MAXDWORD
    ensures Scanned(p, refused, s, i, t).Temp? && Scanned(p, refused, s, i, t).asks >= t.asks
  {
    hide Triplet;
  }

  /** Two heaps that answer the first requests alike leave the same temporary. */
  lemma {:induction false} SameUntil(p: Byte -> bool, f: nat -> bool, g: nat -> bool, s: seq<Byte>, n: nat, a: nat)
    requires n <= |s| && Filled(p, f, s, n).Temp? && Filled(p, f, s, n).asks <= a
    requires Alike(f, g, a)
    ensures Filled(p, g, s, n) == Filled(p, f, s, n)
  {
    hide *;
    FilledStep(p, f, s, n);
    FilledStep(p, g, s, n);
    if n > 0 {
      ScannedSame(p, f, g, s, n - 1, Filled(p, f, s, n - 1), a);
      SameUntil(p, f, g, s, n - 1, a);
    }
  }

  ghost predicate Alike(f: nat -> bool, g: nat -> bool, a: nat) {
    forall k: nat :: k < a ==> f(k) == g(k)
  }

  lemma ResizedSame(t: Temp, want: nat, f: nat -> bool, g: nat -> bool, a: nat)
    requires Alike(f, g, a) && Resized(t, want, f).Temp? && Resized(t, want, f).asks <= a
    ensures t.Temp? && t.asks <= a && Resized(t, want, g) == Resized(t, want, f)
  {}

  lemma PutSame(t: Temp, n: nat, piece: seq<Byte>, f: nat -> bool, g: nat -> bool, a: nat)
    requires Alike(f, g, a) && (t.Temp? ==> n <= |t.text|)
    requires Put(t, n, piece, f).Temp? && Put(t, n, piece, f).asks <= a
    ensures t.Temp? && t.asks <= a && Put(t, n, piece, g) == Put(t, n, piece, f)
  {
    ResizedSame(t, n + |piece| + 1, f, g, a);
    hide Resized, Alike;
  }

  lemma StartedSame(t: Temp, s: seq<Byte>, i: nat, f: nat -> bool, g: nat -> bool, a: nat)
    requires Alike(f, g, a) && i <= |s| && t.Temp?
    requires Started(t, s, i, f).Temp? && Started(t, s, i, f).asks <= a
    ensures t.asks <= a && Started(t, s, i, g) == Started(t, s, i, f)
  {
    var twice := (2 * |s|) % (MAXDWORD + 1);
    if i > 0 { PutSame(Resized(t.(started := true), twice, f), 0, s[..i], f, g, a); }
    ResizedSame(t.(started := true), twice, f, g, a);
    hide Resized, Put, Alike;
  }

  lemma TripletSame(t: Temp, s: seq<Byte>, ch: Byte, f: nat -> bool, g: nat -> bool, a: nat)
    requires Alike(f, g, a) && WithTriplet(t, s, ch, f).Temp? && WithTriplet(t, s, ch, f).asks <= a
    ensures t.Temp? && t.asks <= a && WithTriplet(t, s, ch, g) == WithTriplet(t, s, ch, f)
  {
    var r := Resized(t, |s| + 3, f);
    PutSame(r, |r.text|, Triplet(ch), f, g, a);
    ResizedSame(t, |s| + 3, f, g, a);
    hide Resized, Put, Alike, Triplet;
  }

  lemma ScannedSame(p: Byte -> bool, f: nat -> bool, g: nat -> bool, s: seq<Byte>, i: nat, t: Temp, a: nat)
    requires Alike(f, g, a) && i < |s| && Scanned(p, f, s, i, t).Temp? && Scanned(p, f, s, i, t).asks <= a
    ensures t.Temp? && t.asks <= a && Scanned(p, g, s, i, t) == Scanned(p, f, s, i, t)
  {
    if p(s[i]) {
      TripletSame(if t.started then t else Started(t, s, i, f), s, s[i], f, g, a);
      if !t.started { StartedSame(t, s, i, f, g, a); }
      hide Started, WithTriplet;
    }
  }

  lemma DroppedThere(p: Byte -> bool, none: nat -> bool, refused: nat -> bool, s: seq<Byte>, i: nat)
    requires i < |s| && !p(s[i]) && (exists k :: 0 <= k < i && p(s[k])) && |Escaped(p, s[..i])| + 2 > Room(s)
    requires |Escaped(p, s)| < MAXDWORD
    requires var t := Filled(p, refused, s, i); t.Temp? && forall k: nat :: refused(k) <==> k == t.asks
    requires forall k: nat :: k < i ==> !Dropped(p, none, s, k)
    requires Filled(p, none, s, i) == Filled(p, refused, s, i)
    ensures Dropped(p, refused, s, i)
    ensures Filled(p, refused, s, i + 1).Temp?
    ensures forall k: nat :: k >= Filled(p, refused, s, i + 1).asks ==> !refused(k)
  {
    AllSound(p, none, s, i);
    EscapedPrefix(p, s, i);
    PieceNotEmpty(p, s[i]);
    FilledStep(p, refused, s, i + 1);
    hide Filled, Escaped, Room, Piece, Put, Started, WithTriplet;
  }

  lemma SilentLoss(p: Byte -> bool, refused: nat -> bool, s: seq<Byte>, i: nat)
    requires i < |s| && Dropped(p, refused, s, i) && |Escaped(p, s)| < MAXDWORD
    requires Filled(p, refused, s, |s|).Temp? && !refused(Filled(p, refused, s, |s|).asks)
    requires exists k :: 0 <= k < i && p(s[k])
    ensures LosesSilently(p, refused, s)
  {
    AllSound(p, refused, s, |s|);
    assert s[..|s|] == s;
    hide Filled, Escaped, Room, Denied;
  }

  /** As long as the result fits the inline buffer, no memory is asked for. */
  lemma {:induction false} NoneAskedFor(p: Byte -> bool, refused: nat -> bool, s: seq<Byte>, n: nat)
    requires 0 < n <= |s| && 2 * |s| <= INLINE_SIZE && |s| + 3 <= INLINE_SIZE && p(s[0])
    requires |Escaped(p, s[..n])| + 1 <= INLINE_SIZE
    ensures Filled(p, refused, s, n) == Temp(true, Escaped(p, s[..n]), INLINE_SIZE, 0)
  {
    hide *;
    FilledStep(p, refused, s, n);
    FilledStep(p, refused, s, n - 1);
    EscapedMore(p, s[..n - 1], s[n - 1]);
    assert s[..n] == s[..n - 1] + [s[n - 1]];
    if n == 1 {
      EscapedNothing(p);
      FirstScanned(p, refused, s);
    } else {
      NoneAskedFor(p, refused, s, n - 1);
      FitsInline(p, refused, s, n - 1, Escaped(p, s[..n - 1]));
    }
  }

  lemma EscapedNothing(p: Byte -> bool)
    ensures Escaped(p, []) == []
  {
  }

  lemma FirstScanned(p: Byte -> bool, refused: nat -> bool, s: seq<Byte>)
    requires s != [] && 2 * |s| <= INLINE_SIZE && |s| + 3 <= INLINE_SIZE && p(s[0])
    ensures Scanned(p, refused, s, 0, Temp(false, [], INLINE_SIZE, 0)) == Temp(true, Piece(p, s[0]), INLINE_SIZE, 0)
  {
    TripletOf(s[0]);
    hide Triplet;
  }

  lemma FitsInline(p: Byte -> bool, refused: nat -> bool, s: seq<Byte>, i: nat, text: seq<Byte>)
    requires i < |s| && |s| + 3 <= INLINE_SIZE && |text + Piece(p, s[i])| + 1 <= INLINE_SIZE
    ensures Scanned(p, refused, s, i, Temp(true, text, INLINE_SIZE, 0)) == Temp(true, text + Piece(p, s[i]), INLINE_SIZE, 0)
  {
    TripletOf(s[i]);
    hide Triplet;
  }

  lemma {:induction false} RowOfPercents(p: Byte -> bool, s: seq<Byte>, n: nat)
    requires n <= |s| && p(PERCENT) && forall k :: 0 <= k < n ==> s[k] == PERCENT
    ensures |Escaped(p, s[..n])| == 3 * n
  {
    if n > 0 {
      RowOfPercents(p, s, n - 1);
      EscapedMore(p, s[..n - 1], s[n - 1]);
      assert s[..n] == s[..n - 1] + [s[n - 1]];
      TripletOf(PERCENT);
    }
    hide Escaped, Triplet;
  }

  /** 170 '%' and "aa": with its NUL all but the last character fills the inline buffer. */
  function Overfull(): seq<Byte> {
    seq(170, k => PERCENT) + [0x61, 0x61]
  }

  /** Success is reported although the last 'a' is lost, the only request for memory while scanning being refused. */
  lemma SuccessWithALostCharacter()
    ensures var s, refused := Overfull(), (k: nat) => k == 0;
      && |s| == 172 && LosesSilently(ShouldEscapeUrl, refused, s)
      && Filled(ShouldEscapeUrl, refused, s, 172) == Temp(true, Escaped(ShouldEscapeUrl, s[..171]), INLINE_SIZE, 1)
      && Escaped(ShouldEscapeUrl, s) == Escaped(ShouldEscapeUrl, s[..171]) + [0x61]
  {
    var s, refused := Overfull(), (k: nat) => k == 0;
    assert ShouldEscapeUrl(PERCENT) && !ShouldEscapeUrl(0x61);
    hide *;
    OverfullIs();
    RowOfPercents(ShouldEscapeUrl, s, 170);
    PieceOfA();
    EscapedMore(ShouldEscapeUrl, s[..170], s[170]);
    assert s[..171] == s[..170] + [s[170]];
    EscapedMore(ShouldEscapeUrl, s[..171], s[171]);
    assert s == s[..171] + [s[171]];
    NoneAskedFor(ShouldEscapeUrl, refused, s, 171);
    FilledStep(ShouldEscapeUrl, refused, s, 172);
    LastRefused(ShouldEscapeUrl, refused, s, Escaped(ShouldEscapeUrl, s[..171]));
    MakeSilent(ShouldEscapeUrl, refused, s);
  }

  lemma OverfullIs()
    ensures |Overfull()| == 172 && (forall k :: 0 <= k < 170 ==> Overfull()[k] == PERCENT)
    ensures Overfull()[170] == 0x61 && Overfull()[171] == 0x61 && INLINE_SIZE == 512 < MAXDWORD
  {}

  lemma PieceOfA()
    ensures Piece(ShouldEscapeUrl, 0x61) == [0x61]
  {}

  lemma LastRefused(p: Byte -> bool, refused: nat -> bool, s: seq<Byte>, text: seq<Byte>)
    requires |s| == 172 && !p(s[171]) && refused(0) && |text| == 511
    ensures Scanned(p, refused, s, 171, Temp(true, text, INLINE_SIZE, 0)) == Temp(true, text, INLINE_SIZE, 1)
  {}

  lemma MakeSilent(p: Byte -> bool, refused: nat -> bool, s: seq<Byte>)
    requires var t := Filled(p, refused, s, |s|);
      t.Temp? && t.started && t.text != Escaped(p, s) && |t.text| < MAXDWORD && !refused(t.asks)
    ensures LosesSilently(p, refused, s)
  {
    hide Filled, Escaped;
  }

  // -------------------------------------------------------------------- unescaping in place

  /** The rewriting loop between two of its steps: `now` is the buffer, `dest` and `scan` the
      two pointers, and nothing from the scan pointer on has been touched. */
  ghost predicate Progress(narrow: nat -> seq<Byte>, s: seq<Byte>, now: seq<Byte>, dest: nat, scan: nat, changed: bool)
  {
    && dest <= scan <= |s| < |now|
    && (forall i :: scan <= i < |s| ==> now[i] == s[i]) && now[|s|] == 0
    && if changed then
         FirstEscape(s) < |s| && now[..dest] + Plain(narrow, s[scan..]) == Rewritten(narrow, s)
       else
         && now[..|s|] == s && FirstPercent(s) <= scan <= FirstEscape(s)
         && dest == FirstPercent(s) + Percents(s, scan)
  }

  lemma ProgressFacts(narrow: nat -> seq<Byte>, s: seq<Byte>, now: seq<Byte>, dest: nat, scan: nat, changed: bool)
    requires Progress(narrow, s, now, dest, scan, changed)
    ensures dest <= scan <= |s| < |now|
    ensures forall i :: scan <= i < |s| ==> now[i] == s[i]
    ensures now[|s|] == 0
  {
  }

  lemma StartsOff(narrow: nat -> seq<Byte>, s: seq<Byte>, now: seq<Byte>)
    requires |s| < |now| && now[..|s|] == s && now[|s|] == 0
    ensures Progress(narrow, s, now, FirstPercent(s), FirstPercent(s), false)
  {
    hide Plain, EscapeAt, Rewritten;
    PercentFirst(s);
    PercentsBounded(s, FirstPercent(s));
  }

  /** What stands in the buffer when an escape at the scan pointer has been decoded. */
  lemma Decodes(narrow: nat -> seq<Byte>, s: seq<Byte>, now: seq<Byte>, after: seq<Byte>,
                dest: nat, scan: nat, changed: bool, r: seq<Byte>, next: nat)
    requires Progress(narrow, s, now, dest, scan, changed)
    requires scan < next <= |s| && EscapeAt(s, scan) && dest + |r| <= next
    requires Plain(narrow, s[scan..]) == r + Plain(narrow, s[next..])
    requires |after| == |now| && dest + |r| <= |now| && after[..dest + |r|] == now[..dest] + r
    requires forall i :: next <= i < |now| ==> after[i] == now[i]
    ensures Progress(narrow, s, after, dest + |r|, next, true)
  {
    hide *;
    StartOfEscape(narrow, s, now, dest, scan, changed);
    ProgressFacts(narrow, s, now, dest, scan, changed);
    Joined(now[..dest], r, Plain(narrow, s[next..]));
    MakeChanged(narrow, s, after, dest + |r|, next);
  }

  lemma Joined(a: seq<Byte>, b: seq<Byte>, c: seq<Byte>)
    ensures a + (b + c) == (a + b) + c
  {
  }

  lemma MakeChanged(narrow: nat -> seq<Byte>, s: seq<Byte>, now: seq<Byte>, dest: nat, scan: nat)
    requires dest <= scan <= |s| < |now| && FirstEscape(s) < |s|
    requires forall i :: scan <= i < |s| ==> now[i] == s[i]
    requires now[|s|] == 0
    requires now[..dest] + Plain(narrow, s[scan..]) == Rewritten(narrow, s)
    ensures Progress(narrow, s, now, dest, scan, true)
  {
    hide Plain, EscapeAt, Rewritten;
  }

  lemma ChangedFacts(narrow: nat -> seq<Byte>, s: seq<Byte>, now: seq<Byte>, dest: nat, scan: nat)
    requires Progress(narrow, s, now, dest, scan, true)
    ensures FirstEscape(s) < |s|
    ensures now[..dest] + Plain(narrow, s[scan..]) == Rewritten(narrow, s)
  {
    hide Plain, EscapeAt, Rewritten;
  }

  lemma DecodesAt(narrow: nat -> seq<Byte>, s: seq<Byte>, scan: nat, r: seq<Byte>, n: nat)
    requires scan < |s|
    requires (WideAt(s, scan) && n == 6 && r == narrow(WideValue(s, scan)))
          || (!WideAt(s, scan) && HexAt(s, scan) && n == 3 && r == [HexValue(s, scan)])
    ensures scan + n <= |s|
    ensures Plain(narrow, s[scan..]) == r + Plain(narrow, s[scan + n..])
  {
    EscapeShift(s, scan, 0);
    var t := s[scan..];
    assert t[n..] == s[scan + n..];
  }

  lemma StartOfEscape(narrow: nat -> seq<Byte>, s: seq<Byte>, now: seq<Byte>, dest: nat, scan: nat, changed: bool)
    requires Progress(narrow, s, now, dest, scan, changed) && scan < |s| && EscapeAt(s, scan)
    ensures FirstEscape(s) < |s|
    ensures now[..dest] + Plain(narrow, s[scan..]) == Rewritten(narrow, s)
  {
    hide Plain, EscapeAt;
    if !changed {
      assert scan == FirstEscape(s);
      assert now[..dest] == s[..dest];
    }
  }

  /** A '%' that starts no escape. */
  lemma PassesOver(narrow: nat -> seq<Byte>, s: seq<Byte>, now: seq<Byte>, after: seq<Byte>,
                   dest: nat, scan: nat, changed: bool)
    requires Progress(narrow, s, now, dest, scan, changed) && scan < |s|
    requires s[scan] == PERCENT && !EscapeAt(s, scan)
    requires after == if changed then now[dest := PERCENT] else now
    ensures Progress(narrow, s, after, dest + 1, scan + 1, changed)
  {
    if changed {
      PassesAt(narrow, s, scan);
      hide Plain, EscapeAt, Rewritten;
      assert now[..dest] + ([PERCENT] + Plain(narrow, s[scan + 1..])) == after[..dest + 1] + Plain(narrow, s[scan + 1..]);
    } else {
      hide Plain, EscapeAt, Rewritten;
      PercentsBounded(s, scan);
      assert FirstEscape(s) != scan;
    }
  }

  lemma PassesAt(narrow: nat -> seq<Byte>, s: seq<Byte>, scan: nat)
    requires scan < |s| && !EscapeAt(s, scan)
    ensures Plain(narrow, s[scan..]) == [s[scan]] + Plain(narrow, s[scan + 1..])
  {
    EscapeShift(s, scan, 0);
    assert s[scan..][1..] == s[scan + 1..];
  }

  /** Moving on to the next '%', or to the end: the text in between follows. */
  lemma MovesOn(narrow: nat -> seq<Byte>, s: seq<Byte>, now: seq<Byte>, after: seq<Byte>,
                dest: nat, scan: nat, next: nat)
    requires Progress(narrow, s, now, dest, scan, true)
    requires scan <= next <= |s| && Plain(narrow, s[scan..]) == s[scan..next] + Plain(narrow, s[next..])
    requires |after| == |now| && |s| < |now| && dest + (next - scan) <= |now|
    requires after[..dest + (next - scan)] == now[..dest] + s[scan..next]
    requires forall i :: next <= i < |s| ==> after[i] == now[i]
    requires after[|s|] == 0
    ensures Progress(narrow, s, after, dest + (next - scan), next, true)
  {
    hide *;
    ProgressFacts(narrow, s, now, dest, scan, true);
    ChangedFacts(narrow, s, now, dest, scan);
    Joined(now[..dest], s[scan..next], Plain(narrow, s[next..]));
    MakeChanged(narrow, s, after, dest + (next - scan), next);
  }

  /** As long as nothing has changed, only the scan pointer moves. */
  lemma SkipsOn(narrow: nat -> seq<Byte>, s: seq<Byte>, now: seq<Byte>, dest: nat, scan: nat)
    requires Progress(narrow, s, now, dest, scan, false)
    ensures Progress(narrow, s, now, dest, FirstPercent(s, scan), false)
  {
    var next := FirstPercent(s, scan);
    assert forall k: nat :: scan <= k < next ==> !EscapeAt(s, k);
    hide Plain, EscapeAt, Rewritten;
    PercentsGap(s, scan, next);
  }

  lemma NoEscapeBefore(s: seq<Byte>, scan: nat)
    requires scan <= |s|
    ensures forall k: nat :: scan <= k < FirstPercent(s, scan) ==> !EscapeAt(s, k)
  {
  }

  lemma {:induction false} PercentsGap(s: seq<Byte>, m: nat, n: nat)
    requires m <= n <= |s| && forall k :: m <= k < n ==> s[k] != PERCENT
    ensures Percents(s, n) == Percents(s, m)
  {
    if m < n {
      PercentsGap(s, m, n - 1);
    }
  }

  lemma PlainGap(narrow: nat -> seq<Byte>, s: seq<Byte>, m: nat, n: nat)
    requires m <= n <= |s| && forall k: nat :: m <= k < n ==> !EscapeAt(s, k)
    ensures Plain(narrow, s[m..]) == s[m..n] + Plain(narrow, s[n..])
  {
    hide Plain, WideAt, HexAt;
    var t := s[m..];
    forall k: nat | k < n - m
      ensures !EscapeAt(t, k)
    {
      EscapeShift(s, m, k);
      assert !EscapeAt(s, m + k);
    }
    PlainPrefix(narrow, t, n - m);
    assert t[n - m..] == s[n..] && t[..n - m] == s[m..n];
  }

  lemma Finished(narrow: nat -> seq<Byte>, s: seq<Byte>, now: seq<Byte>, dest: nat, changed: bool)
    requires Progress(narrow, s, now, dest, |s|, changed)
    ensures if changed then now[..dest] == Rewritten(narrow, s) else now[..|s|] == s == Rewritten(narrow, s)
  {
    hide EscapeAt;
    if changed {
      assert now[..dest] + [] == now[..dest];
    }
  }

  /** memcpy of a few bytes. */
  method WriteAt(buf: array<Byte>, dest: nat, bytes: seq<Byte>)
    requires dest + |bytes| <= buf.Length
    modifies buf
    ensures buf[..dest + |bytes|] == old(buf[..dest]) + bytes
    ensures forall i :: dest + |bytes| <= i < buf.Length ==> buf[i] == old(buf[i])
  {
    var k := 0;
    while k < |bytes|
      invariant k <= |bytes|
      invariant forall i :: 0 <= i < buf.Length && !(dest <= i < dest + k) ==> buf[i] == old(buf[i])
      invariant forall i :: dest <= i < dest + k ==> buf[i] == bytes[i - dest]
    {
      buf[dest + k] := bytes[k];
      k := k + 1;
    }
  }

  /** memmove towards the front. */
  method MoveDown(buf: array<Byte>, dest: nat, src: nat, n: nat)
    requires dest <= src && src + n <= buf.Length
    modifies buf
    ensures buf[..dest + n] == old(buf[..dest]) + old(buf[src..src + n])
    ensures forall i :: dest + n <= i < buf.Length ==> buf[i] == old(buf[i])
  {
    ghost var was := buf[..];
    var k := 0;
    while k < n
      invariant k <= n
      invariant forall i :: 0 <= i < dest || dest + k <= i < buf.Length ==> buf[i] == was[i]
      invariant forall i :: dest <= i < dest + k ==> buf[i] == was[i + (src - dest)]
    {
      buf[dest + k] := buf[src + k];
      k := k + 1;
    }
    MovedDown(was, buf[..], dest, src, n);
  }

  lemma MovedDown(was: seq<Byte>, now: seq<Byte>, dest: nat, src: nat, n: nat)
    requires |now| == |was| && dest <= src && src + n <= |was|
    requires forall i :: 0 <= i < dest ==> now[i] == was[i]
    requires forall i :: dest <= i < dest + n ==> now[i] == was[i + (src - dest)]
    ensures now[..dest + n] == was[..dest] + was[src..src + n]
  {
  }

  /** The buffer from a position on, read up to its NUL. */
  ghost predicate Reads(now: seq<Byte>, s: seq<Byte>, from: nat) {
    from <= |s| < |now| && NulFree(s) && now[|s|] == 0 && forall i :: from <= i < |s| ==> now[i] == s[i]
  }

  /** strchr for the next '%'. */
  method NextPercent(buf: array<Byte>, from: nat, ghost s: seq<Byte>) returns (next: nat, found: bool)
    requires Reads(buf[..], s, from)
    ensures next == FirstPercent(s, from) && (found <==> next < |s|)
  {
    next := from;
    while buf[next] != 0 && buf[next] != PERCENT
      invariant from <= next <= |s| && FirstPercent(s, next) == FirstPercent(s, from)
      decreases |s| - next
    {
      next := next + 1;
    }
    found := buf[next] != 0;
  }

  /** A 'u' and four hexadecimal digits after the '%'. */
  method TestWide(buf: array<Byte>, scan: nat, ghost s: seq<Byte>) returns (wide: bool)
    requires Reads(buf[..], s, scan) && scan < |s| && s[scan] == PERCENT
    ensures wide <==> WideAt(s, scan)
  {
    wide := (buf[scan + 1] == 0x75 || buf[scan + 1] == 0x55) && IsXDigit(buf[scan + 2])
            && IsXDigit(buf[scan + 3]) && IsXDigit(buf[scan + 4]) && IsXDigit(buf[scan + 5]);
  }

  /** Two hexadecimal digits after the '%'. */
  method TestHex(buf: array<Byte>, scan: nat, ghost s: seq<Byte>) returns (hex: bool)
    requires Reads(buf[..], s, scan) && scan < |s| && s[scan] == PERCENT
    ensures hex <==> HexAt(s, scan)
  {
    hex := IsXDigit(buf[scan + 1]) && IsXDigit(buf[scan + 2]);
  }

  lemma ProgressReads(narrow: nat -> seq<Byte>, s: seq<Byte>, now: seq<Byte>, dest: nat, scan: nat, changed: bool)
    requires Progress(narrow, s, now, dest, scan, changed) && NulFree(s)
    ensures Reads(now, s, scan)
  {
    hide NulFree;
    ProgressFacts(narrow, s, now, dest, scan, changed);
  }

  /** %uxxxx: the character goes through the code page. */
  method WideBytes(narrow: nat -> seq<Byte>, buf: array<Byte>, scan: nat, ghost s: seq<Byte>)
    returns (bytes: seq<Byte>)
    requires CodePage(narrow) && Reads(buf[..], s, scan) && WideAt(s, scan)
    ensures |bytes| <= 6 && scan + 6 <= |s| && EscapeAt(s, scan)
    ensures Plain(narrow, s[scan..]) == bytes + Plain(narrow, s[scan + 6..])
  {
    var w := ToHex(buf[scan + 2]) * 4096 + ToHex(buf[scan + 3]) * 256
           + ToHex(buf[scan + 4]) * 16 + ToHex(buf[scan + 5]);
    bytes := narrow(w);
    assert w == WideValue(s, scan);
    hide Plain;
    DecodesAt(narrow, s, scan, bytes, 6);
  }

  /** %xx. */
  method HexByte(narrow: nat -> seq<Byte>, buf: array<Byte>, scan: nat, ghost s: seq<Byte>)
    returns (ch: Byte)
    requires Reads(buf[..], s, scan) && HexAt(s, scan) && !WideAt(s, scan)
    ensures scan + 3 <= |s| && EscapeAt(s, scan)
    ensures Plain(narrow, s[scan..]) == [ch] + Plain(narrow, s[scan + 3..])
  {
    ch := ToHex(buf[scan + 1]) * 16 + ToHex(buf[scan + 2]);
    assert ch == HexValue(s, scan);
    hide Plain;
    DecodesAt(narrow, s, scan, [ch], 3);
  }

  /** Storing what an escape stands for. */
  method Store(narrow: nat -> seq<Byte>, buf: array<Byte>, dest: nat, scan: nat, ghost changed: bool,
               bytes: seq<Byte>, ghost next: nat, ghost s: seq<Byte>)
    requires Progress(narrow, s, buf[..], dest, scan, changed)
    requires scan < next <= |s| && EscapeAt(s, scan) && scan + |bytes| <= next
    requires Plain(narrow, s[scan..]) == bytes + Plain(narrow, s[next..])
    modifies buf
    ensures Progress(narrow, s, buf[..], dest + |bytes|, next, true)
  {
    hide *;
    ghost var was := buf[..];
    ProgressFacts(narrow, s, was, dest, scan, changed);
    WriteAt(buf, dest, bytes);
    Decodes(narrow, s, was, buf[..], dest, scan, changed, bytes, next);
  }

  lemma EscapeKinds(s: seq<Byte>, i: nat)
    ensures EscapeAt(s, i) <==> WideAt(s, i) || HexAt(s, i)
  {
  }

  /** One turn of the loop up to the search for the next '%'. */
  method DecodeOne(narrow: nat -> seq<Byte>, buf: array<Byte>, dest: nat, scan: nat, changed: bool, ghost s: seq<Byte>)
    returns (dest': nat, scan': nat, changed': bool)
    requires CodePage(narrow) && NulFree(s)
    requires Progress(narrow, s, buf[..], dest, scan, changed) && scan < |s| && s[scan] == PERCENT
    modifies buf
    ensures Progress(narrow, s, buf[..], dest', scan', changed') && scan < scan'
  {
    hide *;
    ghost var was := buf[..];
    ProgressFacts(narrow, s, was, dest, scan, changed);
    ProgressReads(narrow, s, was, dest, scan, changed);
    EscapeKinds(s, scan);
    var wide := TestWide(buf, scan, s);
    var hex := TestHex(buf, scan, s);
    if wide {
      var bytes := WideBytes(narrow, buf, scan, s);
      Store(narrow, buf, dest, scan, changed, bytes, scan + 6, s);
      dest', scan', changed' := dest + |bytes|, scan + 6, true;
    } else if hex {
      var ch := HexByte(narrow, buf, scan, s);
      Store(narrow, buf, dest, scan, changed, [ch], scan + 3, s);
      dest', scan', changed' := dest + 1, scan + 3, true;
    } else {
      if changed {
        buf[dest] := buf[scan];
      }
      PassesOver(narrow, s, was, buf[..], dest, scan, changed);
      dest', scan', changed' := dest + 1, scan + 1, changed;
    }
  }

  /** The text up to the next '%' follows the decoded text down; the last stretch with its NUL. */
  method CopyGap(narrow: nat -> seq<Byte>, buf: array<Byte>, dest: nat, scan: nat, next: nat, found: bool, cch: nat,
                 ghost s: seq<Byte>)
    requires NulFree(s) && Progress(narrow, s, buf[..], dest, scan, true) && cch == |s|
    requires next == FirstPercent(s, scan) && (found <==> next < |s|)
    modifies buf
    ensures Progress(narrow, s, buf[..], dest + (next - scan), next, true)
    ensures !found ==> buf[dest + (next - scan)] == 0
  {
    hide *;
    ghost var was := buf[..];
    ProgressFacts(narrow, s, was, dest, scan, true);
    NoEscapeBefore(s, scan);
    PlainGap(narrow, s, scan, next);
    if !found {
      MoveDown(buf, dest, scan, cch - scan + 1);
    } else if next != scan {
      MoveDown(buf, dest, scan, next - scan);
    }
    GapCopied(was, buf[..], s, dest, scan, next, if found then next - scan else cch - scan + 1);
    MovesOn(narrow, s, was, buf[..], dest, scan, next);
  }

  lemma GapCopied(was: seq<Byte>, now: seq<Byte>, s: seq<Byte>, dest: nat, scan: nat, next: nat, n: nat)
    requires |now| == |was| && dest <= scan <= next <= |s| < |was| && was[|s|] == 0
    requires forall i :: scan <= i < |s| ==> was[i] == s[i]
    requires n == next - scan || (next == |s| && n == |s| - scan + 1)
    requires now[..dest + n] == was[..dest] + was[scan..scan + n]
    requires forall i :: dest + n <= i < |now| ==> now[i] == was[i]
    ensures now[..dest + (next - scan)] == was[..dest] + s[scan..next]
    ensures forall i :: next <= i < |s| ==> now[i] == was[i]
    ensures now[|s|] == 0
    ensures n == next - scan + 1 ==> now[dest + (next - scan)] == 0
  {
    var g := next - scan;
    assert s[scan..next] == was[scan..scan + g];
    assert now[..dest + g] == now[..dest + n][..dest + g];
    assert was[scan..scan + n][..g] == was[scan..scan + g];
  }

  /** strlen: a decoded NUL ends the text. */
  method StrLen(buf: array<Byte>, ghost r: seq<Byte>) returns (n: nat)
    requires |r| < buf.Length && buf[..|r|] == r && buf[|r|] == 0
    ensures n <= |r| && buf[n] == 0 && buf[..n] == Cut(r) && NulFree(buf[..n])
  {
    n := 0;
    while buf[n] != 0
      invariant n <= |r| && NulFree(r[..n])
      decreases |r| - n
    {
      n := n + 1;
    }
    CutPrefix(r[..n], r[n..]);
    assert r == r[..n] + r[n..];
    assert r[..n] + [] == r[..n] == buf[..n];
  }

  /** BUFFER::Resize. */
  method Grow(size: nat, want: nat, asks: nat, refused: nat -> bool) returns (ok: bool, size': nat, asks': nat)
    ensures ok <==> !Denied(size, want, asks, refused)
    ensures size' == if ok && want > size then want else size
    ensures asks' == if want > size && (ok || want <= MAXDWORD) then asks + 1 else asks
  {
    ok, size', asks' := true, size, asks;
    if want > size {
      if want > MAXDWORD {
        ok := false;
      } else {
        ok, asks' := !refused(asks), asks + 1;
        size' := if ok then want else size;
      }
    }
  }

  /** STRA::AuxAppend: text put behind the first n characters. */
  method AuxAppend(text: seq<Byte>, n: nat, piece: seq<Byte>, size: nat, asks: nat, refused: nat -> bool)
    returns (ok: bool, text': seq<Byte>, size': nat, asks': nat)
    requires n <= |text|
    ensures ok <==> !Denied(size, n + |piece| + 1, asks, refused)
    ensures text' == if ok then text[..n] + piece else text
    ensures size' == if ok && n + |piece| + 1 > size then n + |piece| + 1 else size
    ensures asks' == if n + |piece| + 1 > size && (ok || n + |piece| + 1 <= MAXDWORD) then asks + 1 else asks
  {
    ok, size', asks' := Grow(size, n + |piece| + 1, asks, refused);
    text' := if ok then text[..n] + piece else text;
  }

  /** Starting the temporary at the first character that is escaped. */
  method Begin(refused: nat -> bool, buf: array<Byte>, cch: nat, i: nat, ghost s: seq<Byte>)
    returns (ok: bool, text: seq<Byte>, size: nat, asks: nat)
    requires i <= |s| == cch < buf.Length && buf[..|s|] == s
    ensures var t := Started(Temp(false, [], INLINE_SIZE, 0), s, i, refused);
      if ok then t == Temp(true, text, size, asks) else t.Failed?
  {
    text, size, asks := [], INLINE_SIZE, 0;
    ok, size, asks := Grow(size, (2 * cch) % (MAXDWORD + 1), asks, refused);
    if ok && i > 0 {
      assert buf[..i] == s[..i];
      ok, text, size, asks := AuxAppend(text, 0, buf[..i], size, asks, refused);
    }
  }

  /** The scan of EscapeInternal, filling the temporary string; nothing is written back yet. */
  method EscapeInto(p: Byte -> bool, refused: nat -> bool, buf: array<Byte>, cch: nat, ghost s: seq<Byte>)
    returns (ok: bool, done: bool, temp: seq<Byte>, asks: nat)
    requires cch == |s| < buf.Length && buf[..|s|] == s && buf[|s|] == 0 && NulFree(s)
    ensures ok <==> Filled(p, refused, s, |s|).Temp?
    ensures ok ==> exists size :: Filled(p, refused, s, |s|) == Temp(done, temp, size, asks)
  {
    hide *;
    var i, size := 0, INLINE_SIZE;
    ok, done, temp, asks := true, false, [], 0;
    FilledStep(p, refused, s, 0);
    while buf[i] != 0
      invariant i <= |s| && ok
      invariant Filled(p, refused, s, i) == Temp(done, temp, size, asks)
      invariant !done ==> temp == [] && size == INLINE_SIZE && asks == 0
      decreases |s| - i
    {
      NulAtEnd(buf[..], s, i);
      FilledStep(p, refused, s, i + 1);
      ghost var t := Filled(p, refused, s, i);
      var ch := buf[i];
      ScannedCases(p, refused, s, i, t);
      if p(ch) {
        if !done {
          ok, temp, size, asks := Begin(refused, buf, cch, i, s);
          if !ok { StaysFailed(p, refused, s, i + 1, |s|); return; }
          done := true;
        }
        TripletCases(Temp(done, temp, size, asks), s, ch, refused);
        ok, size, asks := Grow(size, cch + 3, asks, refused);
        if !ok { StaysFailed(p, refused, s, i + 1, |s|); return; }
        TripletOf(ch);
        ok, temp, size, asks := AuxAppend(temp, |temp|, [PERCENT, ToDigit(ch / 16 % 16), ToDigit(ch % 16)], size, asks, refused);
        if !ok { StaysFailed(p, refused, s, i + 1, |s|); return; }
      } else if done {
        LooseCases(Temp(done, temp, size, asks), ch, refused);
        var unseen;
        unseen, temp, size, asks := AuxAppend(temp, |temp|, [ch], size, asks, refused);
      }
      i := i + 1;
    }
    NulAtEnd(buf[..], s, i);
  }

  lemma NulAtEnd(now: seq<Byte>, s: seq<Byte>, i: nat)
    requires |s| < |now| && now[..|s|] == s && now[|s|] == 0 && NulFree(s) && i <= |s|
    ensures now[i] == 0 <==> i == |s|
    ensures i < |s| ==> now[i] == s[i]
  {}

  lemma TripletOf(ch: Byte)
    ensures 0 <= ch / 16 % 16 < 16 && 0 <= ch % 16 < 16
    ensures [PERCENT, ToDigit(ch / 16 % 16), ToDigit(ch % 16)] == Triplet(ch) && |Triplet(ch)| == 3
  {}

  lemma ScannedCases(p: Byte -> bool, refused: nat -> bool, s: seq<Byte>, i: nat, t: Temp)
    requires i < |s| && t.Temp?
    ensures Scanned(p, refused, s, i, t) ==
      if p(s[i]) then WithTriplet(if t.started then t else Started(t, s, i, refused), s, s[i], refused)
      else if t.started then Loose(t, s[i], refused)
      else t
    ensures WithTriplet(Failed, s, s[i], refused) == Failed
  {}

  lemma TripletCases(t: Temp, s: seq<Byte>, ch: Byte, refused: nat -> bool)
    requires t.Temp?
    ensures WithTriplet(t, s, ch, refused) ==
      if Denied(t.size, |s| + 3, t.asks, refused) then Failed
      else
        var size := if |s| + 3 > t.size then |s| + 3 else t.size;
        var asks := if |s| + 3 > t.size then t.asks + 1 else t.asks;
        if Denied(size, |t.text| + 4, asks, refused) then Failed
        else t.(text := t.text + Triplet(ch), size := if |t.text| + 4 > size then |t.text| + 4 else size,
                asks := if |t.text| + 4 > size then asks + 1 else asks)
    ensures t.text[..|t.text|] == t.text
  {
    TripletOf(ch);
    hide Triplet;
  }

  lemma LooseCases(t: Temp, ch: Byte, refused: nat -> bool)
    requires t.Temp?
    ensures var want := |t.text| + 2;
      Loose(t, ch, refused) ==
        t.(text := if Denied(t.size, want, t.asks, refused) then t.text else t.text[..|t.text|] + [ch],
           size := if !Denied(t.size, want, t.asks, refused) && want > t.size then want else t.size,
           asks := if want > t.size && (!Denied(t.size, want, t.asks, refused) || want <= MAXDWORD)
                   then t.asks + 1 else t.asks)
  {}

  lemma {:induction false} StaysFailed(p: Byte -> bool, refused: nat -> bool, s: seq<Byte>, n: nat, m: nat)
    requires n <= m <= |s| && Filled(p, refused, s, n).Failed?
    ensures Filled(p, refused, s, m).Failed?
    decreases m - n
  {
    if n < m { StaysFailed(p, refused, s, n, m - 1); }
    hide Resized, Put, Denied;
  }

  lemma {:induction false} FilledIsNulFree(p: Byte -> bool, refused: nat -> bool, s: seq<Byte>, n: nat)
    requires n <= |s| && NulFree(s)
    ensures Filled(p, refused, s, n).Temp? ==> NulFree(Filled(p, refused, s, n).text)
  {
    hide *;
    FilledStep(p, refused, s, n);
    if n == 0 {
      NulFreeParts([], []);
    } else {
      FilledIsNulFree(p, refused, s, n - 1);
      AllSound(p, refused, s, n - 1);
      NotStartedEmpty(p, refused, s, n - 1);
      if Filled(p, refused, s, n - 1).Temp? {
        ScannedShape(p, refused, s, n - 1, Filled(p, refused, s, n - 1));
        PieceNotEmpty(p, s[n - 1]);
        NulFreeAt(s, n - 1);
        NulFreeParts(Filled(p, refused, s, n - 1).text, Piece(p, s[n - 1]));
        NulFreeParts(s[..n - 1], Piece(p, s[n - 1]));
        NulFreeParts([], []);
      } else {
        StaysFailed(p, refused, s, n - 1, n);
      }
    }
  }

  lemma NotStartedEmpty(p: Byte -> bool, refused: nat -> bool, s: seq<Byte>, n: nat)
    requires n <= |s| && Sound(p, refused, s, n)
    ensures var t := Filled(p, refused, s, n);
      t.Temp? ==> if t.started then Room(s) <= t.size else t.text == [] && t.size == INLINE_SIZE && t.asks == 0
  {
    hide Filled, Escaped, Room, Dropped;
  }

  lemma NulFreeAt(s: seq<Byte>, i: nat)
    requires NulFree(s) && i < |s|
    ensures s[i] != 0 && NulFree(s[..i])
  {}

  lemma NulFreeParts(a: seq<Byte>, b: seq<Byte>)
    ensures NulFree(a) && NulFree(b) ==> NulFree(a + b) && NulFree(a + [])
    ensures NulFree([])
  {}

  /** The loop of Unescape; the destination never passes the scan pointer. */
  method UnescapeBuffer(narrow: nat -> seq<Byte>, buf: array<Byte>, cch: nat, ghost s: seq<Byte>)
    returns (changed: bool, dest: nat)
    requires CodePage(narrow) && NulFree(s) && cch == |s|
    requires |s| < buf.Length && buf[..|s|] == s && buf[|s|] == 0
    modifies buf
    ensures if changed then dest <= |s| && buf[..dest] == Rewritten(narrow, s) && buf[dest] == 0
            else s == Rewritten(narrow, s) && buf[..|s|] == s && buf[|s|] == 0
  {
    hide *;
    StartsOff(narrow, s, buf[..]);
    StartReads(buf[..], s);
    var scan, found := NextPercent(buf, 0, s);
    dest, changed := scan, false;
    while found
      invariant dest <= scan <= |s| < buf.Length
      invariant Progress(narrow, s, buf[..], dest, scan, changed)
      invariant found <==> scan < |s|
      invariant found ==> s[scan] == PERCENT
      invariant !found && changed ==> buf[dest] == 0
      decreases |s| - scan
    {
      dest, scan, changed := DecodeOne(narrow, buf, dest, scan, changed, s);
      ProgressFacts(narrow, s, buf[..], dest, scan, changed);
      ProgressReads(narrow, s, buf[..], dest, scan, changed);
      var next;
      next, found := NextPercent(buf, scan, s);
      if changed {
        CopyGap(narrow, buf, dest, scan, next, found, cch, s);
        dest := dest + (next - scan);
      } else {
        SkipsOn(narrow, s, buf[..], dest, scan);
      }
      ProgressFacts(narrow, s, buf[..], dest, next, changed);
      scan := next;
    }
    ProgressFacts(narrow, s, buf[..], dest, scan, changed);
    Finished(narrow, s, buf[..], dest, changed);
  }

  lemma StartReads(now: seq<Byte>, s: seq<Byte>)
    requires |s| < |now| && now[..|s|] == s && now[|s|] == 0 && NulFree(s)
    ensures Reads(now, s, 0)
  {
  }

  // ---------------------------------------------------------------------------- the class

  class Stra {
    var buf: array<Byte>
    var len: nat

    ghost predicate Valid()
      reads this, buf
    {
      len < buf.Length && buf[len] == 0 && NulFree(buf[..len])
    }

    ghost function Contents(): seq<Byte>
      requires Valid()
      reads this, buf
    {
      buf[..len]
    }

    constructor ()
      ensures Valid() && Contents() == [] && fresh(buf)
    {
      buf := new Byte[1][0];
      len := 0;
    }

    /** STRA::Copy, with the memory it needs. */
    method Copy(t: seq<Byte>)
      requires Valid() && NulFree(t)
      modifies this, buf
      ensures Valid() && Contents() == t && (buf == old(buf) || fresh(buf))
    {
      if buf.Length < |t| + 1 {
        buf := new Byte[|t| + 1];
      }
      WriteAt(buf, 0, t);
      len := |t|;
      buf[len] := 0;
      assert buf[..len] == t;
    }

    /**
      STRA::EscapeInternal. `refused(k)` says whether the k-th request for memory is refused.
      The result of adding a character that needs no escape is not looked at.
     */
    method Escape(p: Byte -> bool, refused: nat -> bool) returns (ok: bool)
      requires Valid()
      modifies this, buf
      ensures Valid() && (buf == old(buf) || fresh(buf))
      ensures var t := Filled(p, refused, old(Contents()), old(len));
        && (ok <==> t.Temp? && !(t.started && Denied(old(buf.Length), |t.text| + 1, t.asks, refused)))
        && Contents() == if ok && t.started then t.text else old(Contents())
    {
      hide *;
      Facts();
      ghost var s := Contents();
      var okay, done, temp, asks := EscapeInto(p, refused, buf, len, s);
      if !okay || !done {
        return okay;
      }
      var room, size, asks' := Grow(buf.Length, |temp| + 1, asks, refused);
      if !room {
        return false;
      }
      FilledIsNulFree(p, refused, s, |s|);
      Copy(temp);
      ok := true;
    }

    lemma Facts()
      requires Valid()
      ensures len < buf.Length && buf[len] == 0 && NulFree(buf[..len]) && Contents() == buf[..len]
    {
    }

    /** STRA::Unescape: in place, the destination never passing the scan pointer. */
    method Unescape(narrow: nat -> seq<Byte>)
      requires Valid() && CodePage(narrow)
      modifies this`len, buf
      ensures Valid() && buf == old(buf)
      ensures Contents() == Unescaped(narrow, old(Contents()))
    {
      ghost var s := Contents();
      var changed, dest := UnescapeBuffer(narrow, buf, len, s);
      if changed {
        len := StrLen(buf, Rewritten(narrow, s));
      } else {
        CutNulFree(s);
      }
    }
  }
}
