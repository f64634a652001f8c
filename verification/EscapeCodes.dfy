/** Percent-encoding (section 2.1 of RFC 3986) as STRA::Escape and STRA::Unescape do it:
    what the two functions compute, and when one undoes the other. */
module EscapeCodes {

  type Byte = x: int | 0 <= x < 256

  const PERCENT: Byte := 0x25

  predicate ShouldEscapeUrl(ch: Byte) {
    && (ch >= 128 || ch <= 32 || ch == 0x3C || ch == 0x3E || ch == PERCENT || ch == 0x3F || ch == 0x23)
    && !(ch == 0x0A || ch == 0x0D)
  }

  predicate ShouldEscapeUtf8(ch: Byte) {
    ch >= 128
  }

  predicate IsXDigit(ch: Byte) {
    0x30 <= ch <= 0x39 || 0x41 <= ch <= 0x46 || 0x61 <= ch <= 0x66
  }

  /** The TODIGIT macro. */
  function ToDigit(n: nat): (ch: Byte)
    requires n < 16
    ensures IsXDigit(ch)
  {
    if n > 9 then n - 10 + 0x41 else n + 0x30
  }

  /** The TOHEX macro. */
  function ToHex(ch: Byte): (n: nat)
    requires IsXDigit(ch)
    ensures n < 16
  {
    if ch > 0x39 then
      if ch >= 0x61 then ch - 0x61 + 10 else ch - 0x41 + 10
    else ch - 0x30
  }

  predicate NulFree(s: seq<Byte>) {
    forall i :: 0 <= i < |s| ==> s[i] != 0
  }

  // -------------------------------------------------------------------------- escaping

  function Triplet(ch: Byte): seq<Byte> {
    [PERCENT, ToDigit(ch / 16), ToDigit(ch % 16)]
  }

  function Piece(p: Byte -> bool, ch: Byte): seq<Byte> {
    if p(ch) then Triplet(ch) else [ch]
  }

  function Escaped(p: Byte -> bool, s: seq<Byte>): seq<Byte> {
    if s == [] then [] else Piece(p, s[0]) + Escaped(p, s[1..])
  }

  lemma {:induction false} EscapedMore(p: Byte -> bool, s: seq<Byte>, ch: Byte)
    ensures Escaped(p, s + [ch]) == Escaped(p, s) + Piece(p, ch)
  {
    hide Piece;
    if s == [] {
      assert (s + [ch])[1..] == [];
    } else {
      EscapedMore(p, s[1..], ch);
      assert (s + [ch])[1..] == s[1..] + [ch];
    }
  }

  // ------------------------------------------------------------------------ unescaping

  /** A '%' and two hexadecimal digits at position i. */
  predicate HexAt(s: seq<Byte>, i: nat) {
    i + 2 < |s| && s[i] == PERCENT && IsXDigit(s[i + 1]) && IsXDigit(s[i + 2])
  }

  /** A '%', a 'u' and four hexadecimal digits at position i. */
  predicate WideAt(s: seq<Byte>, i: nat) {
    && i + 5 < |s| && s[i] == PERCENT && (s[i + 1] == 0x75 || s[i + 1] == 0x55)
    && IsXDigit(s[i + 2]) && IsXDigit(s[i + 3]) && IsXDigit(s[i + 4]) && IsXDigit(s[i + 5])
  }

  predicate EscapeAt(s: seq<Byte>, i: nat) {
    WideAt(s, i) || HexAt(s, i)
  }

  function HexValue(s: seq<Byte>, i: nat): Byte
    requires HexAt(s, i)
  {
    ToHex(s[i + 1]) * 16 + ToHex(s[i + 2])
  }

  function WideValue(s: seq<Byte>, i: nat): nat
    requires WideAt(s, i)
  {
    ToHex(s[i + 2]) * 4096 + ToHex(s[i + 3]) * 256 + ToHex(s[i + 4]) * 16 + ToHex(s[i + 5])
  }

  /** What one character of the system code page takes: the conversion buffer has six bytes. */
  ghost predicate CodePage(narrow: nat -> seq<Byte>) {
    forall w: nat :: |narrow(w)| <= 6
  }

  /** The documented meaning: every escape decoded, and a '%' without digits left as it is. */
  function Plain(narrow: nat -> seq<Byte>, s: seq<Byte>): seq<Byte> {
    if s == [] then []
    else if WideAt(s, 0) then narrow(WideValue(s, 0)) + Plain(narrow, s[6..])
    else if HexAt(s, 0) then [HexValue(s, 0)] + Plain(narrow, s[3..])
    else [s[0]] + Plain(narrow, s[1..])
  }

  /** The first '%', or the length. */
  function FirstPercent(s: seq<Byte>, from: nat := 0): (i: nat)
    requires from <= |s|
    ensures from <= i <= |s| && (i < |s| ==> s[i] == PERCENT)
    ensures forall k :: from <= k < i ==> s[k] != PERCENT
    decreases |s| - from
  {
    if from == |s| || s[from] == PERCENT then from else FirstPercent(s, from + 1)
  }

  /** The first escape, or the length. */
  function FirstEscape(s: seq<Byte>, from: nat := 0): (i: nat)
    requires from <= |s|
    ensures from <= i <= |s| && (i < |s| ==> EscapeAt(s, i))
    ensures forall k: nat :: from <= k < i ==> !EscapeAt(s, k)
    decreases |s| - from
  {
    if from == |s| || EscapeAt(s, from) then from else FirstEscape(s, from + 1)
  }

  function Percents(s: seq<Byte>, n: nat): nat
    requires n <= |s|
  {
    if n == 0 then 0 else Percents(s, n - 1) + if s[n - 1] == PERCENT then 1 else 0
  }

  /** How much of the text before the first escape survives: up to the first '%', then one
      place for each '%', since only those advance the destination. */
  function Kept(s: seq<Byte>): nat {
    FirstPercent(s) + Percents(s, FirstEscape(s))
  }

  function Cut(s: seq<Byte>): seq<Byte> {
    if s == [] || s[0] == 0 then [] else [s[0]] + Cut(s[1..])
  }

  lemma {:induction false} PercentsBounded(s: seq<Byte>, n: nat)
    requires n <= |s|
    ensures FirstPercent(s) <= n ==> FirstPercent(s) + Percents(s, n) <= n
    ensures n <= FirstPercent(s) ==> Percents(s, n) == 0
  {
    if n > 0 {
      PercentsBounded(s, n - 1);
    }
  }

  lemma KeptBounded(s: seq<Byte>)
    ensures FirstEscape(s) < |s| ==> Kept(s) <= FirstEscape(s)
  {
    PercentsBounded(s, FirstEscape(s));
  }

  /** What the buffer holds, up to a decoded NUL, when Unescape has finished. */
  function Rewritten(narrow: nat -> seq<Byte>, s: seq<Byte>): seq<Byte> {
    if FirstEscape(s) == |s| then s
    else KeptBounded(s); s[..Kept(s)] + Plain(narrow, s[FirstEscape(s)..])
  }

  function Unescaped(narrow: nat -> seq<Byte>, s: seq<Byte>): seq<Byte> {
    Cut(Rewritten(narrow, s))
  }

  // ------------------------------------------------------------------ escape then unescape

  lemma HexRoundTrip(ch: Byte)
    ensures ToHex(ToDigit(ch / 16)) * 16 + ToHex(ToDigit(ch % 16)) == ch
  {
  }

  lemma PieceDecodes(narrow: nat -> seq<Byte>, p: Byte -> bool, ch: Byte, rest: seq<Byte>)
    requires p(PERCENT)
    ensures Plain(narrow, Piece(p, ch) + rest) == [ch] + Plain(narrow, rest)
  {
    var t := Piece(p, ch) + rest;
    if p(ch) {
      assert t[1] == ToDigit(ch / 16) && t[2] == ToDigit(ch % 16);
      assert HexAt(t, 0) && !WideAt(t, 0);
      HexRoundTrip(ch);
      assert t[3..] == rest;
    } else {
      assert t[1..] == rest;
    }
  }

  /** Decoding what was escaped gives the text back. */
  lemma {:induction false} PlainOfEscaped(narrow: nat -> seq<Byte>, p: Byte -> bool, s: seq<Byte>)
    requires p(PERCENT)
    ensures Plain(narrow, Escaped(p, s)) == s
  {
    if s != [] {
      hide Piece;
      PieceDecodes(narrow, p, s[0], Escaped(p, s[1..]));
      PlainOfEscaped(narrow, p, s[1..]);
    }
  }

  lemma EscapeShift(s: seq<Byte>, n: nat, i: nat)
    requires n <= |s|
    ensures HexAt(s[n..], i) <==> HexAt(s, n + i)
    ensures WideAt(s[n..], i) <==> WideAt(s, n + i)
  {
  }

  /** Every '%' an escaped text holds starts two hexadecimal digits, and never a wide escape. */
  lemma {:induction false} EveryPercentStartsATriplet(p: Byte -> bool, s: seq<Byte>, i: nat)
    requires p(PERCENT) && i < |Escaped(p, s)| && Escaped(p, s)[i] == PERCENT
    ensures HexAt(Escaped(p, s), i) && !WideAt(Escaped(p, s), i)
  {
    var piece, rest := Piece(p, s[0]), Escaped(p, s[1..]);
    var e := Escaped(p, s);
    if i < |piece| {
      assert i == 0 && p(s[0]);
      assert e[1] == ToDigit(s[0] / 16) && e[2] == ToDigit(s[0] % 16);
    } else {
      EveryPercentStartsATriplet(p, s[1..], i - |piece|);
      assert e[|piece|..] == rest;
      EscapeShift(e, |piece|, i - |piece|);
    }
  }

  lemma EscapedKeepsAll(p: Byte -> bool, s: seq<Byte>)
    requires p(PERCENT)
    ensures FirstEscape(Escaped(p, s)) == FirstPercent(Escaped(p, s)) == Kept(Escaped(p, s))
  {
    hide Escaped, HexAt, WideAt;
    var e := Escaped(p, s);
    PercentFirst(e);
    if FirstPercent(e) < |e| {
      EveryPercentStartsATriplet(p, s, FirstPercent(e));
      assert EscapeAt(e, FirstPercent(e));
    }
    PercentsBounded(e, FirstEscape(e));
  }

  lemma PercentFirst(s: seq<Byte>)
    ensures FirstPercent(s) <= FirstEscape(s)
  {
  }

  lemma {:induction false} PlainPrefix(narrow: nat -> seq<Byte>, s: seq<Byte>, n: nat)
    requires n <= |s| && forall k: nat :: k < n ==> !EscapeAt(s, k)
    ensures Plain(narrow, s) == s[..n] + Plain(narrow, s[n..])
  {
    if n == 0 {
      assert s[0..] == s;
    } else {
      forall k: nat | k < n - 1
        ensures !EscapeAt(s[1..], k)
      {
        assert !EscapeAt(s, k + 1);
      }
      assert !EscapeAt(s, 0);
      PlainPrefix(narrow, s[1..], n - 1);
      assert s[1..][n - 1..] == s[n..];
      assert [s[0]] + s[1..][..n - 1] == s[..n];
    }
  }

  lemma {:induction false} CutPrefix(a: seq<Byte>, b: seq<Byte>)
    requires NulFree(a)
    ensures Cut(a + b) == a + Cut(b)
  {
    if a == [] {
      assert a + b == b;
    } else {
      assert (a + b)[1..] == a[1..] + b;
      CutPrefix(a[1..], b);
    }
  }

  lemma CutNulFree(s: seq<Byte>)
    requires NulFree(s)
    ensures Cut(s) == s
  {
    CutPrefix(s, []);
    assert s + [] == s;
  }

  /** Text lies between the first '%' and the first escape only in the form of more '%'s. */
  predicate OnlyPercentsBeforeEscape(s: seq<Byte>) {
    forall k :: FirstPercent(s) <= k < FirstEscape(s) ==> s[k] == PERCENT
  }

  lemma {:induction false} PercentsFill(s: seq<Byte>, n: nat)
    requires FirstPercent(s) <= n <= |s|
    ensures FirstPercent(s) + Percents(s, n) == n <==>
            forall k :: FirstPercent(s) <= k < n ==> s[k] == PERCENT
  {
    if n == FirstPercent(s) {
      PercentsBounded(s, n);
    } else {
      PercentsFill(s, n - 1);
      PercentsBounded(s, n - 1);
    }
  }

  lemma UnescapedSplit(narrow: nat -> seq<Byte>, s: seq<Byte>)
    requires NulFree(s) && FirstEscape(s) < |s|
    ensures Kept(s) <= FirstEscape(s)
    ensures Unescaped(narrow, s) == s[..Kept(s)] + Cut(Plain(narrow, s[FirstEscape(s)..]))
  {
    KeptBounded(s);
    hide Plain, Cut, Kept, FirstEscape;
    CutPrefix(s[..Kept(s)], Plain(narrow, s[FirstEscape(s)..]));
  }

  lemma PlainSplit(narrow: nat -> seq<Byte>, s: seq<Byte>)
    requires NulFree(s)
    ensures Cut(Plain(narrow, s)) == s[..FirstEscape(s)] + Cut(Plain(narrow, s[FirstEscape(s)..]))
  {
    hide Plain, Cut, FirstEscape;
    var e := FirstEscape(s);
    PlainPrefix(narrow, s, e);
    CutPrefix(s[..e], Plain(narrow, s[e..]));
  }

  lemma CutsDiffer(s: seq<Byte>, m: nat, n: nat, rest: seq<Byte>)
    requires m <= n <= |s|
    ensures s[..m] + rest == s[..n] + rest <==> m == n
  {
    assert |s[..m] + rest| == m + |rest| && |s[..n] + rest| == n + |rest|;
  }

  /**
   * Unescape agrees with its documented meaning exactly when the text holds no escape at all,
   * or nothing but '%'s between the first '%' and the first escape.
   */
  lemma UnescapeIsFaithful(narrow: nat -> seq<Byte>, s: seq<Byte>)
    requires NulFree(s)
    ensures Unescaped(narrow, s) == Cut(Plain(narrow, s)) <==>
            FirstEscape(s) == |s| || OnlyPercentsBeforeEscape(s)
  {
    PercentFirst(s);
    PercentsFill(s, FirstEscape(s));
    assert OnlyPercentsBeforeEscape(s) <==> Kept(s) == FirstEscape(s);
    hide Plain, Cut, FirstPercent, FirstEscape, Kept, OnlyPercentsBeforeEscape, Unescaped, EscapeAt;
    var e := FirstEscape(s);
    if e == |s| {
      NoEscape(narrow, s);
    } else {
      UnescapedSplit(narrow, s);
      PlainSplit(narrow, s);
      CutsDiffer(s, Kept(s), e, Cut(Plain(narrow, s[e..])));
    }
  }

  lemma NoEscape(narrow: nat -> seq<Byte>, s: seq<Byte>)
    requires FirstEscape(s) == |s|
    ensures Plain(narrow, s) == s == Rewritten(narrow, s)
  {
    hide EscapeAt;
    PlainPrefix(narrow, s, |s|);
    assert s[|s|..] == [] && s[..|s|] + [] == s;
    PlainOfNothing(narrow);
  }

  lemma PlainOfNothing(narrow: nat -> seq<Byte>)
    ensures Plain(narrow, []) == []
  {
  }

  /** Unescape after Escape restores every NUL-free text, for any test that escapes '%'. */
  lemma UnescapeAfterEscape(narrow: nat -> seq<Byte>, p: Byte -> bool, s: seq<Byte>)
    requires NulFree(s) && p(PERCENT)
    ensures Unescaped(narrow, Escaped(p, s)) == s
  {
    hide Plain, Cut, Escaped, FirstEscape, FirstPercent, Kept;
    var e := Escaped(p, s);
    EscapedKeepsAll(p, s);
    PlainOfEscaped(narrow, p, s);
    if FirstEscape(e) == |e| {
      NoEscape(narrow, e);
    } else {
      PlainPrefix(narrow, e, FirstEscape(e));
    }
    CutNulFree(s);
  }

  lemma UrlRoundTrip(narrow: nat -> seq<Byte>, s: seq<Byte>)
    requires NulFree(s)
    ensures Unescaped(narrow, Escaped(ShouldEscapeUrl, s)) == s
  {
    UnescapeAfterEscape(narrow, ShouldEscapeUrl, s);
  }

  lemma {:induction false} EscapedUntouched(p: Byte -> bool, s: seq<Byte>)
    requires forall i :: 0 <= i < |s| ==> !p(s[i])
    ensures Escaped(p, s) == s
  {
    if s != [] {
      EscapedUntouched(p, s[1..]);
    }
  }

  // ------------------------------------------------------------------ EscapeUtf8 then Unescape

  /** The first byte that EscapeUtf8 escapes, or the length. */
  function FirstHigh(s: seq<Byte>): (i: nat)
    ensures i <= |s| && (i < |s| ==> s[i] >= 128) && forall k :: 0 <= k < i ==> s[k] < 128
  {
    if s == [] || s[0] >= 128 then 0 else 1 + FirstHigh(s[1..])
  }

  predicate HoldsEscape(s: seq<Byte>) {
    exists i: nat :: i < |s| && EscapeAt(s, i)
  }

  /** A '%' comes before a byte that is escaped only in a row of '%'s that ends there. */
  predicate PercentsLeadUp(s: seq<Byte>) {
    FirstHigh(s) == |s| || forall k :: FirstPercent(s) <= k < FirstHigh(s) ==> s[k] == PERCENT
  }

  /** The text as EscapeUtf8 leaves it. */
  function Utf8(s: seq<Byte>): seq<Byte> {
    Escaped(ShouldEscapeUtf8, s)
  }

  lemma Utf8Step(s: seq<Byte>)
    ensures s == [] ==> Utf8(s) == []
    ensures s != [] && s[0] < 128 ==> Utf8(s) == [s[0]] + Utf8(s[1..])
    ensures s != [] && s[0] >= 128 ==>
      && |Utf8(s)| >= 3 && Utf8(s)[0] == PERCENT && Utf8(s)[3..] == Utf8(s[1..])
      && Utf8(s)[1] == ToDigit(s[0] / 16) && Utf8(s)[2] == ToDigit(s[0] % 16)
  {
    if s != [] && s[0] >= 128 {
      assert Utf8(s) == Triplet(s[0]) + Utf8(s[1..]);
    }
  }

  /** Where the escaped text starts with n characters other than '%', so does the text. */
  lemma {:induction false} PlainRun(s: seq<Byte>, n: nat)
    requires n <= |Utf8(s)| && forall k :: 0 <= k < n ==> Utf8(s)[k] != PERCENT
    ensures n <= |s| && s[..n] == Utf8(s)[..n] && Utf8(s)[n..] == Utf8(s[n..])
  {
    hide *;
    Utf8Step(s);
    if n == 0 {
      assert s[0..] == s;
    } else {
      assert Utf8(s)[0] != PERCENT;
      var rest := Utf8(s[1..]);
      forall k | 0 <= k < n - 1 ensures rest[k] != PERCENT {
        assert rest[k] == Utf8(s)[k + 1];
      }
      PlainRun(s[1..], n - 1);
      Longer(s, Utf8(s), rest, n);
    }
  }

  lemma Longer(s: seq<Byte>, e: seq<Byte>, rest: seq<Byte>, n: nat)
    requires 0 < n <= |s| && n <= |e| && e == [s[0]] + rest && s[1..][..n - 1] == rest[..n - 1]
    ensures s[..n] == e[..n] && e[n..] == rest[n - 1..] && s[n..] == s[1..][n - 1..]
  {
    assert s[..n] == [s[0]] + s[1..][..n - 1];
    assert e[..n] == [s[0]] + rest[..n - 1];
  }

  /** Where the text starts with n characters that are not escaped, so does the escaped text. */
  lemma {:induction false} LowRun(s: seq<Byte>, n: nat)
    requires n <= |s| && forall k :: 0 <= k < n ==> s[k] < 128
    ensures n <= |Utf8(s)| && Utf8(s)[..n] == s[..n] && Utf8(s)[n..] == Utf8(s[n..])
  {
    hide *;
    Utf8Step(s);
    if n == 0 {
      assert s[0..] == s;
    } else {
      LowRun(s[1..], n - 1);
      Longer(s, Utf8(s), Utf8(s[1..]), n);
    }
  }

  lemma EscapeLetters(s: seq<Byte>, t: seq<Byte>, n: nat)
    requires n <= |s| && n <= |t| && s[..n] == t[..n]
    ensures n >= 6 && WideAt(s, 0) ==> WideAt(t, 0)
    ensures n >= 3 && HexAt(s, 0) ==> HexAt(t, 0)
    ensures n >= 6 && WideAt(s, 0) ==> forall k :: 0 < k < 6 ==> s[k] != PERCENT && s[k] < 128
    ensures n >= 3 && HexAt(s, 0) ==> forall k :: 0 < k < 3 ==> s[k] != PERCENT && s[k] < 128
  {
    assert forall k :: 0 <= k < n ==> s[k] == s[..n][k] == t[..n][k] == t[k];
  }

  lemma EscapeSizes(s: seq<Byte>)
    ensures WideAt(s, 0) ==> |s| >= 6 && s[0] == PERCENT
    ensures HexAt(s, 0) ==> |s| >= 3 && s[0] == PERCENT
  {}

  /** An escape that starts with a '%' of the text is there before and after. */
  lemma SameEscapes(s: seq<Byte>)
    requires s != [] && s[0] < 128
    ensures WideAt(Utf8(s), 0) <==> WideAt(s, 0)
    ensures HexAt(Utf8(s), 0) <==> HexAt(s, 0)
    ensures WideAt(s, 0) ==> |s| >= 6 && |Utf8(s)| >= 6 && Utf8(s)[6..] == Utf8(s[6..])
    ensures HexAt(s, 0) ==> |s| >= 3 && |Utf8(s)| >= 3 && Utf8(s)[3..] == Utf8(s[3..])
  {
    hide *;
    EscapeSizes(s);
    EscapeSizes(Utf8(s));
    if WideAt(Utf8(s), 0) { SameRun(s, 6); }
    if HexAt(Utf8(s), 0) { SameRun(s, 3); }
    if WideAt(s, 0) { SameRunUp(s, 6); }
    if HexAt(s, 0) { SameRunUp(s, 3); }
  }

  lemma SameRun(s: seq<Byte>, n: nat)
    requires s != [] && s[0] < 128 && (n == 3 || n == 6) && n <= |Utf8(s)|
    requires if n == 6 then WideAt(Utf8(s), 0) else HexAt(Utf8(s), 0)
    ensures if n == 6 then WideAt(s, 0) else HexAt(s, 0)
  {
    hide *;
    var e := Utf8(s);
    Utf8Step(s);
    EscapeLetters(e, e, n);
    var rest := Utf8(s[1..]);
    forall k | 0 <= k < n - 1 ensures rest[k] != PERCENT {
      assert rest[k] == e[k + 1];
    }
    PlainRun(s[1..], n - 1);
    Longer(s, e, rest, n);
    EscapeLetters(e, s, n);
  }

  lemma SameRunUp(s: seq<Byte>, n: nat)
    requires s != [] && s[0] < 128 && (n == 3 || n == 6) && n <= |s|
    requires if n == 6 then WideAt(s, 0) else HexAt(s, 0)
    ensures n <= |Utf8(s)| && Utf8(s)[n..] == Utf8(s[n..])
    ensures if n == 6 then WideAt(Utf8(s), 0) else HexAt(Utf8(s), 0)
  {
    hide *;
    EscapeLetters(s, s, n);
    LowRun(s, n);
    EscapeLetters(s, Utf8(s), n);
  }

  lemma HighPiece(narrow: nat -> seq<Byte>, s: seq<Byte>)
    requires s != [] && s[0] >= 128
    ensures Plain(narrow, Utf8(s)) == [s[0]] + Plain(narrow, Utf8(s[1..]))
  {
    Utf8Step(s);
    hide Utf8, Escaped;
    assert HexAt(Utf8(s), 0) && !WideAt(Utf8(s), 0);
    HexRoundTrip(s[0]);
  }

  /** Decoding never makes the text longer than it was, and makes it shorter if it held an escape itself. */
  lemma {:induction false} DecodedLength(narrow: nat -> seq<Byte>, s: seq<Byte>)
    requires forall w: nat :: |narrow(w)| < 6
    ensures |Plain(narrow, Utf8(s))| <= |s|
    ensures HoldsEscape(s) ==> |Plain(narrow, Utf8(s))| < |s|
    decreases |s|
  {
    hide *;
    Utf8Step(s);
    if s == [] {
      PlainOfNothing(narrow);
      NothingHeld();
    } else {
      EscapeAfterFirst(s);
      if s[0] >= 128 {
        HighPiece(narrow, s);
        DecodedLength(narrow, s[1..]);
      } else {
        LowPiece(narrow, s);
        EscapeKindsAt(s);
        if WideAt(s, 0) {
          DecodedLength(narrow, s[6..]);
        } else if HexAt(s, 0) {
          DecodedLength(narrow, s[3..]);
        } else {
          DecodedLength(narrow, s[1..]);
        }
      }
    }
  }

  lemma NothingHeld()
    ensures !HoldsEscape([])
  {}

  lemma EscapeKindsAt(s: seq<Byte>)
    ensures EscapeAt(s, 0) <==> WideAt(s, 0) || HexAt(s, 0)
  {}

  lemma EscapeAfterFirst(s: seq<Byte>)
    requires s != []
    ensures HoldsEscape(s) <==> EscapeAt(s, 0) || HoldsEscape(s[1..])
    ensures s[0] >= 128 ==> !EscapeAt(s, 0)
  {
    forall i: nat ensures EscapeAt(s[1..], i) <==> EscapeAt(s, 1 + i) {
      EscapeShift(s, 1, i);
    }
    hide WideAt, HexAt;
    if HoldsEscape(s[1..]) {
      var i: nat :| i < |s[1..]| && EscapeAt(s[1..], i);
      assert EscapeAt(s, 1 + i);
    }
    if i: nat :| i < |s| && EscapeAt(s, i) && i > 0 {
      assert EscapeAt(s[1..], i - 1);
    }
  }

  /** What decoding makes of a first character that was not escaped. */
  lemma LowPiece(narrow: nat -> seq<Byte>, s: seq<Byte>)
    requires s != [] && s[0] < 128 && forall w: nat :: |narrow(w)| < 6
    ensures WideAt(s, 0) ==> |s| >= 6 && |Plain(narrow, Utf8(s))| < 6 + |Plain(narrow, Utf8(s[6..]))|
    ensures !WideAt(s, 0) && HexAt(s, 0) ==> |s| >= 3 && |Plain(narrow, Utf8(s))| == 1 + |Plain(narrow, Utf8(s[3..]))|
    ensures !EscapeAt(s, 0) ==> Plain(narrow, Utf8(s)) == [s[0]] + Plain(narrow, Utf8(s[1..]))
  {
    SameEscapes(s);
    Utf8Step(s);
    hide Utf8, Escaped, WideAt, HexAt;
    assert Utf8(s) != [] && Utf8(s)[0] == s[0] && Utf8(s)[1..] == Utf8(s[1..]);
  }

  /** Without escapes of its own a text is what decoding its escaped form gives. */
  lemma {:induction false} DecodesToItself(narrow: nat -> seq<Byte>, s: seq<Byte>)
    requires !HoldsEscape(s) && forall w: nat :: |narrow(w)| < 6
    ensures Plain(narrow, Utf8(s)) == s
  {
    hide *;
    Utf8Step(s);
    if s == [] {
      PlainOfNothing(narrow);
    } else {
      EscapeAfterFirst(s);
      if s[0] >= 128 { HighPiece(narrow, s); } else { LowPiece(narrow, s); }
      DecodesToItself(narrow, s[1..]);
    }
  }

  lemma {:induction false} EscapedIsNulFree(s: seq<Byte>)
    requires NulFree(s)
    ensures NulFree(Utf8(s))
  {
    if s != [] {
      EscapedIsNulFree(s[1..]);
      assert NulFree(Piece(ShouldEscapeUtf8, s[0]));
    }
  }

  /** Before the first byte escaped there is no escape in the escaped text either. */
  lemma NoneBeforeHigh(s: seq<Byte>, k: nat)
    requires !HoldsEscape(s) && k < FirstHigh(s)
    ensures !EscapeAt(Utf8(s), k)
  {
    assert !EscapeAt(s, k);
    LowRun(s, k);
    EscapeShift(Utf8(s), k, 0);
    EscapeShift(s, k, 0);
    SameEscapes(s[k..]);
    hide Utf8, WideAt, HexAt;
  }

  /** The first escape in the escaped text is the first byte escaped. */
  lemma FirstEscapeIsHigh(s: seq<Byte>)
    requires !HoldsEscape(s)
    ensures FirstHigh(s) <= |Utf8(s)| && Utf8(s)[..FirstHigh(s)] == s[..FirstHigh(s)]
    ensures FirstEscape(Utf8(s)) == if FirstHigh(s) < |s| then FirstHigh(s) else |Utf8(s)|
    ensures FirstHigh(s) == |s| <==> FirstEscape(Utf8(s)) == |Utf8(s)|
  {
    hide *;
    HighFacts(s);
    var e, h := Utf8(s), FirstHigh(s);
    LowRun(s, h);
    forall k: nat | k < h ensures !EscapeAt(e, k) {
      NoneBeforeHigh(s, k);
    }
    Utf8Step(s[h..]);
    if h < |s| { TripletAt(e, s, h); }
    FirstEscapeAt(e, h);
  }

  lemma HighFacts(s: seq<Byte>)
    ensures FirstHigh(s) <= |s| && (FirstHigh(s) < |s| ==> s[FirstHigh(s)] >= 128)
    ensures forall k :: 0 <= k < FirstHigh(s) ==> s[k] < 128
  {}

  lemma TripletAt(e: seq<Byte>, s: seq<Byte>, h: nat)
    requires h < |s| && s[h] >= 128 && h <= |e| && e[h..] == Utf8(s[h..])
    ensures h < |e| && EscapeAt(e, h)
  {
    Utf8Step(s[h..]);
    hide Utf8, Escaped;
    EscapeShift(e, h, 0);
    assert HexAt(e[h..], 0);
  }

  lemma FirstEscapeAt(e: seq<Byte>, h: nat)
    requires h <= |e| && (forall k: nat :: k < h ==> !EscapeAt(e, k)) && (h < |e| ==> EscapeAt(e, h))
    ensures FirstEscape(e) == h
  {
    hide EscapeAt;
  }

  /**
    Unescape after EscapeUtf8 restores a NUL-free text if and only if the text holds no escape
    of its own, and nothing but '%'s stands between its first '%' and the first byte escaped.
    No code page is taken to need six bytes for one character.
   */
  lemma Utf8RoundTrip(narrow: nat -> seq<Byte>, s: seq<Byte>)
    requires NulFree(s) && forall w: nat :: |narrow(w)| < 6
    ensures Unescaped(narrow, Escaped(ShouldEscapeUtf8, s)) == s <==> !HoldsEscape(s) && PercentsLeadUp(s)
  {
    hide *;
    var e := Utf8(s);
    assert e == Escaped(ShouldEscapeUtf8, s) by { Utf8Is(s); }
    EscapedIsNulFree(s);
    if HoldsEscape(s) {
      DecodedLength(narrow, s);
      UnescapedLength(narrow, e);
    } else {
      DecodesToItself(narrow, s);
      CutNulFree(s);
      UnescapeIsFaithful(narrow, e);
      FirstEscapeIsHigh(s);
      HighFacts(s);
      SameLeadUp(s, e);
    }
  }

  lemma Utf8Is(s: seq<Byte>)
    ensures Utf8(s) == Escaped(ShouldEscapeUtf8, s)
  {}

  lemma SameLeadUp(s: seq<Byte>, e: seq<Byte>)
    requires FirstHigh(s) <= |s| && FirstHigh(s) <= |e| && e[..FirstHigh(s)] == s[..FirstHigh(s)]
    requires FirstEscape(e) == if FirstHigh(s) < |s| then FirstHigh(s) else |e|
    requires FirstHigh(s) == |s| <==> FirstEscape(e) == |e|
    ensures FirstEscape(e) == |e| || OnlyPercentsBeforeEscape(e) <==> PercentsLeadUp(s)
  {
    PercentFirst(e);
    hide EscapeAt, FirstHigh, FirstEscape, FirstPercent;
    var h := FirstHigh(s);
    assert forall k :: 0 <= k < h ==> e[k] == e[..h][k] == s[..h][k] == s[k];
  }

  lemma {:induction false} CutLength(s: seq<Byte>)
    ensures |Cut(s)| <= |s|
  {
    if s != [] { CutLength(s[1..]); }
  }

  /** What Unescape leaves is no longer than the text decoded. */
  lemma UnescapedLength(narrow: nat -> seq<Byte>, s: seq<Byte>)
    ensures |Unescaped(narrow, s)| <= |Plain(narrow, s)|
  {
    CutLength(Rewritten(narrow, s));
    hide Plain, Cut, Kept, EscapeAt;
    if FirstEscape(s) == |s| {
      NoEscape(narrow, s);
    } else {
      KeptBounded(s);
      PlainPrefix(narrow, s, FirstEscape(s));
    }
  }

  /** EscapeUtf8 leaves '%' alone, so "%41" comes back as "A". */
  lemma Utf8DoesNotRoundTrip(narrow: nat -> seq<Byte>)
    ensures var s: seq<Byte> := [PERCENT, 0x34, 0x31];
            NulFree(s) && Unescaped(narrow, Escaped(ShouldEscapeUtf8, s)) == [0x41]
  {
    var s: seq<Byte> := [PERCENT, 0x34, 0x31];
    EscapedUntouched(ShouldEscapeUtf8, s);
    assert HexAt(s, 0) && !WideAt(s, 0) && FirstEscape(s) == 0;
    assert FirstPercent(s) == 0 && Kept(s) == 0;
    assert s[0..] == s && s[3..] == [];
    assert Plain(narrow, s) == [0x41];
    assert Rewritten(narrow, s) == [0x41];
    CutNulFree([0x41]);
  }

  /** "%z%41" loses its z. */
  lemma TextBeforeAnEscapeIsLost(narrow: nat -> seq<Byte>)
    ensures var s: seq<Byte> := [PERCENT, 0x7A, PERCENT, 0x34, 0x31];
            && Unescaped(narrow, s) == [PERCENT, 0x41]
            && Plain(narrow, s) == [PERCENT, 0x7A, 0x41]
  {
    var s: seq<Byte> := [PERCENT, 0x7A, PERCENT, 0x34, 0x31];
    assert !EscapeAt(s, 0) && !EscapeAt(s, 1) && HexAt(s, 2);
    assert FirstEscape(s, 1) == 2 && FirstEscape(s) == 2;
    assert FirstPercent(s) == 0;
    assert Percents(s, 0) == 0 && Percents(s, 1) == 1 && Percents(s, 2) == 1;
    var t := s[2..];
    assert HexAt(t, 0) && !WideAt(t, 0) && t[3..] == [];
    assert Plain(narrow, t) == [0x41];
    PlainPrefix(narrow, s, 2);
    assert s[..2] == [PERCENT, 0x7A];
    assert Rewritten(narrow, s) == [PERCENT, 0x41];
    CutNulFree([PERCENT, 0x41]);
  }
}
