/** Base64Encode and Base64Decode over the standard alphabet of section 4 of RFC 4648.
    Bytes and WCHARs are bit vectors, so shifts and masks are the program's own. */
module Base64 {

  type Byte = bv8
  type WChar = bv16

  datatype Status = Success | InsufficientBuffer | BufferOverflow | InvalidParameter

  const PAD: WChar := 0x3D
  const NA: Byte := 255
  const DWORD_LIMIT := 0x1_0000_0000

  /** rgchEncodeTable. */
  function Letter(d: Byte): WChar
    requires d < 64
  {
    if d < 26 then 0x41 + d as WChar
    else if d < 52 then 0x61 + (d - 26) as WChar
    else if d < 62 then 0x30 + (d - 52) as WChar
    else if d == 62 then 0x2B
    else 0x2F
  }

  /** The DECODE macro over rgbDecodeTable; '=' stands for zero wherever it occurs. */
  function Digit(c: WChar): Byte {
    if 0x41 <= c <= 0x5A then (c - 0x41) as Byte
    else if 0x61 <= c <= 0x7A then (c - 0x61) as Byte + 26
    else if 0x30 <= c <= 0x39 then (c - 0x30) as Byte + 52
    else if c == 0x2B then 62
    else if c == 0x2F then 63
    else if c == PAD then 0
    else NA
  }

  lemma DigitOfLetter(d: Byte)
    requires d < 64
    ensures Digit(Letter(d)) == d
    ensures Letter(d) != PAD
  {
  }

  lemma LetterOfDigit(c: WChar)
    requires Digit(c) != NA
    ensures Digit(c) < 64
    ensures Letter(Digit(c)) == if c == PAD then Letter(0) else c
  {
  }

  // ------------------------------------------ 24-bit words: three octets or four sextets

  function OfOctets(b0: Byte, b1: Byte, b2: Byte): bv24 {
    ((b0 as bv24) << 16) | ((b1 as bv24) << 8) | (b2 as bv24)
  }

  function OfSextets(d0: Byte, d1: Byte, d2: Byte, d3: Byte): bv24 {
    ((d0 as bv24) << 18) | ((d1 as bv24) << 12) | ((d2 as bv24) << 6) | (d3 as bv24)
  }

  function Octet(w: bv24, j: nat): Byte
    requires j < 3
  {
    if j == 0 then ((w >> 16) & 0xFF) as Byte
    else if j == 1 then ((w >> 8) & 0xFF) as Byte
    else (w & 0xFF) as Byte
  }

  function Sextet(w: bv24, j: nat): (d: Byte)
    requires j < 4
    ensures d < 64
  {
    if j == 0 then ((w >> 18) & 0x3F) as Byte
    else if j == 1 then ((w >> 12) & 0x3F) as Byte
    else if j == 2 then ((w >> 6) & 0x3F) as Byte
    else (w & 0x3F) as Byte
  }

  lemma OctetsOfWord(b0: Byte, b1: Byte, b2: Byte)
    ensures Octet(OfOctets(b0, b1, b2), 0) == b0
    ensures Octet(OfOctets(b0, b1, b2), 1) == b1
    ensures Octet(OfOctets(b0, b1, b2), 2) == b2
  {
  }

  lemma SextetsOfWord(d0: Byte, d1: Byte, d2: Byte, d3: Byte)
    requires d0 < 64 && d1 < 64 && d2 < 64 && d3 < 64
    ensures Sextet(OfSextets(d0, d1, d2, d3), 0) == d0
    ensures Sextet(OfSextets(d0, d1, d2, d3), 1) == d1
    ensures Sextet(OfSextets(d0, d1, d2, d3), 2) == d2
    ensures Sextet(OfSextets(d0, d1, d2, d3), 3) == d3
  {
  }

  lemma WordOfSextets(w: bv24)
    ensures OfSextets(Sextet(w, 0), Sextet(w, 1), Sextet(w, 2), Sextet(w, 3)) == w
  {
  }

  lemma WordOfOctets(w: bv24)
    ensures OfOctets(Octet(w, 0), Octet(w, 1), Octet(w, 2)) == w
  {
  }

  /** The encoder's byte expressions are the word's sextets. */
  lemma EncoderBits(b0: Byte, b1: Byte, b2: Byte)
    ensures b0 >> 2 == Sextet(OfOctets(b0, b1, b2), 0)
    ensures ((b0 << 4) & 0x30) | ((b1 >> 4) & 0x0F) == Sextet(OfOctets(b0, b1, b2), 1)
    ensures ((b1 << 2) & 0x3C) | ((b2 >> 6) & 0x03) == Sextet(OfOctets(b0, b1, b2), 2)
    ensures b2 & 0x3F == Sextet(OfOctets(b0, b1, b2), 3)
  {
  }

  /** The decoder's byte expressions are the word's octets. */
  lemma DecoderBits(d0: Byte, d1: Byte, d2: Byte, d3: Byte)
    requires d0 < 64 && d1 < 64 && d2 < 64 && d3 < 64
    ensures (d0 << 2) | (d1 >> 4) == Octet(OfSextets(d0, d1, d2, d3), 0)
    ensures (d1 << 4) | (d2 >> 2) == Octet(OfSextets(d0, d1, d2, d3), 1)
    ensures (d2 << 6) | d3 == Octet(OfSextets(d0, d1, d2, d3), 2)
  {
  }

  // ------------------------------------------------------------- what the encoder writes

  /** Clusters of four characters, one for every three bytes or part of three. */
  function Clusters(cb: nat): nat {
    (cb + 2) / 3
  }

  function ByteAt(b: seq<Byte>, i: nat): Byte {
    if i < |b| then b[i] else 0
  }

  /** The k-th three bytes as a word, filled up with zeros. */
  function Word(b: seq<Byte>, k: nat): bv24 {
    OfOctets(ByteAt(b, 3 * k), ByteAt(b, 3 * k + 1), ByteAt(b, 3 * k + 2))
  }

  /** Character j of cluster k stands for no bit of the data. */
  predicate Padding(cb: nat, i: nat) {
    i / 4 * 3 + i % 4 > cb
  }

  function EncodedChar(b: seq<Byte>, i: nat): WChar {
    if Padding(|b|, i) then PAD else Letter(Sextet(Word(b, i / 4), i % 4))
  }

  function Encoded(b: seq<Byte>): (s: seq<WChar>)
    ensures |s| == 4 * Clusters(|b|)
  {
    seq(4 * Clusters(|b|), i requires 0 <= i => EncodedChar(b, i))
  }

  /** The size Base64Encode announces, in DWORD arithmetic. */
  function AnnouncedEncoding(cb: nat): nat {
    (1 + (cb + 2) % DWORD_LIMIT / 3 * 4) % DWORD_LIMIT
  }

  predicate FitsDword(cb: nat) {
    4 * Clusters(cb) + 1 < DWORD_LIMIT
  }

  lemma AnnouncedWhenFits(cb: nat)
    requires cb < DWORD_LIMIT && FitsDword(cb)
    ensures AnnouncedEncoding(cb) == 4 * Clusters(cb) + 1
  {
  }

  /** The encoded size fits a DWORD below 3221225470 bytes; for so many a buffer of one character is announced. */
  lemma SmallestThatWraps(cb: nat)
    ensures FitsDword(cb) <==> cb < 3221225470
    ensures !FitsDword(3221225470) && AnnouncedEncoding(3221225470) == 1
  {
    assert cb < 3221225470 <==> (cb + 2) / 3 < 1073741824;
  }

  /** What the loop leaves before padding: every cluster written in full. */
  function RawChar(b: seq<Byte>, i: nat): WChar {
    Letter(Sextet(Word(b, i / 4), i % 4))
  }

  /** Overwriting the last one or two characters turns raw characters into the encoding. */
  lemma PaddingOnlyAtTheEnd(cb: nat, i: nat)
    requires i < 4 * Clusters(cb)
    ensures Padding(cb, i) <==> || (cb % 3 == 1 && i >= 4 * Clusters(cb) - 2)
                                || (cb % 3 == 2 && i == 4 * Clusters(cb) - 1)
  {
  }

  /** The first n characters are those of b's clusters, not yet padded. */
  predicate Written(out: seq<WChar>, b: seq<Byte>, n: nat) {
    n <= |out| && forall i :: 0 <= i < n ==> out[i] == RawChar(b, i)
  }

  lemma WrittenCluster(was: seq<WChar>, out: seq<WChar>, b: seq<Byte>, k: nat)
    requires Written(was, b, 4 * k) && |out| == |was| >= 4 * k + 4
    requires forall i :: 0 <= i < 4 * k ==> out[i] == was[i]
    requires forall j :: 0 <= j < 4 ==> out[4 * k + j] == Letter(Sextet(Word(b, k), j))
    ensures Written(out, b, 4 * k + 4)
  {
    hide Letter, Sextet, Word;
    forall i | 4 * k <= i < 4 * k + 4
      ensures out[i] == RawChar(b, i)
    {
      assert i == 4 * k + (i - 4 * k);
    }
  }

  lemma WrittenEncoding(was: seq<WChar>, out: seq<WChar>, b: seq<Byte>)
    requires Written(was, b, 4 * Clusters(|b|)) && |out| == 4 * Clusters(|b|) + 1 <= |was|
    requires forall i :: 0 <= i < |out| - 1 ==>
      out[i] == if || (|b| % 3 == 1 && i >= 4 * Clusters(|b|) - 2)
                   || (|b| % 3 == 2 && i == 4 * Clusters(|b|) - 1) then PAD else was[i]
    requires out[|out| - 1] == 0
    ensures out == Encoded(b) + [0]
  {
    forall i | 0 <= i < |out| - 1
      ensures out[i] == Encoded(b)[i]
    {
      hide Letter, Sextet, Word, Padding;
      PaddingOnlyAtTheEnd(|b|, i);
      assert was[i] == RawChar(b, i);
    }
  }

  /** Marks the missing bytes of the last cluster and ends the string. */
  method Terminate(out: array<WChar>, ich: nat, cb: nat, ghost b: seq<Byte>)
    requires cb == |b| && ich == 4 * Clusters(|b|) < out.Length && Written(out[..], b, ich)
    modifies out
    ensures out[..ich + 1] == Encoded(b) + [0]
    ensures forall i :: ich < i < out.Length ==> out[i] == old(out[i])
  {
    hide RawChar, Encoded, Written;
    match cb % 3 {
      case 0 =>
      case 1 => out[ich - 2] := PAD; out[ich - 1] := PAD;
      case _ => out[ich - 1] := PAD;
    }
    out[ich] := 0;
    WrittenEncoding(old(out[..]), out[..ich + 1], b);
  }

  lemma AnnouncedIsPositive(cb: nat)
    ensures AnnouncedEncoding(cb) > 0
  {
  }

  /** A buffer the announced size lets in runs out inside the loop only when the size wrapped. */
  lemma OverflowMeansWrapped(cb: nat, size: nat)
    requires cb < DWORD_LIMIT && AnnouncedEncoding(cb) <= size <= 4 * Clusters(cb)
    ensures !FitsDword(cb)
  {
  }

  /** The loop body's four guarded writes. */
  method PutFour(c0: WChar, c1: WChar, c2: WChar, c3: WChar, out: array<WChar>, ich: nat, size: nat)
    returns (next: nat, overflow: bool)
    requires ich < size <= out.Length
    modifies out
    ensures overflow <==> size <= ich + 4
    ensures ich < next <= ich + 4 && next <= size
    ensures !overflow ==> next == ich + 4 && out[ich..next] == [c0, c1, c2, c3]
    ensures forall i :: 0 <= i < ich || next <= i < out.Length ==> out[i] == old(out[i])
  {
    next := ich;
    out[next] := c0;
    next := next + 1;
    if next >= size {
      return next, true;
    }
    out[next] := c1;
    next := next + 1;
    if next >= size {
      return next, true;
    }
    out[next] := c2;
    next := next + 1;
    if next >= size {
      return next, true;
    }
    out[next] := c3;
    next := next + 1;
    return next, next >= size;
  }

  /** The loop body: one cluster of four characters. */
  method EncodeCluster(b0: Byte, b1: Byte, b2: Byte, out: array<WChar>, ich: nat, size: nat)
    returns (next: nat, overflow: bool)
    requires ich < size <= out.Length
    modifies out
    ensures overflow <==> size <= ich + 4
    ensures ich < next <= ich + 4 && next <= size
    ensures !overflow ==> next == ich + 4
    ensures !overflow ==> forall j :: 0 <= j < 4 ==>
      out[ich + j] == Letter(Sextet(OfOctets(b0, b1, b2), j))
    ensures forall i :: 0 <= i < ich || next <= i < out.Length ==> out[i] == old(out[i])
  {
    EncoderBits(b0, b1, b2);
    ghost var w := OfOctets(b0, b1, b2);
    hide *;
    ghost var four := [Letter(Sextet(w, 0)), Letter(Sextet(w, 1)), Letter(Sextet(w, 2)), Letter(Sextet(w, 3))];
    next, overflow := PutFour(Letter(b0 >> 2),
                              Letter(((b0 << 4) & 0x30) | ((b1 >> 4) & 0x0F)),
                              Letter(((b1 << 2) & 0x3C) | ((b2 >> 6) & 0x03)),
                              Letter(b2 & 0x3F), out, ich, size);
    if !overflow {
      forall j | 0 <= j < 4
        ensures out[ich + j] == Letter(Sextet(w, j))
      {
        assert out[ich + j] == out[ich..next][j] == four[j];
      }
    }
  }

  /**
   * Base64Encode. The four overflow exits are taken exactly when the encoding does not fit
   * a DWORD, so that the announced size has wrapped round.
   */
  method Base64Encode(decoded: array<Byte>, cb: nat, out: array?<WChar>, size: nat)
    returns (status: Status, announced: nat)
    requires cb <= decoded.Length && cb < DWORD_LIMIT && size < DWORD_LIMIT
    requires if out == null then size == 0 else size <= out.Length
    modifies out
    ensures announced == AnnouncedEncoding(cb)
    ensures status == if out == null then Success
                      else if size < announced then InsufficientBuffer
                      else if FitsDword(cb) then Success
                      else BufferOverflow
    ensures out != null && status == Success ==>
              && announced == 4 * Clusters(cb) + 1
              && out[..announced] == Encoded(decoded[..cb]) + [0]
              && forall i :: announced <= i < out.Length ==> out[i] == old(out[i])
    ensures out != null && status != Success ==>
              forall i :: size <= i < out.Length ==> out[i] == old(out[i])
    ensures out != null && status == InsufficientBuffer ==> out[..] == old(out[..])
  {
    hide Letter, RawChar, Padding, Encoded, Written, ByteAt, Sextet, OfOctets, Word;
    announced := AnnouncedEncoding(cb);
    if out == null {
      return Success, announced;
    }
    if size < announced {
      return InsufficientBuffer, announced;
    }
    AnnouncedIsPositive(cb);
    hide AnnouncedEncoding;

    var ib, ich := 0, 0;
    ghost var k := 0;
    ghost var b := decoded[..cb];
    NothingWritten(out[..], b);
    while ib < cb
      invariant 0 <= k <= Clusters(cb)
      invariant ib == (if 3 * k < cb then 3 * k else cb) && ich == 4 * k
      invariant ich < size
      invariant Written(out[..], b, ich)
      invariant forall i :: ich <= i < out.Length ==> out[i] == old(out[i])
    {
      ghost var was := out[..];
      var b0 := decoded[ib];
      ib := ib + 1;
      var b1 := 0;
      if ib < cb { b1 := decoded[ib]; ib := ib + 1; }
      var b2 := 0;
      if ib < cb { b2 := decoded[ib]; ib := ib + 1; }
      BytesRead(b, k, b0, b1, b2);
      var overflow;
      ich, overflow := EncodeCluster(b0, b1, b2, out, ich, size);
      if overflow {
        OverflowMeansWrapped(cb, size);
        return BufferOverflow, announced;
      }
      WrittenCluster(was, out[..], b, k);
      k := k + 1;
    }
    Terminate(out, ich, cb, b);
    AnnouncedWhenFits(cb);
    return Success, announced;
  }

  lemma NothingWritten(out: seq<WChar>, b: seq<Byte>)
    ensures Written(out, b, 0)
  {
  }

  lemma BytesRead(b: seq<Byte>, k: nat, b0: Byte, b1: Byte, b2: Byte)
    requires 3 * k < |b| && b0 == b[3 * k]
    requires b1 == if 3 * k + 1 < |b| then b[3 * k + 1] else 0
    requires b2 == if 3 * k + 2 < |b| then b[3 * k + 2] else 0
    ensures OfOctets(b0, b1, b2) == Word(b, k)
  {
    hide OfOctets;
  }

  // ------------------------------------------------------------- what the decoder accepts

  predicate WellSized(s: seq<WChar>) {
    |s| > 0 && |s| % 4 == 0
  }

  predicate AllDigits(s: seq<WChar>) {
    forall i :: 0 <= i < |s| ==> Digit(s[i]) != NA
  }

  /** Bytes the last cluster lacks, as told by the last two characters. */
  function Missing(s: seq<WChar>): (m: nat)
    requires WellSized(s)
    ensures m <= 2
  {
    if s[|s| - 1] != PAD then 0 else if s[|s| - 2] != PAD then 1 else 2
  }

  function DecodedSize(s: seq<WChar>): nat
    requires WellSized(s)
  {
    |s| / 4 * 3 - Missing(s)
  }

  /** The k-th four characters as a word. */
  function Quad(s: seq<WChar>, k: nat): bv24
    requires 4 * k + 4 <= |s|
  {
    OfSextets(Digit(s[4 * k]), Digit(s[4 * k + 1]), Digit(s[4 * k + 2]), Digit(s[4 * k + 3]))
  }

  function Decoded(s: seq<WChar>): (b: seq<Byte>)
    requires WellSized(s)
    ensures |b| == DecodedSize(s)
  {
    seq(DecodedSize(s), i requires 0 <= i < DecodedSize(s) => Octet(Quad(s, i / 3), i % 3))
  }

  predicate Read(out: seq<Byte>, s: seq<WChar>, n: nat)
    requires WellSized(s)
  {
    n <= |out| && n <= DecodedSize(s) && forall i :: 0 <= i < n ==> out[i] == Decoded(s)[i]
  }

  lemma NothingRead(out: seq<Byte>, s: seq<WChar>)
    requires WellSized(s)
    ensures Read(out, s, 0)
  {
  }

  lemma AllRead(out: seq<Byte>, s: seq<WChar>)
    requires WellSized(s) && DecodedSize(s) <= |out| && Read(out, s, DecodedSize(s))
    ensures out[..DecodedSize(s)] == Decoded(s)
  {
    hide Octet, Quad;
  }

  lemma ReadMore(was: seq<Byte>, out: seq<Byte>, s: seq<WChar>, k: nat, n: nat)
    requires WellSized(s) && 4 * k + 4 <= |s|
    requires Read(was, s, 3 * k) && 3 * k <= n <= 3 * k + 3 && n <= DecodedSize(s)
    requires |out| == |was| >= n
    requires forall i :: 0 <= i < 3 * k ==> out[i] == was[i]
    requires forall j :: 0 <= j < n - 3 * k ==> out[3 * k + j] == Octet(Quad(s, k), j)
    ensures Read(out, s, n)
  {
    hide Octet, Quad;
    forall i | 3 * k <= i < n
      ensures out[i] == Octet(Quad(s, i / 3), i % 3)
    {
      assert i == 3 * k + (i - 3 * k);
    }
  }

  /** The loop body's one, two or three writes. */
  method DecodeCluster(b0: Byte, b1: Byte, b2: Byte, b3: Byte, out: array<Byte>, ib: nat, size: nat)
    returns (next: nat)
    requires b0 < 64 && b1 < 64 && b2 < 64 && b3 < 64
    requires ib < size <= out.Length
    modifies out
    ensures next == if ib + 3 <= size then ib + 3 else size
    ensures forall j :: 0 <= j < next - ib ==> out[ib + j] == Octet(OfSextets(b0, b1, b2, b3), j)
    ensures forall i :: 0 <= i < ib || next <= i < out.Length ==> out[i] == old(out[i])
  {
    hide Octet, OfSextets;
    DecoderBits(b0, b1, b2, b3);
    next := ib;
    out[next] := (b0 << 2) | (b1 >> 4);
    next := next + 1;
    if next < size {
      out[next] := (b1 << 4) | (b2 >> 2);
      next := next + 1;
      if next < size {
        out[next] := (b2 << 6) | b3;
        next := next + 1;
      }
    }
  }

  lemma QuadRead(s: seq<WChar>, k: nat, b0: Byte, b1: Byte, b2: Byte, b3: Byte)
    requires 4 * k + 4 <= |s| && b0 != NA && b1 != NA && b2 != NA && b3 != NA
    requires b0 == Digit(s[4 * k]) && b1 == Digit(s[4 * k + 1])
    requires b2 == Digit(s[4 * k + 2]) && b3 == Digit(s[4 * k + 3])
    ensures b0 < 64 && b1 < 64 && b2 < 64 && b3 < 64
    ensures OfSextets(b0, b1, b2, b3) == Quad(s, k)
  {
    hide OfSextets, Digit;
    LetterOfDigit(s[4 * k]);
    LetterOfDigit(s[4 * k + 1]);
    LetterOfDigit(s[4 * k + 2]);
    LetterOfDigit(s[4 * k + 3]);
  }

  /** The decoder's loop: every cluster in turn, stopping at the first foreign character. */
  method DecodeClusters(encoded: seq<WChar>, out: array<Byte>, announced: nat) returns (ok: bool)
    requires WellSized(encoded) && announced == DecodedSize(encoded) <= out.Length
    modifies out
    ensures ok <==> AllDigits(encoded)
    ensures ok ==> out[..announced] == Decoded(encoded)
    ensures forall i :: announced <= i < out.Length ==> out[i] == old(out[i])
  {
    hide Digit, Octet, Decoded, OfSextets, Read, Quad;
    var cch := |encoded|;
    var ich, ib := 0, 0;
    ghost var k := 0;
    NothingRead(out[..], encoded);
    assert announced + 3 > cch / 4 * 3 >= announced;
    hide DecodedSize;
    while ich < cch
      invariant ich == 4 * k <= cch
      invariant ib == if 3 * k < announced then 3 * k else announced
      invariant forall i :: 0 <= i < ich ==> Digit(encoded[i]) != NA
      invariant Read(out[..], encoded, ib)
      invariant forall i :: announced <= i < out.Length ==> out[i] == old(out[i])
    {
      ghost var was := out[..];
      var b0 := Digit(encoded[ich]); ich := ich + 1;
      var b1 := Digit(encoded[ich]); ich := ich + 1;
      var b2 := Digit(encoded[ich]); ich := ich + 1;
      var b3 := Digit(encoded[ich]); ich := ich + 1;
      if b0 == NA || b1 == NA || b2 == NA || b3 == NA {
        return false;
      }
      QuadRead(encoded, k, b0, b1, b2, b3);
      ib := DecodeCluster(b0, b1, b2, b3, out, ib, announced);
      ReadMore(was, out[..], encoded, k, ib);
      k := k + 1;
    }
    ok := true;
    AllRead(out[..], encoded);
  }

  /** Base64Decode. */
  method Base64Decode(encoded: seq<WChar>, out: array?<Byte>, size: nat)
    returns (status: Status, announced: nat)
    requires |encoded| < DWORD_LIMIT && size < DWORD_LIMIT
    requires if out == null then size == 0 else size <= out.Length
    modifies out
    ensures announced == if WellSized(encoded) then DecodedSize(encoded) else 0
    ensures status == if !WellSized(encoded) then InvalidParameter
                      else if out == null then Success
                      else if size < announced then InsufficientBuffer
                      else if AllDigits(encoded) then Success
                      else InvalidParameter
    ensures out != null && status == Success ==> out[..announced] == Decoded(encoded)
    ensures out != null ==> forall i :: announced <= i < out.Length ==> out[i] == old(out[i])
    ensures out != null && status == InsufficientBuffer ==> out[..] == old(out[..])
  {
    hide Decoded, AllDigits;
    var cch := |encoded|;
    if cch == 0 || cch % 4 != 0 {
      return InvalidParameter, 0;
    }
    announced := (cch + 3) / 4 * 3;
    if encoded[cch - 1] == PAD {
      if encoded[cch - 2] == PAD {
        announced := announced - 2;
      } else {
        announced := announced - 1;
      }
    }
    if out == null {
      return Success, announced;
    }
    if announced > size {
      return InsufficientBuffer, announced;
    }
    var ok := DecodeClusters(encoded, out, announced);
    status := if ok then Success else InvalidParameter;
  }

  // ------------------------------------------------------------------------ round trips

  /** The encoding's characters decode to the sextets of the bytes, padding included. */
  lemma DigitOfEncoded(b: seq<Byte>, i: nat)
    requires i < 4 * Clusters(|b|)
    ensures Digit(Encoded(b)[i]) == Sextet(Word(b, i / 4), i % 4)
    ensures Encoded(b)[i] == PAD <==> Padding(|b|, i)
  {
    assert Digit(PAD) == 0;
    hide Letter, Digit, Padding, Sextet, Word;
    if Padding(|b|, i) {
      PaddedSextetIsZero(b, i);
    } else {
      DigitOfLetter(Sextet(Word(b, i / 4), i % 4));
    }
  }

  lemma PaddedSextetIsZero(b: seq<Byte>, i: nat)
    requires Padding(|b|, i)
    ensures Sextet(Word(b, i / 4), i % 4) == 0
  {
  }

  lemma QuadOfEncoded(b: seq<Byte>, k: nat)
    requires k < Clusters(|b|)
    ensures Quad(Encoded(b), k) == Word(b, k)
  {
    hide Digit, Sextet, Word, OfSextets, Encoded, Padding;
    DigitOfEncoded(b, 4 * k);
    DigitOfEncoded(b, 4 * k + 1);
    DigitOfEncoded(b, 4 * k + 2);
    DigitOfEncoded(b, 4 * k + 3);
    WordOfSextets(Word(b, k));
  }

  lemma EncodedIsDecodable(b: seq<Byte>)
    requires b != []
    ensures WellSized(Encoded(b)) && AllDigits(Encoded(b))
    ensures DecodedSize(Encoded(b)) == |b|
  {
    hide Digit, Sextet, Encoded;
    var s := Encoded(b);
    forall i | 0 <= i < |s|
      ensures Digit(s[i]) != NA
    {
      DigitOfEncoded(b, i);
    }
    DigitOfEncoded(b, |s| - 1);
    DigitOfEncoded(b, |s| - 2);
  }

  /** Decoding what was encoded gives the bytes back, whatever they are. */
  lemma DecodeOfEncode(b: seq<Byte>)
    requires b != []
    ensures WellSized(Encoded(b)) && AllDigits(Encoded(b))
    ensures Decoded(Encoded(b)) == b
  {
    hide Quad, Octet, Word, Encoded;
    EncodedIsDecodable(b);
    var s := Encoded(b);
    forall i | 0 <= i < |b|
      ensures Decoded(s)[i] == b[i]
    {
      QuadOfEncoded(b, i / 3);
      WordOctet(b, i);
    }
  }

  lemma WordOctet(b: seq<Byte>, i: nat)
    requires i < |b|
    ensures Octet(Word(b, i / 3), i % 3) == b[i]
  {
    hide Octet, OfOctets;
    var k := i / 3;
    assert i == 3 * k + i % 3;
    OctetsOfWord(ByteAt(b, 3 * k), ByteAt(b, 3 * k + 1), ByteAt(b, 3 * k + 2));
  }

  predicate ZeroFrom(w: bv24, n: nat) {
    forall j: nat :: n <= j < 3 ==> Octet(w, j) == 0
  }

  /** The strings an encoder can have made: '=' only as padding, and no stray bits below it. */
  predicate Canonical(s: seq<WChar>)
    requires WellSized(s)
  {
    && (forall i :: 0 <= i < |s| - Missing(s) ==> s[i] != PAD)
    && ZeroFrom(Quad(s, |s| / 4 - 1), 3 - Missing(s))
  }

  /** Encoding what was decoded gives the string back exactly when the string is canonical. */
  lemma EncodeOfDecode(s: seq<WChar>)
    requires WellSized(s) && AllDigits(s)
    ensures Encoded(Decoded(s)) == s <==> Canonical(s)
  {
    DecodedClusters(s);
    if Encoded(Decoded(s)) == s {
      EncodingIsCanonical(Decoded(s), s);
    }
    if Canonical(s) {
      forall i | 0 <= i < |s|
        ensures Encoded(Decoded(s))[i] == s[i]
      {
        CanonicalChar(s, i);
      }
    }
  }

  lemma DecodedClusters(s: seq<WChar>)
    requires WellSized(s)
    ensures |Decoded(s)| == |s| / 4 * 3 - Missing(s)
    ensures 4 * Clusters(|Decoded(s)|) == |s|
    ensures forall i: nat :: i < |s| ==> (Padding(|Decoded(s)|, i) <==> i >= |s| - Missing(s))
  {
    hide Decoded, Missing;
    var cb := |Decoded(s)|;
    forall i: nat | i < |s|
      ensures Padding(cb, i) <==> i >= |s| - Missing(s)
    {
      PaddingOnlyAtTheEnd(cb, i);
    }
  }

  lemma EncodingIsCanonical(b: seq<Byte>, s: seq<WChar>)
    requires WellSized(s) && Encoded(b) == s && b == Decoded(s)
    ensures Canonical(s)
  {
    hide Missing, Encoded, Decoded, Octet, Quad, Word, Padding, OfOctets;
    DecodedClusters(s);
    forall i | 0 <= i < |s| - Missing(s)
      ensures s[i] != PAD
    {
      DigitOfEncoded(b, i);
    }
    var k := |s| / 4 - 1;
    forall j | 3 - Missing(s) <= j < 3
      ensures Octet(Quad(s, k), j) == 0
    {
      QuadOfEncoded(b, k);
      OctetPastEnd(b, k, j);
    }
  }

  lemma OctetPastEnd(b: seq<Byte>, k: nat, j: nat)
    requires j < 3 && 3 * k + j >= |b|
    ensures Octet(Word(b, k), j) == 0
  {
    hide Octet, OfOctets;
    OctetsOfWord(ByteAt(b, 3 * k), ByteAt(b, 3 * k + 1), ByteAt(b, 3 * k + 2));
  }

  lemma DecodedAt(s: seq<WChar>, k: nat, j: nat)
    requires WellSized(s) && j < 3 && 3 * k + j < DecodedSize(s)
    ensures Decoded(s)[3 * k + j] == Octet(Quad(s, k), j)
  {
    hide Octet, Quad;
    assert (3 * k + j) / 3 == k && (3 * k + j) % 3 == j;
  }

  lemma CanonicalWord(s: seq<WChar>, k: nat)
    requires WellSized(s) && Canonical(s) && k < |s| / 4
    ensures Word(Decoded(s), k) == Quad(s, k)
  {
    hide Missing, Octet, OfOctets, Quad, Decoded;
    DecodedClusters(s);
    var b := Decoded(s);
    forall j | 0 <= j < 3
      ensures ByteAt(b, 3 * k + j) == Octet(Quad(s, k), j)
    {
      if 3 * k + j < |b| {
        DecodedAt(s, k, j);
      } else {
        assert k == |s| / 4 - 1 && 3 - Missing(s) <= j;
        assert ZeroFrom(Quad(s, k), 3 - Missing(s));
      }
    }
    WordOfOctets(Quad(s, k));
  }

  lemma CanonicalChar(s: seq<WChar>, i: nat)
    requires WellSized(s) && AllDigits(s) && Canonical(s) && i < |s|
    ensures i < |Encoded(Decoded(s))| && Encoded(Decoded(s))[i] == s[i]
  {
    assert i >= |s| - Missing(s) <==> s[i] == PAD;
    hide Missing, Letter, Sextet, Quad, Decoded, Word, Canonical, Digit, Padding;
    DecodedClusters(s);
    if i < |s| - Missing(s) {
      CanonicalWord(s, i / 4);
      QuadSextet(s, i);
      LetterOfDigit(s[i]);
    }
  }

  lemma QuadSextet(s: seq<WChar>, i: nat)
    requires |s| % 4 == 0 && i < |s| && AllDigits(s)
    ensures Sextet(Quad(s, i / 4), i % 4) == Digit(s[i])
  {
    hide Digit, Sextet, OfSextets;
    var k := i / 4;
    assert i == 4 * k + i % 4;
    LetterOfDigit(s[4 * k]);
    LetterOfDigit(s[4 * k + 1]);
    LetterOfDigit(s[4 * k + 2]);
    LetterOfDigit(s[4 * k + 3]);
    SextetsOfWord(Digit(s[4 * k]), Digit(s[4 * k + 1]), Digit(s[4 * k + 2]), Digit(s[4 * k + 3]));
  }

  /** "AA=A" is accepted although '=' stands before the end: it decodes as "AAAA" would. */
  lemma PadInsideIsAccepted()
    ensures var s: seq<WChar> := [0x41, 0x41, PAD, 0x41];
            && WellSized(s) && AllDigits(s) && !Canonical(s)
            && Decoded(s) == Decoded([0x41, 0x41, 0x41, 0x41])
  {
    var s: seq<WChar> := [0x41, 0x41, PAD, 0x41];
    var t: seq<WChar> := [0x41, 0x41, 0x41, 0x41];
    assert Quad(s, 0) == Quad(t, 0);
    assert s[2] == PAD;
  }
}
