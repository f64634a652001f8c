/** The directory of segments that holds the bucket chains of a table. */
module Directories {
  import opened Bits
  import opened Records
  import opened Clumps
  import opened Addressing

  type Segment = seq<seq<Clump>>
  type Directory = seq<Option<Segment>>

  /** Which directory entry holds a bucket: `address >> segBits`. */
  function SegmentIndex(address: nat, bits: nat): nat {
    ShiftRight(address, bits)
  }

  /** The bucket's place within its segment: `address & segMask`. */
  function SlotIndex(address: nat, bits: nat): nat {
    And(address, Pow2(bits) - 1)
  }

  /** The segment of this bucket has been allocated. */
  predicate Present(dir: Directory, bits: nat, address: nat) {
    SegmentIndex(address, bits) < |dir| && dir[SegmentIndex(address, bits)].Some?
  }

  /** Every allocated segment has its full number of buckets. */
  ghost predicate Sized(dir: Directory, bits: nat) {
    forall s :: 0 <= s < |dir| && dir[s].Some? ==> |dir[s].value| == Pow2(bits)
  }

  function Bucket(dir: Directory, bits: nat, address: nat): seq<Clump>
    requires Present(dir, bits, address)
    requires SlotIndex(address, bits) < |dir[SegmentIndex(address, bits)].value|
  {
    dir[SegmentIndex(address, bits)].value[SlotIndex(address, bits)]
  }

  lemma SlotInRange(address: nat, bits: nat)
    ensures SlotIndex(address, bits) == address % Pow2(bits) < Pow2(bits)
  {
    AndMask(address, bits);
  }

  function NewSegment(bits: nat): Segment {
    seq(Pow2(bits), i => EmptyChain())
  }

  function SetBucket(dir: Directory, bits: nat, address: nat, chain: seq<Clump>): Directory
    requires Present(dir, bits, address)
    requires SlotIndex(address, bits) < |dir[SegmentIndex(address, bits)].value|
  {
    var s := SegmentIndex(address, bits);
    dir[s := Some(dir[s].value[SlotIndex(address, bits) := chain])]
  }

  /** The bucket chain at an address, or an empty chain where no segment is allocated. */
  ghost function ChainAt(dir: Directory, bits: nat, address: nat): seq<Clump> {
    if Present(dir, bits, address) && SlotIndex(address, bits) < |dir[SegmentIndex(address, bits)].value|
    then Bucket(dir, bits, address) else EmptyChain()
  }

  /** Storing a chain changes that bucket and no other. */
  lemma SetBucketFrame(dir: Directory, bits: nat, address: nat, chain: seq<Clump>)
    requires Sized(dir, bits) && Present(dir, bits, address)
    ensures SlotIndex(address, bits) < |dir[SegmentIndex(address, bits)].value|
    ensures var dir' := SetBucket(dir, bits, address, chain);
      && |dir'| == |dir| && Sized(dir', bits)
      && (forall b: nat :: Present(dir', bits, b) <==> Present(dir, bits, b))
      && (forall b: nat :: ChainAt(dir', bits, b) == if b == address then chain else ChainAt(dir, bits, b))
  {
    SlotInRange(address, bits);
    var dir' := SetBucket(dir, bits, address, chain);
    forall b: nat
      ensures ChainAt(dir', bits, b) == if b == address then chain else ChainAt(dir, bits, b)
    {
      SlotInRange(b, bits);
      SameBucket(address, b, bits);
    }
  }

  lemma SameBucket(a: nat, b: nat, bits: nat)
    ensures SegmentIndex(a, bits) == SegmentIndex(b, bits) && SlotIndex(a, bits) == SlotIndex(b, bits) <==> a == b
  {
    SlotInRange(a, bits);
    SlotInRange(b, bits);
    ShiftRemainder(a, bits);
    ShiftRemainder(b, bits);
  }

  // ------------------------------------------------------------------ growing and shrinking

  /** A directory of twice the size; the added entries are empty. */
  function Doubled(dir: Directory): Directory {
    dir + seq(|dir|, i => None)
  }

  /** The lower half of a directory. */
  function Halved(dir: Directory): Directory {
    dir[..|dir| / 2]
  }

  function SetSegment(dir: Directory, bits: nat, address: nat, seg: Option<Segment>): Directory
    requires SegmentIndex(address, bits) < |dir|
  {
    dir[SegmentIndex(address, bits) := seg]
  }

  /** Every bucket keeps its chain. */
  ghost predicate SameChains(dir: Directory, dir': Directory, bits: nat) {
    forall b: nat :: ChainAt(dir', bits, b) == ChainAt(dir, bits, b)
  }

  /** Every bucket below n has its segment. */
  ghost predicate Covers(dir: Directory, bits: nat, n: nat) {
    forall b: nat :: b < n ==> Present(dir, bits, b)
  }

  /** Every bucket from n on is empty. */
  ghost predicate EmptyFrom(dir: Directory, bits: nat, n: nat) {
    forall b: nat :: b >= n ==> ChainAt(dir, bits, b) == EmptyChain()
  }

  lemma DoublingKeepsChains(dir: Directory, bits: nat)
    requires Sized(dir, bits)
    ensures Sized(Doubled(dir), bits) && SameChains(dir, Doubled(dir), bits)
    ensures forall b: nat :: Present(dir, bits, b) ==> Present(Doubled(dir), bits, b)
  {
    hide SegmentIndex, SlotIndex, EmptyChain;
  }

  /** A new segment holds only empty buckets. */
  lemma NewSegmentKeepsChains(dir: Directory, bits: nat, address: nat)
    requires Sized(dir, bits) && SegmentIndex(address, bits) < |dir| && !Present(dir, bits, address)
    ensures var dir' := SetSegment(dir, bits, address, Some(NewSegment(bits)));
      && Sized(dir', bits) && SameChains(dir, dir', bits)
      && (forall b: nat :: Present(dir, bits, b) ==> Present(dir', bits, b))
      && Present(dir', bits, address)
  {
    var dir' := SetSegment(dir, bits, address, Some(NewSegment(bits)));
    forall b: nat ensures ChainAt(dir', bits, b) == ChainAt(dir, bits, b) {
      SlotInRange(b, bits);
    }
    hide SegmentIndex, SlotIndex, EmptyChain;
  }

  lemma SegmentStart(a: nat, b: nat, bits: nat)
    requires SegmentIndex(a, bits) == SegmentIndex(b, bits) && SlotIndex(b, bits) == 0
    ensures a >= b
  {
    ShiftRemainder(a, bits);
    ShiftRemainder(b, bits);
    SlotInRange(b, bits);
  }

  /** Freeing the segment that starts at the first inactive bucket loses nothing. */
  lemma FreedSegmentKeepsChains(dir: Directory, bits: nat, n: nat)
    requires Sized(dir, bits) && Covers(dir, bits, n) && EmptyFrom(dir, bits, n)
    requires SegmentIndex(n, bits) < |dir| && SlotIndex(n, bits) == 0
    ensures var dir' := SetSegment(dir, bits, n, None);
      Sized(dir', bits) && SameChains(dir, dir', bits) && Covers(dir', bits, n)
  {
    var dir' := SetSegment(dir, bits, n, None);
    forall b: nat
      ensures ChainAt(dir', bits, b) == ChainAt(dir, bits, b)
      ensures b < n ==> Present(dir', bits, b)
    {
      if SegmentIndex(b, bits) == SegmentIndex(n, bits) {
        SegmentStart(b, n, bits);
      }
    }
    hide SegmentIndex, SlotIndex, EmptyChain;
  }

  lemma WithinSegments(b: nat, n: nat, count: nat, bits: nat)
    requires b < n <= count * Pow2(bits)
    ensures SegmentIndex(b, bits) < count
  {
    ShiftBelow(b, count, bits);
  }

  /** A directory can be halved when the lower half spans the active buckets. */
  lemma HalvingKeepsChains(dir: Directory, bits: nat, n: nat)
    requires Sized(dir, bits) && Covers(dir, bits, n) && EmptyFrom(dir, bits, n)
    requires n <= (|dir| / 2) * Pow2(bits)
    ensures var dir' := Halved(dir);
      Sized(dir', bits) && SameChains(dir, dir', bits) && Covers(dir', bits, n)
  {
    var dir' := Halved(dir);
    forall b: nat | b < n ensures Present(dir', bits, b) {
      WithinSegments(b, n, |dir'|, bits);
      assert Present(dir, bits, b);
    }
    hide SegmentIndex, SlotIndex, EmptyChain;
  }

  /** A chain stored in an active bucket. */
  lemma StoredChain(dir: Directory, bits: nat, n: nat, address: nat, chain: seq<Clump>)
    requires Sized(dir, bits) && Covers(dir, bits, n) && EmptyFrom(dir, bits, n) && address < n
    ensures Present(dir, bits, address)
    ensures SlotIndex(address, bits) < |dir[SegmentIndex(address, bits)].value|
    ensures var dir' := SetBucket(dir, bits, address, chain);
      && |dir'| == |dir| && Sized(dir', bits) && Covers(dir', bits, n) && EmptyFrom(dir', bits, n)
      && (forall b: nat :: ChainAt(dir', bits, b) == if b == address then chain else ChainAt(dir, bits, b))
  {
    SetBucketFrame(dir, bits, address, chain);
    hide SegmentIndex, SlotIndex, EmptyChain, ChainAt, SetBucket;
  }

  // ------------------------------------------------------------------ shape

  /** A directory size: a power of two within its bounds. */
  ghost predicate DirSize(n: nat) {
    IsPowerOfTwo(n) && MIN_DIRSIZE <= n <= MAX_DIRSIZE
  }

  /**
    The directory has a proper size and covers the active buckets; buckets of allocated
    segments that are not active are empty.
   */
  ghost predicate Shape(dir: Directory, bits: nat, active: nat) {
    && SegBits(bits) && Sized(dir, bits)
    && DirSize(|dir|)
    && Covers(dir, bits, active)
    && EmptyFrom(dir, bits, active)
  }

  lemma MaxDirSize()
    ensures MAX_DIRSIZE == Pow2(20) && MIN_DIRSIZE == Pow2(3)
  {
    Pow2Word();
    Pow2Add(16, 4);
    assert Pow2(4) == 16;
  }

  lemma FewerThanMax(n: int, p: int, active: int)
    requires p > 0 && n * p <= active < MAX_DIRSIZE * p - 1
    ensures n < MAX_DIRSIZE
  {
    assert (n - MAX_DIRSIZE) * p == n * p - MAX_DIRSIZE * p;
    SmallMultiple(n - MAX_DIRSIZE, p);
  }

  /** Below the maximum, twice a directory size is one. */
  lemma DoubledSize(n: nat)
    requires DirSize(n) && n < MAX_DIRSIZE
    ensures DirSize(2 * n)
  {
    MaxDirSize();
    var k: nat :| n == Pow2(k);
    if k >= 20 { Pow2Monotone(20, k); }
    Pow2Monotone(k + 1, 20);
    assert 2 * n == Pow2(k + 1);
  }

  lemma HalvedSize(n: nat)
    requires DirSize(n) && n > MIN_DIRSIZE
    ensures DirSize(n / 2)
  {
    MaxDirSize();
    var k: nat :| n == Pow2(k);
    if k <= 3 { Pow2Monotone(k, 3); }
    Pow2Monotone(3, k - 1);
    assert n / 2 == Pow2(k - 1);
  }

  // ------------------------------------------------------------------ initial directory

  /** How many segments the initial buckets need: `(buckets + segSize - 1) >> segBits`. */
  function InitialSegments(bits: nat, buckets: nat): nat {
    ShiftRight(buckets + Pow2(bits) - 1, bits)
  }

  /**
    The directory size for an initial number of buckets: doubled from the minimum until it
    reaches the number of full segments. It also covers a last, partial segment unless the
    number of full segments is itself a directory size.
   */
  method InitialDirSize(bits: nat, buckets: nat) returns (size: nat)
    requires SegBits(bits) && ShiftRight(buckets, bits) <= MAX_DIRSIZE
    ensures DirSize(size)
    ensures InitialSegments(bits, buckets) <= size <==>
            SlotIndex(buckets, bits) == 0 || !DirSize(ShiftRight(buckets, bits))
  {
    size := MIN_DIRSIZE;
    ghost var k := 3;
    MaxDirSize();
    while size < ShiftRight(buckets, bits)
      invariant size == Pow2(k) >= MIN_DIRSIZE
      invariant size > MIN_DIRSIZE ==> size / 2 < ShiftRight(buckets, bits)
    {
      size := 2 * size;
      k := k + 1;
    }
    if k >= 20 { Pow2Monotone(20, k); } else { Pow2Monotone(k, 20); }
    assert IsPowerOfTwo(size) && IsPowerOfTwo(MAX_DIRSIZE);
    size := if size < MAX_DIRSIZE then size else MAX_DIRSIZE;
    RoundedSegments(bits, buckets);
    BetweenSizes(ShiftRight(buckets, bits), size);
  }

  /** Rounding up to whole segments. */
  lemma RoundedSegments(bits: nat, n: nat)
    ensures InitialSegments(bits, n) == ShiftRight(n, bits) + if SlotIndex(n, bits) == 0 then 0 else 1
  {
    hide *;
    var p, q, r := Pow2(bits), ShiftRight(n, bits), SlotIndex(n, bits);
    SlotInRange(n, bits);
    ShiftRemainder(n, bits);
    var up := q + if r == 0 then 0 else 1;
    SegmentsBelow(bits, n, up + 1);
    SegmentsBelow(bits, n, up);
    RoundUp(n, p, q, r, up, InitialSegments(bits, n));
  }

  lemma SegmentsBelow(bits: nat, n: nat, u: nat)
    ensures n + Pow2(bits) - 1 < u * Pow2(bits) <==> InitialSegments(bits, n) < u
  {
    ShiftBelow(n + Pow2(bits) - 1, u, bits);
  }

  lemma RoundUp(n: int, p: int, q: int, r: int, up: int, t: int)
    requires n == q * p + r && 0 <= r < p && up == q + if r == 0 then 0 else 1
    requires n + p - 1 < (up + 1) * p <==> t < up + 1
    requires n + p - 1 < up * p <==> t < up
    ensures t == up
  {
    Successor(q, p);
    Successor(up, p);
  }

  lemma Successor(q: int, p: int)
    ensures (q + 1) * p == q * p + p
  {}

  /** The only directory size from half a size exclusive up to it is that size. */
  lemma BetweenSizes(n: nat, size: nat)
    requires DirSize(size) && n <= size && (size > MIN_DIRSIZE ==> size / 2 < n)
    ensures n < size ==> !DirSize(n)
  {
    if n < size && DirSize(n) {
      var j: nat :| n == Pow2(j);
      var k: nat :| size == Pow2(k);
      if j >= k { Pow2Monotone(k, j); }
      Pow2Strict(j, k);
    }
  }

  /**
    513 buckets in segments of 64 need nine segments, but the directory gets eight entries.
   */
  lemma UncoveredInitialSize()
    ensures SegBits(6) && InitialSegments(6, 513) == 9
    ensures SlotIndex(513, 6) != 0 && ShiftRight(513, 6) == 8 && DirSize(8)
  {
    assert Pow2(6) == 64;
    SlotInRange(513, 6);
    assert ShiftRight(513, 6) == 8;
    RoundedSegments(6, 513);
    MaxDirSize();
  }

  // ------------------------------------------------------------------ segments held

  /** The directory entries that hold a segment. */
  ghost function Held(dir: Directory): set<nat> {
    set g: nat | g < |dir| && dir[g].Some?
  }

  /** The segments held beyond those that n buckets need. */
  ghost function Spares(dir: Directory, bits: nat, n: nat): set<nat> {
    set g: nat | g in Held(dir) && g >= InitialSegments(bits, n)
  }

  /** Of the segments allocated and not freed, those that the directory does not hold. */
  ghost function Adrift(segments: nat, dir: Directory): int {
    segments - |Held(dir)|
  }

  lemma SetBucketHeld(dir: Directory, bits: nat, address: nat, chain: seq<Clump>)
    requires Present(dir, bits, address) && SlotIndex(address, bits) < |dir[SegmentIndex(address, bits)].value|
    ensures Held(SetBucket(dir, bits, address, chain)) == Held(dir)
    ensures |SetBucket(dir, bits, address, chain)| == |dir|
  {
    hide SegmentIndex, SlotIndex;
  }

  lemma DoubledHeld(dir: Directory)
    ensures Held(Doubled(dir)) == Held(dir) && |Doubled(dir)| == 2 * |dir|
  {}

  lemma SetSegmentHeld(dir: Directory, bits: nat, address: nat, seg: Option<Segment>)
    requires SegmentIndex(address, bits) < |dir|
    ensures var g := SegmentIndex(address, bits);
      Held(SetSegment(dir, bits, address, seg)) == if seg.Some? then Held(dir) + {g} else Held(dir) - {g}
    ensures |SetSegment(dir, bits, address, seg)| == |dir|
  {
    hide SegmentIndex;
  }

  lemma HalvedHeld(dir: Directory)
    ensures Held(Halved(dir)) == set g: nat | g in Held(dir) && g < |dir| / 2
    ensures |Halved(dir)| == |dir| / 2
  {}

  lemma PresentIsHeld(dir: Directory, bits: nat, address: nat)
    ensures Present(dir, bits, address) <==> SegmentIndex(address, bits) in Held(dir)
  {
    hide SegmentIndex;
  }

  /** The next bucket needs one more segment if it is a segment's first. */
  lemma NextNeeds(bits: nat, n: nat)
    ensures InitialSegments(bits, n + 1) == SegmentIndex(n, bits) + 1
    ensures InitialSegments(bits, n) == SegmentIndex(n, bits) + if SlotIndex(n, bits) == 0 then 0 else 1
  {
    RoundedSegments(bits, n);
    ShiftOnce(n, bits);
    hide ShiftRight, Pow2, SlotIndex;
    assert n + 1 + Pow2(bits) - 1 == n + Pow2(bits);
  }

  lemma {:induction false} ShiftOnce(n: nat, bits: nat)
    ensures ShiftRight(n + Pow2(bits), bits) == ShiftRight(n, bits) + 1
  {
    ShiftRemainder(n, bits);
    ShiftRemainder(n + Pow2(bits), bits);
    hide ShiftRight, Pow2;
    var p, q := Pow2(bits), ShiftRight(n, bits);
    assert n % p < p;
    Successor(q, p);
    RemainderUnique(n + p, p, q + 1, n % p);
    RemainderUnique(n + p, p, ShiftRight(n + p, bits), (n + p) % p);
  }

  /** Every segment that n covered buckets need is held. */
  lemma NeededAreHeld(dir: Directory, bits: nat, n: nat, g: nat)
    requires Covers(dir, bits, n) && g < InitialSegments(bits, n)
    ensures g in Held(dir)
  {
    var b := g * Pow2(bits);
    SegmentsBelow(bits, n, g + 1);
    StartIndex(g, bits);
    hide InitialSegments, SegmentIndex, Pow2;
    Successor(g, Pow2(bits));
    assert Present(dir, bits, b);
    PresentIsHeld(dir, bits, b);
  }

  ghost function Below(n: nat): (s: set<nat>)
    ensures |s| == n && forall g: nat :: g in s <==> g < n
  {
    if n == 0 then {} else Below(n - 1) + {n - 1}
  }

  /** Those needed and those to spare are all the segments held. */
  lemma HeldCount(dir: Directory, bits: nat, n: nat)
    requires Covers(dir, bits, n)
    ensures |Held(dir)| == InitialSegments(bits, n) + |Spares(dir, bits, n)|
  {
    var need := InitialSegments(bits, n);
    forall g: nat | g < need ensures g in Held(dir) {
      NeededAreHeld(dir, bits, n, g);
    }
    hide Held, InitialSegments, Covers;
    assert Held(dir) == Below(need) + Spares(dir, bits, n);
  }

  lemma StartIndex(g: nat, bits: nat)
    ensures g * Pow2(bits) >= 0 && SegmentIndex(g * Pow2(bits), bits) == g
  {
    var b := g * Pow2(bits);
    ShiftBelow(b, g, bits);
    ShiftBelow(b, g + 1, bits);
    hide ShiftRight, Pow2;
    Successor(g, Pow2(bits));
  }
}
