/**
  The locking protocol of concurrent hash table operations, as a step relation. A thread is
  a phase; the locks it holds follow from the phase, and a lock is acquired only when no
  other thread holds it in a conflicting mode. Each step is a lock operation, a change of
  the address variables, or an access to a bucket.
 */
module LockProtocol {
  import opened Bits
  import opened Records
  import opened Clumps
  import opened Addressing
  import opened Directories
  import opened Contents
  import opened BucketSteps

  datatype Op =
    | Find(cls: KeyClass)
    | Insert(rec: Record, overwrite: bool)
    | DeleteKey(cls: KeyClass)
    | DeleteRec(rec: Record)

  /** The class of the key an operation is about. */
  function ClassOf(op: Op): KeyClass {
    if op.Find? || op.DeleteKey? then op.cls else op.rec.key.cls
  }

  /** One of the three sizes a segment can have. */
  type SegmentBits = n: nat | SegBits(n) witness 3

  const SEG_BITS: SegmentBits

  /**
    A subtable: its address variables; the addressing its records obey, which lags behind
    while a contraction has stepped the variables back but not yet taken its bucket; its
    records by bucket; the map it stands for; the directory entries that hold a segment, and
    how many entries there are.
   */
  datatype Sub = Sub(a: Addr, home: Addr, stored: set<(nat, Record)>, m: Map, segs: set<nat>, dir: nat)

  /** What has become of a bucket's segment: still in the directory, freed, or dropped with half of it. */
  datatype Fate = InTable | Freed | Forgotten

  datatype Phase =
    | Idle
    // an operation on one key: table lock, bucket lock, table unlock, act, bucket unlock
    | OpTable(k: nat, op: Op)
    | OpBoth(k: nat, op: Op, b: nat)
    | OpBucket(k: nat, op: Op, b: nat)
    | OpDone(k: nat, op: Op, b: nat)
    // expansion: table lock, one more bucket, both bucket locks, new address, table unlock, relocation
    | ExTable(k: nat)
    | ExOpen(k: nat)
    | ExOld(k: nat, o: nat)
    | ExBoth(k: nat, o: nat, n: nat)
    | ExSplit(k: nat, o: nat, n: nat, saved: Addr, left: set<Record>)
    | ExMoving(k: nat, o: nat, n: nat, saved: Addr, left: set<Record>)
    | ExFailed(k: nat, o: nat, n: nat, fate: Fate)
    | ExClosing(k: nat, o: nat)
    // contraction: table lock, address stepped back, last and buddy bucket locks, last bucket
    // taken and unlocked, segment and directory given up, table unlock, merge
    | CoTable(k: nat)
    | CoStepped(k: nat)
    | CoLast(k: nat, n: nat)
    | CoBoth(k: nat, n: nat, o: nat)
    | CoTaken(k: nat, o: nat, left: set<Record>)
    | CoTrimmed(k: nat, o: nat, left: set<Record>)
    | CoMerging(k: nat, o: nat, left: set<Record>)
    // a whole-table operation: all table locks in ascending order, then bucket by bucket
    | LockingAll(j: nat, w: bool)
    | Sweeping(j: nat, k: nat, b: nat, w: bool)
    | InBucket(j: nat, k: nat, b: nat, w: bool)

  datatype State = State(subs: seq<Sub>, threads: seq<Phase>)

  // ------------------------------------------------------------------ locks

  datatype Mode = Free | Read | Write

  function OpMode(op: Op): Mode {
    if op.Find? then Read else Write
  }

  function SweepMode(w: bool): Mode {
    if w then Write else Read
  }

  /** How a thread in this phase holds the table lock of subtable i. */
  function TableMode(p: Phase, i: nat): Mode {
    if p.OpTable? || p.OpBoth? then (if p.k == i then OpMode(p.op) else Free)
    else if p.ExTable? || p.ExOpen? || p.ExOld? || p.ExBoth? || p.ExSplit? then (if p.k == i then Write else Free)
    else if p.CoTable? || p.CoStepped? || p.CoLast? || p.CoBoth? || p.CoTaken? || p.CoTrimmed? then
      (if p.k == i then Write else Free)
    else if p.LockingAll? || p.Sweeping? || p.InBucket? then (if i < p.j then SweepMode(p.w) else Free)
    else Free
  }

  /** How a thread in this phase holds the lock of bucket b of subtable i. */
  function BucketMode(p: Phase, i: nat, b: nat): Mode {
    if p.OpBoth? || p.OpBucket? || p.OpDone? then (if p.k == i && p.b == b then OpMode(p.op) else Free)
    else if p.ExOld? || p.ExClosing? || p.CoTaken? || p.CoTrimmed? || p.CoMerging? then
      (if p.k == i && p.o == b then Write else Free)
    else if p.ExBoth? || p.ExSplit? || p.ExMoving? || p.CoBoth? then
      (if p.k == i && (p.o == b || p.n == b) then Write else Free)
    // the lock of a bucket whose segment has left the directory is not in anybody's way
    else if p.ExFailed? then (if p.k == i && (p.o == b || (p.n == b && p.fate.InTable?)) then Write else Free)
    else if p.CoLast? then (if p.k == i && p.n == b then Write else Free)
    else if p.InBucket? then (if p.k == i && p.b == b then SweepMode(p.w) else Free)
    else Free
  }

  predicate Conflict(x: Mode, y: Mode) {
    (x.Write? && !y.Free?) || (y.Write? && !x.Free?)
  }

  /** Thread t can take the table lock of subtable i in this mode. */
  ghost predicate TableFree(s: State, t: nat, i: nat, mode: Mode) {
    forall u :: 0 <= u < |s.threads| && u != t ==> !Conflict(mode, TableMode(s.threads[u], i))
  }

  /** Thread t can take the lock of bucket b of subtable i in this mode. */
  ghost predicate BucketFree(s: State, t: nat, i: nat, b: nat, mode: Mode) {
    forall u :: 0 <= u < |s.threads| && u != t ==> !Conflict(mode, BucketMode(s.threads[u], i, b))
  }

  // ------------------------------------------------------------------ steps

  /** Thread t goes on to another phase, leaving the subtables alone. */
  ghost predicate Goes(s: State, t: nat, p: Phase, s': State) {
    t < |s.threads| && s' == State(s.subs, s.threads[t := p])
  }

  /** Thread t goes on to another phase, changing subtable i. */
  ghost predicate Changes(s: State, t: nat, i: nat, sub: Sub, p: Phase, s': State) {
    t < |s.threads| && i < |s.subs| && s' == State(s.subs[i := sub], s.threads[t := p])
  }

  /** The address variables as a contraction steps them back. */
  function Back(a: Addr): Addr {
    if a.active > 0 && (a.expansionIdx == 0 ==> a.level > 0) then Contracted(a) else a
  }

  /** A thread begins: a key operation, an expansion, a contraction or a whole-table operation. */
  ghost predicate Begin(s: State, t: nat, p: Phase, s': State) {
    && Goes(s, t, p, s') && s.threads[t].Idle?
    && (p.OpTable? || p.ExTable? || p.CoTable? || (p.LockingAll? && p.j == 0))
    && (!p.LockingAll? ==> p.k < |s.subs| && TableFree(s, t, p.k, TableMode(p, p.k)))
  }

  // key operations

  ghost predicate LockBucket(s: State, t: nat, p: Phase, s': State) {
    && p.OpTable? && p.k < |s.subs|
    && var b := s.subs[p.k].a.BucketAddress(ClassOf(p.op).sig);
       BucketFree(s, t, p.k, b, OpMode(p.op)) && Goes(s, t, OpBoth(p.k, p.op, b), s')
  }

  ghost predicate UnlockTable(s: State, t: nat, p: Phase, s': State) {
    p.OpBoth? && Goes(s, t, OpBucket(p.k, p.op, p.b), s')
  }

  /** Bucket b has a record of this class. */
  predicate InStore(sub: Sub, b: nat, r: Record) {
    (b, r) in sub.stored
  }

  ghost predicate BucketHas(sub: Sub, b: nat, c: KeyClass) {
    exists r :: InStore(sub, b, r) && r.key.cls == c
  }

  /** The bucket without its record of this class. */
  function Drop(stored: set<(nat, Record)>, b: nat, c: KeyClass): set<(nat, Record)> {
    set p | p in stored && !(p.0 == b && p.1.key.cls == c)
  }

  function Put(sub: Sub, b: nat, r: Record): Sub {
    sub.(stored := Drop(sub.stored, b, r.key.cls) + {(b, r)}, m := sub.m[r.key.cls := r])
  }

  function Take(sub: Sub, b: nat, c: KeyClass): Sub {
    sub.(stored := Drop(sub.stored, b, c), m := sub.m - {c})
  }

  /**
    What an operation makes of its bucket. It decides by the bucket alone; an insertion of a
    new key may also fail for lack of memory.
   */
  ghost predicate Acts(sub: Sub, b: nat, op: Op, sub': Sub) {
    match op
    case Find(_) => sub' == sub
    case Insert(r, overwrite) =>
      if BucketHas(sub, b, r.key.cls) then sub' == if overwrite then Put(sub, b, r) else sub
      else sub' == Put(sub, b, r) || sub' == sub
    case DeleteKey(c) => sub' == if BucketHas(sub, b, c) then Take(sub, b, c) else sub
    case DeleteRec(r) => sub' == if InStore(sub, b, r) then Take(sub, b, r.key.cls) else sub
  }

  ghost predicate Act(s: State, t: nat, p: Phase, s': State) {
    && p.OpBucket? && p.k < |s.subs|
    && exists sub' :: Acts(s.subs[p.k], p.b, p.op, sub') && Changes(s, t, p.k, sub', OpDone(p.k, p.op, p.b), s')
  }

  ghost predicate UnlockBucket(s: State, t: nat, p: Phase, s': State) {
    p.OpDone? && Goes(s, t, Idle, s')
  }

  // expansion

  /** The limit is reached, or the directory is full and could not be enlarged. */
  ghost predicate ExRefuse(s: State, t: nat, p: Phase, s': State) {
    && p.ExTable? && p.k < |s.subs| && Goes(s, t, Idle, s')
    && var sub := s.subs[p.k];
       sub.a.active >= MAX_DIRSIZE * Pow2(SEG_BITS) - 1 || sub.a.active >= sub.dir * Pow2(SEG_BITS)
  }

  /** One more bucket, in a directory twice the size if this one is full. */
  function Activated(sub: Sub): Sub {
    sub.(a := sub.a.(active := sub.a.active + 1),
         dir := if sub.a.active >= sub.dir * Pow2(SEG_BITS) then 2 * sub.dir else sub.dir)
  }

  ghost predicate ExActivate(s: State, t: nat, p: Phase, s': State) {
    && p.ExTable? && p.k < |s.subs|
    && s.subs[p.k].a.active < MAX_DIRSIZE * Pow2(SEG_BITS) - 1
    && Changes(s, t, p.k, Activated(s.subs[p.k]), ExOpen(p.k), s')
  }

  /** The directory has a segment for bucket b. */
  predicate HasSegment(sub: Sub, b: nat) {
    SegmentIndex(b, SEG_BITS) in sub.segs
  }

  function WithSegment(sub: Sub, b: nat): Sub {
    sub.(segs := sub.segs + {SegmentIndex(b, SEG_BITS)})
  }

  /** No memory for the new bucket's segment. */
  ghost predicate ExNoSegment(s: State, t: nat, p: Phase, s': State) {
    && p.ExOpen? && p.k < |s.subs|
    && var sub := s.subs[p.k];
       && sub.a.active > 0 && !HasSegment(sub, sub.a.NewBucket())
       && Changes(s, t, p.k, sub.(a := sub.a.(active := sub.a.active - 1)), Idle, s')
  }

  ghost predicate ExLockOld(s: State, t: nat, p: Phase, s': State) {
    && p.ExOpen? && p.k < |s.subs|
    && var sub := s.subs[p.k];
       && BucketFree(s, t, p.k, sub.a.expansionIdx, Write)
       && Changes(s, t, p.k, WithSegment(sub, sub.a.NewBucket()), ExOld(p.k, sub.a.expansionIdx), s')
  }

  ghost predicate ExLockNew(s: State, t: nat, p: Phase, s': State) {
    && p.ExOld? && p.k < |s.subs|
    && var n := s.subs[p.k].a.NewBucket();
       BucketFree(s, t, p.k, n, Write) && Goes(s, t, ExBoth(p.k, p.o, n), s')
  }

  /**
    No memory for the free list, which a bucket of more than one clump needs: the table lock
    goes first, then the bucket locks.
   */
  ghost predicate ExNoClump(s: State, t: nat, p: Phase, s': State) {
    && p.ExBoth? && p.k < |s.subs|
    && var sub := s.subs[p.k];
       && sub.a.active > 0 && |RecordsIn(sub.stored, p.o)| > NODES_PER_CLUMP
       && Changes(s, t, p.k, sub.(a := sub.a.(active := sub.a.active - 1)), ExFailed(p.k, p.o, p.n, InTable), s')
  }

  /** The records of bucket b. */
  function RecordsIn(stored: set<(nat, Record)>, b: nat): set<Record> {
    set p | p in stored && p.0 == b :: p.1
  }

  function WithoutBucket(stored: set<(nat, Record)>, b: nat): set<(nat, Record)> {
    set p | p in stored && p.0 != b
  }

  /** New address variables; the records of the split bucket now wait to be relocated. */
  ghost predicate ExAdvance(s: State, t: nat, p: Phase, s': State) {
    && p.ExBoth? && p.k < |s.subs|
    && var sub := s.subs[p.k];
       && sub.a.active > 0
       && var e := Expanded(sub.a.(active := sub.a.active - 1));
       Changes(s, t, p.k, sub.(a := e, home := e, stored := WithoutBucket(sub.stored, p.o)),
               ExSplit(p.k, p.o, p.n, e, RecordsIn(sub.stored, p.o)), s')
  }

  ghost predicate ExUnlockTable(s: State, t: nat, p: Phase, s': State) {
    p.ExSplit? && Goes(s, t, ExMoving(p.k, p.o, p.n, p.saved, p.left), s')
  }

  /** Relocate one record to the bucket that the saved address variables give. */
  ghost predicate ExMove(s: State, t: nat, p: Phase, r: Record, s': State) {
    && p.ExMoving? && p.k < |s.subs| && r in p.left
    && var sub := s.subs[p.k];
       Changes(s, t, p.k, sub.(stored := sub.stored + {(p.saved.BucketAddress(r.key.cls.sig), r)}),
               ExMoving(p.k, p.o, p.n, p.saved, p.left - {r}), s')
  }

  ghost predicate ExUnlockNew(s: State, t: nat, p: Phase, s': State) {
    ((p.ExMoving? && p.left == {}) || p.ExFailed?) && Goes(s, t, ExClosing(p.k, p.o), s')
  }

  ghost predicate ExUnlockOld(s: State, t: nat, p: Phase, s': State) {
    p.ExClosing? && Goes(s, t, Idle, s')
  }

  // contraction

  /** Down to one segment. */
  ghost predicate CoRefuse(s: State, t: nat, p: Phase, s': State) {
    p.CoTable? && p.k < |s.subs| && s.subs[p.k].a.active <= Pow2(SEG_BITS) && Goes(s, t, Idle, s')
  }

  ghost predicate CoStep(s: State, t: nat, p: Phase, s': State) {
    && p.CoTable? && p.k < |s.subs|
    && var sub := s.subs[p.k];
       sub.a.active > Pow2(SEG_BITS) && Changes(s, t, p.k, sub.(a := Back(sub.a).(active := sub.a.active)), CoStepped(p.k), s')
  }

  ghost predicate CoLockLast(s: State, t: nat, p: Phase, s': State) {
    && p.CoStepped? && p.k < |s.subs|
    && var sub := s.subs[p.k];
       && sub.a.active > 0
       && var n := sub.a.active - 1;
       BucketFree(s, t, p.k, n, Write) && Changes(s, t, p.k, sub.(a := sub.a.(active := n)), CoLast(p.k, n), s')
  }

  ghost predicate CoLockBuddy(s: State, t: nat, p: Phase, s': State) {
    && p.CoLast? && p.k < |s.subs|
    && var o := s.subs[p.k].a.expansionIdx;
       BucketFree(s, t, p.k, o, Write) && Goes(s, t, CoBoth(p.k, p.n, o), s')
  }

  /** The empty slots of a chain that holds this many records in as few clumps as it can. */
  function RoomBeside(records: nat): nat {
    if records == 0 then NODES_PER_CLUMP else (NODES_PER_CLUMP - records % NODES_PER_CLUMP) % NODES_PER_CLUMP
  }

  /**
    No memory for the free list, which more records than the buddy has room for need: the
    step is undone and everything unlocked.
   */
  ghost predicate CoUndo(s: State, t: nat, p: Phase, s': State) {
    && p.CoBoth? && p.k < |s.subs|
    && var sub := s.subs[p.k];
       && |RecordsIn(sub.stored, p.n)| > RoomBeside(|RecordsIn(sub.stored, p.o)|)
       && Changes(s, t, p.k, sub.(a := Expanded(sub.a)), Idle, s')
  }

  /** The last bucket's records are taken out to be merged, and its lock released. */
  ghost predicate CoTake(s: State, t: nat, p: Phase, s': State) {
    && p.CoBoth? && p.k < |s.subs|
    && var sub := s.subs[p.k];
       Changes(s, t, p.k, sub.(home := sub.a, stored := WithoutBucket(sub.stored, p.n)),
               CoTaken(p.k, p.o, RecordsIn(sub.stored, p.n)), s')
  }

  /** The segments left when the first inactive bucket's has been freed, if that bucket is its segment's first. */
  function SegmentsKept(sub: Sub): set<nat> {
    if SlotIndex(sub.a.active, SEG_BITS) == 0 then sub.segs - {SegmentIndex(sub.a.active, SEG_BITS)} else sub.segs
  }

  /** A directory that can be halved: large enough, and its lower half spans the active buckets. */
  predicate CanHalve(sub: Sub) {
    sub.a.active <= (sub.dir * Pow2(SEG_BITS)) / 2 && sub.dir > MIN_DIRSIZE
  }

  /** The subtable with a segment freed and the directory halved, as far as may be. */
  function Shrunk(sub: Sub, halve: bool): Sub {
    if halve then sub.(segs := (set g | g in SegmentsKept(sub) && g < sub.dir / 2), dir := sub.dir / 2)
    else sub.(segs := SegmentsKept(sub))
  }

  /** What trimming means for a thread whose failed expansion has a bucket locked. */
  function Orphan(p: Phase, k: nat, sub: Sub, halve: bool): Phase {
    if !(p.ExFailed? && p.k == k && p.fate.InTable?) then p
    else if SegmentIndex(p.n, SEG_BITS) !in SegmentsKept(sub) then p.(fate := Freed)
    else if !HasSegment(Shrunk(sub, halve), p.n) then p.(fate := Forgotten)
    else p
  }

  function Orphaned(s: State, k: nat, halve: bool): State
    requires k < |s.subs|
  {
    State(s.subs[k := Shrunk(s.subs[k], halve)],
          seq(|s.threads|, u requires 0 <= u < |s.threads| => Orphan(s.threads[u], k, s.subs[k], halve)))
  }

  /** Give up the segment and half of the directory; the smaller directory may be refused memory. */
  ghost predicate CoTrim(s: State, t: nat, p: Phase, s': State) {
    && p.CoTaken? && p.k < |s.subs|
    && exists halve :: (halve ==> CanHalve(s.subs[p.k]))
         && Goes(Orphaned(s, p.k, halve), t, CoTrimmed(p.k, p.o, p.left), s')
  }

  ghost predicate CoUnlockTable(s: State, t: nat, p: Phase, s': State) {
    p.CoTrimmed? && Goes(s, t, CoMerging(p.k, p.o, p.left), s')
  }

  ghost predicate CoMove(s: State, t: nat, p: Phase, r: Record, s': State) {
    && p.CoMerging? && p.k < |s.subs| && r in p.left
    && var sub := s.subs[p.k];
       Changes(s, t, p.k, sub.(stored := sub.stored + {(p.o, r)}), CoMerging(p.k, p.o, p.left - {r}), s')
  }

  ghost predicate CoUnlockBuddy(s: State, t: nat, p: Phase, s': State) {
    p.CoMerging? && p.left == {} && Goes(s, t, Idle, s')
  }

  // whole-table operations

  ghost predicate LockNext(s: State, t: nat, p: Phase, s': State) {
    && p.LockingAll? && p.j < |s.subs|
    && TableFree(s, t, p.j, SweepMode(p.w)) && Goes(s, t, LockingAll(p.j + 1, p.w), s')
  }

  ghost predicate SweepStart(s: State, t: nat, p: Phase, s': State) {
    p.LockingAll? && p.j == |s.subs| && Goes(s, t, Sweeping(p.j, 0, 0, p.w), s')
  }

  ghost predicate SweepLock(s: State, t: nat, p: Phase, s': State) {
    && p.Sweeping? && p.k < |s.subs| && p.b < s.subs[p.k].a.active
    && BucketFree(s, t, p.k, p.b, SweepMode(p.w)) && Goes(s, t, InBucket(p.j, p.k, p.b, p.w), s')
  }

  /** Delete one record of the bucket. */
  ghost predicate SweepDelete(s: State, t: nat, p: Phase, r: Record, s': State) {
    && p.InBucket? && p.w && p.k < |s.subs| && InStore(s.subs[p.k], p.b, r)
    && Changes(s, t, p.k, Take(s.subs[p.k], p.b, r.key.cls), p, s')
  }

  ghost predicate SweepUnlock(s: State, t: nat, p: Phase, s': State) {
    p.InBucket? && Goes(s, t, Sweeping(p.j, p.k, p.b + 1, p.w), s')
  }

  ghost predicate SweepNext(s: State, t: nat, p: Phase, s': State) {
    && p.Sweeping? && p.k < |s.subs| && p.b >= s.subs[p.k].a.active
    && Goes(s, t, Sweeping(p.j, p.k + 1, 0, p.w), s')
  }

  /** All done, or given up part of the way: all table locks are released. */
  ghost predicate SweepEnd(s: State, t: nat, p: Phase, s': State) {
    p.Sweeping? && Goes(s, t, Idle, s')
  }

  /** One step of thread t that starts or ends or passes through an operation on one key. */
  ghost predicate KeyStep(s: State, t: nat, p: Phase, s': State) {
    LockBucket(s, t, p, s') || UnlockTable(s, t, p, s') || Act(s, t, p, s') || UnlockBucket(s, t, p, s')
  }

  ghost predicate ExpandStep(s: State, t: nat, p: Phase, s': State) {
    || ExRefuse(s, t, p, s') || ExActivate(s, t, p, s') || ExNoSegment(s, t, p, s')
    || ExLockOld(s, t, p, s') || ExLockNew(s, t, p, s') || ExNoClump(s, t, p, s')
    || ExAdvance(s, t, p, s') || ExUnlockTable(s, t, p, s') || (exists r :: ExMove(s, t, p, r, s'))
    || ExUnlockNew(s, t, p, s') || ExUnlockOld(s, t, p, s')
  }

  ghost predicate ContractStep(s: State, t: nat, p: Phase, s': State) {
    || CoRefuse(s, t, p, s') || CoStep(s, t, p, s') || CoLockLast(s, t, p, s') || CoLockBuddy(s, t, p, s')
    || CoUndo(s, t, p, s') || CoTake(s, t, p, s') || CoTrim(s, t, p, s') || CoUnlockTable(s, t, p, s')
    || (exists r :: CoMove(s, t, p, r, s')) || CoUnlockBuddy(s, t, p, s')
  }

  ghost predicate SweepStep(s: State, t: nat, p: Phase, s': State) {
    || LockNext(s, t, p, s') || SweepStart(s, t, p, s') || SweepLock(s, t, p, s')
    || (exists r :: SweepDelete(s, t, p, r, s')) || SweepUnlock(s, t, p, s')
    || SweepNext(s, t, p, s') || SweepEnd(s, t, p, s')
  }

  /** Thread t takes a step. */
  ghost predicate Step(s: State, t: nat, s': State) {
    && t < |s.threads|
    && var p := s.threads[t];
       || (exists q :: Begin(s, t, q, s'))
       || KeyStep(s, t, p, s') || ExpandStep(s, t, p, s') || ContractStep(s, t, p, s') || SweepStep(s, t, p, s')
  }

  /** Before any thread has begun, each subtable stands for its map. */
  ghost predicate Initial(s: State) {
    && (forall t :: 0 <= t < |s.threads| ==> s.threads[t].Idle?)
    && (forall k :: 0 <= k < |s.subs| ==> AtRest(s.subs[k]))
  }

  /** Every active bucket has its segment, and the directory has a proper size and entries for them all. */
  ghost predicate SegOk(sub: Sub) {
    && DirSize(sub.dir) && Pow2(SEG_BITS) <= sub.home.active < MAX_DIRSIZE * Pow2(SEG_BITS)
    && (forall b: nat :: b < sub.home.active ==> HasSegment(sub, b))
    && (forall g :: g in sub.segs ==> g < sub.dir)
  }

  /** Every record of the map is stored in the bucket its signature addresses, and no other record. */
  ghost predicate AtRest(sub: Sub) {
    && sub.a == sub.home && sub.home.WellFormed() && SegOk(sub)
    && (forall c :: c in sub.m ==> sub.m[c].key.cls == c)
    && (forall b, r :: InStore(sub, b, r) <==> Holds(sub.m, r) && sub.home.BucketAddress(r.key.cls.sig) == b)
  }

  /** Some thread takes a step. */
  ghost predicate Moves(s: State, s': State) {
    exists t :: Step(s, t, s')
  }

  /** A run: states linked by steps. */
  ghost predicate IsRun(run: seq<State>) {
    && run != [] && Initial(run[0])
    && forall i :: 0 <= i < |run| - 1 ==> Moves(run[i], run[i + 1])
  }
}
