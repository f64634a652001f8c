/**
  Bucket addressing of a linear hash table: a level, a split (expansion) index and two
  masks. Signatures are DWORDs, kept as naturals.
 */
module Addressing {
  import opened Bits

  const MIN_DIRSIZE: nat := 8
  const MAX_DIRSIZE: nat := 0x10_0000

  /** The address variables of a table. */
  datatype Addr = Addr(level: nat, expansionIdx: nat, mask0: nat, mask1: nat, active: nat) {

    /** The shape every reachable address state has. */
    ghost predicate WellFormed() {
      && level <= 30
      && expansionIdx < Pow2(level)
      && mask0 == Pow2(level) - 1
      && mask1 == 2 * mask0 + 1
      && active == Pow2(level) + expansionIdx
    }

    /** The bucket that holds `sig`. */
    function BucketAddress(sig: nat): nat {
      var address := H0(sig, mask0);
      if address < expansionIdx then H0(sig, mask1) else address
    }

    /** The bucket created by the next expansion: `(1 << level) | expansionIdx`. */
    function NewBucket(): nat {
      Or(Pow2(level), expansionIdx)
    }
  }

  function H0(sig: nat, mask: nat): nat {
    And(sig, mask)
  }

  function H1(sig: nat, mask: nat): nat {
    And(sig, ExtendMask(mask))
  }

  /** The bucket a relocation step computes from the saved split index and mask. */
  function SavedAddress(sig: nat, savedIdx: nat, savedMask: nat): nat {
    var address := H0(sig, savedMask);
    if address < savedIdx then H1(sig, savedMask) else address
  }

  /** The address variables after a successful expansion. */
  function Expanded(a: Addr): Addr {
    if a.expansionIdx + 1 == Pow2(a.level) then
      var m0 := ExtendMask(a.mask0);
      Addr(a.level + 1, 0, m0, ExtendMask(m0), a.active + 1)
    else
      a.(expansionIdx := a.expansionIdx + 1, active := a.active + 1)
  }

  /** The address variables after a contraction. */
  function Contracted(a: Addr): Addr
    requires a.active > 0
    requires a.expansionIdx == 0 ==> a.level > 0
  {
    if a.expansionIdx > 0 then
      a.(expansionIdx := a.expansionIdx - 1, active := a.active - 1)
    else
      Addr(a.level - 1, Pow2(a.level - 1) - 1, a.mask0 / 2, a.mask1 / 2, a.active - 1)
  }

  /** Linear hashing by its definition: one more bit of the signature if that bucket exists. */
  function LinearAddress(sig: nat, level: nat, active: nat): nat {
    if sig % Pow2(level + 1) < active then sig % Pow2(level + 1) else sig % Pow2(level)
  }

  /** The masked computation agrees with the definition, and lands in an active bucket. */
  lemma BucketAddressIsLinear(a: Addr, sig: nat)
    requires a.WellFormed()
    ensures a.BucketAddress(sig) == LinearAddress(sig, a.level, a.active) < a.active
  {
    AndMask(sig, a.level);
    AndMask(sig, a.level + 1);
    assert a.mask1 == Pow2(a.level + 1) - 1;
    NextRemainder(sig, a.level);
  }

  /** The address a relocation step computes is the table's own. */
  lemma SavedAddressIsCurrent(a: Addr, sig: nat)
    requires a.WellFormed()
    ensures SavedAddress(sig, a.expansionIdx, a.mask0) == a.BucketAddress(sig)
  {
    ExtendMaskIsNextMask(a.level);
  }

  lemma ExpandedWellFormed(a: Addr)
    requires a.WellFormed() && a.level < 30
    ensures Expanded(a).WellFormed()
    ensures Expanded(a).active == a.active + 1
    ensures a.NewBucket() == a.active
  {
    OrHighBit(a.level, a.expansionIdx);
    ExtendMaskIsNextMask(a.level);
    ExtendMaskIsNextMask(a.level + 1);
    hide ExtendMask, Or;
  }

  lemma ContractedWellFormed(a: Addr)
    requires a.WellFormed() && a.active > 1
    ensures a.expansionIdx == 0 ==> a.level > 0
    ensures Contracted(a).WellFormed()
    ensures Contracted(a).active == a.active - 1
  {
    if a.expansionIdx == 0 {
      assert a.level > 0;
      var p := Pow2(a.level - 1);
      assert a.mask0 == 2 * p - 1 && a.mask0 / 2 == p - 1;
      assert a.mask1 == 4 * p - 1 && a.mask1 / 2 == 2 * p - 1;
    }
  }

  /** Well-formed address states are determined by the number of buckets. */
  lemma ActiveDeterminesAddr(a: Addr, b: Addr)
    requires a.WellFormed() && b.WellFormed() && a.active == b.active
    ensures a == b
  {
    if a.level < b.level {
      Pow2Strict(a.level, b.level);
    } else if b.level < a.level {
      Pow2Strict(b.level, a.level);
    }
  }

  /** Contraction undoes expansion, and expansion undoes contraction, masks included. */
  lemma ExpandContractInverse(a: Addr)
    requires a.WellFormed()
    ensures a.level < 30 ==> Expanded(a).active > 0
    ensures a.level < 30 ==> (Expanded(a).expansionIdx == 0 ==> Expanded(a).level > 0)
    ensures a.level < 30 ==> Contracted(Expanded(a)) == a
    ensures a.active > 1 ==> (a.expansionIdx == 0 ==> a.level > 0) && Expanded(Contracted(a)) == a
  {
    if a.level < 30 {
      ExpandedWellFormed(a);
      ContractedWellFormed(Expanded(a));
      ActiveDeterminesAddr(Contracted(Expanded(a)), a);
    }
    if a.active > 1 {
      ContractedWellFormed(a);
      Pow2Strict(a.level, a.level + 1);
      if Contracted(a).level == 30 {
        // only possible without a level change
        ExtendMaskIsNextMask(30);
      } else {
        ExpandedWellFormed(Contracted(a));
        ActiveDeterminesAddr(Expanded(Contracted(a)), a);
      }
    }
  }

  /**
    One expansion re-addresses exactly the signatures of the split bucket whose next bit
    is set: they move to the new bucket. All others stay.
   */
  lemma ExpansionSplitsOneBucket(a: Addr, sig: nat)
    requires a.WellFormed() && a.level < 30
    ensures Expanded(a).BucketAddress(sig) ==
            if a.BucketAddress(sig) == a.expansionIdx && sig % Pow2(a.level + 1) == a.active
            then a.active else a.BucketAddress(sig)
  {
    var e := Expanded(a);
    ExpandedWellFormed(a);
    BucketAddressIsLinear(a, sig);
    BucketAddressIsLinear(e, sig);
    NextRemainder(sig, a.level);
    if e.level == a.level + 1 {
      NextRemainder(sig, a.level + 1);
    }
  }

  /** One contraction sends every signature of the last bucket to its buddy, and no other moves. */
  lemma ContractionMergesOneBucket(a: Addr, sig: nat)
    requires a.WellFormed() && a.active > 1
    ensures a.expansionIdx == 0 ==> a.level > 0
    ensures Contracted(a).BucketAddress(sig) ==
            if a.BucketAddress(sig) == a.active - 1 then Contracted(a).expansionIdx
            else a.BucketAddress(sig)
    ensures Contracted(a).expansionIdx < a.active - 1
  {
    ContractedWellFormed(a);
    var c := Contracted(a);
    BucketAddressIsLinear(a, sig);
    BucketAddressIsLinear(c, sig);
    NextRemainder(sig, c.level);
    if c.level + 1 == a.level {
      NextRemainder(sig, a.level);
    }
  }

  // ---------------------------------------------------------------- initial state

  predicate SegBits(bits: nat) {
    bits == 3 || bits == 6 || bits == 9
  }

  /**
    The address variables for an initial number of buckets: the mask grows from one
    segment until it spans them.
   */
  method InitialAddr(segBits: nat, initialBuckets: nat) returns (a: Addr)
    requires SegBits(segBits) && Pow2(segBits) <= initialBuckets < Pow2(30)
    ensures a.WellFormed() && a.active == initialBuckets
  {
    var mask0, level := Pow2(segBits) - 1, segBits;
    var tmp: nat := initialBuckets / Pow2(segBits);
    InitialSpan(segBits, initialBuckets);
    while tmp > 1
      invariant level < 30 && mask0 == Pow2(level) - 1
      invariant Spans(tmp, level, initialBuckets)
      decreases tmp
    {
      WidenMask(tmp, level, initialBuckets);
      mask0 := ExtendMask(mask0);
      level := level + 1;
      tmp := tmp / 2;
    }
    SpannedAddr(level, initialBuckets);
    a := Addr(level, And(initialBuckets, mask0), mask0, ExtendMask(mask0), initialBuckets);
  }

  ghost predicate Spans(tmp: nat, level: nat, n: nat) {
    tmp >= 1 && tmp * Pow2(level) <= n < (tmp + 1) * Pow2(level)
  }

  lemma InitialSpan(segBits: nat, n: nat)
    requires Pow2(segBits) <= n
    ensures Spans(n / Pow2(segBits), segBits, n)
  {
    var p := Pow2(segBits);
    var q, r := n / p, n % p;
    DivMod(n, p);
    assert n < (q + 1) * p by { assert (q + 1) * p == q * p + p; }
  }

  lemma WidenMask(tmp: nat, level: nat, n: nat)
    requires level < 30 && tmp > 1 && Spans(tmp, level, n) && n < Pow2(30)
    ensures level + 1 < 30
    ensures ExtendMask(Pow2(level) - 1) == Pow2(level + 1) - 1
    ensures Spans(tmp / 2, level + 1, n)
  {
    ExtendMaskIsNextMask(level);
    var p := Pow2(level);
    assert Pow2(level + 1) == 2 * p;
    Halving(tmp, p, n);
    AtLeastTwice(tmp, p);
  }

  lemma AtLeastTwice(tmp: nat, p: nat)
    requires tmp >= 2
    ensures tmp * p >= 2 * p
  {}

  lemma SpannedAddr(level: nat, n: nat)
    requires level < 30 && Spans(1, level, n)
    ensures Addr(level, And(n, Pow2(level) - 1), Pow2(level) - 1, ExtendMask(Pow2(level) - 1), n).WellFormed()
  {
    ExtendMaskIsNextMask(level);
    AndMask(n, level);
    RemainderUnique(n, Pow2(level), 1, n - Pow2(level));
  }

  lemma Halving(tmp: nat, p: nat, n: nat)
    requires tmp > 1 && p > 0 && tmp * p <= n < (tmp + 1) * p
    ensures (tmp / 2) * (2 * p) <= n < (tmp / 2 + 1) * (2 * p)
  {
    var h := tmp / 2;
    assert 2 * h <= tmp < 2 * h + 2;
    assert (2 * h) * p <= tmp * p;
    assert (tmp + 1) * p <= (2 * h + 2) * p;
  }

}
