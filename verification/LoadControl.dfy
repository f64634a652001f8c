/** When a table grows and shrinks: records against buckets. */
module LoadControl {

  /** Chains are longer on average than the limit. */
  predicate Overloaded(records: nat, maxLoad: real, buckets: nat) {
    records as real > maxLoad * (buckets as real)
  }

  /** There are more buckets than the records, and a sixteenth more of them, call for. */
  predicate Sparse(records: nat, maxLoad: real, buckets: nat) {
    (buckets as real) * maxLoad > (records + records / 16) as real
  }

  /** Fewer records than one more bucket would be allowed. */
  ghost predicate LoadBounded(records: nat, maxLoad: real, buckets: nat) {
    records as real < maxLoad * ((buckets + 1) as real)
  }

  lemma WithinLoadIsBounded(records: nat, maxLoad: real, buckets: nat)
    requires maxLoad > 0.0
    ensures !Overloaded(records, maxLoad, buckets) ==> LoadBounded(records, maxLoad, buckets)
  {
    assert maxLoad * ((buckets + 1) as real) == maxLoad * (buckets as real) + maxLoad;
  }

  lemma SparseIsBounded(records: nat, maxLoad: real, buckets: nat)
    ensures buckets > 0 && Sparse(records, maxLoad, buckets) ==> LoadBounded(records, maxLoad, buckets - 1)
  {}

  lemma FewerBounded(fewer: nat, records: nat, maxLoad: real, buckets: nat)
    requires fewer <= records
    ensures LoadBounded(records, maxLoad, buckets) ==> LoadBounded(fewer, maxLoad, buckets)
  {}
}
