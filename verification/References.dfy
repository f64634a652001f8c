/** Reference counting: the calls a table makes, and what they add up to. */
module References {
  import opened Records
  import opened Contents

  /** A call of the record owner's reference-count callback. */
  datatype RefCall = RefCall(rec: Record, delta: int)

  /** The references the calls have added to a record. */
  function Net(log: seq<RefCall>, r: Record): int {
    if log == [] then 0
    else
      var n := |log| - 1;
      Net(log[..n], r) + (if log[n].rec == r then log[n].delta else 0)
  }

  /** References the table holds to a record: one when the record is the map's entry. */
  function Stored(m: Map, r: Record): int {
    if r.key.cls in m && m[r.key.cls] == r then 1 else 0
  }

  /** Each record's net references: one for its slot, and one per find handed out. */
  ghost predicate RefsOk(log: seq<RefCall>, m: Map, handed: multiset<Record>) {
    forall r: Record :: Net(log, r) == Stored(m, r) + handed[r]
  }

  lemma NetSnoc(log: seq<RefCall>, call: RefCall, r: Record)
    ensures Net(log + [call], r) == Net(log, r) + if call.rec == r then call.delta else 0
  {
    assert (log + [call])[..|log|] == log;
  }

  lemma AddedRef(log: seq<RefCall>, m: Map, handed: multiset<Record>, r: Record)
    requires RefsOk(log, m, handed) && r.key.cls !in m
    ensures RefsOk(log + [RefCall(r, 1)], m[r.key.cls := r], handed)
  {
    forall x: Record ensures Net(log + [RefCall(r, 1)], x) == Stored(m[r.key.cls := r], x) + handed[x] {
      NetSnoc(log, RefCall(r, 1), x);
    }
  }

  lemma ReplacedRef(log: seq<RefCall>, m: Map, handed: multiset<Record>, r: Record)
    requires RefsOk(log, m, handed) && r.key.cls in m && m[r.key.cls].key.cls == r.key.cls
    ensures RefsOk(log + [RefCall(r, 1)] + [RefCall(m[r.key.cls], -1)], m[r.key.cls := r], handed)
  {
    var prior := m[r.key.cls];
    forall x: Record
      ensures Net(log + [RefCall(r, 1)] + [RefCall(prior, -1)], x) == Stored(m[r.key.cls := r], x) + handed[x]
    {
      NetSnoc(log + [RefCall(r, 1)], RefCall(prior, -1), x);
      NetSnoc(log, RefCall(r, 1), x);
    }
  }

  /**
    Between the two calls of an overwrite no record's count is below what it was before or
    will be afterwards; overwriting a record with itself leaves it where it was.
   */
  lemma OverwriteNeverDips(log: seq<RefCall>, r: Record, prior: Record, x: Record)
    ensures var during := Net(log + [RefCall(r, 1)], x);
      var after := Net(log + [RefCall(r, 1)] + [RefCall(prior, -1)], x);
      && during >= Net(log, x) && during >= after
      && (r == prior ==> after == Net(log, x))
  {
    NetSnoc(log + [RefCall(r, 1)], RefCall(prior, -1), x);
    NetSnoc(log, RefCall(r, 1), x);
  }

  lemma RemovedRef(log: seq<RefCall>, m: Map, handed: multiset<Record>, r: Record)
    requires RefsOk(log, m, handed) && r.key.cls in m && m[r.key.cls] == r
    ensures RefsOk(log + [RefCall(r, -1)], m - {r.key.cls}, handed)
  {
    forall x: Record ensures Net(log + [RefCall(r, -1)], x) == Stored(m - {r.key.cls}, x) + handed[x] {
      NetSnoc(log, RefCall(r, -1), x);
    }
  }

  lemma HandedRef(log: seq<RefCall>, m: Map, handed: multiset<Record>, r: Record)
    requires RefsOk(log, m, handed)
    ensures RefsOk(log + [RefCall(r, 1)], m, handed + multiset{r})
  {
    forall x: Record ensures Net(log + [RefCall(r, 1)], x) == Stored(m, x) + (handed + multiset{r})[x] {
      NetSnoc(log, RefCall(r, 1), x);
    }
  }
}
