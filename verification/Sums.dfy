/** Sums of natural numbers over finite sets of ids; the order of summation does not matter. */
module Sums {
  import opened Bytes

  ghost function Sum(ids: set<i64>, counts: map<i64, nat>): nat
    requires ids <= counts.Keys
    decreases |ids|
  {
    if ids == {} then 0 else
    var id :| id in ids;
    counts[id] + Sum(ids - {id}, counts)
  }

  lemma {:induction false} SumRemove(ids: set<i64>, counts: map<i64, nat>, id: i64)
    requires id in ids && ids <= counts.Keys
    ensures Sum(ids, counts) == counts[id] + Sum(ids - {id}, counts)
    decreases |ids|
  {
    var p :| p in ids && Sum(ids, counts) == counts[p] + Sum(ids - {p}, counts);
    if p != id {
      SumRemove(ids - {p}, counts, id);
      SumRemove(ids - {id}, counts, p);
      assert ids - {p} - {id} == ids - {id} - {p};
    }
  }

  lemma {:induction false} SumAgrees(ids: set<i64>, c1: map<i64, nat>, c2: map<i64, nat>)
    requires ids <= c1.Keys && ids <= c2.Keys
    requires forall id | id in ids :: c1[id] == c2[id]
    ensures Sum(ids, c1) == Sum(ids, c2)
    decreases |ids|
  {
    if ids != {} {
      var id :| id in ids;
      SumRemove(ids, c1, id);
      SumRemove(ids, c2, id);
      SumAgrees(ids - {id}, c1, c2);
    }
  }
}
