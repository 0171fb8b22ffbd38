/**
 Streaming a window off an ordered index (db.go): the loop that skips, collects and stops early returns
 the slice that sorting all matches would have returned.
 */
module Streaming {
  import opened Wrappers
  import opened Bytes
  import opened Keys
  import opened IndexRange
  import opened Document
  import opened Pointer
  import opened FilterSyntax
  import opened Ordering
  import opened JqValue
  import opened Store
  import opened StoreInvariants
  import opened Scan
  import opened Planner
  import opened Sorter

  // ----- the loop -----

  function Keep(ids: seq<i64>, keep: i64 -> bool): (r: seq<i64>)
    ensures forall x :: x in r <==> x in ids && keep(x)
  {
    if ids == [] then [] else
    var last := |ids| - 1;
    var r := Keep(ids[..last], keep);
    if keep(ids[last]) then r + [ids[last]] else r
  }

  function VerdictOf(env: Env, docs: map<i64, Doc>, f: Filter<Term>, id: i64): Verdict {
    if id !in docs then (false, None)
    else
      var m := Match(env, docs[id], id, f);
      (m.matched && m.err.None?, m.err)
  }

  function Wanted(env: Env, docs: map<i64, Doc>, f: Filter<Term>): i64 -> bool {
    (id: i64) => VerdictOf(env, docs, f, id).0
  }

  lemma KeepStep(ids: seq<i64>, keep: i64 -> bool, n: nat)
    requires n < |ids|
    ensures Keep(ids[..n + 1], keep) == if keep(ids[n]) then Keep(ids[..n], keep) + [ids[n]] else Keep(ids[..n], keep)
  {
    assert ids[..n + 1][..n] == ids[..n];
  }

  lemma {:induction false} KeepPrefix(ids: seq<i64>, keep: i64 -> bool, n: nat)
    requires n <= |ids|
    ensures Keep(ids[..n], keep) <= Keep(ids, keep)
    decreases |ids| - n
  {
    if n < |ids| {
      KeepPrefix(ids, keep, n + 1);
      KeepStep(ids, keep, n);
    } else {
      assert ids[..n] == ids;
    }
  }

  lemma SliceOfPrefix(p: seq<i64>, s: seq<i64>, skip: nat, limit: nat)
    requires p <= s && |p| == skip + limit
    ensures Slice(s, skip, limit) == p[skip..]
  {
  }

  lemma SliceOfNone(s: seq<i64>, skip: nat)
    ensures Slice(s, skip, 0) == []
  {
  }

  lemma SliceOfAll(s: seq<i64>, skipped: nat, skip: nat, limit: int)
    requires skipped <= |s| && (skipped < |s| ==> skipped == skip) && skipped <= skip
    requires limit < 0 || |s| - skipped < limit
    ensures Slice(s, skip, limit) == s[skipped..]
  {
  }

  lemma KeepNone(ids: seq<i64>, keep: i64 -> bool)
    ensures Keep(ids[..0], keep) == []
  {
  }

  /** The document at position `i` is the first that fails, and the window is not full before it. */
  ghost predicate FailsAt(env: Env, docs: map<i64, Doc>, f: Filter<Term>, ids: seq<i64>, skip: nat, limit: int, i: int) {
    && 0 <= i < |ids| && VerdictOf(env, docs, f, ids[i]).1.Some? && NoErrorBefore(env, docs, f, ids, i)
    && limit != 0 && (limit < 0 || |Keep(ids[..i], Wanted(env, docs, f))| < skip + limit)
  }

  ghost predicate NoErrorBefore(env: Env, docs: map<i64, Doc>, f: Filter<Term>, ids: seq<i64>, n: int)
    requires n <= |ids|
  {
    forall j | 0 <= j < n :: VerdictOf(env, docs, f, ids[j]).1.None?
  }

  /** An error is reported if and only if some document is the first to fail before the window is full, and it is its error. */
  ghost predicate ErrorIsFirst(env: Env, docs: map<i64, Doc>, f: Filter<Term>, ids: seq<i64>, skip: nat, limit: int,
                               r: Result<seq<i64>, QueryError>) {
    && (r.Err? <==> exists i :: FailsAt(env, docs, f, ids, skip, limit, i))
    && (forall i | FailsAt(env, docs, f, ids, skip, limit, i) :: r == Err(VerdictOf(env, docs, f, ids[i]).1.value))
  }

  lemma EmptyWindow(env: Env, docs: map<i64, Doc>, f: Filter<Term>, ids: seq<i64>, skip: nat, out: seq<i64>)
    ensures ErrorIsFirst(env, docs, f, ids, skip, 0, Ok(out))
  {
  }

  lemma NothingBefore(env: Env, docs: map<i64, Doc>, f: Filter<Term>, ids: seq<i64>)
    ensures NoErrorBefore(env, docs, f, ids, 0)
  {
  }

  lemma NoErrorAt(env: Env, docs: map<i64, Doc>, f: Filter<Term>, ids: seq<i64>, n: nat)
    requires n < |ids| && NoErrorBefore(env, docs, f, ids, n) && VerdictOf(env, docs, f, ids[n]).1.None?
    ensures NoErrorBefore(env, docs, f, ids, n + 1)
  {
    hide VerdictOf;
  }

  lemma FirstError(env: Env, docs: map<i64, Doc>, f: Filter<Term>, ids: seq<i64>, skip: nat, limit: int, n: nat)
    requires n < |ids| && NoErrorBefore(env, docs, f, ids, n) && VerdictOf(env, docs, f, ids[n]).1.Some? && limit != 0
    requires limit < 0 || |Keep(ids[..n], Wanted(env, docs, f))| < skip + limit
    ensures ErrorIsFirst(env, docs, f, ids, skip, limit, Err(VerdictOf(env, docs, f, ids[n]).1.value))
  {
    hide VerdictOf, Keep;
    assert FailsAt(env, docs, f, ids, skip, limit, n);
    forall i | FailsAt(env, docs, f, ids, skip, limit, i) ensures i == n {
    }
  }

  lemma FullWindow(env: Env, docs: map<i64, Doc>, f: Filter<Term>, ids: seq<i64>, skip: nat, limit: int, n: nat, out: seq<i64>)
    requires n <= |ids| && NoErrorBefore(env, docs, f, ids, n)
    requires limit > 0 && |Keep(ids[..n], Wanted(env, docs, f))| >= skip + limit
    ensures ErrorIsFirst(env, docs, f, ids, skip, limit, Ok(out))
  {
    hide Keep, VerdictOf;
    forall i ensures !FailsAt(env, docs, f, ids, skip, limit, i) {
      if n <= i < |ids| {
        KeepPrefix(ids[..i], Wanted(env, docs, f), n);
        assert ids[..i][..n] == ids[..n];
      }
    }
  }

  lemma NoErrors(env: Env, docs: map<i64, Doc>, f: Filter<Term>, ids: seq<i64>, skip: nat, limit: int, out: seq<i64>)
    requires NoErrorBefore(env, docs, f, ids, |ids|)
    ensures ErrorIsFirst(env, docs, f, ids, skip, limit, Ok(out))
  {
    hide Keep, VerdictOf;
  }

  /**
   The callback of the streamed window: error, skip, collect, stop at the limit.  It fails exactly with the error of
   the first failing document, if that is met before the window is full.
   */
  method StreamWindow(env: Env, docs: map<i64, Doc>, f: Filter<Term>, ids: seq<i64>, skip: nat, limit: int)
    returns (r: Result<seq<i64>, QueryError>)
    ensures ErrorIsFirst(env, docs, f, ids, skip, limit, r)
    ensures r.Ok? ==> r.value == Slice(Keep(ids, Wanted(env, docs, f)), skip, limit)
  {
    hide VerdictOf, Keep, Slice, FailsAt, NoErrorBefore, ErrorIsFirst;
    var out: seq<i64> := [];
    var keep := Wanted(env, docs, f);
    KeepNone(ids, keep);
    if limit == 0 {
      SliceOfNone(Keep(ids, keep), skip);
      EmptyWindow(env, docs, f, ids, skip, out);
      return Ok(out);
    }
    NothingBefore(env, docs, f, ids);
    var skipped := 0;
    for n := 0 to |ids|
      invariant limit < 0 || |out| < limit
      invariant skipped <= skip && (out != [] ==> skipped == skip)
      invariant |Keep(ids[..n], keep)| == skipped + |out| && Keep(ids[..n], keep)[skipped..] == out
      invariant NoErrorBefore(env, docs, f, ids, n)
    {
      KeepStep(ids, keep, n);
      var m := VerdictOf(env, docs, f, ids[n]);
      if m.1.Some? {
        FirstError(env, docs, f, ids, skip, limit, n);
        return Err(m.1.value);
      }
      NoErrorAt(env, docs, f, ids, n);
      if m.0 {
        if skipped < skip {
          skipped := skipped + 1;
        } else {
          out := out + [ids[n]];
          if 0 <= limit <= |out| {
            KeepPrefix(ids, keep, n + 1);
            SliceOfPrefix(Keep(ids[..n + 1], keep), Keep(ids, keep), skip, limit);
            FullWindow(env, docs, f, ids, skip, limit, n + 1, out);
            return Ok(out);
          }
        }
      }
    }
    assert ids[..|ids|] == ids;
    SliceOfAll(Keep(ids, keep), skipped, skip, limit);
    NoErrors(env, docs, f, ids, skip, limit, out);
    return Ok(out);
  }

  // ----- the order of the scan -----

  /** The document has an int64 at the path. */
  predicate HasInt(path: bytes, doc: Doc) {
    match PointerGet(doc, path) case Some(v) => v.Int? case None => false
  }

  function IntAt(path: bytes, doc: Doc): i64 {
    match PointerGet(doc, path) case Some(Int(i)) => i case _ => 0
  }

  /** What the sorter compares for one order-by path. */
  function KeyFor(docs: map<i64, Doc>, path: bytes, id: i64): SortKey {
    SortKey(id, [if id !in docs then Null else match PointerGet(docs[id], path) case Some(v) => v case None => Null])
  }

  function IdOrder(lib: Lib, docs: map<i64, Doc>, path: bytes, desc: bool): (i64, i64) -> bool {
    (a: i64, b: i64) => Before(lib, [desc], KeyFor(docs, path, a), KeyFor(docs, path, b))
  }

  predicate PairBefore(v: int, a: i64, w: int, b: i64, desc: bool) {
    if desc then v > w || (v == w && a > b) else v < w || (v == w && a < b)
  }

  /** On integers the sorter's order is by value, then by id, both reversed by desc. */
  lemma IdOrderIsPairOrder(lib: Lib, docs: map<i64, Doc>, path: bytes, desc: bool, a: i64, b: i64)
    requires a in docs && b in docs && HasInt(path, docs[a]) && HasInt(path, docs[b])
    ensures IdOrder(lib, docs, path, desc)(a, b)
       <==> PairBefore(IntAt(path, docs[a]), a, IntAt(path, docs[b]), b, desc)
  {
    hide PointerGet;
    var x, y := KeyFor(docs, path, a), KeyFor(docs, path, b);
    var c := GenericCmp(lib, ValueAt(x, 0), ValueAt(y, 0));
    assert BeforeFrom(lib, [desc], x, y, 1) == if desc then a > b else a < b;
    assert c == CompareInt(IntAt(path, docs[a]), IntAt(path, docs[b]));
  }

  /** An int64 index whose documents all have a number at its path. */
  ghost predicate OrderIndex(nz: Normalizer, e: Engine, idx: IndexRef, docs: map<i64, Doc>) {
    && idx.def.kind.Int64Index?
    && IndexAgrees(IndexerOf(nz), e, idx.def, idx.dbid, docs)
    && forall id | id in docs :: HasInt(idx.def.path, docs[id])
  }

  /** Each entry belongs to a document and carries its number. */
  lemma EntryFacts(nz: Normalizer, e: Engine, idx: IndexRef, docs: map<i64, Doc>, k: Key)
    requires NormalizesTyped(nz) && OrderIndex(nz, e, idx, docs) && k in e && EntryOf(idx, k)
    ensures IdOf(e, k) in docs
    ensures ValueOf(k) == EncodeI64Key(IntAt(idx.def.path, docs[IdOf(e, k)]))
    ensures k == EntryKey(idx.def.unique, idx.dbid, ValueOf(k), IdOf(e, k))
  {
    hide NormalizesTyped, PointerGet, EncodeI64Key, Values;
    var id := IdOf(e, k);
    var ix := IndexerOf(nz);
    if k.IdxKey? {
      assert IdxKey(idx.dbid, k.value, id) in e;
    } else {
      assert UIdxKey(idx.dbid, k.value) in e;
    }
    assert id in docs && k.value in ix(docs[id], idx.def);
    IntValues(nz, idx.def, docs[id]);
  }

  lemma IntValues(nz: Normalizer, def: IndexDef, doc: Doc)
    requires NormalizesTyped(nz) && def.kind.Int64Index? && HasInt(def.path, doc)
    ensures Values(nz, doc, def) == [EncodeI64Key(IntAt(def.path, doc))]
  {
    hide NormalizesTyped, PointerGet, EncodeI64Key, Values;
    TypedValues(nz, def, doc);
  }

  /** Entries in byte order are documents in (value, id) order. */
  lemma EntriesInOrder(nz: Normalizer, e: Engine, idx: IndexRef, docs: map<i64, Doc>, k: Key, m: Key)
    requires NormalizesTyped(nz) && OrderIndex(nz, e, idx, docs)
    requires k in e && EntryOf(idx, k) && m in e && EntryOf(idx, m) && Less(KeyBytes(k), KeyBytes(m))
    ensures IdOf(e, k) in docs && IdOf(e, m) in docs
    ensures var a, b := IdOf(e, k), IdOf(e, m);
            PairBefore(IntAt(idx.def.path, docs[a]), a, IntAt(idx.def.path, docs[b]), b, false)
  {
    hide NormalizesTyped, OrderIndex, Less, KeyBytes, EncodeI64Key, IntAt, IdOf;
    EntryFacts(nz, e, idx, docs, k);
    EntryFacts(nz, e, idx, docs, m);
    var a, b := IdOf(e, k), IdOf(e, m);
    var v, w := IntAt(idx.def.path, docs[a]), IntAt(idx.def.path, docs[b]);
    I64KeyRoundTrip(v);
    I64KeyRoundTrip(w);
    I64KeyOrder(v, w);
    if idx.def.unique {
      UniqueEntriesSort(idx.dbid, EncodeI64Key(v), EncodeI64Key(w));
    } else {
      IndexEntriesSort(idx.dbid, EncodeI64Key(v), a, EncodeI64Key(w), b);
    }
  }

  /** A walk over entries of an order index yields documents in the sorter's order. */
  lemma WalkInOrder(lib: Lib, nz: Normalizer, e: Engine, idx: IndexRef, docs: map<i64, Doc>, ks: seq<Key>, desc: bool)
    requires NormalizesTyped(nz) && OrderIndex(nz, e, idx, docs)
    requires Sorted((a, b) => Less(KeyBytes(a), KeyBytes(b)), ks)
    requires forall k | k in ks :: k in e && EntryOf(idx, k)
    ensures Sorted(IdOrder(lib, docs, idx.def.path, desc), WalkIds(e, ks, desc))
    ensures forall id | id in WalkIds(e, ks, desc) :: id in docs
  {
    hide NormalizesTyped, OrderIndex, Less, KeyBytes, IdOf, EntryOf, Before, WalkIds, IntAt, HasInt;
    var ids := WalkIds(e, ks, desc);
    forall i | 0 <= i < |ids| ensures ids[i] in docs {
      var k := ks[if desc then |ks| - 1 - i else i];
      assert k in ks;
      EntryFacts(nz, e, idx, docs, k);
    }
    forall i, j | 0 <= i < j < |ids| ensures IdOrder(lib, docs, idx.def.path, desc)(ids[i], ids[j]) {
      var x, y := if desc then |ks| - 1 - j else i, if desc then |ks| - 1 - i else j;
      var k, m := ks[x], ks[y];
      assert k in ks && m in ks;
      var less := (a, b) => Less(KeyBytes(a), KeyBytes(b));
      assert less(ks[x], ks[y]);
      EntriesInOrder(nz, e, idx, docs, k, m);
      AllInts(nz, e, idx, docs, ids[i]);
      AllInts(nz, e, idx, docs, ids[j]);
      IdOrderIsPairOrder(lib, docs, idx.def.path, desc, ids[i], ids[j]);
    }
  }

  lemma AllInts(nz: Normalizer, e: Engine, idx: IndexRef, docs: map<i64, Doc>, id: i64)
    requires OrderIndex(nz, e, idx, docs) && id in docs
    ensures HasInt(idx.def.path, docs[id])
  {
    hide IndexAgrees;
  }

  // ----- strictly sorted id lists -----

  /** The order is strict on documents with a number. */
  lemma IdOrderStrict(lib: Lib, docs: map<i64, Doc>, path: bytes, desc: bool, ids: seq<i64>)
    requires forall id | id in ids :: id in docs && HasInt(path, docs[id])
    ensures Strict(IdOrder(lib, docs, path, desc), ids)
  {
    hide Before, HasInt, IntAt;
    var less := IdOrder(lib, docs, path, desc);
    forall i, j | 0 <= i < |ids| && 0 <= j < |ids|
      ensures less(ids[i], ids[j])
         <==> PairBefore(IntAt(path, docs[ids[i]]), ids[i], IntAt(path, docs[ids[j]]), ids[j], desc)
    {
      IdOrderIsPairOrder(lib, docs, path, desc, ids[i], ids[j]);
    }
  }

  lemma SortedIsDistinct(less: (i64, i64) -> bool, ids: seq<i64>)
    requires Sorted(less, ids) && Strict(less, ids)
    ensures forall i, j | 0 <= i < j < |ids| :: ids[i] != ids[j]
  {
  }

  lemma {:induction false} KeepSorted(less: (i64, i64) -> bool, ids: seq<i64>, keep: i64 -> bool)
    requires Sorted(less, ids)
    ensures Sorted(less, Keep(ids, keep))
  {
    if ids != [] {
      var last := |ids| - 1;
      var init := ids[..last];
      KeepSorted(less, init, keep);
      var r := Keep(init, keep);
      forall i | 0 <= i < |r| ensures less(r[i], ids[last]) {
        assert r[i] in init;
        var j :| 0 <= j < |init| && init[j] == r[i];
        assert ids[j] == r[i];
      }
    }
  }

  function Elements(s: seq<i64>): set<i64> {
    set x | x in s
  }

  lemma {:induction false} DistinctLength(s: seq<i64>)
    requires forall i, j | 0 <= i < j < |s| :: s[i] != s[j]
    ensures |Elements(s)| == |s|
  {
    if s != [] {
      var last := |s| - 1;
      DistinctLength(s[..last]);
      assert Elements(s) == Elements(s[..last]) + {s[last]};
      assert s[last] !in s[..last];
    }
  }

  /** Two strictly sorted lists with the same members are one list. */
  lemma SortedIdsUnique(less: (i64, i64) -> bool, s: seq<i64>, t: seq<i64>)
    requires Sorted(less, s) && Sorted(less, t) && Strict(less, s) && Strict(less, t) && Elements(s) == Elements(t)
    ensures s == t
  {
    SortedIsDistinct(less, s);
    SortedIsDistinct(less, t);
    DistinctLength(s);
    DistinctLength(t);
    assert forall x | x in s :: x in Elements(s);
    assert forall x | x in t :: x in Elements(t);
    SortedUnique(less, s, t);
  }

  // ----- streaming equals sorting -----

  /** The direction in which scanIndexCandidateIDsFunc walks the values of a plan. */
  predicate ValueDesc(op: PlanOp, desc: bool) {
    desc || (op.RangePlan? && op.second.None? && !op.op.Lower())
  }

  /** The sorter's rows: every matching document once, with the value at the order-by path. */
  ghost predicate RowsOf(env: Env, docs: map<i64, Doc>, f: Filter<Term>, path: bytes, rows: seq<Row>) {
    && (forall i | 0 <= i < |rows| ::
          Wanted(env, docs, f)(rows[i].key.id) && rows[i].key == KeyFor(docs, path, rows[i].key.id))
    && (forall id | id in docs && Wanted(env, docs, f)(id) :: exists i :: 0 <= i < |rows| && rows[i].key.id == id)
  }

  function RowIds(rows: seq<Row>): (r: seq<i64>)
    ensures |r| == |rows| && forall i | 0 <= i < |rows| :: r[i] == rows[i].key.id
  {
    seq(|rows|, i requires 0 <= i < |rows| => rows[i].key.id)
  }

  /** The arranged rows are the matching ids in the sorter's order. */
  lemma ArrangedIds(env: Env, docs: map<i64, Doc>, f: Filter<Term>, path: bytes, desc: bool, rows: seq<Row>, s: seq<Row>)
    requires RowsOf(env, docs, f, path, rows) && Arranged(env.lib, [desc], rows, s)
    ensures Sorted(IdOrder(env.lib, docs, path, desc), RowIds(s))
    ensures Elements(RowIds(s)) == set id | id in docs && Wanted(env, docs, f)(id)
  {
    hide Before, KeyFor;
    var ids := RowIds(s);
    var less, rowLess := IdOrder(env.lib, docs, path, desc), RowOrder(env.lib, [desc]);
    forall i | 0 <= i < |s| ensures s[i].key == KeyFor(docs, path, ids[i]) && ids[i] in docs && Wanted(env, docs, f)(ids[i]) {
      assert s[i] in rows;
    }
    forall i, j | 0 <= i < j < |ids| ensures less(ids[i], ids[j]) {
      assert rowLess(s[i], s[j]);
    }
    forall id | id in docs && Wanted(env, docs, f)(id) ensures id in ids {
      var i :| 0 <= i < |rows| && rows[i].key.id == id;
      assert rows[i] in s;
      var j :| 0 <= j < |s| && s[j] == rows[i];
      assert ids[j] == id;
    }
  }

  /** The matches of a walk that misses none, in the order of the walk, are the arranged rows. */
  lemma StreamIsArranged(env: Env, nz: Normalizer, e: Engine, idx: IndexRef, docs: map<i64, Doc>, f: Filter<Term>,
                         ks: seq<Key>, desc: bool, rows: seq<Row>, s: seq<Row>)
    requires NormalizesTyped(nz) && OrderIndex(nz, e, idx, docs)
    requires Sorted((a, b) => Less(KeyBytes(a), KeyBytes(b)), ks)
    requires forall k | k in ks :: k in e && EntryOf(idx, k)
    requires forall id | id in docs && Wanted(env, docs, f)(id) :: id in WalkIds(e, ks, desc)
    requires RowsOf(env, docs, f, idx.def.path, rows) && Arranged(env.lib, [desc], rows, s)
    ensures Keep(Dedupe(WalkIds(e, ks, desc)), Wanted(env, docs, f)) == RowIds(s)
  {
    hide NormalizesTyped, OrderIndex, Less, KeyBytes, EntryOf, WalkIds, RowsOf, Arranged, IdOrder, HasInt, VerdictOf, IdOf;
    var path, ids := idx.def.path, WalkIds(e, ks, desc);
    var less, wanted := IdOrder(env.lib, docs, path, desc), Wanted(env, docs, f);
    WalkInOrder(env.lib, nz, e, idx, docs, ks, desc);
    forall id | id in ids ensures HasInt(path, docs[id]) {
      AllInts(nz, e, idx, docs, id);
    }
    IdOrderStrict(env.lib, docs, path, desc, ids);
    SortedIsDistinct(less, ids);
    DedupeDistinct(ids);
    var kept := Keep(ids, wanted);
    KeepSorted(less, ids, wanted);
    Among(less, ids, kept);
    ArrangedIds(env, docs, f, path, desc, rows, s);
    var sorted := RowIds(s);
    assert Elements(kept) == Elements(sorted);
    forall i | 0 <= i < |sorted| ensures sorted[i] in kept {
      assert sorted[i] in Elements(sorted);
    }
    Among(less, kept, sorted);
    SortedIdsUnique(less, kept, sorted);
  }

  /** The plans that walk the index in key order: one with no operator, or a range. */
  predicate Ordered(op: PlanOp) {
    op.Whole? || op.RangePlan?
  }

  /** The plan of the filter, or the order index when the filter has none (chooseOrderByIndexPlan). */
  predicate Chosen(env: Env, nz: Normalizer, rnum: int, order: seq<IndexRef>, f: Filter<Term>, plan: Plan) {
    match Candidate(env, nz, rnum, order, f)
    case Some(p) => plan == p
    case None => plan.op.Whole? && plan.idx in order
  }

  lemma ChosenTyped(env: Env, nz: Normalizer, rnum: int, order: seq<IndexRef>, f: Filter<Term>, plan: Plan)
    requires TypedFilter(order, f) && Chosen(env, nz, rnum, order, f, plan)
    ensures TypedPlan(order, plan)
  {
    hide TypedFilter, Candidate;
    CandidateTyped(env, nz, rnum, order, f);
  }

  /** An ordered walk meets entries of its own index only. */
  lemma VisitedIsEntry(nz: Normalizer, order: seq<IndexRef>, plan: Plan, k: Key)
    requires TypedPlan(order, plan) && Ordered(plan.op) && plan.idx.def.kind.Int64Index?
    requires Visits(nz, plan.idx, plan.op, k)
    ensures EntryOf(plan.idx, k)
  {
    hide KeyBytes, InPath, RangeScanVisits, MatchRange, EntryOf, ReadsValue;
    var idx := plan.idx;
    if plan.op.Whole? {
      InPathExact(idx, k);
    } else {
      var (first, second) := Bounds(nz, idx.def.kind, plan.op).value;
      RangeScanStaysInIndex(idx.def.unique, idx.dbid, first, second, KeyBytes(k));
      TagPrefixExact(k, ScanTag(idx.def.unique), idx.dbid);
      assert EntryOf(idx, k) == HasTag(k, ScanTag(idx.def.unique), idx.dbid) by {
        EntryTag(idx, k);
      }
    }
  }

  lemma EntryTag(idx: IndexRef, k: Key)
    ensures EntryOf(idx, k) == HasTag(k, ScanTag(idx.def.unique), idx.dbid)
  {
  }

  /** A walk of the chosen plan misses no match. */
  lemma ChosenMissesNone(env: Env, nz: Normalizer, e: Engine, docs: map<i64, Doc>, rnum: int, order: seq<IndexRef>,
                         f: Filter<Term>, plan: Plan, id: i64)
    requires NormalizesTyped(nz) && OrderIndex(nz, e, plan.idx, docs) && id in docs
    requires TypedFilter(order, f) && TypedPaths(order, docs[id])
    requires Chosen(env, nz, rnum, order, f, plan) && Matches(env, docs[id], id, f)
    ensures id in ScanSet(nz, e, plan.idx, plan.op)
  {
    hide NormalizesTyped, TypedFilter, TypedPaths, IndexAgrees, Candidate, Admits, ScanSet, TypedPlan, HasInt, Values,
         EncodeI64Key, Matches, GoodValue;
    ChosenTyped(env, nz, rnum, order, f, plan);
    if Candidate(env, nz, rnum, order, f).Some? {
      CandidateAdmits(env, nz, rnum, order, f, docs[id], id);
      AdmittedIsScanned(env, nz, e, docs, order, plan, id);
    } else {
      var def := plan.idx.def;
      IntValues(nz, def, docs[id]);
      var v := IntAt(def.path, docs[id]);
      IntKeyGood(v);
      assert IndexerOf(nz)(docs[id], def) == Values(nz, docs[id], def);
      EntryScanned(IndexerOf(nz), nz, e, plan.idx, docs, Whole, id, EncodeI64Key(v));
    }
  }

  lemma IntKeyGood(v: i64)
    ensures GoodValue(Int64Index, EncodeI64Key(v))
  {
    I64KeyRoundTrip(v);
  }

  /** The situation in which the window is streamed off an int64 index. */
  ghost predicate Streamed(env: Env, nz: Normalizer, s: State, name: Name, order: seq<IndexRef>, f: Filter<Term>, plan: Plan)
  {
    && NormalizesTyped(nz) && Clean(IndexerOf(nz), s) && name in s.cat.collections
    && RuntimeOf(s.cat.collections[name], order) && TypedFilter(order, f)
    && (forall id | id in Live(s, name) :: TypedPaths(order, Live(s, name)[id]))
    && Chosen(env, nz, s.cat.collections[name].rnum, order, f, plan) && Ordered(plan.op)
    && plan.idx.def.kind.Int64Index?
    && (forall id | id in Live(s, name) :: HasInt(plan.idx.def.path, Live(s, name)[id]))
  }

  lemma StreamedIndex(env: Env, nz: Normalizer, s: State, name: Name, order: seq<IndexRef>, f: Filter<Term>, plan: Plan)
    requires Streamed(env, nz, s, name, order, f, plan)
    ensures Live(s, name) == StoredDocs(s.engine, s.cat.collections[name].dbid)
    ensures OrderIndex(nz, s.engine, plan.idx, Live(s, name)) && TypedPlan(order, plan)
  {
    hide NormalizesTyped, TypedFilter, TypedPaths, IndexAgrees, Chosen, HasInt, TypedPlan, LogOk, CountersOk, CatalogOk,
         NoOrphans, StoredDocs;
    ChosenTyped(env, nz, s.cat.collections[name].rnum, order, f, plan);
    PlanIndexAgrees(IndexerOf(nz), s.engine, s.cat, name, order, plan);
  }

  /** The stream of matches is sorted in the direction in which the plan walks the index. */
  lemma StreamIsSorted(env: Env, nz: Normalizer, s: State, name: Name, order: seq<IndexRef>, f: Filter<Term>,
                       plan: Plan, desc: bool, ks: seq<Key>, rows: seq<Row>, sorted: seq<Row>)
    requires Streamed(env, nz, s, name, order, f, plan)
    requires Iterates(s.engine, k => Visits(nz, plan.idx, plan.op, k), ks)
    requires RowsOf(env, Live(s, name), f, plan.idx.def.path, rows)
    requires Arranged(env.lib, [ValueDesc(plan.op, desc)], rows, sorted)
    ensures Stream(env, s, name, f, plan, desc, ks) == RowIds(sorted)
  {
    hide NormalizesTyped, TypedFilter, TypedPaths, OrderIndex, Visits, EntryOf, Less, KeyBytes, WalkIds, RowsOf, Arranged,
         HasInt, Chosen, TypedPlan, Valid, Matches, Keep, Dedupe, ScanSet, IdOf;
    var docs, e, idx, dir := Live(s, name), s.engine, plan.idx, ValueDesc(plan.op, desc);
    StreamedIndex(env, nz, s, name, order, f, plan);
    forall k | k in ks ensures k in e && EntryOf(idx, k) {
      VisitedIsEntry(nz, order, plan, k);
    }
    forall id | id in docs && Wanted(env, docs, f)(id) ensures id in WalkIds(e, ks, dir) {
      WantedMatches(env, docs, f, id);
      ChosenMissesNone(env, nz, e, docs, s.cat.collections[name].rnum, order, f, plan, id);
      ScanListExact(nz, e, idx, plan.op, ks, dir);
    }
    StreamIsArranged(env, nz, e, idx, docs, f, ks, dir, rows, sorted);
  }

  /** The matches in the order in which the scan meets them. */
  ghost function Stream(env: Env, s: State, name: Name, f: Filter<Term>, plan: Plan, desc: bool, ks: seq<Key>): seq<i64>
    requires name in s.cat.collections
  {
    Keep(Dedupe(WalkIds(s.engine, ks, ValueDesc(plan.op, desc))), Wanted(env, Live(s, name), f))
  }

  /**
   Streaming equals sorting: for every skip, limit and direction, cutting the window out of the stream of
   matches gives the ids of the same window of the sorted rows, provided the plan is not a lone upper bound
   read in ascending order.
   */
  lemma StreamingEqualsSorting(env: Env, nz: Normalizer, s: State, name: Name, order: seq<IndexRef>, f: Filter<Term>,
                               plan: Plan, desc: bool, ks: seq<Key>, rows: seq<Row>, sorted: seq<Row>,
                               skip: nat, limit: int)
    requires Streamed(env, nz, s, name, order, f, plan) && ValueDesc(plan.op, desc) == desc
    requires Iterates(s.engine, k => Visits(nz, plan.idx, plan.op, k), ks)
    requires RowsOf(env, Live(s, name), f, plan.idx.def.path, rows) && Arranged(env.lib, [desc], rows, sorted)
    ensures Slice(Stream(env, s, name, f, plan, desc, ks), skip, limit) == RowIds(Slice(sorted, skip, limit))
  {
    hide Streamed, Visits, RowsOf, Arranged, Stream, Iterates;
    StreamIsSorted(env, nz, s, name, order, f, plan, desc, ks, rows, sorted);
    assert RowIds(Slice(sorted, skip, limit)) == Slice(RowIds(sorted), skip, limit);
  }

  lemma StreamingDiffers(env: Env, nz: Normalizer, s: State, name: Name, order: seq<IndexRef>, f: Filter<Term>,
                         plan: Plan, desc: bool, ks: seq<Key>, rows: seq<Row>, sorted: seq<Row>, backwards: seq<Row>)
    requires Streamed(env, nz, s, name, order, f, plan) && ValueDesc(plan.op, desc) != desc
    requires Iterates(s.engine, k => Visits(nz, plan.idx, plan.op, k), ks)
    requires RowsOf(env, Live(s, name), f, plan.idx.def.path, rows) && |rows| >= 2
    requires Arranged(env.lib, [desc], rows, sorted) && Arranged(env.lib, [!desc], rows, backwards)
    ensures Stream(env, s, name, f, plan, desc, ks) != RowIds(sorted)
  {
    hide NormalizesTyped, TypedFilter, TypedPaths, Visits, RowsOf, HasInt, Chosen, Valid, Stream, Iterates, IdOrder, IntAt,
         Before, StoredDocs;
    StreamIsSorted(env, nz, s, name, order, f, plan, desc, ks, rows, backwards);
    var docs, path := Live(s, name), plan.idx.def.path;
    ArrangedIds(env, docs, f, path, desc, rows, sorted);
    ArrangedIds(env, docs, f, path, !desc, rows, backwards);
    var ids := RowIds(sorted);
    assert ids[0] in Elements(ids) && ids[1] in Elements(ids);
    IdOrderIsPairOrder(env.lib, docs, path, desc, ids[0], ids[1]);
    IdOrderIsPairOrder(env.lib, docs, path, !desc, ids[0], ids[1]);
  }

  /** Rows with a number, sorted one way, are sorted the other way when read backwards. */
  lemma ReversedArranged(env: Env, docs: map<i64, Doc>, f: Filter<Term>, path: bytes, desc: bool, rows: seq<Row>, s: seq<Row>)
    requires RowsOf(env, docs, f, path, rows) && Arranged(env.lib, [desc], rows, s)
    requires forall id | id in docs :: HasInt(path, docs[id])
    ensures Arranged(env.lib, [!desc], rows, Reversed(s))
  {
    hide Before, HasInt, VerdictOf, KeyFor, IntAt;
    var t := Reversed(s);
    forall i | 0 <= i < |s| ensures s[i] in rows && s[i].key.id in docs && s[i].key == KeyFor(docs, path, s[i].key.id) {
      assert s[i] in rows;
      WantedInDocs(env, docs, f, s[i].key.id);
    }
    forall i, j | 0 <= i < j < |t| ensures RowOrder(env.lib, [!desc])(t[i], t[j]) {
      var a, b := s[|s| - 1 - j], s[|s| - 1 - i];
      assert RowOrder(env.lib, [desc])(a, b);
      IdOrderIsPairOrder(env.lib, docs, path, desc, a.key.id, b.key.id);
      IdOrderIsPairOrder(env.lib, docs, path, !desc, b.key.id, a.key.id);
    }
    forall x | x in rows ensures x in t {
      assert x in s;
      var i :| 0 <= i < |s| && s[i] == x;
      assert t[|s| - 1 - i] == x;
    }
    forall x | x in t ensures x in rows {
      var i :| 0 <= i < |t| && t[i] == x;
      assert x == s[|s| - 1 - i];
    }
  }

  lemma WantedInDocs(env: Env, docs: map<i64, Doc>, f: Filter<Term>, id: i64)
    requires Wanted(env, docs, f)(id)
    ensures id in docs
  {
  }

  /**
   The stream is the list of sorted matches if and only if the plan walks the index in the direction asked for, or
   there is at most one match.
   */
  lemma StreamingExactly(env: Env, nz: Normalizer, s: State, name: Name, order: seq<IndexRef>, f: Filter<Term>,
                         plan: Plan, desc: bool, ks: seq<Key>, rows: seq<Row>, sorted: seq<Row>)
    requires Streamed(env, nz, s, name, order, f, plan)
    requires Iterates(s.engine, k => Visits(nz, plan.idx, plan.op, k), ks)
    requires RowsOf(env, Live(s, name), f, plan.idx.def.path, rows) && Arranged(env.lib, [desc], rows, sorted)
    ensures Stream(env, s, name, f, plan, desc, ks) == RowIds(sorted)
       <==> ValueDesc(plan.op, desc) == desc || |rows| <= 1
  {
    hide NormalizesTyped, Clean, TypedFilter, TypedPaths, Visits, RowsOf, HasInt, Chosen, Stream, Iterates, Live, RuntimeOf, Ordered;
    if ValueDesc(plan.op, desc) == desc {
      StreamIsSorted(env, nz, s, name, order, f, plan, desc, ks, rows, sorted);
    } else {
      var backwards := Reversed(sorted);
      ReversedArranged(env, Live(s, name), f, plan.idx.def.path, desc, rows, sorted);
      if |rows| <= 1 {
        StreamIsSorted(env, nz, s, name, order, f, plan, desc, ks, rows, backwards);
        assert RowIds(backwards) == RowIds(sorted);
      } else {
        StreamingDiffers(env, nz, s, name, order, f, plan, desc, ks, rows, sorted, backwards);
      }
    }
  }

  /**
   The streamed path of runQueryLocked: the scan of the plan feeds the window.  Without an error the result is the
   window of the sorted matches, whichever way those were sorted.
   */
  method StreamedQuery(env: Env, nz: Normalizer, e: Engine, docs: map<i64, Doc>, f: Filter<Term>, plan: Plan, desc: bool,
                       ks: seq<Key>, skip: nat, limit: int, ghost s: State, ghost name: Name, ghost order: seq<IndexRef>)
    returns (r: Result<seq<i64>, QueryError>)
    requires Streamed(env, nz, s, name, order, f, plan) && e == s.engine && docs == Live(s, name)
    requires ValueDesc(plan.op, desc) == desc && Iterates(e, k => Visits(nz, plan.idx, plan.op, k), ks)
    ensures ErrorIsFirst(env, docs, f, Dedupe(WalkIds(e, ks, desc)), skip, limit, r)
    ensures forall rows, sorted | RowsOf(env, docs, f, plan.idx.def.path, rows) && Arranged(env.lib, [desc], rows, sorted) ::
              r.Ok? ==> r.value == RowIds(Slice(sorted, skip, limit))
  {
    hide Streamed, Visits, RowsOf, Arranged, Iterates, Slice, Keep, Dedupe, WalkIds, ErrorIsFirst, VerdictOf;
    var ids := ScanOrdered(e, ks, ValueDesc(plan.op, desc));
    r := StreamWindow(env, docs, f, ids, skip, limit);
    forall rows, sorted | RowsOf(env, docs, f, plan.idx.def.path, rows) && Arranged(env.lib, [desc], rows, sorted)
      ensures r.Ok? ==> r.value == RowIds(Slice(sorted, skip, limit))
    {
      StreamingEqualsSorting(env, nz, s, name, order, f, plan, desc, ks, rows, sorted, skip, limit);
    }
  }

  lemma WantedMatches(env: Env, docs: map<i64, Doc>, f: Filter<Term>, id: i64)
    requires id in docs && Wanted(env, docs, f)(id)
    ensures Matches(env, docs[id], id, f)
  {
  }
}
