/**
 Index scans (db.go): which keys a plan reads, in which order, and the ids it yields.  Every way of
 reading (a value prefix, a key interval, the whole index with a filter) visits exactly the entries
 whose value the plan selects.
 */
module Scan {
  import opened Wrappers
  import opened Bytes
  import opened Keys
  import opened IndexRange
  import opened Document
  import opened Ordering
  import opened Store
  import opened StoreInvariants

  /** A runtime index: its definition and the dbid its keys carry. */
  datatype IndexRef = IndexRef(def: IndexDef, dbid: i64)

  /** What a plan asks of the index; Whole is the plan that only orders. */
  datatype PlanOp =
    | Whole
    | EqOp(value: Doc)
    | InOp(values: seq<Doc>)
    | PrefixOp(text: bytes)
    | RangePlan(op: RangeOp, value: Doc, second: Option<(RangeOp, Doc)>)

  // ----- what a plan selects -----

  function BoundOf(nz: Normalizer, kind: IndexKind, op: RangeOp, v: Doc): Option<Bound> {
    match nz(v, kind) case Some(b) => Some(Bound(op, b)) case None => None
  }

  /** The normalized bounds of a range plan; None when one cannot be normalized. */
  function Bounds(nz: Normalizer, kind: IndexKind, op: PlanOp): Option<(Bound, Option<Bound>)>
    requires op.RangePlan?
  {
    match BoundOf(nz, kind, op.op, op.value)
    case None => None
    case Some(first) =>
      match op.second
      case None => Some((first, None))
      case Some((op2, v2)) =>
        match BoundOf(nz, kind, op2, v2)
        case None => None
        case Some(second) => Some((first, Some(second)))
  }

  predicate Selects(nz: Normalizer, kind: IndexKind, op: PlanOp, value: bytes) {
    match op
    case Whole => true
    case EqOp(v) => nz(v, kind) == Some(value)
    case InOp(vs) => exists i | 0 <= i < |vs| :: nz(vs[i], kind) == Some(value)
    case PrefixOp(text) => text <= value
    case RangePlan(_, _, _) =>
      match Bounds(nz, kind, op)
      case None => false
      case Some((first, second)) => MatchRange(kind, first, second, value)
  }

  // ----- what a plan reads -----

  predicate InPath(idx: IndexRef, k: Key) {
    var p := TagPrefix(ScanTag(idx.def.unique), idx.dbid);
    InInterval(KeyBytes(k), p, PrefixEnd(p))
  }

  /** `addUniqueValue` gets one key, `scanNonUniqueValue` scans the prefix of the value. */
  predicate ReadsValue(idx: IndexRef, value: bytes, k: Key) {
    if idx.def.unique then k == UIdxKey(idx.dbid, value)
    else
      var p := ValuePrefix(TAG_IDX, idx.dbid, value);
      InInterval(KeyBytes(k), p, PrefixEnd(p))
  }

  function ValueOf(k: Key): bytes {
    if k.IdxKey? || k.UIdxKey? then k.value else []
  }

  /** The keys scanIndexCandidateIDsFunc reads and does not filter out. */
  predicate Visits(nz: Normalizer, idx: IndexRef, op: PlanOp, k: Key) {
    var kind := idx.def.kind;
    match op
    case Whole => InPath(idx, k)
    case EqOp(v) => nz(v, kind).Some? && ReadsValue(idx, nz(v, kind).value, k)
    case InOp(vs) => exists i | 0 <= i < |vs| :: nz(vs[i], kind).Some? && ReadsValue(idx, nz(vs[i], kind).value, k)
    case PrefixOp(text) => InPath(idx, k) && text <= ValueOf(k)
    case RangePlan(_, _, _) =>
      match Bounds(nz, kind, op)
      case None => false
      case Some((first, second)) =>
        if kind.StringIndex? then InPath(idx, k) && MatchRange(kind, first, second, ValueOf(k))
        else RangeScanVisits(idx.def.unique, idx.dbid, first, second, KeyBytes(k))
  }

  /** The key is an entry of the index. */
  predicate EntryOf(idx: IndexRef, k: Key) {
    HasTag(k, ScanTag(idx.def.unique), idx.dbid)
  }

  lemma InPathExact(idx: IndexRef, k: Key)
    ensures InPath(idx, k) <==> EntryOf(idx, k)
  {
    var tag := ScanTag(idx.def.unique);
    PrefixIntervalExact(TagPrefix(tag, idx.dbid), KeyBytes(k));
    TagPrefixExact(k, tag, idx.dbid);
  }

  /** A value prefix holds the entries of that value only: the length in front keeps longer values out. */
  lemma ValuePrefixExact(dbid: i64, value: bytes, k: Key)
    requires Encodable(k) && |value| < 0x1_0000_0000
    ensures ValuePrefix(TAG_IDX, dbid, value) <= KeyBytes(k) <==> k.IdxKey? && k.dbid == dbid && k.value == value
  {
    var p, b := ValuePrefix(TAG_IDX, dbid, value), KeyBytes(k);
    TagPrefixExact(k, TAG_IDX, dbid);
    if p <= b {
      assert b[..9] == p[..9] == TagPrefix(TAG_IDX, dbid);
      SegmentsAgree(TagPrefix(TAG_IDX, dbid), value, k.value, I64Bytes(k.id));
    }
  }

  lemma SegmentsAgree(head: bytes, value: bytes, other: bytes, tail: bytes)
    requires |value| < 0x1_0000_0000 && |other| < 0x1_0000_0000
    requires head + SegmentBytes(value) <= head + SegmentBytes(other) + tail
    ensures value == other
  {
    hide BigEndian, Pow256;
    var p, b := head + SegmentBytes(value), head + SegmentBytes(other) + tail;
    var s, t := SegmentBytes(value), SegmentBytes(other) + tail;
    assert b == head + t && b[|head|..] == t && p[|head|..] == s;
    assert p == b[..|p|] && s == t[..|s|];
    assert s[..4] == BigEndian(|value| % 0x1_0000_0000, 4) && t[..4] == BigEndian(|other| % 0x1_0000_0000, 4);
    LengthsAgree(|value|, |other|);
    assert s[4..] == value && t[4..4 + |other|] == other;
  }

  lemma LengthsAgree(m: nat, n: nat)
    requires m < 0x1_0000_0000 && n < 0x1_0000_0000
    requires BigEndian(m % 0x1_0000_0000, 4) == BigEndian(n % 0x1_0000_0000, 4)
    ensures m == n
  {
    hide BigEndian, FromBigEndian, Pow256;
    Pow256Values();
    BigEndianRoundTrip(m, 4);
    BigEndianRoundTrip(n, 4);
  }

  lemma ReadsValueExact(idx: IndexRef, value: bytes, k: Key)
    requires Encodable(k) && |value| < 0x1_0000_0000
    ensures ReadsValue(idx, value, k) <==> EntryOf(idx, k) && ValueOf(k) == value
  {
    if !idx.def.unique {
      var p := ValuePrefix(TAG_IDX, idx.dbid, value);
      PrefixIntervalExact(p, KeyBytes(k));
      ValuePrefixExact(idx.dbid, value, k);
    }
  }

  /** Values fit their segments, and in a numeric index they are numbers. */
  ghost predicate GoodValue(kind: IndexKind, value: bytes) {
    |value| < 0x1_0000_0000 && (!kind.StringIndex? ==> NumericValue(kind, value))
  }

  /** The literals of the plan normalize to good values, and a range has a bound on each side. */
  ghost predicate GoodPlan(nz: Normalizer, kind: IndexKind, op: PlanOp) {
    match op
    case Whole => true
    case EqOp(v) => nz(v, kind).Some? && GoodValue(kind, nz(v, kind).value)
    case InOp(vs) => forall i | 0 <= i < |vs| :: nz(vs[i], kind).Some? && GoodValue(kind, nz(vs[i], kind).value)
    case PrefixOp(_) => kind.StringIndex?
    case RangePlan(op1, v, second) =>
      && nz(v, kind).Some? && GoodValue(kind, nz(v, kind).value)
      && (second.Some? ==>
            && second.value.0.Lower() != op1.Lower()
            && nz(second.value.1, kind).Some? && GoodValue(kind, nz(second.value.1, kind).value))
  }

  /** The scan reads exactly the entries whose value the plan selects. */
  lemma VisitsExactly(nz: Normalizer, idx: IndexRef, op: PlanOp, k: Key)
    requires GoodPlan(nz, idx.def.kind, op) && Encodable(k)
    requires EntryOf(idx, k) ==> GoodValue(idx.def.kind, ValueOf(k))
    ensures Visits(nz, idx, op, k) <==> EntryOf(idx, k) && Selects(nz, idx.def.kind, op, ValueOf(k))
  {
    hide KeyBytes, InPath, NumericValue, ReadsValue, EntryOf, RangeScanVisits, MatchRange;
    InPathExact(idx, k);
    match op
    case Whole =>
    case EqOp(v) => ReadsValueExact(idx, nz(v, idx.def.kind).value, k);
    case InOp(vs) =>
      forall i | 0 <= i < |vs|
        ensures ReadsValue(idx, nz(vs[i], idx.def.kind).value, k)
           <==> EntryOf(idx, k) && ValueOf(k) == nz(vs[i], idx.def.kind).value
      {
        ReadsValueExact(idx, nz(vs[i], idx.def.kind).value, k);
      }
    case PrefixOp(_) =>
    case RangePlan(_, _, _) =>
      if !idx.def.kind.StringIndex? {
        var (first, second) := Bounds(nz, idx.def.kind, op).value;
        RangeVisitsExactly(idx, first, second, k);
      }
  }

  /** A literal that the index cannot hold selects nothing, and nothing is read for it; in a range either bound does. */
  lemma UnindexableReadsNothing(nz: Normalizer, idx: IndexRef, op: PlanOp, k: Key, value: bytes)
    requires
      match op
      case EqOp(v) => nz(v, idx.def.kind).None?
      case InOp(vs) => forall i | 0 <= i < |vs| :: nz(vs[i], idx.def.kind).None?
      case RangePlan(_, v, second) => nz(v, idx.def.kind).None? || (second.Some? && nz(second.value.1, idx.def.kind).None?)
      case _ => false
    ensures !Visits(nz, idx, op, k) && !Selects(nz, idx.def.kind, op, value)
  {
    hide InPath, ReadsValue, RangeScanVisits, MatchRange;
  }

  lemma RangeVisitsExactly(idx: IndexRef, first: Bound, second: Option<Bound>, k: Key)
    requires NumericValue(idx.def.kind, first.value)
    requires second.Some? ==>
      NumericValue(idx.def.kind, second.value.value) && second.value.op.Lower() != first.op.Lower()
    requires EntryOf(idx, k) ==> NumericValue(idx.def.kind, ValueOf(k))
    ensures RangeScanVisits(idx.def.unique, idx.dbid, first, second, KeyBytes(k))
       <==> EntryOf(idx, k) && MatchRange(idx.def.kind, first, second, ValueOf(k))
  {
    hide KeyBytes, NumericValue, RangeScanVisits, MatchRange;
    if EntryOf(idx, k) {
      var id := if k.IdxKey? then k.id else 0;
      assert k == EntryKey(idx.def.unique, idx.dbid, k.value, id);
      RangeExact(idx.def.kind, idx.def.unique, idx.dbid, first, second, k.value, id);
    } else if RangeScanVisits(idx.def.unique, idx.dbid, first, second, KeyBytes(k)) {
      RangeScanStaysInIndex(idx.def.unique, idx.dbid, first, second, KeyBytes(k));
      TagPrefixExact(k, ScanTag(idx.def.unique), idx.dbid);
    }
  }

  // ----- the ids a plan yields -----

  /** The id of an entry: in its key, or in the value of a unique one. */
  function IdOf(e: Engine, k: Key): i64 {
    if k.IdxKey? then k.id else if k in e then OwnerOf(e[k]) else 0
  }

  /** Every id the scan yields. */
  ghost function ScanSet(nz: Normalizer, e: Engine, idx: IndexRef, op: PlanOp): set<i64> {
    set k | k in e && Visits(nz, idx, op, k) :: IdOf(e, k)
  }

  /** Keeps the first occurrence of every id. */
  function Dedupe(ids: seq<i64>): (r: seq<i64>)
    ensures forall x :: x in r <==> x in ids
    ensures forall i, j | 0 <= i < j < |r| :: r[i] != r[j]
  {
    if ids == [] then [] else
    var last := |ids| - 1;
    var r := Dedupe(ids[..last]);
    if ids[last] in r then r else r + [ids[last]]
  }

  lemma {:induction false} DedupeDistinct(ids: seq<i64>)
    requires forall i, j | 0 <= i < j < |ids| :: ids[i] != ids[j]
    ensures Dedupe(ids) == ids
  {
    if ids != [] {
      var last := |ids| - 1;
      DedupeDistinct(ids[..last]);
      assert ids == ids[..last] + [ids[last]];
    }
  }

  function Ids(e: Engine, ks: seq<Key>): (r: seq<i64>)
    ensures |r| == |ks| && forall i | 0 <= i < |ks| :: r[i] == IdOf(e, ks[i])
  {
    seq(|ks|, i requires 0 <= i < |ks| => IdOf(e, ks[i]))
  }

  function Reversed<T>(s: seq<T>): (r: seq<T>)
    ensures |r| == |s| && forall i | 0 <= i < |s| :: r[i] == s[|s| - 1 - i]
  {
    seq(|s|, i requires 0 <= i < |s| => s[|s| - 1 - i])
  }

  /** The ids a walk over the iterator's keys yields, forwards or backwards. */
  function WalkIds(e: Engine, ks: seq<Key>, desc: bool): (r: seq<i64>)
    ensures |r| == |ks| && forall i | 0 <= i < |ks| :: r[i] == IdOf(e, ks[if desc then |ks| - 1 - i else i])
  {
    Ids(e, if desc then Reversed(ks) else ks)
  }

  lemma DedupeStep(ids: seq<i64>, n: nat)
    requires n < |ids|
    ensures var r := Dedupe(ids[..n]);
            Dedupe(ids[..n + 1]) == if ids[n] in r then r else r + [ids[n]]
  {
    assert ids[..n + 1][..n] == ids[..n];
  }

  /** The loop of scanOrderedRange with its set of ids already seen. */
  method ScanOrdered(e: Engine, ks: seq<Key>, desc: bool) returns (out: seq<i64>)
    ensures out == Dedupe(WalkIds(e, ks, desc))
  {
    hide Dedupe, WalkIds, IdOf;
    ghost var ids := WalkIds(e, ks, desc);
    DedupeDistinct(ids[..0]);
    out := [];
    var seen: set<i64> := {};
    for n := 0 to |ks|
      invariant out == Dedupe(ids[..n])
      invariant seen == set x | x in out
    {
      var id := IdOf(e, ks[if desc then |ks| - 1 - n else n]);
      DedupeStep(ids, n);
      if id !in seen {
        seen := seen + {id};
        out := out + [id];
      }
    }
    assert ids[..|ks|] == ids;
  }

  /** What the engine's iterator runs through: the keys wanted, in byte order. */
  ghost predicate Iterates(e: Engine, wanted: Key -> bool, ks: seq<Key>) {
    && Sorted((a, b) => Less(KeyBytes(a), KeyBytes(b)), ks)
    && (forall k | k in ks :: k in e && wanted(k))
    && (forall k | k in e && wanted(k) :: k in ks)
  }

  /** The scan yields each of its ids once. */
  lemma ScanListExact(nz: Normalizer, e: Engine, idx: IndexRef, op: PlanOp, ks: seq<Key>, desc: bool)
    requires Iterates(e, k => Visits(nz, idx, op, k), ks)
    ensures Lists(Dedupe(WalkIds(e, ks, desc)), ScanSet(nz, e, idx, op))
  {
    hide Visits, Less, WalkIds, IdOf, Dedupe, Sorted;
    var ids := WalkIds(e, ks, desc);
    forall id | id in ids ensures id in ScanSet(nz, e, idx, op) {
      var i :| 0 <= i < |ids| && ids[i] == id;
      var k := ks[if desc then |ks| - 1 - i else i];
      assert k in ks;
    }
    forall id | id in ScanSet(nz, e, idx, op) ensures id in ids {
      var k :| k in e && Visits(nz, idx, op, k) && IdOf(e, k) == id;
      assert k in ks;
      var i :| 0 <= i < |ks| && ks[i] == k;
      assert ids[if desc then |ks| - 1 - i else i] == id;
    }
  }

  ghost predicate Lists(ids: seq<i64>, all: set<i64>) {
    (forall x | x in ids :: x in all) && (forall x | x in all :: x in ids)
  }

  // ----- the ids of an `in` plan -----

  ghost predicate LeastId(m: i64, ids: set<i64>) {
    m in ids && forall x | x in ids :: m <= x
  }

  lemma {:induction false} LeastIdExists(ids: set<i64>)
    requires ids != {}
    ensures exists m :: LeastId(m, ids)
    decreases |ids|
  {
    var m :| m in ids;
    var rest := ids - {m};
    if rest == {} {
      assert ids == {m};
      assert LeastId(m, ids);
    } else {
      LeastIdExists(rest);
      var n :| LeastId(n, rest);
      var least := if m <= n then m else n;
      forall x | x in ids ensures least <= x {
        assert x == m || x in rest;
      }
      assert LeastId(least, ids);
    }
  }

  predicate IdLess(a: i64, b: i64) {
    a < b
  }

  /** The sequence lists the set in ascending order. */
  ghost predicate Enumerates(ids: set<i64>, r: seq<i64>) {
    |r| == |ids| && Sorted(IdLess, r) && (forall x | x in r :: x in ids) && (forall x | x in ids :: x in r)
  }

  lemma LeastThenRest(m: i64, ids: set<i64>, rest: seq<i64>)
    requires LeastId(m, ids) && Enumerates(ids - {m}, rest)
    ensures Enumerates(ids, [m] + rest)
  {
    var r := [m] + rest;
    forall i, j | 0 <= i < j < |r| ensures IdLess(r[i], r[j]) {
      assert r[j] == rest[j - 1] && r[j] in rest;
      assert i > 0 ==> IdLess(rest[i - 1], rest[j - 1]);
    }
  }

  ghost function SortedIds(ids: set<i64>): (r: seq<i64>)
    ensures Enumerates(ids, r)
    decreases |ids|
  {
    if ids == {} then [] else
    LeastIdExists(ids);
    var m :| LeastId(m, ids);
    LeastThenRest(m, ids, SortedIds(ids - {m}));
    [m] + SortedIds(ids - {m})
  }

  /** The ids read for one value, as `addUniqueValue` and `scanNonUniqueValue` yield them: in ascending order. */
  ghost function ValueIds(e: Engine, idx: IndexRef, value: bytes): seq<i64> {
    SortedIds(set k | k in e && ReadsValue(idx, value, k) :: IdOf(e, k))
  }

  /** What the `in` arm yields: literal after literal, without dropping ids it has yielded before. */
  ghost function InIds(nz: Normalizer, e: Engine, idx: IndexRef, vs: seq<Doc>): seq<i64> {
    if vs == [] then [] else
    var last := |vs| - 1;
    InIds(nz, e, idx, vs[..last]) +
    (match nz(vs[last], idx.def.kind) case None => [] case Some(v) => ValueIds(e, idx, v))
  }

  /** Every key has a segment that fits its length field. */
  ghost predicate AllEncodable(e: Engine) {
    forall k | k in e :: Encodable(k)
  }

  lemma SortedIdsUnique(ids: seq<i64>, all: set<i64>)
    requires Enumerates(all, ids)
    ensures ids == SortedIds(all)
  {
    SortedUnique(IdLess, ids, SortedIds(all));
  }

  /** scanNonUniqueValue, or the single read of addUniqueValue: the keys come in any order and are sorted by id. */
  method ReadValue(e: Engine, idx: IndexRef, value: bytes) returns (ids: seq<i64>)
    requires AllEncodable(e) && |value| < 0x1_0000_0000
    ensures ids == ValueIds(e, idx, value)
  {
    hide ReadsValue, SortedIds, EntryOf, IdOf, Enumerates, ReadIds;
    ids := [];
    var seen: set<Key> := {};
    NothingRead(e, idx, value);
    while e.Keys - seen != {}
      invariant seen <= e.Keys && Enumerates(ReadIds(e, idx, value, seen), ids)
      decreases |e.Keys - seen|
    {
      var k :| k in e.Keys - seen;
      ReadOneMore(e, idx, value, seen, k);
      if ReadsValue(idx, value, k) {
        IdsOrdered(ids + [IdOf(e, k)]);
        NotYetThere(ReadIds(e, idx, value, seen), ids, IdOf(e, k));
        var more := Insert(IdLess, ids, IdOf(e, k));
        InsertedEnumerates(ReadIds(e, idx, value, seen), ids, IdOf(e, k), more);
        ids := more;
      }
      seen := seen + {k};
    }
    assert seen == e.Keys;
    AllRead(e, idx, value);
    SortedIdsUnique(ids, ReadIds(e, idx, value, e.Keys));
  }

  /** The ids of the keys looked at so far that belong to the value. */
  ghost function ReadIds(e: Engine, idx: IndexRef, value: bytes, seen: set<Key>): set<i64> {
    set k | k in seen && k in e && ReadsValue(idx, value, k) :: IdOf(e, k)
  }

  lemma NothingRead(e: Engine, idx: IndexRef, value: bytes)
    ensures Enumerates(ReadIds(e, idx, value, {}), [])
  {
    assert ReadIds(e, idx, value, {}) == {};
  }

  lemma AllRead(e: Engine, idx: IndexRef, value: bytes)
    ensures SortedIds(ReadIds(e, idx, value, e.Keys)) == ValueIds(e, idx, value)
  {
    hide ReadsValue, IdOf;
    assert ReadIds(e, idx, value, e.Keys) == set k | k in e && ReadsValue(idx, value, k) :: IdOf(e, k);
  }

  lemma ReadOneMore(e: Engine, idx: IndexRef, value: bytes, seen: set<Key>, k: Key)
    requires AllEncodable(e) && |value| < 0x1_0000_0000 && seen <= e.Keys && k in e && k !in seen
    ensures var before, after := ReadIds(e, idx, value, seen), ReadIds(e, idx, value, seen + {k});
            if ReadsValue(idx, value, k) then after == before + {IdOf(e, k)} && IdOf(e, k) !in before else after == before
  {
    hide ReadsValue, IdOf;
    forall other | other in seen && ReadsValue(idx, value, k) && ReadsValue(idx, value, other)
      ensures IdOf(e, other) != IdOf(e, k)
    {
      OneEntryPerId(e, idx, value, k, other);
    }
  }

  lemma IdsOrdered(ids: seq<i64>)
    ensures Strict(IdLess, ids) && Total(IdLess, ids)
  {
  }

  lemma NotYetThere(all: set<i64>, ids: seq<i64>, id: i64)
    requires Enumerates(all, ids) && id !in all
    ensures id !in ids && Sorted(IdLess, ids)
  {
  }

  lemma InsertedEnumerates(all: set<i64>, ids: seq<i64>, id: i64, more: seq<i64>)
    requires Enumerates(all, ids) && id !in all && Sorted(IdLess, more) && SameElements(more, ids + [id])
    ensures Enumerates(all + {id}, more)
  {
  }

  lemma OneEntryPerId(e: Engine, idx: IndexRef, value: bytes, k: Key, other: Key)
    requires Encodable(k) && Encodable(other) && |value| < 0x1_0000_0000 && k != other
    requires ReadsValue(idx, value, k) && ReadsValue(idx, value, other)
    ensures IdOf(e, k) != IdOf(e, other)
  {
    hide ReadsValue;
    ReadsValueExact(idx, value, k);
    ReadsValueExact(idx, value, other);
  }

  /** The literals normalize to values that fit their segments. */
  ghost predicate ShortLiterals(nz: Normalizer, kind: IndexKind, vs: seq<Doc>) {
    forall i | 0 <= i < |vs| :: nz(vs[i], kind).Some? ==> |nz(vs[i], kind).value| < 0x1_0000_0000
  }

  /** The loop over the literals. */
  method ScanIn(nz: Normalizer, e: Engine, idx: IndexRef, vs: seq<Doc>) returns (ids: seq<i64>)
    requires AllEncodable(e) && ShortLiterals(nz, idx.def.kind, vs)
    ensures ids == InIds(nz, e, idx, vs)
  {
    hide ValueIds, AllEncodable;
    ids := [];
    for n := 0 to |vs|
      invariant ids == InIds(nz, e, idx, vs[..n])
    {
      assert vs[..n + 1][..n] == vs[..n];
      var v := nz(vs[n], idx.def.kind);
      if v.Some? {
        var more := ReadValue(e, idx, v.value);
        ids := ids + more;
      }
    }
    assert vs[..|vs|] == vs;
  }

  /** The document has the normalized value of the literal. */
  predicate HasLiteral(ix: Indexer, nz: Normalizer, def: IndexDef, doc: Doc, w: Doc) {
    nz(w, def.kind).Some? && nz(w, def.kind).value in ix(doc, def)
  }

  lemma ValueIdsExact(ix: Indexer, e: Engine, idx: IndexRef, docs: map<i64, Doc>, value: bytes, id: i64)
    requires IndexAgrees(ix, e, idx.def, idx.dbid, docs) && AllEncodable(e) && |value| < 0x1_0000_0000
    ensures id in ValueIds(e, idx, value) <==> id in docs && value in ix(docs[id], idx.def)
  {
    hide ReadsValue, SortedIds;
    if id in ValueIds(e, idx, value) {
      var k :| k in e && ReadsValue(idx, value, k) && IdOf(e, k) == id;
      assert Encodable(k);
      ReadsValueExact(idx, value, k);
      assert k == EntryKey(idx.def.unique, idx.dbid, value, id);
    }
    if id in docs && value in ix(docs[id], idx.def) {
      var k := EntryKey(idx.def.unique, idx.dbid, value, id);
      assert k in e && IdOf(e, k) == id;
      assert Encodable(k);
      ReadsValueExact(idx, value, k);
    }
  }

  /** The document has the value of some literal. */
  ghost predicate HasOne(ix: Indexer, nz: Normalizer, def: IndexDef, doc: Doc, vs: seq<Doc>) {
    exists i :: 0 <= i < |vs| && HasLiteral(ix, nz, def, doc, vs[i])
  }

  lemma HasOneStep(ix: Indexer, nz: Normalizer, def: IndexDef, doc: Doc, vs: seq<Doc>)
    requires vs != []
    ensures var init, w := vs[..|vs| - 1], vs[|vs| - 1];
            HasOne(ix, nz, def, doc, vs) <==> (HasOne(ix, nz, def, doc, init) || HasLiteral(ix, nz, def, doc, w))
  {
    hide HasLiteral;
    var init := vs[..|vs| - 1];
    if HasOne(ix, nz, def, doc, init) {
      var i :| 0 <= i < |init| && HasLiteral(ix, nz, def, doc, init[i]);
      assert vs[i] == init[i];
    }
    if HasOne(ix, nz, def, doc, vs) {
      var i :| 0 <= i < |vs| && HasLiteral(ix, nz, def, doc, vs[i]);
      assert i < |init| ==> init[i] == vs[i];
    }
  }

  lemma {:induction false} InIdsExact(ix: Indexer, nz: Normalizer, e: Engine, idx: IndexRef, docs: map<i64, Doc>, vs: seq<Doc>, id: i64)
    requires IndexAgrees(ix, e, idx.def, idx.dbid, docs) && AllEncodable(e) && ShortLiterals(nz, idx.def.kind, vs)
    ensures id in InIds(nz, e, idx, vs) <==> id in docs && HasOne(ix, nz, idx.def, docs[id], vs)
  {
    if vs != [] {
      hide IndexAgrees, AllEncodable, ValueIds, HasOne, HasLiteral;
      var last := |vs| - 1;
      InIdsExact(ix, nz, e, idx, docs, vs[..last], id);
      LastListExact(ix, nz, e, idx, docs, vs[last], id);
      if id in docs {
        HasOneStep(ix, nz, idx.def, docs[id], vs);
      }
    }
  }

  /** The id is read for the literal. */
  ghost predicate LiteralReads(nz: Normalizer, e: Engine, idx: IndexRef, w: Doc, id: i64) {
    nz(w, idx.def.kind).Some? && id in ValueIds(e, idx, nz(w, idx.def.kind).value)
  }

  ghost predicate SomeReads(nz: Normalizer, e: Engine, idx: IndexRef, vs: seq<Doc>, id: i64) {
    exists i :: 0 <= i < |vs| && LiteralReads(nz, e, idx, vs[i], id)
  }

  lemma SomeReadsStep(nz: Normalizer, e: Engine, idx: IndexRef, vs: seq<Doc>, id: i64)
    requires vs != []
    ensures var init, w := vs[..|vs| - 1], vs[|vs| - 1];
            SomeReads(nz, e, idx, vs, id) <==> (SomeReads(nz, e, idx, init, id) || LiteralReads(nz, e, idx, w, id))
  {
    hide LiteralReads;
    var init := vs[..|vs| - 1];
    if SomeReads(nz, e, idx, init, id) {
      var i :| 0 <= i < |init| && LiteralReads(nz, e, idx, init[i], id);
      assert vs[i] == init[i];
    }
    if SomeReads(nz, e, idx, vs, id) {
      var i :| 0 <= i < |vs| && LiteralReads(nz, e, idx, vs[i], id);
      assert i < |init| ==> init[i] == vs[i];
    }
  }

  lemma {:induction false} InIdsMembers(nz: Normalizer, e: Engine, idx: IndexRef, vs: seq<Doc>, id: i64)
    ensures id in InIds(nz, e, idx, vs) <==> SomeReads(nz, e, idx, vs, id)
  {
    if vs != [] {
      hide ValueIds, SomeReads;
      InIdsMembers(nz, e, idx, vs[..|vs| - 1], id);
      SomeReadsStep(nz, e, idx, vs, id);
    }
  }

  /** The ids of an `in` plan are those of its scan, whatever the engine holds. */
  lemma InIdsAreScanned(nz: Normalizer, e: Engine, idx: IndexRef, vs: seq<Doc>, id: i64)
    ensures id in InIds(nz, e, idx, vs) <==> id in ScanSet(nz, e, idx, InOp(vs))
  {
    hide InIds, ReadsValue, SortedIds, IdOf;
    InIdsMembers(nz, e, idx, vs, id);
    if SomeReads(nz, e, idx, vs, id) {
      var i :| 0 <= i < |vs| && LiteralReads(nz, e, idx, vs[i], id);
      var k :| k in e && ReadsValue(idx, nz(vs[i], idx.def.kind).value, k) && IdOf(e, k) == id;
      assert Visits(nz, idx, InOp(vs), k);
    }
    if id in ScanSet(nz, e, idx, InOp(vs)) {
      var k :| k in e && Visits(nz, idx, InOp(vs), k) && IdOf(e, k) == id;
      var i :| 0 <= i < |vs| && nz(vs[i], idx.def.kind).Some? && ReadsValue(idx, nz(vs[i], idx.def.kind).value, k);
      assert LiteralReads(nz, e, idx, vs[i], id);
    }
  }

  ghost predicate Distinct(ids: seq<i64>) {
    forall i, j | 0 <= i < j < |ids| :: ids[i] != ids[j]
  }

  lemma DistinctConcat(p: seq<i64>, q: seq<i64>)
    requires Distinct(q)
    ensures Distinct(p + q) <==> Distinct(p) && forall x | x in p :: x !in q
  {
    var s := p + q;
    if Distinct(s) {
      assert forall i | 0 <= i < |p| :: s[i] == p[i];
      forall x | x in p ensures x !in q {
        var i :| 0 <= i < |p| && p[i] == x;
        assert forall j | 0 <= j < |q| :: s[|p| + j] == q[j];
      }
    }
    if Distinct(p) && forall x | x in p :: x !in q {
      forall i, j | 0 <= i < j < |s| ensures s[i] != s[j] {
        assert s[i] == (if i < |p| then p[i] else q[i - |p|]) && s[j] == (if j < |p| then p[j] else q[j - |p|]);
        assert i < |p| ==> p[i] in p;
      }
    }
  }

  /** The document has the values of literals at two positions. */
  ghost predicate HasTwo(ix: Indexer, nz: Normalizer, def: IndexDef, doc: Doc, vs: seq<Doc>) {
    exists i, j :: 0 <= i < j < |vs| && HasLiteral(ix, nz, def, doc, vs[i]) && HasLiteral(ix, nz, def, doc, vs[j])
  }

  lemma HasTwoStep(ix: Indexer, nz: Normalizer, def: IndexDef, doc: Doc, vs: seq<Doc>)
    requires vs != []
    ensures var init, w := vs[..|vs| - 1], vs[|vs| - 1];
            HasTwo(ix, nz, def, doc, vs) <==>
            (HasTwo(ix, nz, def, doc, init) || (HasLiteral(ix, nz, def, doc, w) && HasOne(ix, nz, def, doc, init)))
  {
    hide HasLiteral;
    var init := vs[..|vs| - 1];
    if HasTwo(ix, nz, def, doc, init) {
      var i, j :| 0 <= i < j < |init| && HasLiteral(ix, nz, def, doc, init[i]) && HasLiteral(ix, nz, def, doc, init[j]);
      assert vs[i] == init[i] && vs[j] == init[j];
    }
    if HasLiteral(ix, nz, def, doc, vs[|vs| - 1]) && HasOne(ix, nz, def, doc, init) {
      var i :| 0 <= i < |init| && HasLiteral(ix, nz, def, doc, init[i]);
      assert vs[i] == init[i];
    }
    if HasTwo(ix, nz, def, doc, vs) {
      var i, j :| 0 <= i < j < |vs| && HasLiteral(ix, nz, def, doc, vs[i]) && HasLiteral(ix, nz, def, doc, vs[j]);
      assert init[i] == vs[i] && (j < |init| ==> init[j] == vs[j]);
    }
  }

  /**
   An `in` plan yields every document once if and only if no stored document has the values of two of its literals:
   a repeated literal, or two different ones in an array.
   */
  lemma {:induction false} InYieldsOnceExactly(ix: Indexer, nz: Normalizer, e: Engine, idx: IndexRef, docs: map<i64, Doc>, vs: seq<Doc>)
    requires IndexAgrees(ix, e, idx.def, idx.dbid, docs) && AllEncodable(e) && ShortLiterals(nz, idx.def.kind, vs)
    ensures Distinct(InIds(nz, e, idx, vs)) <==> forall id | id in docs :: !HasTwo(ix, nz, idx.def, docs[id], vs)
  {
    if vs != [] {
      hide IndexAgrees, AllEncodable, ValueIds, Distinct, HasOne, HasTwo, HasLiteral;
      var init, w := vs[..|vs| - 1], vs[|vs| - 1];
      InYieldsOnceExactly(ix, nz, e, idx, docs, init);
      var p := InIds(nz, e, idx, init);
      var q := match nz(w, idx.def.kind) case None => [] case Some(v) => ValueIds(e, idx, v);
      LastListDistinct(nz, e, idx, w);
      DistinctConcat(p, q);
      forall id ensures id in p <==> id in docs && HasOne(ix, nz, idx.def, docs[id], init) {
        InIdsExact(ix, nz, e, idx, docs, init, id);
      }
      forall id ensures id in q <==> id in docs && HasLiteral(ix, nz, idx.def, docs[id], w) {
        LastListExact(ix, nz, e, idx, docs, w, id);
      }
      forall id | id in docs ensures HasTwo(ix, nz, idx.def, docs[id], vs) <==>
        HasTwo(ix, nz, idx.def, docs[id], init) || (id in p && id in q)
      {
        HasTwoStep(ix, nz, idx.def, docs[id], vs);
      }
    } else {
      NoLiterals(ix, nz, idx.def, docs);
    }
  }

  lemma NoLiterals(ix: Indexer, nz: Normalizer, def: IndexDef, docs: map<i64, Doc>)
    ensures forall id | id in docs :: !HasTwo(ix, nz, def, docs[id], [])
  {
  }

  lemma LastListDistinct(nz: Normalizer, e: Engine, idx: IndexRef, w: Doc)
    ensures Distinct(match nz(w, idx.def.kind) case None => [] case Some(v) => ValueIds(e, idx, v))
  {
    hide ReadsValue;
  }

  lemma LastListExact(ix: Indexer, nz: Normalizer, e: Engine, idx: IndexRef, docs: map<i64, Doc>, w: Doc, id: i64)
    requires IndexAgrees(ix, e, idx.def, idx.dbid, docs) && AllEncodable(e)
    requires nz(w, idx.def.kind).Some? ==> |nz(w, idx.def.kind).value| < 0x1_0000_0000
    ensures id in (match nz(w, idx.def.kind) case None => [] case Some(v) => ValueIds(e, idx, v))
       <==> id in docs && HasLiteral(ix, nz, idx.def, docs[id], w)
  {
    hide IndexAgrees, AllEncodable, ValueIds;
    if nz(w, idx.def.kind).Some? {
      ValueIdsExact(ix, e, idx, docs, nz(w, idx.def.kind).value, id);
    }
  }
}
