/** Runs from an empty database with an int64 index on /a, and queries over what they leave. */
module QueryWitnesses {
  import opened Wrappers
  import opened Bytes
  import opened Keys
  import opened Floats
  import opened IndexRange
  import opened Document
  import opened Pointer
  import opened FilterSyntax
  import opened Ordering
  import opened JqValue
  import opened Store
  import opened StoreInvariants
  import opened StoreStable
  import opened StoreSteps
  import opened StoreRuns
  import opened StoreEffects
  import opened StoreWitnesses
  import opened Scan
  import opened Planner
  import opened Sorter
  import opened Streaming

  /** An int64 index on /a. */
  function OnA(): IndexDef {
    IndexDef(PointerJoin([], A_KEY), Int64Index, false)
  }

  /** {"a": v} */
  function WithA(v: Doc): Doc {
    Obj(map[A_KEY := v])
  }

  lemma PathOfA()
    ensures NamesMember([], A_KEY) && Tokens(OnA().path) == Some([A_KEY]) && ValidIndexPath(OnA().path)
  {
    hide HasEscape, UnescapeToken, Split;
    PlainA();
    JoinAppendsKey([], A_KEY);
    assert [] + [A_KEY] == [A_KEY];
    assert A_KEY[0] == 0x61;
  }

  lemma PlainA()
    ensures SLASH !in A_KEY && !HasEscape(A_KEY) && !IsBracketed(A_KEY)
  {
    assert |A_KEY| == 1;
  }

  lemma ValueAtA(v: Doc)
    ensures PointerGet(WithA(v), OnA().path) == Some(v)
  {
    hide PointerJoin, PointerGet;
    PathOfA();
    EmptyPattern(WithA(v));
    JoinedValue(WithA(v), [], WithA(v), A_KEY);
  }

  // ----- {"a": 1.0} -----

  /**
   The run that creates the index and puts {"a": 1.0}: `toInt64` refuses the text 1.0, so nothing is indexed; the stored
   document is {"a": 1}, which a rebuild indexes.
   */
  lemma FloatOneSplitsIndex(nz: Normalizer, name: Name)
    requires NormalizesTyped(nz) && nz(Float(FLOAT_ONE), Int64Index).None?
    ensures
      var s := Run(IndexerOf(nz), INITIAL, [AddIndex(name, OnA())] + [Single(OpPut(name, 1, Some(WithA(Float(FLOAT_ONE)))))]);
      && name in s.cat.collections && OnA() in s.cat.collections[name].indexes
      && var col := s.cat.collections[name];
         var docs, idx := StoredDocs(s.engine, col.dbid), col.indexes[OnA()];
         && docs == map[1 := WithA(Int(1))] && !Clean(IndexerOf(nz), s)
         && IdxKey(idx.dbid, EncodeI64Key(1), 1) !in s.engine
         && IdxKey(idx.dbid, EncodeI64Key(1), 1) in Rebuilt(IndexerOf(nz), s.engine, docs, OnA(), idx.dbid)
         && idx.rnum == 0 && Values(nz, docs[1], OnA()) == [EncodeI64Key(1)]
  {
    hide NormalizesTyped, Clean, Run, Rebuilt, StoredDocs, EncodeI64Key, Storable, PointerJoin, SmallInteger, Reread, Values;
    var doc := WithA(Float(FLOAT_ONE));
    OneReadsAsInteger(A_KEY);
    PathOfA();
    StorableWithA(Float(FLOAT_ONE));
    FloatHasNoValue(nz);
    IntHasValue(nz, 1);
    FloatSplitsIndex(IndexerOf(nz), name, OnA(), doc, EncodeI64Key(1));
  }

  lemma StorableWithA(v: Doc)
    requires v.Int? || v.Float?
    ensures Storable(WithA(v))
  {
  }

  lemma FloatHasNoValue(nz: Normalizer)
    requires nz(Float(FLOAT_ONE), Int64Index).None?
    ensures Values(nz, WithA(Float(FLOAT_ONE)), OnA()) == []
  {
    hide PointerGet, PointerJoin;
    ValueAtA(Float(FLOAT_ONE));
    var items := [Float(FLOAT_ONE)];
    assert Indexed(WithA(Float(FLOAT_ONE)), OnA().path) == items;
    assert items[..0] == [] && ValuesOf(nz, items[..0], Int64Index) == [];
  }

  lemma IntHasValue(nz: Normalizer, n: i64)
    requires NormalizesTyped(nz)
    ensures Values(nz, WithA(Int(n)), OnA()) == [EncodeI64Key(n)]
  {
    hide NormalizesTyped, PointerGet, EncodeI64Key, PointerJoin, Values;
    ValueAtA(Int(n));
    IntValues(nz, OnA(), WithA(Int(n)));
  }

  // ----- a lone upper bound -----

  /** `/[a <= 10]` */
  function UpToTen(): Filter<Term> {
    Atom(PathTerm([], Some(Atom(Comparison(A_KEY, Range(Le), Some(Int(10)))))))
  }

  ghost function TwoDocs(): map<i64, Doc> {
    map[1 := WithA(Int(1)), 2 := WithA(Int(2))]
  }

  /** The index, then {"a": 1} and {"a": 2}. */
  function TwoPuts(name: Name): seq<Command> {
    [AddIndex(name, OnA())] + [Single(OpPut(name, 1, Some(WithA(Int(1)))))] + [Single(OpPut(name, 2, Some(WithA(Int(2)))))]
  }

  /** The only collection has the only index, and these documents. */
  ghost predicate Holds(ix: Indexer, s: State, name: Name, docs: map<i64, Doc>) {
    && Clean(ix, s) && s.cat.collections.Keys == {name} && name in s.cat.collections
    && s.cat.collections[name].indexes.Keys == {OnA()} && OnA() in s.cat.collections[name].indexes
    && Live(s, name) == docs
  }

  lemma TwoPutsReach(nz: Normalizer, name: Name)
    ensures Holds(IndexerOf(nz), Run(IndexerOf(nz), INITIAL, TwoPuts(name)), name, TwoDocs())
  {
    hide Holds, Run;
    StorableWithA(Int(1));
    StorableWithA(Int(2));
    StableWithA(1);
    StableWithA(2);
    PutsReach(IndexerOf(nz), name, WithA(Int(1)), WithA(Int(2)));
  }

  /** The index, then two documents. */
  lemma PutsReach(ix: Indexer, name: Name, d1: Doc, d2: Doc)
    requires Storable(d1) && Stable(d1) && Storable(d2) && Stable(d2)
    ensures Holds(ix, Run(ix, INITIAL, [AddIndex(name, OnA())] + [Single(OpPut(name, 1, Some(d1)))] + [Single(OpPut(name, 2, Some(d2)))]),
                  name, map[1 := d1, 2 := d2])
  {
    hide Run, Clean, Steady, Live, Storable, Stable, LiveConflict, Auto, ValidIndexPath, PointerJoin;
    PathOfA();
    FirstIndex(ix, name, OnA());
    var c0, c1, c2 := AddIndex(name, OnA()), Single(OpPut(name, 1, Some(d1))), Single(OpPut(name, 2, Some(d2)));
    var s0 := Run(ix, INITIAL, [c0]);
    PutPlain(ix, s0, name, 1, d1);
    RunNext(ix, [c0], c1);
    var s1 := Run(ix, INITIAL, [c0] + [c1]);
    PutPlain(ix, s1, name, 2, d2);
    RunNext(ix, [c0] + [c1], c2);
    assert Live(s1, name) == map[][1 := d1];
    assert map[][1 := d1][2 := d2] == map[1 := d1, 2 := d2];
  }

  lemma PutPlain(ix: Indexer, s: State, name: Name, id: i64, doc: Doc)
    requires Clean(ix, s) && Steady(s) && s.cat.next < 10 && name in s.cat.collections && Storable(doc) && Stable(doc)
    requires s.cat.collections[name].indexes.Keys == {OnA()} && s.cat.collections[name].nextId < id
    ensures var r := Execute(ix, s, Single(OpPut(name, id, Some(doc))));
            Becomes(ix, s, r.state, name, Live(s, name)[id := doc], id)
  {
    hide Clean, Steady, Live, Storable, Stable, Auto;
    NoUniqueIndex(ix, s, name, id, doc);
    PutTakesEffect(ix, s, name, id, doc);
  }

  lemma StableWithA(n: i64)
    ensures Stable(WithA(Int(n)))
  {
  }

  lemma NoUniqueIndex(ix: Indexer, s: State, name: Name, id: i64, doc: Doc)
    requires name in s.cat.collections && s.cat.collections[name].indexes.Keys == {OnA()}
    ensures !LiveConflict(ix, s, name, id, doc)
  {
    hide Live;
  }

  /** Rows for the two documents, in the given order. */
  function RowFor(id: i64): Row {
    Row(SortKey(id, [Int(id)]), [], Null)
  }

  /**
   Ordered by /a, ascending, the query `/[a <= 10]` streams the documents 2, 1; sorted they are 1, 2.
   */
  lemma LoneUpperBoundStreamsBackwards(env: Env, nz: Normalizer, name: Name, ks: seq<Key>)
    requires NormalizesTyped(nz)
    requires
      var s := Run(IndexerOf(nz), INITIAL, TwoPuts(name));
      name in s.cat.collections && OnA() in s.cat.collections[name].indexes &&
      var idx := IndexRef(OnA(), s.cat.collections[name].indexes[OnA()].dbid);
      Iterates(s.engine, k => Visits(nz, idx, RangePlan(Le, Int(10), None), k), ks)
    ensures
      var s := Run(IndexerOf(nz), INITIAL, TwoPuts(name));
      var idx := IndexRef(OnA(), s.cat.collections[name].indexes[OnA()].dbid);
      var plan := Candidate(env, nz, s.cat.collections[name].rnum, [idx], UpToTen());
      && plan.Some? && plan.value.op == RangePlan(Le, Int(10), None)
      && Stream(env, s, name, UpToTen(), plan.value, false, ks) == [2, 1]
      && Arranged(env.lib, [false], [RowFor(1), RowFor(2)], [RowFor(1), RowFor(2)])
  {
    hide NormalizesTyped, Clean, Run, Live, Visits, Iterates, Candidate, Stream, Arranged, RowsOf, TypedFilter, PointerJoin, Chosen;
    TwoPutsReach(nz, name);
    var s := Run(IndexerOf(nz), INITIAL, TwoPuts(name));
    var idx := IndexRef(OnA(), s.cat.collections[name].indexes[OnA()].dbid);
    var rnum := s.cat.collections[name].rnum;
    RangePlanFor(env, nz, rnum, idx);
    var plan := Candidate(env, nz, rnum, [idx], UpToTen()).value;
    TypedUpToTen(idx);
    TwoDocsTyped(idx);
    PlanIsChosen(env, nz, rnum, [idx], UpToTen(), plan);
    RuntimeOne(s.cat.collections[name], idx);
    assert Streamed(env, nz, s, name, [idx], UpToTen(), plan);
    BothMatch(env);
    RowsArranged(env.lib);
    StreamIsSorted(env, nz, s, name, [idx], UpToTen(), plan, false, ks, [RowFor(1), RowFor(2)], [RowFor(2), RowFor(1)]);
    assert RowIds([RowFor(2), RowFor(1)]) == [2, 1];
  }

  lemma RuntimeOne(col: Collection, idx: IndexRef)
    requires idx.def in col.indexes && idx.dbid == col.indexes[idx.def].dbid
    ensures RuntimeOf(col, [idx])
  {
  }

  lemma PlanIsChosen(env: Env, nz: Normalizer, rnum: int, order: seq<IndexRef>, f: Filter<Term>, plan: Plan)
    requires Candidate(env, nz, rnum, order, f) == Some(plan)
    ensures Chosen(env, nz, rnum, order, f, plan)
  {
    hide Candidate;
  }

  lemma RangePlanFor(env: Env, nz: Normalizer, rnum: int, idx: IndexRef)
    requires NormalizesTyped(nz) && idx.def == OnA()
    ensures var plan := Candidate(env, nz, rnum, [idx], UpToTen());
            plan.Some? && plan.value.idx == idx && plan.value.op == RangePlan(Le, Int(10), None)
  {
    hide PathCount, PointerJoin, EncodeI64Key;
    PlainA();
    var c := Comparison(A_KEY, Range(Le), Some(Int(10)));
    var order := [idx];
    assert nz(Int(10), Int64Index).Some?;
    assert BestOf(env, nz, rnum, order, OnA().path, c, 0) == None;
    assert BestOf(env, nz, rnum, order, OnA().path, c, 1) == PlanFor(env, nz, rnum, OnA().path, c, idx);
  }

  lemma TypedUpToTen(idx: IndexRef)
    requires idx.def == OnA()
    ensures TypedFilter([idx], UpToTen())
  {
    hide PointerJoin, NamesMember;
    PathOfA();
    PlainA();
  }

  lemma TwoDocsTyped(idx: IndexRef)
    requires idx.def == OnA()
    ensures forall id | id in TwoDocs() :: TypedPaths([idx], TwoDocs()[id]) && HasInt(OnA().path, TwoDocs()[id])
  {
    hide PointerGet, PointerJoin;
    ValueAtA(Int(1));
    ValueAtA(Int(2));
  }

  lemma BothMatch(env: Env)
    ensures RowsOf(env, TwoDocs(), UpToTen(), OnA().path, [RowFor(1), RowFor(2)])
  {
    hide PointerGet, PointerJoin, Match;
    MatchesUpToTen(env, 1);
    MatchesUpToTen(env, 2);
    ValueAtA(Int(1));
    ValueAtA(Int(2));
    var rows := [RowFor(1), RowFor(2)];
    assert rows[0].key.id == 1 && rows[1].key.id == 2;
    assert forall id | id in TwoDocs() :: id == 1 || id == 2;
  }

  lemma MatchesUpToTen(env: Env, n: i64)
    requires n <= 10
    ensures Match(env, WithA(Int(n)), n, UpToTen()).matched && Match(env, WithA(Int(n)), n, UpToTen()).err.None?
  {
    hide PointerGet, EvalComparison;
    PlainA();
    EmptyPattern(WithA(Int(n)));
    var c := Comparison(A_KEY, Range(Le), Some(Int(10)));
    assert CompareValues(env, Int(n), c.op, Int(10)) == (true, None);
    MemberMatches(env, c, Int(n));
    assert EvalExpr(env, WithA(Int(n)), Atom(c)).matched;
  }

  lemma RowsArranged(lib: Lib)
    ensures Arranged(lib, [false], [RowFor(1), RowFor(2)], [RowFor(1), RowFor(2)])
    ensures Arranged(lib, [true], [RowFor(1), RowFor(2)], [RowFor(2), RowFor(1)])
  {
    var a, b := RowFor(1), RowFor(2);
    assert GenericCmp(lib, ValueAt(a.key, 0), ValueAt(b.key, 0)) == -1;
    assert GenericCmp(lib, ValueAt(b.key, 0), ValueAt(a.key, 0)) == 1;
    assert Before(lib, [false], a.key, b.key) && Before(lib, [true], b.key, a.key);
  }

  // ----- a repeated literal -----

  /** `/[a in [1, 1]]` */
  function OneOrOne(): Filter<Term> {
    Atom(PathTerm([], Some(Atom(Comparison(A_KEY, In, Some(Arr([Int(1), Int(1)])))))))
  }

  lemma AgreesOnA(nz: Normalizer, s: State, name: Name, docs: map<i64, Doc>)
    requires Holds(IndexerOf(nz), s, name, docs)
    ensures IndexAgrees(IndexerOf(nz), s.engine, OnA(), s.cat.collections[name].indexes[OnA()].dbid, docs)
  {
    hide IndexAgrees, LogOk, CountersOk, CatalogOk, NoOrphans, StoredDocs, OnA;
  }

  /** With sixteen digits in every entry, every key of the engine is encodable. */
  lemma ShortEntries(nz: Normalizer, s: State, name: Name)
    requires NormalizesTyped(nz) && Holds(IndexerOf(nz), s, name, TwoDocs())
    ensures AllEncodable(s.engine)
  {
    hide NormalizesTyped, Live, LogOk, CountersOk, CatalogOk, EngineAgrees, Values, OnA, EncodeI64Key, WithA;
    AgreesOnA(nz, s, name, TwoDocs());
    NotUnique();
    IntHasValue(nz, 1);
    IntHasValue(nz, 2);
    I64KeyRoundTrip(1);
    I64KeyRoundTrip(2);
    forall k | k in s.engine ensures Encodable(k) {
      if k.IdxKey? || k.UIdxKey? {
        var t :| OwnedBy(s.cat, k, t);
        assert t == IdxSlot(name, OnA());
        EntryValue(IndexerOf(nz), s.engine, OnA(), k.dbid, TwoDocs(), k);
      }
    }
  }

  /** An entry of an index that is not unique carries a value of a document. */
  lemma EntryValue(ix: Indexer, e: Engine, def: IndexDef, dbid: i64, docs: map<i64, Doc>, k: Key)
    requires IndexAgrees(ix, e, def, dbid, docs) && !def.unique && k in e && IndexKeyOf(k, dbid)
    ensures k.IdxKey? && k.id in docs && k.value in ix(docs[k.id], def)
  {
    match k
    case IdxKey(_, v, id) => assert k == IdxKey(dbid, v, id);
    case UIdxKey(_, _) =>
  }

  lemma NotUnique()
    ensures !OnA().unique && OnA().kind.Int64Index?
  {
  }

  /** The document {"a": 1} is yielded twice. */
  lemma RepeatedLiteralRepeats(env: Env, nz: Normalizer, name: Name)
    requires NormalizesTyped(nz)
    ensures
      var s := Run(IndexerOf(nz), INITIAL, TwoPuts(name));
      && name in s.cat.collections && OnA() in s.cat.collections[name].indexes
      && var idx := IndexRef(OnA(), s.cat.collections[name].indexes[OnA()].dbid);
         var plan := Candidate(env, nz, s.cat.collections[name].rnum, [idx], OneOrOne());
         && plan.Some? && plan.value.idx == idx && plan.value.op == InOp([Int(1), Int(1)])
         && InIds(nz, s.engine, idx, plan.value.op.values) == [1, 1]
  {
    hide NormalizesTyped, Run, Candidate, OnA, InIds, IndexAgrees, AllEncodable, EncodeI64Key, Clean, Live;
    TwoPutsReach(nz, name);
    var s := Run(IndexerOf(nz), INITIAL, TwoPuts(name));
    var idx := IndexRef(OnA(), s.cat.collections[name].indexes[OnA()].dbid);
    InPlanFor(env, nz, s.cat.collections[name].rnum, idx);
    AgreesOnA(nz, s, name, TwoDocs());
    ShortEntries(nz, s, name);
    OneHasOne(nz, s.engine, idx);
    NotUnique();
    TypedNormalizes(nz, Int64Index, Int(1));
    TwiceTheSame(nz, s.engine, idx);
  }

  lemma InPlanFor(env: Env, nz: Normalizer, rnum: int, idx: IndexRef)
    requires NormalizesTyped(nz) && idx.def == OnA()
    ensures var plan := Candidate(env, nz, rnum, [idx], OneOrOne());
            plan.Some? && plan.value.idx == idx && plan.value.op == InOp([Int(1), Int(1)])
  {
    hide PathCount, PointerJoin, EncodeI64Key, FromInt;
    PlainA();
    var c := Comparison(A_KEY, In, Some(Arr([Int(1), Int(1)])));
    var order := [idx];
    var items := [Int(1), Int(1)];
    assert items[0] == Int(1) && nz(items[0], Int64Index).Some?;
    assert OpWeight(env, nz, Int64Index, In, Arr(items), rnum) == Some(90);
    assert BestOf(env, nz, rnum, order, OnA().path, c, 0) == None;
    assert BestOf(env, nz, rnum, order, OnA().path, c, 1) == PlanFor(env, nz, rnum, OnA().path, c, idx);
  }

  lemma OneHasOne(nz: Normalizer, e: Engine, idx: IndexRef)
    requires NormalizesTyped(nz) && idx.def == OnA() && AllEncodable(e)
    requires IndexAgrees(IndexerOf(nz), e, idx.def, idx.dbid, TwoDocs())
    ensures ValueIds(e, idx, EncodeI64Key(1)) == [1]
  {
    hide NormalizesTyped, AllEncodable, IndexAgrees, Values, OnA, EncodeI64Key, WithA, ReadsValue, SortedIds;
    IntHasValue(nz, 1);
    IntHasValue(nz, 2);
    I64KeyRoundTrip(1);
    I64KeyOrder(1, 2);
    var ids := ValueIds(e, idx, EncodeI64Key(1));
    forall id: i64 ensures id in ids <==> id == 1 {
      ValueIdsExact(IndexerOf(nz), e, idx, TwoDocs(), EncodeI64Key(1), id);
    }
    OnlyOne(ids);
  }

  lemma OnlyOne(ids: seq<i64>)
    requires Sorted(IdLess, ids) && forall id: i64 :: id in ids <==> id == 1
    ensures ids == [1]
  {
    assert 1 in ids;
    assert forall i | 0 <= i < |ids| :: ids[i] in ids;
    assert |ids| >= 2 ==> IdLess(ids[0], ids[1]);
  }

  lemma TwiceTheSame(nz: Normalizer, e: Engine, idx: IndexRef)
    requires nz(Int(1), idx.def.kind) == Some(EncodeI64Key(1)) && ValueIds(e, idx, EncodeI64Key(1)) == [1]
    ensures InIds(nz, e, idx, [Int(1), Int(1)]) == [1, 1]
  {
    hide ValueIds, EncodeI64Key;
    var vs := [Int(1), Int(1)];
    assert vs[..1] == [Int(1)] && vs[..1][..0] == [];
    assert InIds(nz, e, idx, vs[..1][..0]) == [];
    assert InIds(nz, e, idx, vs[..1]) == [1];
  }

  // ----- an index walked for its order -----

  /** The match-all filter. */
  function Everything(): Filter<Term> {
    Atom(OtherTerm(0))
  }

  /** With {"a": 1} and {} stored, everything ordered by /a is {"a": 1} alone. */
  lemma OrderDropsDocument(env: Env, nz: Normalizer, name: Name)
    requires NormalizesTyped(nz) && forall doc, id :: env.other(OtherTerm(0), doc, id) == (true, None)
    ensures
      var s := Run(IndexerOf(nz), INITIAL,
                   [AddIndex(name, OnA())] + [Single(OpPut(name, 1, Some(WithA(Int(1)))))] + [Single(OpPut(name, 2, Some(Obj(map[]))))]);
      && name in s.cat.collections && OnA() in s.cat.collections[name].indexes
      && var idx := IndexRef(OnA(), s.cat.collections[name].indexes[OnA()].dbid);
         && Answer(env, Live(s, name), ScanSet(nz, s.engine, idx, Whole), Everything()) == {1}
         && Answer(env, Live(s, name), Live(s, name).Keys, Everything()) == {1, 2}
  {
    hide NormalizesTyped, Run, OnA, IndexAgrees, Clean, Live, ScanSet, EncodeI64Key, Values;
    var d1, d2 := WithA(Int(1)), Obj(map[]);
    StorableWithA(Int(1));
    StableWithA(1);
    EmptyIsStorable();
    PutsReach(IndexerOf(nz), name, d1, d2);
    var s := Run(IndexerOf(nz), INITIAL, [AddIndex(name, OnA())] + [Single(OpPut(name, 1, Some(d1)))] + [Single(OpPut(name, 2, Some(d2)))]);
    var idx := IndexRef(OnA(), s.cat.collections[name].indexes[OnA()].dbid);
    var docs := map[1 := d1, 2 := d2];
    AgreesOnA(nz, s, name, docs);
    IntHasValue(nz, 1);
    NoValueInEmpty(nz);
    forall id: i64 ensures id in ScanSet(nz, s.engine, idx, Whole) <==> id == 1 {
      WholeScanExact(IndexerOf(nz), nz, s.engine, idx, docs, id);
    }
    forall id | id in docs ensures Matches(env, docs[id], id, Everything()) {
      MatchesEverything(env, docs[id], id);
    }
    hide Matches;
    assert Answer(env, docs, ScanSet(nz, s.engine, idx, Whole), Everything()) == {1};
    assert Answer(env, docs, docs.Keys, Everything()) == {1, 2};
  }

  lemma EmptyIsStorable()
    ensures Storable(Obj(map[])) && Stable(Obj(map[]))
  {
  }

  lemma MatchesEverything(env: Env, doc: Doc, id: i64)
    requires env.other(OtherTerm(0), doc, id) == (true, None)
    ensures Matches(env, doc, id, Everything())
  {
    assert MatchTerm(env, doc, id, OtherTerm(0)) == (true, None);
  }

  lemma NoValueInEmpty(nz: Normalizer)
    ensures Values(nz, Obj(map[]), OnA()) == []
  {
    hide PointerJoin, Tokens;
    PathOfA();
    assert [A_KEY][0] == A_KEY;
    assert PointerGet(Obj(map[]), OnA().path) == None;
    assert Indexed(Obj(map[]), OnA().path) == [];
  }

  // ----- a window that leaves int64 -----

  /** One match, `skip 1 limit 9223372036854775807`: the window panics. */
  lemma WindowOverflows()
    ensures WindowBounds(1, 1, MAX_I64) == None
  {
  }
}
