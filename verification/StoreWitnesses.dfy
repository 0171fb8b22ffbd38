/**
 Runs from an empty database that reach the failures the exact conditions speak of: a float that splits an
 index from its documents, a value refused although nobody has it, a poisoned log, an overwritten document.
 */
module StoreWitnesses {
  import opened Wrappers
  import opened Bytes
  import opened Keys
  import opened Document
  import opened Store
  import opened StoreInvariants
  import opened StoreReplay
  import opened StoreStable
  import opened StoreSteps
  import opened StoreRuns
  import opened StoreEffects

  // ----- runs, one command at a time -----

  lemma RunNext(ix: Indexer, run: seq<Command>, c: Command)
    ensures Run(ix, INITIAL, run + [c]) == Execute(ix, Run(ix, INITIAL, run), c).state
  {
    assert (run + [c])[..|run|] == run;
  }

  lemma RunOne(ix: Indexer, c: Command)
    ensures Run(ix, INITIAL, [c]) == Execute(ix, INITIAL, c).state
  {
    RunNext(ix, [], c);
    assert [] + [c] == [c];
  }

  /** The first index of an empty database. */
  ghost predicate FreshlyIndexed(ix: Indexer, s: State, name: Name, def: IndexDef) {
    && Clean(ix, s) && Steady(s) && s.cat.next == 3 && s.cat.collections.Keys == {name} && name in s.cat.collections
    && s.cat.collections[name].indexes.Keys == {def} && s.cat.collections[name].nextId == 0
    && Live(s, name) == map[]
  }

  lemma FirstIndex(ix: Indexer, name: Name, def: IndexDef)
    requires ValidIndexPath(def.path)
    ensures FreshlyIndexed(ix, Run(ix, INITIAL, [AddIndex(name, def)]), name, def)
  {
    hide Valid, Steady, StoredDocs, Rebuilt, TotalValues, ValidIndexPath;
    InitialClean(ix);
    RunOne(ix, AddIndex(name, def));
    EnsureIndexKeepsClean(ix, INITIAL, name, def);
    EnsureIndexKeepsSteady(ix, INITIAL, name, def);
    NoDocs(2);
    var s1 := Ensure(INITIAL, name);
    var idx := IndexState(3, TotalValues(ix, map[], def));
    var s2 := WithCollection(s1, name, s1.cat.collections[name].(indexes := map[def := idx]));
    var e := Rebuilt(ix, map[], map[], def, 3)[MetaKey := CatalogVal(s2.cat)];
    var s3 := s2.(engine := e, cat := s2.cat.(next := 3), dirtyMeta := true);
    assert EnsureIndex(ix, INITIAL, name, def) == Commit(ix, s3);
    var s := Commit(ix, s3).state;
    assert s.cat == s3.cat && s.engine == e[MetaKey := CatalogVal(s3.cat)];
    EmptyRebuild(ix, def, 3);
    assert s.engine.Keys == {MetaKey};
    EmptyEngineDocs(s.engine, 2);
  }

  lemma NoDocs(dbid: i64)
    ensures StoredDocs(map[], dbid) == map[]
  {
  }

  lemma EmptyRebuild(ix: Indexer, def: IndexDef, dbid: i64)
    ensures Rebuilt(ix, map[], map[], def, dbid) == map[]
  {
  }

  lemma EmptyEngineDocs(e: Engine, dbid: i64)
    requires e.Keys == {MetaKey}
    ensures StoredDocs(e, dbid) == map[]
  {
  }

  /** No document has the values of the given one. */
  lemma NobodyElse(ix: Indexer, s: State, name: Name, id: i64, doc: Doc)
    requires name in s.cat.collections && forall other | other in Live(s, name) :: other == id
    ensures !LiveConflict(ix, s, name, id, doc)
  {
  }

  // ----- a float that is an integer -----

  /**
   With an index that takes integers and no floats, putting {"a": 1.0} indexes nothing, and the stored document
   has a value: the index does not agree, a rebuild adds the entry, and the entry count is too low.
   */
  lemma FloatSplitsIndex(ix: Indexer, name: Name, def: IndexDef, doc: Doc, v: bytes)
    requires ValidIndexPath(def.path) && !def.unique && Storable(doc)
    requires ix(doc, def) == [] && ix(Reread(doc), def) == [v]
    ensures
      var s := Run(ix, INITIAL, [AddIndex(name, def)] + [Single(OpPut(name, 1, Some(doc)))]);
      && name in s.cat.collections && def in s.cat.collections[name].indexes
      && var col := s.cat.collections[name];
         var docs, idx := StoredDocs(s.engine, col.dbid), col.indexes[def];
         && !Clean(ix, s) && s.pending == []
         && IdxKey(idx.dbid, v, 1) !in s.engine
         && IdxKey(idx.dbid, v, 1) in Rebuilt(ix, s.engine, docs, def, idx.dbid)
         && idx.rnum == 0 && docs == map[1 := Reread(doc)]
  {
    hide Valid, Steady, ValidIndexPath, Storable, Reread, StoredDocs, IndexAgrees, Rebuilt, Live, EngineAgrees, Run, LiveConflict;
    FirstIndex(ix, name, def);
    var s0 := Run(ix, INITIAL, [AddIndex(name, def)]);
    RunNext(ix, [AddIndex(name, def)], Single(OpPut(name, 1, Some(doc))));
    var s1 := RaiseNextId(s0, name, 1);
    ValidWithNext(ix, s0, name, 1);
    NobodyElse(ix, s1, name, 1, doc);
    AutoOfPut(ix, s0, s1, name, 1, doc);
    PutCommits(ix, s1, name, 1, doc);
    SplitAfterPut(ix, s1, name, def, doc, v);
    NotClean(ix, Commit(ix, PutLocked(ix, s1, name, 1, Some(doc)).state).state);
  }

  /** The same, seen from the state the put starts in. */
  lemma SplitAfterPut(ix: Indexer, s: State, name: Name, def: IndexDef, doc: Doc, v: bytes)
    requires Valid(ix, s) && s.pending == [] && name in s.cat.collections && Live(s, name) == map[]
    requires def in s.cat.collections[name].indexes && !def.unique && Storable(doc)
    requires ix(doc, def) == [] && ix(Reread(doc), def) == [v]
    ensures
      var s' := Commit(ix, PutLocked(ix, s, name, 1, Some(doc)).state).state;
      && name in s'.cat.collections && def in s'.cat.collections[name].indexes && s'.pending == []
      && var col := s'.cat.collections[name];
         var docs, idx := StoredDocs(s'.engine, col.dbid), col.indexes[def];
         && !EngineAgrees(ix, s'.engine, s'.cat)
         && IdxKey(idx.dbid, v, 1) !in s'.engine
         && IdxKey(idx.dbid, v, 1) in Rebuilt(ix, s'.engine, docs, def, idx.dbid)
         && idx.rnum == 0 && docs == map[1 := Reread(doc)]
  {
    hide Valid, Storable, Reread, StoredDocs, IndexAgrees, Rebuilt, Live, EngineAgrees, LiveConflict, UniqueConflict, AllUnique,
         AdjustRNums, PutLocked, Commit, ReplayOne, SameValues, CountersOk;
    NobodyElse(ix, s, name, 1, doc);
    PutCommits(ix, s, name, 1, doc);
    PutStarts(ix, s, name, 1, doc);
    PutKeepsAgreementExactly(ix, s, name, 1, doc);
    DifferentValues(ix, def, doc, Reread(doc), v);
    var r := PutLocked(ix, s, name, 1, Some(doc));
    var m := PutDoc(name, 1, CurrentDoc(s, name, 1), doc);
    var cat := r.state.cat;
    var e0 := s.engine[MetaKey := CatalogVal(cat)];
    var e' := ReplayOne(ix, e0, cat, m).value;
    var dbid := cat.collections[name].indexes[def].dbid;
    ReplayOneDocs(ix, e0, cat, m, name);
    EntriesAfterPut(ix, e0, cat, m, def);
    EntryOfValue(ix, e', def, dbid, map[1 := doc], 1, v);
    RebuiltAgrees(ix, e', map[1 := Reread(doc)], def, dbid);
    EntryOfValue(ix, Rebuilt(ix, e', map[1 := Reread(doc)], def, dbid), def, dbid, map[1 := Reread(doc)], 1, v);
    ValidCounts(ix, s);
    CountAfterPut(ix, s, r.state, name, def, doc);
  }

  lemma DifferentValues(ix: Indexer, def: IndexDef, d1: Doc, d2: Doc, v: bytes)
    requires v !in ix(d1, def) && v in ix(d2, def)
    ensures !SameValues(ix, def, d1, d2)
  {
  }

  /** The entries are those of the document that was put. */
  lemma EntriesAfterPut(ix: Indexer, e: Engine, cat: Catalog, m: Mutation, def: IndexDef)
    requires EngineOk(ix, e, cat) && HasSlot(cat, IdxSlot(m.name, def)) && ReplayOne(ix, e, cat, m).Some? && m.PutDoc?
    requires !def.unique && Previous(m) == Find(StoredDocs(e, cat.collections[m.name].dbid), m.id)
    ensures IndexAgrees(ix, ReplayOne(ix, e, cat, m).value, def, cat.collections[m.name].indexes[def].dbid,
                        StoredDocs(e, cat.collections[m.name].dbid)[m.id := m.doc])
  {
    hide ReplayOne, IndexAgrees, StoredDocs;
    ReplayOneKeepsIndex(ix, e, cat, m, def);
  }

  lemma CountAfterPut(ix: Indexer, s: State, s': State, name: Name, def: IndexDef, doc: Doc)
    requires CountersOk(ix, s) && name in s.cat.collections && Live(s, name) == map[]
    requires def in s.cat.collections[name].indexes && ix(doc, def) == []
    requires Appends(ix, s, s', PutDoc(name, 1, CurrentDoc(s, name, 1), doc))
    ensures s'.cat.collections[name].indexes[def].rnum == 0
  {
    hide Live;
    CurrentIsLive(s, name, 1);
    assert CountsOk(ix, s.cat.collections[name], Live(s, name));
    NoValues(ix, def);
  }

  lemma NoValues(ix: Indexer, def: IndexDef)
    ensures TotalValues(ix, map[], def) == 0
  {
  }

  lemma NotClean(ix: Indexer, s: State)
    requires !EngineAgrees(ix, s.engine, s.cat)
    ensures !Clean(ix, s)
  {
  }

  lemma ValidCounts(ix: Indexer, s: State)
    requires Valid(ix, s)
    ensures CountersOk(ix, s)
  {
  }

  lemma ValidWithNext(ix: Indexer, s: State, name: Name, id: i64)
    requires Clean(ix, s) && name in s.cat.collections
    ensures var s1 := RaiseNextId(s, name, id);
            && Valid(ix, s1) && s1.pending == [] && name in s1.cat.collections && Live(s1, name) == Live(s, name)
            && s1.cat.collections[name].indexes == s.cat.collections[name].indexes && s1.cat.next == s.cat.next
  {
    hide Valid, StoredDocs;
    RaiseKeepsValid(ix, s, name, id);
    NextIdKeepsLive(s, name, id, name);
  }

  lemma AutoOfPut(ix: Indexer, s: State, s1: State, name: Name, id: i64, doc: Doc)
    requires name in s.cat.collections && s1 == RaiseNextId(s, name, id) && name in s1.cat.collections
    requires PutLocked(ix, s1, name, id, Some(doc)).error.None?
    ensures Auto(ix, s, OpPut(name, id, Some(doc))) == Commit(ix, PutLocked(ix, s1, name, id, Some(doc)).state)
  {
    hide PutLocked, Commit;
  }

  // ----- a value nobody has any more -----

  /**
   A unique index, a document that has the value, and a transaction that rewrites it without the value: another
   document is then refused the value, though the documents would be unique.
   */
  lemma StaleClaimRejects(ix: Indexer, name: Name, def: IndexDef, v: bytes, was: Doc, now: Doc, doc: Doc)
    requires ValidIndexPath(def.path) && def.unique && Storable(was) && Stable(was)
    requires ix(was, def) == [v] && ix(now, def) == [] && ix(doc, def) == [v]
    ensures
      var s := Run(ix, INITIAL, [AddIndex(name, def)] + [Single(OpPut(name, 1, Some(was)))]);
      var tx := RecordAll(ix, s, [OpPut(name, 1, Some(now))]);
      && Record(ix, tx, true, OpPut(name, 2, Some(doc))).error == Some(ErrUniqueConstraint)
      && name in tx.cat.collections && Live(tx, name) == map[1 := now]
      && AllUnique(ix, Live(tx, name)[2 := doc], tx.cat.collections[name].indexes)
  {
    hide Valid, Steady, ValidIndexPath, Storable, Stable, StoredDocs, Live, EngineAgrees, Run, LiveConflict, Execute, Auto, Put,
         UniqueConflict, AllUnique;
    FirstIndex(ix, name, def);
    var s0 := Run(ix, INITIAL, [AddIndex(name, def)]);
    RunNext(ix, [AddIndex(name, def)], Single(OpPut(name, 1, Some(was))));
    NobodyElse(ix, s0, name, 1, was);
    ExecuteOfPut(ix, s0, name, 1, was);
    PutTakesEffect(ix, s0, name, 1, was);
    var s := Run(ix, INITIAL, [AddIndex(name, def)] + [Single(OpPut(name, 1, Some(was)))]);
    assert map[][1 := was] == map[1 := was];
    StaleAfterRewrite(ix, s, name, def, v, was, now, doc);
  }

  lemma ExecuteOfPut(ix: Indexer, s: State, name: Name, id: i64, doc: Doc)
    ensures Execute(ix, s, Single(OpPut(name, id, Some(doc)))) == Auto(ix, s, OpPut(name, id, Some(doc)))
  {
    hide Auto;
  }

  lemma StaleAfterRewrite(ix: Indexer, s: State, name: Name, def: IndexDef, v: bytes, was: Doc, now: Doc, doc: Doc)
    requires Clean(ix, s) && s.cat.next < MAX_I64 && name in s.cat.collections
    requires s.cat.collections[name].indexes.Keys == {def} && def.unique && Live(s, name) == map[1 := was]
    requires ix(was, def) == [v] && ix(now, def) == [] && ix(doc, def) == [v]
    ensures
      var tx := RecordAll(ix, s, [OpPut(name, 1, Some(now))]);
      && Record(ix, tx, true, OpPut(name, 2, Some(doc))).error == Some(ErrUniqueConstraint)
      && name in tx.cat.collections && Live(tx, name) == map[1 := now]
      && AllUnique(ix, Live(tx, name)[2 := doc], tx.cat.collections[name].indexes)
  {
    hide Clean, Live, UniqueConflict, Record, RecordAll, AllUnique;
    var tx := RecordAll(ix, s, [OpPut(name, 1, Some(now))]);
    Rewritten(ix, s, name, def, was, now);
    OwnerOfValue(ix, s, name, def, v, was);
    UniqueTogether(ix, name, def, tx, now, doc);
    StillClaimed(ix, RaiseNextId(tx, name, 2), name, def, v, doc);
    RefusedPut(ix, tx, name, 2, doc);
  }

  lemma RefusedPut(ix: Indexer, s: State, name: Name, id: i64, doc: Doc)
    requires name in s.cat.collections && UniqueConflict(ix, RaiseNextId(s, name, id), name, id, doc)
    ensures Record(ix, s, true, OpPut(name, id, Some(doc))).error == Some(ErrUniqueConstraint)
  {
    hide UniqueConflict;
  }

  /** The transaction so far: the committed entry is still there, the document is not. */
  lemma Rewritten(ix: Indexer, s: State, name: Name, def: IndexDef, was: Doc, now: Doc)
    requires Clean(ix, s) && s.cat.next < MAX_I64 && name in s.cat.collections
    requires s.cat.collections[name].indexes.Keys == {def} && Live(s, name) == map[1 := was]
    ensures
      var tx := RecordAll(ix, s, [OpPut(name, 1, Some(now))]);
      && tx.engine == s.engine && name in tx.cat.collections && Live(tx, name) == map[1 := now]
      && |tx.pending| == 1 && tx.pending[0].PutDoc? && tx.pending[0].name == name && tx.pending[0].id == 1
      && tx.cat.collections[name].indexes.Keys == {def}
      && tx.cat.collections[name].indexes[def].dbid == s.cat.collections[name].indexes[def].dbid
  {
    hide Valid, StoredDocs, Live, LiveConflict, EngineAgrees, UniqueConflict, AdjustRNums;
    var s1 := RaiseNextId(s, name, 1);
    ValidWithNext(ix, s, name, 1);
    NobodyElse(ix, s1, name, 1, now);
    ValidAgrees(ix, s1);
    UniqueCheckExact(ix, s1, name, 1, now);
    NothingStale(ix, s1, name, 1, now);
    RecordOne(ix, s, OpPut(name, 1, Some(now)));
    PutConflicts(ix, s1, name, 1, now);
    PutAppends(ix, s1, name, 1, Some(now));
    hide PutLocked, RecordAll;
    AppendShowsInLive(ix, s1, RecordAll(ix, s, [OpPut(name, 1, Some(now))]), PutDoc(name, 1, CurrentDoc(s1, name, 1), now), name);
  }

  lemma RecordOne(ix: Indexer, s: State, op: DocOp)
    ensures RecordAll(ix, s, [op]) == Record(ix, s, true, op).state
  {
    hide Record;
    var ops := [op];
    assert ops[..0] == [];
    assert RecordAll(ix, s, ops[..0]) == s;
  }

  lemma OwnerOfValue(ix: Indexer, s: State, name: Name, def: IndexDef, v: bytes, was: Doc)
    requires Clean(ix, s) && name in s.cat.collections && def in s.cat.collections[name].indexes && def.unique
    requires Live(s, name) == map[1 := was] && v in ix(was, def)
    ensures var k := UIdxKey(s.cat.collections[name].indexes[def].dbid, v);
            k in s.engine && s.engine[k] == Owner(1)
  {
    hide StoredDocs;
    EntryOfValue(ix, s.engine, def, s.cat.collections[name].indexes[def].dbid, map[1 := was], 1, v);
  }

  lemma StillClaimed(ix: Indexer, s: State, name: Name, def: IndexDef, v: bytes, doc: Doc)
    requires name in s.cat.collections && def in s.cat.collections[name].indexes && def.unique && v in ix(doc, def)
    requires |s.pending| == 1 && s.pending[0].PutDoc? && s.pending[0].name == name && s.pending[0].id == 1
    requires var k := UIdxKey(s.cat.collections[name].indexes[def].dbid, v);
             k in s.engine && s.engine[k] == Owner(1)
    ensures UniqueConflict(ix, s, name, 2, doc)
  {
    assert Lookup(s.pending, name, 1).Present?;
    assert CommittedConflict(s, name, s.cat.collections[name].indexes[def].dbid, 2, v);
  }

  lemma UniqueTogether(ix: Indexer, name: Name, def: IndexDef, s: State, now: Doc, doc: Doc)
    requires name in s.cat.collections && s.cat.collections[name].indexes.Keys == {def}
    requires Live(s, name) == map[1 := now] && ix(now, def) == []
    ensures AllUnique(ix, Live(s, name)[2 := doc], s.cat.collections[name].indexes)
  {
    hide Live;
  }

  // ----- a poisoned log -----

  /** Putting a bare number leaves it in the log, and then no transaction commits, whatever it does. */
  lemma BareNumberPoisons(ix: Indexer, name: Name, i: i64, ops: seq<DocOp>)
    requires 2 + |ops| <= MAX_I64
    ensures
      var s := Run(ix, INITIAL, [Single(OpPut(name, 1, Some(Int(i))))]);
      && !AllStorable(s.pending) && WriteTx(ix, s, ops, false).error.Some? && WriteTx(ix, s, ops, false).state == s
  {
    hide Valid, Record, WriteTx;
    var op := OpPut(name, 1, Some(Int(i)));
    InitialClean(ix);
    NoIndexes(ix, name, 1, Int(i));
    PoisonsExactly(ix, INITIAL, op);
    RunOne(ix, Single(op));
    var r := Record(ix, INITIAL, false, op);
    RecordKeepsValid(ix, INITIAL, false, op);
    CommitExact(ix, r.state);
    PoisonedTxFails(ix, r.state, ops, false);
  }

  lemma NoIndexes(ix: Indexer, name: Name, id: i64, doc: Doc)
    ensures !LiveConflict(ix, Ensure(INITIAL, name), name, id, doc)
  {
  }

  // ----- ids that come round again -----

  /** After the largest id has been used, two calls of PutNew overwrite the two smallest ids. */
  lemma PutNewOverwrites(ix: Indexer, name: Name, doc: Doc, first: Doc, second: Doc)
    requires Storable(doc) && Stable(doc) && Storable(first) && Stable(first) && Storable(second) && Stable(second)
    ensures
      var used := [Single(OpPut(name, MAX_I64, Some(doc)))] + [Single(OpPut(name, MIN_I64, Some(doc)))]
                  + [Single(OpPut(name, MIN_I64 + 1, Some(doc)))];
      var s := Run(ix, INITIAL, used + [Single(OpPutNew(name, Some(first)))] + [Single(OpPutNew(name, Some(second)))]);
      name in s.cat.collections
      && Live(s, name) == map[MAX_I64 := doc, MIN_I64 := first, MIN_I64 + 1 := second]
  {
    hide Storable, Stable, Run, Clean, Steady, Live, Execute, LiveConflict;
    InitialClean(ix);
    var c1, c2, c3 := Single(OpPut(name, MAX_I64, Some(doc))), Single(OpPut(name, MIN_I64, Some(doc))),
                      Single(OpPut(name, MIN_I64 + 1, Some(doc)));
    var c4, c5 := Single(OpPutNew(name, Some(first))), Single(OpPutNew(name, Some(second)));
    var none: map<i64, Doc> := map[];
    RunNone(ix);
    PutStep(ix, [], name, MAX_I64, doc, none, 0, 0);
    assert [] + [c1] == [c1];
    PutStep(ix, [c1], name, MIN_I64, doc, none[MAX_I64 := doc], MAX_I64, 1);
    PutStep(ix, [c1] + [c2], name, MIN_I64 + 1, doc, none[MAX_I64 := doc][MIN_I64 := doc], MAX_I64, 2);
    var docs := none[MAX_I64 := doc][MIN_I64 := doc][MIN_I64 + 1 := doc];
    PutNewStep(ix, [c1] + [c2] + [c3], name, first, docs, MAX_I64, 3);
    PutNewStep(ix, [c1] + [c2] + [c3] + [c4], name, second, docs[MIN_I64 := first], MIN_I64, 4);
    assert docs[MIN_I64 := first][MIN_I64 + 1 := second] == map[MAX_I64 := doc, MIN_I64 := first, MIN_I64 + 1 := second];
  }

  /** A run has left these documents in a collection without indexes. */
  ghost predicate Reached(ix: Indexer, run: seq<Command>, name: Name, docs: map<i64, Doc>, next: i64, cost: nat) {
    var s := Run(ix, INITIAL, run);
    && Clean(ix, s) && Steady(s) && s.cat.next <= 1 + cost
    && DocsOf(s, name) == docs && NextIdOf(s, name) == next && IndexesOf(s, name) == {}
  }

  lemma RunNone(ix: Indexer)
    ensures Run(ix, INITIAL, []) == INITIAL
  {
  }

  lemma PutStep(ix: Indexer, run: seq<Command>, name: Name, id: i64, doc: Doc, docs: map<i64, Doc>, next: i64, cost: nat)
    requires Reached(ix, run, name, docs, next, cost) && cost < 10 && Storable(doc) && Stable(doc)
    ensures Reached(ix, run + [Single(OpPut(name, id, Some(doc)))], name, docs[id := doc], if id > next then id else next, cost + 1)
  {
    hide Storable, Stable, Run, Clean, Steady, Live, Auto, LiveConflict;
    var s := Run(ix, INITIAL, run);
    RunNext(ix, run, Single(OpPut(name, id, Some(doc))));
    WithoutIndexes(ix, s, name, id, doc);
    PutTakesEffect(ix, s, name, id, doc);
  }

  lemma PutNewStep(ix: Indexer, run: seq<Command>, name: Name, doc: Doc, docs: map<i64, Doc>, next: i64, cost: nat)
    requires Reached(ix, run, name, docs, next, cost) && cost < 10 && Storable(doc) && Stable(doc)
    ensures Reached(ix, run + [Single(OpPutNew(name, Some(doc)))], name, docs[Next(next) := doc], Next(next), cost + 1)
  {
    hide Storable, Stable, Run, Clean, Steady, Live, Auto, LiveConflict;
    var s := Run(ix, INITIAL, run);
    RunNext(ix, run, Single(OpPutNew(name, Some(doc))));
    WithoutIndexes(ix, s, name, Next(next), doc);
    PutNewTakesEffect(ix, s, name, doc);
  }

  lemma WithoutIndexes(ix: Indexer, s: State, name: Name, id: i64, doc: Doc)
    requires IndexesOf(s, name) == {}
    ensures !LiveConflict(ix, Ensure(s, name), name, id, doc)
  {
  }
}
