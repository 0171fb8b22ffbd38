/**
 Document ids: NextID bounds every live id of its collection, so PutNew never overwrites a document,
 until the sequence is used up.
 */
module StoreIds {
  import opened Wrappers
  import opened Bytes
  import opened Keys
  import opened IndexRange
  import opened Document
  import opened Patch
  import opened Store
  import opened StoreInvariants
  import opened StoreReplay
  import opened StoreStable
  import opened StoreSteps
  import opened StoreRuns

  ghost predicate Bounds(col: Collection, docs: map<i64, Doc>) {
    forall id | id in docs :: id <= col.nextId
  }

  ghost predicate NextIdsOk(s: State) {
    forall n | n in s.cat.collections :: Bounds(s.cat.collections[n], Live(s, n))
  }

  /**
   The id PutNew is about to use names a live document exactly when the sequence is at its largest
   value, so that it wraps around, and the smallest id is in use.
   */
  lemma PutNewOverwritesExactly(s: State, name: Name)
    requires NextIdsOk(s) && name in s.cat.collections
    ensures Next(s.cat.collections[name].nextId) in Live(s, name)
       <==> s.cat.collections[name].nextId == MAX_I64 && MIN_I64 in Live(s, name)
  {
    assert Bounds(s.cat.collections[name], Live(s, name));
  }

  /** PutNew on a collection whose sequence has reached the end. */
  predicate Exhausts(s: State, op: DocOp) {
    op.OpPutNew? && op.name in s.cat.collections && s.cat.collections[op.name].nextId == MAX_I64
  }

  // ----- document operations -----

  lemma PutKeepsIds(ix: Indexer, s: State, name: Name, id: i64, raw: Option<Doc>)
    requires NextIdsOk(s) && name in s.cat.collections && id <= s.cat.collections[name].nextId
    ensures NextIdsOk(PutLocked(ix, s, name, id, raw).state)
  {
    var r := PutLocked(ix, s, name, id, raw);
    if r.error.None? {
      PutAppends(ix, s, name, id, raw);
      var m := PutDoc(name, id, CurrentDoc(s, name, id), raw.value);
      forall n | n in r.state.cat.collections ensures Bounds(r.state.cat.collections[n], Live(r.state, n)) {
        AppendShowsInLive(ix, s, r.state, m, n);
        assert Bounds(s.cat.collections[n], Live(s, n));
      }
    }
  }

  lemma DeleteKeepsIds(ix: Indexer, s: State, name: Name, id: i64, doc: Doc)
    requires NextIdsOk(s) && name in s.cat.collections
    ensures NextIdsOk(DeleteLocked(ix, s, name, id, doc))
  {
    var s' := DeleteLocked(ix, s, name, id, doc);
    DeleteAppends(ix, s, name, id, doc);
    forall n | n in s'.cat.collections ensures Bounds(s'.cat.collections[n], Live(s', n)) {
      AppendShowsInLive(ix, s, s', DeleteDoc(name, id, doc), n);
      assert Bounds(s.cat.collections[n], Live(s, n));
    }
  }

  lemma EnsureKeepsIds(ix: Indexer, s: State, name: Name)
    requires Valid(ix, s) && s.cat.next < MAX_I64 && NextIdsOk(s)
    ensures NextIdsOk(Ensure(s, name))
  {
    var s' := Ensure(s, name);
    EnsureKeepsValid(ix, s, name);
    if name !in s.cat.collections {
      NewCollectionEmpty(ix, s, name);
    }
    hide Valid;
    forall n | n in s'.cat.collections ensures Bounds(s'.cat.collections[n], Live(s', n)) {
      if n in s.cat.collections {
        assert Bounds(s.cat.collections[n], Live(s, n));
      }
    }
  }

  lemma HigherNextIdKeepsIds(s: State, name: Name, next: i64)
    requires NextIdsOk(s) && name in s.cat.collections && next >= s.cat.collections[name].nextId
    ensures NextIdsOk(WithNextId(s, name, next))
  {
    var s' := WithNextId(s, name, next);
    forall n | n in s'.cat.collections ensures Bounds(s'.cat.collections[n], Live(s', n)) {
      NextIdKeepsLive(s, name, next, n);
      assert Bounds(s.cat.collections[n], Live(s, n));
    }
  }

  lemma RaisedIds(s: State, name: Name, id: i64)
    requires NextIdsOk(s) && name in s.cat.collections
    ensures name in RaiseNextId(s, name, id).cat.collections
    ensures NextIdsOk(RaiseNextId(s, name, id))
    ensures id <= RaiseNextId(s, name, id).cat.collections[name].nextId
  {
    if id > s.cat.collections[name].nextId {
      HigherNextIdKeepsIds(s, name, id);
    }
  }

  lemma ReadIdsAreBounded(ix: Indexer, s: State, inTx: bool, name: Name, id: i64)
    requires Valid(ix, s) && NextIdsOk(s) && name in s.cat.collections && (inTx || s.pending == [])
    ensures ReadDoc(s, inTx, name, id).Some? ==> id <= s.cat.collections[name].nextId
  {
    ReadsAgree(ix, s, inTx, name, id);
    hide Valid;
    assert Bounds(s.cat.collections[name], Live(s, name));
  }

  lemma PutNewKeepsIds(ix: Indexer, s: State, name: Name, raw: Option<Doc>)
    requires Valid(ix, s) && s.cat.next < MAX_I64 && NextIdsOk(s) && !Exhausts(s, OpPutNew(name, raw))
    ensures NextIdsOk(PutNew(ix, s, name, raw).state)
  {
    hide Valid, PutLocked, NextIdsOk;
    EnsureKeepsIds(ix, s, name);
    var s1 := Ensure(s, name);
    var id := Next(s1.cat.collections[name].nextId);
    HigherNextIdKeepsIds(s1, name, id);
    PutKeepsIds(ix, WithNextId(s1, name, id), name, id, raw);
  }

  lemma PutOpKeepsIds(ix: Indexer, s: State, name: Name, id: i64, raw: Option<Doc>)
    requires Valid(ix, s) && s.cat.next < MAX_I64 && NextIdsOk(s)
    ensures NextIdsOk(Put(ix, s, name, id, raw).state)
  {
    hide Valid, PutLocked, NextIdsOk;
    EnsureKeepsIds(ix, s, name);
    RaisedIds(Ensure(s, name), name, id);
    PutKeepsIds(ix, RaiseNextId(Ensure(s, name), name, id), name, id, raw);
  }

  lemma DeleteOpKeepsIds(ix: Indexer, s: State, inTx: bool, name: Name, id: i64)
    requires NextIdsOk(s)
    ensures NextIdsOk(Delete(ix, s, inTx, name, id).state)
  {
    hide NextIdsOk, DeleteLocked;
    if name in s.cat.collections && ReadDoc(s, inTx, name, id).Some? {
      DeleteKeepsIds(ix, s, name, id, ReadDoc(s, inTx, name, id).value);
    }
  }

  lemma PatchKeepsIds(ix: Indexer, s: State, inTx: bool, name: Name, id: i64, patch: Doc -> Option<Doc>)
    requires Valid(ix, s) && (inTx || s.pending == []) && NextIdsOk(s)
    ensures NextIdsOk(PatchDoc(ix, s, inTx, name, id, patch).state)
  {
    hide Valid, PutLocked, NextIdsOk;
    if name in s.cat.collections && ReadDoc(s, inTx, name, id).Some? {
      ReadIdsAreBounded(ix, s, inTx, name, id);
      PutKeepsIds(ix, s, name, id, patch(ReadDoc(s, inTx, name, id).value));
    }
  }

  lemma MergeOrPutKeepsIds(ix: Indexer, s: State, inTx: bool, name: Name, id: i64, raw: Option<Doc>)
    requires Valid(ix, s) && (inTx || s.pending == []) && s.cat.next < MAX_I64 && NextIdsOk(s)
    ensures NextIdsOk(MergeOrPut(ix, s, inTx, name, id, raw).state)
  {
    hide Valid, PutLocked, NextIdsOk, MergePatch;
    EnsureKeepsValid(ix, s, name);
    EnsureKeepsIds(ix, s, name);
    var s1 := Ensure(s, name);
    ReadIdsAreBounded(ix, s1, inTx, name, id);
    var cur := ReadDoc(s1, inTx, name, id);
    if cur.None? {
      RaisedIds(s1, name, id);
      PutKeepsIds(ix, RaiseNextId(s1, name, id), name, id, raw);
    } else if raw.Some? {
      PutKeepsIds(ix, s1, name, id, Some(MergePatch(cur.value, raw.value)));
    }
  }

  lemma RecordKeepsIds(ix: Indexer, s: State, inTx: bool, op: DocOp)
    requires Valid(ix, s) && (inTx || s.pending == []) && s.cat.next < MAX_I64
    requires NextIdsOk(s) && !Exhausts(s, op)
    ensures NextIdsOk(Record(ix, s, inTx, op).state)
  {
    hide Valid, NextIdsOk, PutNew, Put, Delete, PatchDoc, MergeOrPut;
    match op
    case OpEnsureCollection(name) =>
      EnsureKeepsIds(ix, s, name);
      DirtyKeepsIds(Ensure(s, name));
    case OpPutNew(name, raw) => PutNewKeepsIds(ix, s, name, raw);
    case OpPut(name, id, raw) => PutOpKeepsIds(ix, s, name, id, raw);
    case OpDelete(name, id) => DeleteOpKeepsIds(ix, s, inTx, name, id);
    case OpPatch(name, id, patch) => PatchKeepsIds(ix, s, inTx, name, id, patch);
    case OpMergeOrPut(name, id, raw) => MergeOrPutKeepsIds(ix, s, inTx, name, id, raw);
  }

  lemma DirtyKeepsIds(s: State)
    requires NextIdsOk(s)
    ensures NextIdsOk(s.(dirtyMeta := true))
  {
    var s' := s.(dirtyMeta := true);
    forall n | n in s'.cat.collections ensures Bounds(s'.cat.collections[n], Live(s', n)) {
      assert Live(s', n) == Live(s, n);
      assert Bounds(s.cat.collections[n], Live(s, n));
    }
  }

  // ----- transactions and commands -----

  ghost predicate NeverExhausts(ix: Indexer, s: State, ops: seq<DocOp>) {
    ops == [] ||
    (NeverExhausts(ix, s, ops[..|ops| - 1]) && !Exhausts(RecordAll(ix, s, ops[..|ops| - 1]), ops[|ops| - 1]))
  }

  lemma {:induction false} RecordAllKeepsIds(ix: Indexer, s: State, ops: seq<DocOp>)
    requires Valid(ix, s) && s.cat.next + |ops| <= MAX_I64 && NextIdsOk(s) && NeverExhausts(ix, s, ops)
    ensures NextIdsOk(RecordAll(ix, s, ops))
  {
    if ops != [] {
      var init := ops[..|ops| - 1];
      RecordAllKeepsIds(ix, s, init);
      RecordAllKeepsValid(ix, s, init);
      hide Valid, NextIdsOk;
      RecordKeepsIds(ix, RecordAll(ix, s, init), true, ops[|ops| - 1]);
    }
  }

  lemma CommitKeepsIds(ix: Indexer, s: State)
    requires Valid(ix, s) && NextIdsOk(s) && AllStable(s.pending)
    ensures NextIdsOk(Commit(ix, s).state)
  {
    CommitExact(ix, s);
    hide Valid, Commit;
    var r := Commit(ix, s).state;
    if Commit(ix, s).error.None? {
      forall n | n in r.cat.collections ensures Bounds(r.cat.collections[n], Live(r, n)) {
        assert Bounds(s.cat.collections[n], Live(s, n));
      }
    }
  }

  ghost predicate Exhausting(ix: Indexer, s: State, c: Command) {
    match c
    case Single(op) => Exhausts(s, op)
    case Transaction(ops, _) => !NeverExhausts(ix, s, ops)
    case _ => false
  }

  /** The collection `n` comes from `o`: same documents, same NextID. */
  ghost predicate CarriedFrom(s: State, s': State, n: Name, o: Name)
    requires n in s'.cat.collections
  {
    && o in s.cat.collections && s'.cat.collections[n].nextId == s.cat.collections[o].nextId
    && Live(s', n) == Live(s, o)
  }

  function Origin(n: Name, from: Name, to: Name): Name {
    if n == to then from else n
  }

  /** Every collection after the command is one from before, possibly renamed. */
  ghost predicate Carries(s: State, s': State, from: Name, to: Name) {
    forall n | n in s'.cat.collections :: CarriedFrom(s, s', n, Origin(n, from, to))
  }

  lemma CarriedIds(s: State, s': State, from: Name, to: Name)
    requires NextIdsOk(s) && Carries(s, s', from, to)
    ensures NextIdsOk(s')
  {
    forall n | n in s'.cat.collections ensures Bounds(s'.cat.collections[n], Live(s', n)) {
      var o := Origin(n, from, to);
      assert CarriedFrom(s, s', n, o);
      assert Bounds(s.cat.collections[o], Live(s, o));
    }
  }

  lemma DropCollectionCarries(ix: Indexer, s: State, name: Name)
    requires Clean(ix, s)
    ensures Carries(s, RemoveCollection(s, name).state, name, name)
  {
    var r := RemoveCollection(s, name).state;
    if name in s.cat.collections {
      CleanEngine(ix, s);
      RemoveCollectionRestricts(s, name);
      RemoveCollectionKeepsOwned(s, name);
      RestrictKeepsEngine(ix, s.engine, r.engine, s.cat, r.cat);
      hide Valid, StoredDocs;
      forall n | n in r.cat.collections ensures CarriedFrom(s, r, n, Origin(n, name, name)) {
        LiveIsStored(s, n);
        LiveIsStored(r, n);
      }
    }
  }

  lemma DropIndexCarries(ix: Indexer, s: State, name: Name, path: bytes, kind: IndexKind)
    requires Clean(ix, s)
    ensures Carries(s, RemoveIndex(s, name, path, kind).state, name, name)
  {
    hide Valid, StoredDocs, DropIndexes, EngineOk;
    var r := RemoveIndex(s, name, path, kind).state;
    if RemoveIndex(s, name, path, kind).error.None? {
      CleanEngine(ix, s);
      RemoveIndexKeepsEngine(ix, s, name, path, kind);
      forall n | n in r.cat.collections ensures CarriedFrom(s, r, n, Origin(n, name, name)) {
        LiveIsStored(s, n);
        LiveIsStored(r, n);
      }
    }
  }

  lemma MetaWriteKeepsDocs(e: Engine, v: Val, dbid: i64)
    ensures StoredDocs(e[MetaKey := v], dbid) == StoredDocs(e, dbid)
  {
    StoredDocsFrame(e, e[MetaKey := v], dbid);
  }

  lemma RenameResult(ix: Indexer, s: State, from: Name, to: Name)
    requires s.pending == [] && from in s.cat.collections && to !in s.cat.collections
    ensures
      var cat' := Renamed(s.cat, from, to);
      RenameCollection(ix, s, from, to).state == State(s.engine[MetaKey := CatalogVal(cat')], cat', [], false)
  {
  }

  lemma RenameCarries(ix: Indexer, s: State, from: Name, to: Name)
    requires Clean(ix, s)
    ensures RenameCollection(ix, s, from, to).state == s || Carries(s, RenameCollection(ix, s, from, to).state, from, to)
  {
    hide Valid, EngineOk, StoredDocs, Commit;
    CleanEngine(ix, s);
    if from in s.cat.collections && to !in s.cat.collections {
      RenameResult(ix, s, from, to);
      hide RenameCollection;
      var r := RenameCollection(ix, s, from, to).state;
      forall n | n in r.cat.collections ensures CarriedFrom(s, r, n, Origin(n, from, to)) {
        var o := Origin(n, from, to);
        assert o in s.cat.collections && r.cat.collections[n] == s.cat.collections[o];
        MetaWriteKeepsDocs(s.engine, CatalogVal(r.cat), s.cat.collections[o].dbid);
        LiveIsStored(s, o);
        LiveIsStored(r, n);
      }
    }
  }

  lemma AddIndexResult(ix: Indexer, s: State, name: Name, def: IndexDef)
    requires s.pending == [] && name in s.cat.collections
    requires EnsureIndex(ix, s, name, def).state != s
    ensures
      var docs := StoredDocs(s.engine, s.cat.collections[name].dbid);
      var idx := IndexState(Next(s.cat.next), TotalValues(ix, docs, def));
      var cat' := WithIndex(s.cat, name, def, idx);
      var built := Rebuilt(ix, s.engine, docs, def, idx.dbid);
      && !(def.unique && SharedValue(ix, docs, def))
      && EnsureIndex(ix, s, name, def).state
           == State(built[MetaKey := CatalogVal(cat'.(next := s.cat.next))][MetaKey := CatalogVal(cat')], cat', [], false)
  {
    hide Rebuilt, StoredDocs, TotalValues;
  }

  lemma AddIndexCarries(ix: Indexer, s: State, name: Name, def: IndexDef)
    requires Clean(ix, s) && name in s.cat.collections
    ensures Carries(s, EnsureIndex(ix, s, name, def).state, name, name)
  {
    hide Valid, EngineOk, StoredDocs, TotalValues, EnsureIndex, Rebuilt, IndexAgrees;
    CleanEngine(ix, s);
    var r := EnsureIndex(ix, s, name, def).state;
    if r != s {
      AddIndexResult(ix, s, name, def);
      var docs := StoredDocs(s.engine, s.cat.collections[name].dbid);
      RebuiltAgrees(ix, s.engine, docs, def, Next(s.cat.next));
      forall n | n in r.cat.collections ensures CarriedFrom(s, r, n, Origin(n, name, name)) {
        assert n in s.cat.collections && r.cat.collections[n].dbid == s.cat.collections[n].dbid;
        RebuildKeepsDocs(s.engine, Rebuilt(ix, s.engine, docs, def, Next(s.cat.next)), Next(s.cat.next),
                         CatalogVal(r.cat.(next := s.cat.next)), CatalogVal(r.cat), s.cat.collections[n].dbid);
        LiveIsStored(s, n);
        LiveIsStored(r, n);
      }
    }
  }

  lemma RebuildKeepsDocs(e: Engine, built: Engine, indexDbid: i64, v: Val, w: Val, dbid: i64)
    requires forall k | !IndexKeyOf(k, indexDbid) :: SameAt(e, built, k)
    ensures StoredDocs(built[MetaKey := v][MetaKey := w], dbid) == StoredDocs(e, dbid)
  {
    hide StoredDocs;
    StoredDocsFrame(e, built, dbid);
    MetaWriteKeepsDocs(built, v, dbid);
    MetaWriteKeepsDocs(built[MetaKey := v], w, dbid);
  }

  lemma AddIndexKeepsIds(ix: Indexer, s: State, name: Name, def: IndexDef)
    requires Clean(ix, s) && NextIdsOk(s) && s.cat.next < MAX_I64
    ensures NextIdsOk(EnsureIndex(ix, s, name, def).state)
  {
    EnsureKeepsValid(ix, s, name);
    EnsureKeepsIds(ix, s, name);
    hide Valid, NextIdsOk, Commit, Rebuilt;
    var s1 := Ensure(s, name);
    AddIndexCarries(ix, s1, name, def);
    CarriedIds(s1, EnsureIndex(ix, s1, name, def).state, name, name);
  }

  lemma ExecuteKeepsIds(ix: Indexer, s: State, c: Command)
    requires Clean(ix, s) && Steady(s) && Sound(ix, s, c)
    requires s.cat.next + Cost(c) <= MAX_I64 && NextIdsOk(s) && !Exhausting(ix, s, c)
    ensures NextIdsOk(Execute(ix, s, c).state)
  {
    hide Valid, NextIdsOk, RenameCollection, EnsureIndex, RemoveIndex, RemoveCollection, Commit, Poisons, StableEngine;
    match c
    case Single(op) =>
      RecordKeepsIds(ix, s, false, op);
      RecordKeepsValid(ix, s, false, op);
      RecordKeepsSteady(ix, s, false, op);
      CommitKeepsIds(ix, Record(ix, s, false, op).state);
    case DropCollection(name) =>
      DropCollectionCarries(ix, s, name);
      CarriedIds(s, RemoveCollection(s, name).state, name, name);
    case Rename(from, to) =>
      RenameCarries(ix, s, from, to);
      if RenameCollection(ix, s, from, to).state != s {
        CarriedIds(s, RenameCollection(ix, s, from, to).state, from, to);
      }
    case AddIndex(name, def) => AddIndexKeepsIds(ix, s, name, def);
    case DropIndex(name, path, kind) =>
      DropIndexCarries(ix, s, name, path, kind);
      CarriedIds(s, RemoveIndex(s, name, path, kind).state, name, name);
    case Transaction(ops, fails) => TransactionKeepsIds(ix, s, ops, fails);
  }

  lemma TransactionKeepsIds(ix: Indexer, s: State, ops: seq<DocOp>, fails: bool)
    requires Clean(ix, s) && Steady(s) && StableOps(ops)
    requires s.cat.next + |ops| <= MAX_I64 && NextIdsOk(s) && NeverExhausts(ix, s, ops)
    ensures NextIdsOk(WriteTx(ix, s, ops, fails).state)
  {
    CleanEngine(ix, s);
    hide Valid, NextIdsOk, Commit;
    RecordAllKeepsIds(ix, s, ops);
    RecordAllKeepsValid(ix, s, ops);
    RecordAllKeepsSteady(ix, s, ops);
    CommitKeepsIds(ix, RecordAll(ix, s, ops));
    if WriteTx(ix, s, ops, fails).error.Some? {
      AbortIsTotal(ix, s, ops, fails);
    }
  }

  ghost predicate NeverExhausting(ix: Indexer, s: State, run: seq<Command>) {
    run == [] ||
    (NeverExhausting(ix, s, run[..|run| - 1]) && !Exhausting(ix, Run(ix, s, run[..|run| - 1]), run[|run| - 1]))
  }

  /** In every run that does not use up a sequence, NextID bounds all live ids, so PutNew is always fresh. */
  lemma {:induction false} EveryRunBoundsIds(ix: Indexer, run: seq<Command>)
    requires Tame(ix, INITIAL, run) && 1 + TotalCost(run) <= MAX_I64 && NeverExhausting(ix, INITIAL, run)
    ensures NextIdsOk(Run(ix, INITIAL, run))
  {
    if run != [] {
      var init := run[..|run| - 1];
      EveryRunBoundsIds(ix, init);
      EveryRunIsClean(ix, init);
      hide Clean, Steady, Sound, NextIdsOk, Execute;
      ExecuteKeepsIds(ix, Run(ix, INITIAL, init), run[|run| - 1]);
    }
  }
}
