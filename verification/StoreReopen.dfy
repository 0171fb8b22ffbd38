/**
 Closing and opening again (db.go's load): the catalog is read back from the engine, so what the next process
 sees is the state in memory exactly if the engine holds its catalog.
 */
module StoreReopen {
  import opened Wrappers
  import opened Bytes
  import opened Keys
  import opened IndexRange
  import opened Document
  import opened Patch
  import opened Store
  import opened StoreInvariants
  import opened StoreSteps
  import opened StoreRuns

  /** `load`: an engine without a catalog is a new database. */
  function LoadedCatalog(e: Engine): Catalog {
    if MetaKey in e && e[MetaKey].CatalogVal? then e[MetaKey].cat else INITIAL.cat
  }

  function Reopened(s: State): State {
    State(s.engine, LoadedCatalog(s.engine), [], false)
  }

  /** The engine holds the catalog in memory, or both are new. */
  ghost predicate Saved(s: State) {
    if MetaKey in s.engine then s.engine[MetaKey] == CatalogVal(s.cat) else s.cat == INITIAL.cat
  }

  lemma SavedReopens(ix: Indexer, s: State)
    requires Clean(ix, s) && Saved(s)
    ensures Reopened(s) == s
  {
    hide Valid;
  }

  /** An engine that holds a catalog holds one catalog: the state is saved for it alone. */
  lemma SavedForOne(s: State, s': State)
    requires Saved(s) && s'.engine == s.engine
    ensures Saved(s') <==> s'.cat == s.cat
  {
  }

  // ----- commits write the catalog -----

  lemma {:induction false} ReplayKeepsMeta(ix: Indexer, e: Engine, cat: Catalog, log: seq<Mutation>)
    requires MetaKey in e && Replay(ix, e, cat, log).Some?
    ensures MetaKey in Replay(ix, e, cat, log).value && Replay(ix, e, cat, log).value[MetaKey] == e[MetaKey]
  {
    if log != [] {
      hide ReplayOne;
      var init := log[..|log| - 1];
      ReplayKeepsMeta(ix, e, cat, init);
      ReplayOneKeepsMeta(ix, Replay(ix, e, cat, init).value, cat, log[|log| - 1]);
    }
  }

  lemma ReplayOneKeepsMeta(ix: Indexer, e: Engine, cat: Catalog, m: Mutation)
    requires MetaKey in e && ReplayOne(ix, e, cat, m).Some?
    ensures MetaKey in ReplayOne(ix, e, cat, m).value && ReplayOne(ix, e, cat, m).value[MetaKey] == e[MetaKey]
  {
    hide Reread, Storable;
  }

  lemma CommitSaves(ix: Indexer, s: State)
    requires Commit(ix, s).error.None? && (s.dirtyMeta || s.pending != [])
    ensures Saved(Commit(ix, s).state)
  {
    hide Replay;
    ReplayKeepsMeta(ix, s.engine[MetaKey := CatalogVal(s.cat)], s.cat, s.pending);
  }

  // ----- single writes -----

  /** A refused document: its text is not JSON, or another live document has one of its unique values. */
  ghost predicate Refused(ix: Indexer, s: State, name: Name, id: i64, raw: Option<Doc>)
    requires name in s.cat.collections
  {
    raw.None? || LiveConflict(ix, s, name, id, raw.value)
  }

  /**
   A refused write that has changed the catalog in memory only: it created its collection, or it is a Put or
   MergeOrPut of a new document that raised NextID.
   */
  ghost predicate Forgets(ix: Indexer, s: State, op: DocOp) {
    match op
    case OpPutNew(name, raw) => name !in s.cat.collections && raw.None?
    case OpPut(name, id, raw) =>
      if name !in s.cat.collections then raw.None?
      else id > s.cat.collections[name].nextId && Refused(ix, s, name, id, raw)
    case OpMergeOrPut(name, id, raw) =>
      if name !in s.cat.collections then raw.None?
      else id > s.cat.collections[name].nextId && ReadDoc(s, false, name, id).None? && Refused(ix, s, name, id, raw)
    case _ => false
  }

  lemma EnsureChanges(s: State, name: Name)
    requires name !in s.cat.collections
    ensures forall s': State | name in s'.cat.collections :: s'.cat != s.cat
  {
  }

  /** With an empty log, putLocked refuses exactly the refused documents, and then changes nothing. */
  lemma PutRefusesExactly(ix: Indexer, s: State, s1: State, name: Name, id: i64, raw: Option<Doc>)
    requires EngineAgrees(ix, s1.engine, s1.cat) && name in s1.cat.collections && name in s.cat.collections
    requires s.engine == s1.engine && s.pending == [] && s1.pending == []
    requires s.cat.collections[name].indexes == s1.cat.collections[name].indexes
    ensures var r := PutLocked(ix, s, name, id, raw);
            && (r.error.Some? <==> Refused(ix, s1, name, id, raw))
            && (r.error.Some? ==> r.state == s) && (r.error.None? ==> r.state.dirtyMeta)
  {
    hide LiveConflict, UniqueConflict, AdjustRNums, EngineAgrees;
    if raw.Some? {
      ConflictDependsOn(ix, s, s1, name, id, raw.value);
      UniqueCheckExact(ix, s1, name, id, raw.value);
      NothingStale(ix, s1, name, id, raw.value);
    }
  }

  lemma FreshRefusesExactly(ix: Indexer, s: State, name: Name, id: i64, raw: Option<Doc>)
    requires name !in s.cat.collections
    ensures Refused(ix, Ensure(s, name), name, id, raw) <==> raw.None?
  {
  }

  /** A recorded write marks the catalog, a refused one changes it exactly if it forgets. */
  lemma RecordChangesExactly(ix: Indexer, s: State, op: DocOp)
    requires Clean(ix, s) && s.cat.next < MAX_I64
    ensures var r := Record(ix, s, false, op);
            && (r.error.None? ==> r.state.dirtyMeta && !Forgets(ix, s, op))
            && (r.error.Some? ==> (r.state.cat != s.cat <==> Forgets(ix, s, op)))
  {
    hide Valid, PutLocked, Refused, EngineAgrees;
    EnsuredAgreesAt(ix, s, op.name);
    var name := op.name;
    var s1 := Ensure(s, name);
    var col := s1.cat.collections[name];
    if name !in s.cat.collections {
      EnsureChanges(s, name);
    }
    match op
    case OpEnsureCollection(_) =>
    case OpPutNew(_, raw) =>
      var id := Next(col.nextId);
      PutRefusesExactly(ix, WithCollection(s1, name, col.(nextId := id)), s1, name, id, raw);
      if name !in s.cat.collections {
        FreshRefusesExactly(ix, s, name, id, raw);
      }
    case OpPut(_, id, raw) => RaisedPut(ix, s, name, id, raw);
    case OpDelete(_, _) =>
    case OpPatch(_, id, patch) =>
      if name in s.cat.collections && ReadDoc(s, false, name, id).Some? {
        PutRefusesExactly(ix, s, s, name, id, patch(ReadDoc(s, false, name, id).value));
      }
    case OpMergeOrPut(_, id, raw) =>
      if ReadDoc(s1, false, name, id).None? {
        RaisedPut(ix, s, name, id, raw);
      } else {
        FreshHasNothing(ix, s, name, id);
        if raw.Some? {
          PutRefusesExactly(ix, s1, s1, name, id, Some(MergePatch(ReadDoc(s1, false, name, id).value, raw.value)));
        }
      }
      if name !in s.cat.collections {
        FreshHasNothing(ix, s, name, id);
      }
  }

  lemma EnsuredAgreesAt(ix: Indexer, s: State, name: Name)
    requires Clean(ix, s) && s.cat.next < MAX_I64
    ensures EngineAgrees(ix, s.engine, s.cat) && EngineAgrees(ix, s.engine, Ensure(s, name).cat)
  {
    CleanEngine(ix, s);
    EnsuredAgrees(ix, s, name);
  }

  lemma FreshHasNothing(ix: Indexer, s: State, name: Name, id: i64)
    requires Clean(ix, s) && s.cat.next < MAX_I64
    ensures name !in s.cat.collections ==> ReadDoc(Ensure(s, name), false, name, id).None?
  {
    if name !in s.cat.collections {
      var dbid := Ensure(s, name).cat.collections[name].dbid;
      FreshDbidUnused(s.engine, s.cat, dbid);
      StoredDocsContents(s.engine, dbid);
    }
  }

  /** The put of Put, and of MergeOrPut for a new document. */
  lemma RaisedPut(ix: Indexer, s: State, name: Name, id: i64, raw: Option<Doc>)
    requires Clean(ix, s) && s.cat.next < MAX_I64
    ensures var r := PutLocked(ix, RaiseNextId(Ensure(s, name), name, id), name, id, raw);
            var changed := if name !in s.cat.collections then raw.None?
                           else id > s.cat.collections[name].nextId && Refused(ix, s, name, id, raw);
            && (r.error.None? ==> r.state.dirtyMeta && !changed)
            && (r.error.Some? ==> (r.state.cat != s.cat <==> changed))
  {
    hide Valid, PutLocked, Refused, EngineAgrees;
    EnsuredAgreesAt(ix, s, name);
    var s1 := Ensure(s, name);
    var s2 := RaiseNextId(s1, name, id);
    PutRefusesExactly(ix, s2, s1, name, id, raw);
    if name !in s.cat.collections {
      EnsureChanges(s, name);
      FreshRefusesExactly(ix, s, name, id, raw);
    } else if id > s.cat.collections[name].nextId {
      assert s2.cat.collections[name].nextId != s.cat.collections[name].nextId;
    }
  }

  /** A single write that does not poison the log leaves the catalog saved if and only if it forgets nothing. */
  lemma SingleSavesExactly(ix: Indexer, s: State, op: DocOp)
    requires Clean(ix, s) && Saved(s) && s.cat.next < MAX_I64 && !Poisons(ix, s, op)
    ensures Saved(Auto(ix, s, op).state) <==> !Forgets(ix, s, op)
  {
    hide Valid, Forgets, Record, Poisons, Saved;
    RecordChangesExactly(ix, s, op);
    RecordGrowsLog(ix, s, false, op);
    PoisonsExactly(ix, s, op);
    var r := Record(ix, s, false, op);
    if r.error.None? {
      RecordKeepsValid(ix, s, false, op);
      CommitExact(ix, r.state);
      CommitSaves(ix, r.state);
    } else {
      SavedForOne(s, r.state);
    }
  }

  // ----- the other commands -----

  /**
   A transaction that reports no error leaves the catalog saved if and only if one of its operations took effect or
   none changed the catalog.
   */
  lemma TransactionSavesExactly(ix: Indexer, s: State, ops: seq<DocOp>, fails: bool)
    requires Saved(s) && s.pending == [] && !s.dirtyMeta
    ensures var after := RecordAll(ix, s, ops);
            Saved(WriteTx(ix, s, ops, fails).state) <==>
            (WriteTx(ix, s, ops, fails).error.Some? || after.dirtyMeta || after.pending != [] || after.cat == s.cat)
  {
    hide RecordAll, Saved, Commit;
    RecordAllGrowsLog(ix, s, ops);
    var after := RecordAll(ix, s, ops);
    if WriteTx(ix, s, ops, fails).error.Some? {
      AbortIsTotal(ix, s, ops, fails);
    } else if after.dirtyMeta || after.pending != [] {
      CommitSaves(ix, after);
    } else {
      NothingToCommit(ix, after);
      SavedForOne(s, after);
    }
  }

  lemma NothingToCommit(ix: Indexer, s: State)
    requires !s.dirtyMeta && s.pending == []
    ensures Commit(ix, s) == Step(s, None)
  {
  }

  lemma RenameSaves(ix: Indexer, s: State, from: Name, to: Name)
    requires Saved(s) && s.pending == []
    ensures Saved(RenameCollection(ix, s, from, to).state)
  {
    hide Commit, Saved;
    if from in s.cat.collections && to !in s.cat.collections {
      var col := s.cat.collections[from];
      var s1 := s.(cat := s.cat.(collections := (s.cat.collections - {from})[to := col]), dirtyMeta := true);
      EmptyLogCommits(ix, s1);
      CommitSaves(ix, s1);
    }
  }

  lemma EmptyLogCommits(ix: Indexer, s: State)
    requires s.pending == []
    ensures Commit(ix, s).error.None?
  {
  }

  lemma EnsureIndexSaves(ix: Indexer, s: State, name: Name, def: IndexDef)
    requires Clean(ix, s) && Saved(s) && s.cat.next + 2 <= MAX_I64
    ensures Saved(EnsureIndex(ix, s, name, def).state)
  {
    hide Valid, Commit, Saved, BuildIndex, ValidIndexPath;
    var s1 := Ensure(s, name);
    if EnsureIndex(ix, s, name, def) == BuildIndex(ix, s1, name, def) && def !in s1.cat.collections[name].indexes {
      BuildSaves(ix, s, name, def);
    }
  }

  lemma BuildSaves(ix: Indexer, s: State, name: Name, def: IndexDef)
    requires Clean(ix, s) && Saved(s) && s.cat.next + 2 <= MAX_I64
    ensures Saved(BuildIndex(ix, Ensure(s, name), name, def).state)
  {
    hide Valid, Commit, Saved, Rebuilt, StoredDocs, TotalValues;
    var s1 := Ensure(s, name);
    var col := s1.cat.collections[name];
    var docs := StoredDocs(s1.engine, col.dbid);
    if name !in s.cat.collections {
      NothingShared(ix, s, name, def);
    }
    if !(def.unique && SharedValue(ix, docs, def)) {
      var dbid := Next(s1.cat.next);
      var idx := IndexState(dbid, TotalValues(ix, docs, def));
      var s2 := WithCollection(s1, name, col.(indexes := col.indexes[def := idx]));
      var e := Rebuilt(ix, s1.engine, docs, def, dbid)[MetaKey := CatalogVal(s2.cat)];
      var s3 := s2.(engine := e, cat := s2.cat.(next := dbid), dirtyMeta := true);
      EmptyLogCommits(ix, s3);
      CommitSaves(ix, s3);
    }
  }

  /** A new collection has no documents, so no two of them share a value. */
  lemma NothingShared(ix: Indexer, s: State, name: Name, def: IndexDef)
    requires Clean(ix, s) && s.cat.next < MAX_I64 && name !in s.cat.collections
    ensures !SharedValue(ix, StoredDocs(s.engine, Ensure(s, name).cat.collections[name].dbid), def)
  {
    FreshDbidUnused(s.engine, s.cat, Ensure(s, name).cat.collections[name].dbid);
  }

  lemma DropsSave(s: State, name: Name)
    requires Saved(s)
    ensures Saved(RemoveCollection(s, name).state)
  {
    hide DropPrefix, DropIndexes;
  }

  lemma RemoveIndexSaves(s: State, name: Name, path: bytes, kind: IndexKind)
    requires Saved(s)
    ensures Saved(RemoveIndex(s, name, path, kind).state)
  {
    hide DropIndexes;
  }

  // ----- runs -----

  /** The command changes the catalog in memory only. */
  ghost predicate LeavesBehind(ix: Indexer, s: State, c: Command) {
    match c
    case Single(op) => Forgets(ix, s, op)
    case Transaction(ops, fails) =>
      var after := RecordAll(ix, s, ops);
      WriteTx(ix, s, ops, fails).error.None? && !after.dirtyMeta && after.pending == [] && after.cat != s.cat
    case _ => false
  }

  /** After a command the catalog is saved if and only if the command left nothing behind. */
  lemma ExecuteSavesExactly(ix: Indexer, s: State, c: Command)
    requires Clean(ix, s) && Saved(s) && Sound(ix, s, c) && s.cat.next + Cost(c) <= MAX_I64
    ensures Saved(Execute(ix, s, c).state) <==> !LeavesBehind(ix, s, c)
  {
    hide Valid, Saved, Poisons, Auto, Record, Forgets, RecordAll, WriteTx, RenameCollection, EnsureIndex, RemoveCollection, RemoveIndex;
    match c
    case Single(op) => SingleSavesExactly(ix, s, op);
    case DropCollection(name) => DropsSave(s, name);
    case Rename(from, to) => RenameSaves(ix, s, from, to);
    case AddIndex(name, def) => EnsureIndexSaves(ix, s, name, def);
    case DropIndex(name, path, kind) => RemoveIndexSaves(s, name, path, kind);
    case Transaction(ops, fails) => TransactionSavesExactly(ix, s, ops, fails);
  }

  ghost predicate NeverLeaves(ix: Indexer, run: seq<Command>) {
    run == [] ||
    (NeverLeaves(ix, run[..|run| - 1]) && !LeavesBehind(ix, Run(ix, INITIAL, run[..|run| - 1]), run[|run| - 1]))
  }

  /** After every run that leaves nothing behind, closing and opening again gives the same database. */
  lemma {:induction false} EveryRunReopens(ix: Indexer, run: seq<Command>)
    requires Tame(ix, INITIAL, run) && 1 + TotalCost(run) <= MAX_I64 && NeverLeaves(ix, run)
    ensures Saved(Run(ix, INITIAL, run)) && Reopened(Run(ix, INITIAL, run)) == Run(ix, INITIAL, run)
  {
    EveryRunIsClean(ix, run);
    if run != [] {
      var init, c := run[..|run| - 1], run[|run| - 1];
      EveryRunReopens(ix, init);
      EveryRunIsClean(ix, init);
      hide Clean, Saved, Sound, Execute, LeavesBehind;
      ExecuteSavesExactly(ix, Run(ix, INITIAL, init), c);
    }
    SavedReopens(ix, Run(ix, INITIAL, run));
  }

  /** A put of text that is not JSON creates its collection in memory, and the next process does not see it. */
  lemma RefusedPutIsForgotten(ix: Indexer, name: Name)
    ensures var s := Run(ix, INITIAL, [Single(OpPut(name, 1, None))]);
            name in s.cat.collections && name !in Reopened(s).cat.collections
  {
    var run := [Single(OpPut(name, 1, None))];
    assert run[..0] == [];
    assert Run(ix, INITIAL, run[..0]) == INITIAL;
    var s1 := RaiseNextId(Ensure(INITIAL, name), name, 1);
    assert PutLocked(ix, s1, name, 1, None) == Step(s1, Some(ErrInvalidJson));
    assert Run(ix, INITIAL, run) == s1;
  }
}
