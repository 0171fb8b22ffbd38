/**
 What every operation of the database does to its documents, collections and indexes, told in terms of the live
 documents alone: the reference against which the operations of module Store are held.
 */
module StoreOutcomes {
  import opened Wrappers
  import opened Bytes
  import opened Document
  import opened Patch
  import opened Store
  import opened StoreInvariants
  import opened StoreReplay
  import opened StoreStable
  import opened StoreSteps
  import opened StoreRuns
  import opened StoreEffects

  // ----- document operations -----

  /** Putting a document among the others, unless a unique value of it is claimed. */
  ghost function PutAmong(ix: Indexer, s: State, name: Name, id: i64, raw: Option<Doc>): Result<map<i64, Doc>, Error> {
    if raw.None? then Err(ErrInvalidJson)
    else if UniqueConflict(ix, Ensure(s, name), name, id, raw.value) then Err(ErrUniqueConstraint)
    else Ok(DocsOf(s, name)[id := raw.value])
  }

  /** The documents of the collection after an operation, or its error. */
  ghost function Outcome(ix: Indexer, s: State, op: DocOp): Result<map<i64, Doc>, Error> {
    var docs := DocsOf(s, op.name);
    match op
    case OpEnsureCollection(_) => Ok(docs)
    case OpPutNew(name, raw) => PutAmong(ix, s, name, Next(NextIdOf(s, name)), raw)
    case OpPut(name, id, raw) => PutAmong(ix, s, name, id, raw)
    case OpDelete(_, id) => if id in docs then Ok(docs - {id}) else Err(ErrNotFound)
    case OpPatch(name, id, patch) =>
      if id !in docs then Err(ErrNotFound)
      else if patch(docs[id]).None? then Err(ErrPatchFailed)
      else PutAmong(ix, s, name, id, patch(docs[id]))
    case OpMergeOrPut(name, id, raw) =>
      if id !in docs || raw.None? then PutAmong(ix, s, name, id, raw)
      else PutAmong(ix, s, name, id, Some(MergePatch(docs[id], raw.value)))
  }

  /** The documents of one collection are these, those of all others are as they were. */
  ghost predicate OnlyChanges(s: State, s': State, name: Name, docs: map<i64, Doc>) {
    DocsOf(s', name) == docs && forall n | n != name :: DocsOf(s', n) == DocsOf(s, n)
  }

  /** The step does to the documents what the outcome says; a failed one changes none. */
  ghost predicate Achieves(s: State, r: Step, name: Name, outcome: Result<map<i64, Doc>, Error>) {
    match outcome
    case Ok(docs) => r.error.None? && OnlyChanges(s, r.state, name, docs)
    case Err(error) => r.error == Some(error) && OnlyChanges(s, r.state, name, DocsOf(s, name))
  }

  lemma AppendedDocs(ix: Indexer, s: State, s': State, m: Mutation)
    requires m.name in s.cat.collections && Appends(ix, s, s', m)
    ensures OnlyChanges(s, s', m.name, OverlayOne(DocsOf(s, m.name), m, m.name))
  {
    hide Live, CountsMutation;
    forall n | n in s.cat.collections ensures Live(s', n) == OverlayOne(Live(s, n), m, n) {
      AppendShowsInLive(ix, s, s', m, n);
    }
  }

  /** putLocked, from a state that differs from `s` in the catalog entries of the collection only. */
  lemma PutAchieves(ix: Indexer, s: State, s1: State, name: Name, id: i64, raw: Option<Doc>)
    requires name in s1.cat.collections && s1.engine == s.engine && s1.pending == s.pending
    requires s1.cat.collections[name].indexes == Ensure(s, name).cat.collections[name].indexes
    requires OnlyChanges(s, s1, name, DocsOf(s, name))
    ensures Achieves(s, PutLocked(ix, s1, name, id, raw), name, PutAmong(ix, s, name, id, raw))
  {
    hide UniqueConflict, Live, AdjustRNums;
    if raw.Some? {
      ConflictDependsOn(ix, s1, Ensure(s, name), name, id, raw.value);
      if !UniqueConflict(ix, s1, name, id, raw.value) {
        PutAppends(ix, s1, name, id, raw);
        AppendedDocs(ix, s1, PutLocked(ix, s1, name, id, raw).state, PutDoc(name, id, CurrentDoc(s1, name, id), raw.value));
      }
    }
  }

  /** Creating the collection and numbering it changes no documents. */
  lemma PreparedDocs(ix: Indexer, s: State, name: Name, next: i64)
    requires Valid(ix, s) && s.cat.next < MAX_I64
    ensures OnlyChanges(s, Ensure(s, name), name, DocsOf(s, name))
    ensures OnlyChanges(s, WithNextId(Ensure(s, name), name, next), name, DocsOf(s, name))
    ensures OnlyChanges(s, RaiseNextId(Ensure(s, name), name, next), name, DocsOf(s, name))
  {
    hide Valid, Live, OnlyChanges;
    var s1 := Ensure(s, name);
    EnsuredOnly(ix, s, name);
    RenumberedOnly(s1, name, next);
    RenumberedOnly(s1, name, s1.cat.collections[name].nextId);
    SameNumber(s1, name);
    ChangesTwice(s, s1, WithNextId(s1, name, next), name);
    ChangesTwice(s, s1, RaiseNextId(s1, name, next), name);
  }

  lemma EnsuredOnly(ix: Indexer, s: State, name: Name)
    requires Valid(ix, s) && s.cat.next < MAX_I64
    ensures OnlyChanges(s, Ensure(s, name), name, DocsOf(s, name))
  {
    hide EngineAgrees, CountersOk;
    EnsureKeepsValid(ix, s, name);
    if name !in s.cat.collections {
      NewCollectionEmpty(ix, s, name);
    }
  }

  lemma RenumberedOnly(s: State, name: Name, next: i64)
    requires name in s.cat.collections
    ensures OnlyChanges(s, WithNextId(s, name, next), name, DocsOf(s, name))
  {
    hide Live;
    forall n | n in s.cat.collections ensures Live(WithNextId(s, name, next), n) == Live(s, n) {
      NextIdKeepsLive(s, name, next, n);
    }
  }

  lemma SameNumber(s: State, name: Name)
    requires name in s.cat.collections
    ensures WithNextId(s, name, s.cat.collections[name].nextId) == s
  {
    var cols := s.cat.collections;
    assert cols[name := cols[name].(nextId := cols[name].nextId)] == cols;
  }

  lemma ChangesTwice(s: State, s1: State, s2: State, name: Name)
    requires OnlyChanges(s, s1, name, DocsOf(s, name)) && OnlyChanges(s1, s2, name, DocsOf(s1, name))
    ensures OnlyChanges(s, s2, name, DocsOf(s, name))
  {
    hide DocsOf;
  }

  /** What an operation reads is the live document. */
  lemma ReadsLive(ix: Indexer, s: State, inTx: bool, name: Name, id: i64)
    requires Valid(ix, s) && s.cat.next < MAX_I64 && (inTx || s.pending == [])
    ensures ReadDoc(Ensure(s, name), inTx, name, id) == Find(DocsOf(s, name), id)
  {
    hide EngineAgrees, CountersOk;
    EnsureKeepsValid(ix, s, name);
    if name !in s.cat.collections {
      NewCollectionEmpty(ix, s, name);
    }
    hide Valid;
    ReadsAgree(ix, Ensure(s, name), inTx, name, id);
  }

  /**
   Every document operation, inside a transaction or outside before its commit, does to the live documents what its
   outcome says, reports the outcome's error, and leaves every other collection alone.
   */
  lemma RecordAchieves(ix: Indexer, s: State, inTx: bool, op: DocOp)
    requires Valid(ix, s) && s.cat.next < MAX_I64 && (inTx || s.pending == [])
    ensures Achieves(s, Record(ix, s, inTx, op), op.name, Outcome(ix, s, op))
  {
    hide Valid, PutLocked, PutAmong, MergePatch, OnlyChanges, Achieves, DeleteLocked;
    var name := op.name;
    var s1 := Ensure(s, name);
    match op
    case OpEnsureCollection(_) => EnsuredAchieves(ix, s, name);
    case OpPutNew(_, raw) => PutNewAchieves(ix, s, name, raw);
    case OpPut(_, id, raw) =>
      PreparedDocs(ix, s, name, id);
      PutAchieves(ix, s, RaiseNextId(s1, name, id), name, id, raw);
    case OpDelete(_, id) => DeleteAchieves(ix, s, inTx, name, id);
    case OpPatch(_, id, patch) => PatchAchieves(ix, s, inTx, name, id, patch);
    case OpMergeOrPut(_, id, raw) => MergeAchieves(ix, s, inTx, name, id, raw);
  }

  lemma EnsuredAchieves(ix: Indexer, s: State, name: Name)
    requires Valid(ix, s) && s.cat.next < MAX_I64
    ensures Achieves(s, Step(Ensure(s, name).(dirtyMeta := true), None), name, Ok(DocsOf(s, name)))
  {
    hide Valid, StoredDocs;
    PreparedDocs(ix, s, name, 0);
  }

  lemma PutNewAchieves(ix: Indexer, s: State, name: Name, raw: Option<Doc>)
    requires Valid(ix, s) && s.cat.next < MAX_I64
    ensures Achieves(s, PutNew(ix, s, name, raw), name, PutAmong(ix, s, name, Next(NextIdOf(s, name)), raw))
  {
    hide Valid, PutLocked, PutAmong, Live;
    var id := Next(NextIdOf(s, name));
    PreparedDocs(ix, s, name, id);
    PutAchieves(ix, s, WithNextId(Ensure(s, name), name, id), name, id, raw);
  }

  lemma DeleteAchieves(ix: Indexer, s: State, inTx: bool, name: Name, id: i64)
    requires Valid(ix, s) && s.cat.next < MAX_I64 && (inTx || s.pending == [])
    ensures Achieves(s, Delete(ix, s, inTx, name, id), name,
                     if id in DocsOf(s, name) then Ok(DocsOf(s, name) - {id}) else Err(ErrNotFound))
  {
    hide Valid, Live, AdjustRNums, DeleteLocked;
    ReadsLive(ix, s, inTx, name, id);
    if id in DocsOf(s, name) {
      var doc := DocsOf(s, name)[id];
      DeleteAppends(ix, s, name, id, doc);
      AppendedDocs(ix, s, DeleteLocked(ix, s, name, id, doc), DeleteDoc(name, id, doc));
    }
  }

  lemma PatchAchieves(ix: Indexer, s: State, inTx: bool, name: Name, id: i64, patch: Doc -> Option<Doc>)
    requires Valid(ix, s) && s.cat.next < MAX_I64 && (inTx || s.pending == [])
    ensures Achieves(s, PatchDoc(ix, s, inTx, name, id, patch), name, Outcome(ix, s, OpPatch(name, id, patch)))
  {
    hide Valid, Live, PutLocked, PutAmong;
    ReadsLive(ix, s, inTx, name, id);
    if id in DocsOf(s, name) && patch(DocsOf(s, name)[id]).Some? {
      PutAchieves(ix, s, s, name, id, patch(DocsOf(s, name)[id]));
    }
  }

  lemma MergeAchieves(ix: Indexer, s: State, inTx: bool, name: Name, id: i64, raw: Option<Doc>)
    requires Valid(ix, s) && s.cat.next < MAX_I64 && (inTx || s.pending == [])
    ensures Achieves(s, MergeOrPut(ix, s, inTx, name, id, raw), name, Outcome(ix, s, OpMergeOrPut(name, id, raw)))
  {
    hide Valid, Live, PutLocked, UniqueConflict, MergePatch, OnlyChanges;
    ReadsLive(ix, s, inTx, name, id);
    PreparedDocs(ix, s, name, id);
    var s1 := Ensure(s, name);
    if id !in DocsOf(s, name) {
      PutAchieves(ix, s, RaiseNextId(s1, name, id), name, id, raw);
    } else if raw.Some? {
      PutAchieves(ix, s, s1, name, id, Some(MergePatch(DocsOf(s, name)[id], raw.value)));
    }
  }

  /** NextID after an operation: PutNew counts, the other puts raise it for a new document, even one that is refused. */
  ghost function NumberAfter(ix: Indexer, s: State, op: DocOp): i64 {
    var n := NextIdOf(s, op.name);
    match op
    case OpPutNew(_, _) => if Outcome(ix, s, op).Ok? then Next(n) else n
    case OpPut(_, id, _) => if id > n then id else n
    case OpMergeOrPut(_, id, _) => if id > n && id !in DocsOf(s, op.name) then id else n
    case _ => n
  }

  /** The collection has this NextID and its old indexes; the other collections have what they had. */
  predicate OnlyNumbers(s: State, s': State, name: Name, next: i64) {
    && name in s'.cat.collections && NextIdOf(s', name) == next && IndexesOf(s', name) == IndexesOf(s, name)
    && s'.cat.collections.Keys == s.cat.collections.Keys + {name}
    && forall n | n != name && n in s.cat.collections :: s'.cat.collections[n] == s.cat.collections[n]
  }

  /** Deletes and patches of what is not there leave the catalog alone; every other operation creates its collection. */
  lemma RecordNumbers(ix: Indexer, s: State, inTx: bool, op: DocOp)
    requires Valid(ix, s) && s.cat.next < MAX_I64 && (inTx || s.pending == [])
    ensures
      var s' := Record(ix, s, inTx, op).state;
      if (op.OpDelete? || op.OpPatch?) && op.name !in s.cat.collections then s' == s
      else OnlyNumbers(s, s', op.name, NumberAfter(ix, s, op))
  {
    hide Valid, PutLocked, PutNew, Put, Delete, PatchDoc, MergeOrPut, OnlyNumbers;
    match op
    case OpEnsureCollection(name) => EnsuredNumbers(s, name);
    case OpPutNew(name, raw) => PutNewNumbers(ix, s, name, raw);
    case OpPut(name, id, raw) => PutNumbers(ix, s, name, id, raw);
    case OpDelete(name, id) => DeleteNumbers(ix, s, inTx, name, id);
    case OpPatch(name, id, patch) => PatchNumbers(ix, s, inTx, name, id, patch);
    case OpMergeOrPut(name, id, raw) => MergeNumbers(ix, s, inTx, name, id, raw);
  }

  lemma EnsuredNumbers(s: State, name: Name)
    ensures OnlyNumbers(s, Ensure(s, name).(dirtyMeta := true), name, NextIdOf(s, name))
  {
  }

  lemma PutNumbers(ix: Indexer, s: State, name: Name, id: i64, raw: Option<Doc>)
    ensures OnlyNumbers(s, Put(ix, s, name, id, raw).state, name, if id > NextIdOf(s, name) then id else NextIdOf(s, name))
  {
    hide PutLocked;
    StartNumbers(s, name, id);
    PutKeepsNumbers(ix, s, RaiseNextId(Ensure(s, name), name, id), name, id, raw);
  }

  lemma DeleteNumbers(ix: Indexer, s: State, inTx: bool, name: Name, id: i64)
    ensures var s' := Delete(ix, s, inTx, name, id).state;
            if name !in s.cat.collections then s' == s else OnlyNumbers(s, s', name, NextIdOf(s, name))
  {
    hide AdjustRNums;
    if name in s.cat.collections && ReadDoc(s, inTx, name, id).Some? {
      DeletedCatalog(ix, s, name, id, ReadDoc(s, inTx, name, id).value);
    }
  }

  lemma PatchNumbers(ix: Indexer, s: State, inTx: bool, name: Name, id: i64, patch: Doc -> Option<Doc>)
    ensures var s' := PatchDoc(ix, s, inTx, name, id, patch).state;
            if name !in s.cat.collections then s' == s else OnlyNumbers(s, s', name, NextIdOf(s, name))
  {
    hide PutLocked;
    if name in s.cat.collections && ReadDoc(s, inTx, name, id).Some? {
      PutKeepsNumbers(ix, s, s, name, id, patch(ReadDoc(s, inTx, name, id).value));
    }
  }

  lemma PutNewNumbers(ix: Indexer, s: State, name: Name, raw: Option<Doc>)
    requires Valid(ix, s) && s.cat.next < MAX_I64
    ensures OnlyNumbers(s, PutNew(ix, s, name, raw).state, name, NumberAfter(ix, s, OpPutNew(name, raw)))
  {
    hide Valid, PutLocked, PutAmong, Live, OnlyChanges;
    PutNewAchieves(ix, s, name, raw);
    var s1, id := Ensure(s, name), Next(NextIdOf(s, name));
    PutKeepsNumbers(ix, s, WithCollection(s1, name, s1.cat.collections[name].(nextId := id)), name, id, raw);
  }

  lemma StartNumbers(s: State, name: Name, id: i64)
    ensures OnlyNumbers(s, Ensure(s, name), name, NextIdOf(s, name))
    ensures OnlyNumbers(s, RaiseNextId(Ensure(s, name), name, id), name, if id > NextIdOf(s, name) then id else NextIdOf(s, name))
  {
  }

  lemma MergeNumbers(ix: Indexer, s: State, inTx: bool, name: Name, id: i64, raw: Option<Doc>)
    requires Valid(ix, s) && s.cat.next < MAX_I64 && (inTx || s.pending == [])
    ensures OnlyNumbers(s, MergeOrPut(ix, s, inTx, name, id, raw).state, name, NumberAfter(ix, s, OpMergeOrPut(name, id, raw)))
  {
    hide Valid, PutLocked, MergePatch, Live, OnlyNumbers, RaiseNextId, Ensure;
    StartNumbers(s, name, id);
    ReadsLive(ix, s, inTx, name, id);
    NumberKept(s, Ensure(s, name), name, NextIdOf(s, name));
    NumberKept(s, RaiseNextId(Ensure(s, name), name, id), name, if id > NextIdOf(s, name) then id else NextIdOf(s, name));
    PutKeepsNumbers(ix, s, RaiseNextId(Ensure(s, name), name, id), name, id, raw);
    if id in DocsOf(s, name) && raw.Some? {
      PutKeepsNumbers(ix, s, Ensure(s, name), name, id, Some(MergePatch(DocsOf(s, name)[id], raw.value)));
    }
  }

  lemma NumberKept(s: State, s1: State, name: Name, next: i64)
    requires OnlyNumbers(s, s1, name, next)
    ensures name in s1.cat.collections && NextIdOf(s1, name) == next
  {
  }

  lemma PutKeepsNumbers(ix: Indexer, s: State, s1: State, name: Name, id: i64, raw: Option<Doc>)
    requires name in s1.cat.collections && OnlyNumbers(s, s1, name, NextIdOf(s1, name))
    ensures OnlyNumbers(s, PutLocked(ix, s1, name, id, raw).state, name, NextIdOf(s1, name))
  {
    hide UniqueConflict;
  }

  /** A commit shows what was recorded. */
  lemma CommitAchieves(ix: Indexer, s: State, r: Step, name: Name, outcome: Result<map<i64, Doc>, Error>)
    requires Achieves(s, r, name, outcome) && r.error.None?
    requires Valid(ix, r.state) && AllStorable(r.state.pending) && AllStable(r.state.pending)
    ensures Achieves(s, Commit(ix, r.state), name, outcome)
  {
    CommitExact(ix, r.state);
    hide Valid, AllStorable, AllStable, Live, Commit;
  }

  /** Outside a transaction the outcome is committed, unless it poisons the log. */
  lemma AutoAchieves(ix: Indexer, s: State, op: DocOp)
    requires Clean(ix, s) && Steady(s) && StableOp(op) && s.cat.next < MAX_I64 && !Poisons(ix, s, op)
    ensures Achieves(s, Auto(ix, s, op), op.name, Outcome(ix, s, op)) && Clean(ix, Auto(ix, s, op).state)
  {
    hide Poisons, Outcome, Live, StableOp, Achieves, Record, AllStorable, AllStable, StableEngine, EngineAgrees, LogOk,
         CountersOk, NoOrphans, CatalogOk, Commit;
    AutoExact(ix, s, op);
    RecordAchieves(ix, s, false, op);
    RecordKeepsValid(ix, s, false, op);
    RecordKeepsSteady(ix, s, false, op);
    PoisonsExactly(ix, s, op);
    var r := Record(ix, s, false, op);
    if r.error.None? {
      CommitAchieves(ix, s, r, op.name, Outcome(ix, s, op));
    }
  }

  /** A transaction fails for its callback's sake, or because something in its log cannot be encoded, in that order. */
  lemma TransactionFails(ix: Indexer, s: State, ops: seq<DocOp>, fails: bool)
    requires Valid(ix, s) && s.cat.next + |ops| <= MAX_I64
    ensures WriteTx(ix, s, ops, fails).error
         == if fails then Some(ErrCallback)
            else if AllStorable(RecordAll(ix, s, ops).pending) then None
            else Some(ErrUnstorable)
  {
    RecordAllKeepsValid(ix, s, ops);
    RecordAllGrowsLog(ix, s, ops);
    hide Valid, RecordAll;
    CommitExact(ix, RecordAll(ix, s, ops));
    hide Replay, AllStorable;
  }

  /** A delete removes its document and nothing else; NextID and the indexes stay. */
  lemma DeleteTakesEffect(ix: Indexer, s: State, name: Name, id: i64)
    requires Clean(ix, s) && Steady(s) && s.cat.next < MAX_I64
    ensures var r := Auto(ix, s, OpDelete(name, id));
            if id in DocsOf(s, name)
            then r.error.None? && Becomes(ix, s, r.state, name, DocsOf(s, name) - {id}, NextIdOf(s, name))
            else r == Step(s, Some(ErrNotFound))
  {
    hide Valid, Live, AdjustRNums, Steady;
    ReadsLive(ix, s, false, name, id);
    AutoAchieves(ix, s, OpDelete(name, id));
    AutoExact(ix, s, OpDelete(name, id));
    if id in DocsOf(s, name) {
      var doc := DocsOf(s, name)[id];
      DeletedCatalog(ix, s, name, id, doc);
      hide DeleteLocked;
      RecordKeepsValid(ix, s, false, OpDelete(name, id));
      RecordKeepsSteady(ix, s, false, OpDelete(name, id));
      hide Record;
      CommitExact(ix, DeleteLocked(ix, s, name, id, doc));
    }
  }

  lemma DeletedCatalog(ix: Indexer, s: State, name: Name, id: i64, doc: Doc)
    requires name in s.cat.collections
    ensures var s' := DeleteLocked(ix, s, name, id, doc);
            && s'.cat.collections.Keys == s.cat.collections.Keys && s'.cat.next == s.cat.next
            && s'.cat.collections[name].nextId == s.cat.collections[name].nextId
            && s'.cat.collections[name].indexes.Keys == s.cat.collections[name].indexes.Keys
  {
  }
}
