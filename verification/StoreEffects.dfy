/** What a single write does to the documents of its collection, for all clean states. */
module StoreEffects {
  import opened Wrappers
  import opened Bytes
  import opened Keys
  import opened Document
  import opened Store
  import opened StoreInvariants
  import opened StoreReplay
  import opened StoreStable
  import opened StoreSteps
  import opened StoreRuns

  /** The documents of a collection; a missing one has none. */
  ghost function DocsOf(s: State, name: Name): map<i64, Doc> {
    if name in s.cat.collections then Live(s, name) else map[]
  }

  function NextIdOf(s: State, name: Name): i64 {
    if name in s.cat.collections then s.cat.collections[name].nextId else 0
  }

  function IndexesOf(s: State, name: Name): set<IndexDef> {
    if name in s.cat.collections then s.cat.collections[name].indexes.Keys else {}
  }

  /** The collection afterwards: these documents, this NextID, the same indexes, and the invariants hold. */
  ghost predicate Becomes(ix: Indexer, s: State, s': State, name: Name, docs: map<i64, Doc>, next: i64) {
    && Clean(ix, s') && Steady(s') && name in s'.cat.collections
    && Live(s', name) == docs && s'.cat.collections[name].nextId == next
    && s'.cat.collections[name].indexes.Keys == IndexesOf(s, name)
    && s'.cat.collections.Keys == s.cat.collections.Keys + {name}
    && s.cat.next <= s'.cat.next <= s.cat.next + 1
  }

  lemma EnsuredDocs(ix: Indexer, s: State, name: Name)
    requires Clean(ix, s) && s.cat.next < MAX_I64
    ensures Valid(ix, Ensure(s, name)) && Live(Ensure(s, name), name) == DocsOf(s, name)
    ensures s.cat.next <= Ensure(s, name).cat.next <= s.cat.next + 1
    ensures Ensure(s, name).cat.collections[name].nextId == NextIdOf(s, name)
    ensures Ensure(s, name).cat.collections[name].indexes.Keys == IndexesOf(s, name)
    ensures Ensure(s, name).cat.collections.Keys == s.cat.collections.Keys + {name}
  {
    hide EngineAgrees, CountersOk;
    EnsureKeepsValid(ix, s, name);
    if name !in s.cat.collections {
      NewCollectionEmpty(ix, s, name);
    }
  }

  /** A put that passes the check, seen through the log and after its commit. */
  lemma PutThenCommit(ix: Indexer, s: State, name: Name, id: i64, doc: Doc)
    requires Valid(ix, s) && Steady(s) && s.pending == [] && name in s.cat.collections
    requires Storable(doc) && Stable(doc) && !LiveConflict(ix, s, name, id, doc)
    ensures
      var r := PutLocked(ix, s, name, id, Some(doc));
      var s' := Commit(ix, r.state).state;
      && r.error.None? && Commit(ix, r.state).error.None? && Clean(ix, s') && Steady(s')
      && s'.cat.next == s.cat.next && name in s'.cat.collections && Live(s', name) == Live(s, name)[id := doc]
      && s'.cat.collections[name].nextId == s.cat.collections[name].nextId
      && s'.cat.collections[name].indexes.Keys == s.cat.collections[name].indexes.Keys
      && s'.cat.collections.Keys == s.cat.collections.Keys
  {
    hide Valid, Storable, Stable, LiveConflict, UniqueConflict, Commit, Steady, StoredDocs;
    ValidAgrees(ix, s);
    UniqueCheckExact(ix, s, name, id, doc);
    NothingStale(ix, s, name, id, doc);
    var r := PutLocked(ix, s, name, id, Some(doc));
    var m := PutDoc(name, id, CurrentDoc(s, name, id), doc);
    PutAppends(ix, s, name, id, Some(doc));
    AppendShowsInLive(ix, s, r.state, m, name);
    PutKeepsValid(ix, s, name, id, Some(doc));
    PutKeepsSteady(ix, s, name, id, Some(doc));
    OneMutation(m);
    OneStable(m);
    CommitExact(ix, r.state);
    CommitKeepsSteady(ix, r.state);
  }

  lemma ValidAgrees(ix: Indexer, s: State)
    requires Valid(ix, s)
    ensures EngineAgrees(ix, s.engine, s.cat)
  {
  }

  lemma OneStable(m: Mutation)
    requires StableMutation(m)
    ensures AllStable([] + [m])
  {
  }

  /** Put: the document is the one put, all others stay, and NextID is raised to the id. */
  lemma PutTakesEffect(ix: Indexer, s: State, name: Name, id: i64, doc: Doc)
    requires Clean(ix, s) && Steady(s) && s.cat.next < MAX_I64
    requires Storable(doc) && Stable(doc) && !LiveConflict(ix, Ensure(s, name), name, id, doc)
    ensures var r := Auto(ix, s, OpPut(name, id, Some(doc)));
            r.error.None? && Becomes(ix, s, r.state, name, DocsOf(s, name)[id := doc],
                                     if id > NextIdOf(s, name) then id else NextIdOf(s, name))
  {
    hide Valid, Storable, Stable, Steady, Commit, PutLocked, Live;
    EnsuredDocs(ix, s, name);
    var s1 := Ensure(s, name);
    var s2 := RaiseNextId(s1, name, id);
    EnsuredSteady(s, name);
    RaiseKeepsValid(ix, s1, name, id);
    RaisedLive(ix, s1, name, id, doc);
    PutThenCommit(ix, s2, name, id, doc);
  }

  lemma EnsuredSteady(s: State, name: Name)
    requires Steady(s)
    ensures Steady(Ensure(s, name))
  {
  }

  lemma RaisedLive(ix: Indexer, s: State, name: Name, id: i64, doc: Doc)
    requires Steady(s) && name in s.cat.collections
    ensures var s2 := RaiseNextId(s, name, id);
            && name in s2.cat.collections && Steady(s2) && Live(s2, name) == Live(s, name)
            && (LiveConflict(ix, s2, name, id, doc) <==> LiveConflict(ix, s, name, id, doc))
  {
    hide Stable;
    NextIdKeepsLive(s, name, id, name);
  }

  /**
   PutNew: the document goes under the id after NextID.  It replaces a live document exactly when that id is
   in use; the ids are then no longer fresh, whether or not the sequence has wrapped around.
   */
  lemma PutNewTakesEffect(ix: Indexer, s: State, name: Name, doc: Doc)
    requires Clean(ix, s) && Steady(s) && s.cat.next < MAX_I64
    requires Storable(doc) && Stable(doc)
    requires !LiveConflict(ix, Ensure(s, name), name, Next(NextIdOf(s, name)), doc)
    ensures
      var id := Next(NextIdOf(s, name));
      var r := Auto(ix, s, OpPutNew(name, Some(doc)));
      && r.error.None? && Becomes(ix, s, r.state, name, DocsOf(s, name)[id := doc], id)
      && (|Live(r.state, name)| == |DocsOf(s, name)| <==> id in DocsOf(s, name))
  {
    hide Valid, Storable, Stable, Steady, Commit, PutLocked, Live;
    EnsuredDocs(ix, s, name);
    EnsuredSteady(s, name);
    var s1 := Ensure(s, name);
    var id := Next(NextIdOf(s, name));
    NextIdKeepsValid(ix, s1, name, id);
    RenumberedLive(ix, s1, name, id, doc);
    PutThenCommit(ix, WithNextId(s1, name, id), name, id, doc);
  }

  lemma RenumberedLive(ix: Indexer, s: State, name: Name, id: i64, doc: Doc)
    requires Steady(s) && name in s.cat.collections
    ensures var s2 := WithNextId(s, name, id);
            && name in s2.cat.collections && Steady(s2) && Live(s2, name) == Live(s, name)
            && (LiveConflict(ix, s2, name, id, doc) <==> LiveConflict(ix, s, name, id, doc))
  {
    hide Stable;
    NextIdKeepsLive(s, name, id, name);
  }

  // ----- documents the codec changes -----

  /** The state before the commit of an accepted put, and the engine after it. */
  lemma PutCommits(ix: Indexer, s: State, name: Name, id: i64, doc: Doc)
    requires Valid(ix, s) && s.pending == [] && name in s.cat.collections
    requires Storable(doc) && !LiveConflict(ix, s, name, id, doc)
    ensures
      var r := PutLocked(ix, s, name, id, Some(doc));
      var m := PutDoc(name, id, CurrentDoc(s, name, id), doc);
      var e0 := s.engine[MetaKey := CatalogVal(r.state.cat)];
      && r.error.None? && Appends(ix, s, r.state, m) && ReplayOne(ix, e0, r.state.cat, m).Some?
      && Commit(ix, r.state) == Step(State(ReplayOne(ix, e0, r.state.cat, m).value, r.state.cat, [], false), None)
  {
    hide Valid, Storable, LiveConflict, UniqueConflict, AdjustRNums, Reread, EntryKeys, SetEntries;
    ValidAgrees(ix, s);
    UniqueCheckExact(ix, s, name, id, doc);
    NothingStale(ix, s, name, id, doc);
    PutAppends(ix, s, name, id, Some(doc));
    var r := PutLocked(ix, s, name, id, Some(doc));
    var log := r.state.pending;
    assert log == [PutDoc(name, id, CurrentDoc(s, name, id), doc)];
    assert log[..0] == [];
    var e0 := s.engine[MetaKey := CatalogVal(r.state.cat)];
    assert Replay(ix, e0, r.state.cat, log[..0]) == Some(e0);
  }

  /** What the commit of an accepted put starts from, and what it records. */
  lemma PutStarts(ix: Indexer, s: State, name: Name, id: i64, doc: Doc)
    requires Valid(ix, s) && s.pending == [] && name in s.cat.collections && !LiveConflict(ix, s, name, id, doc)
    requires Storable(doc)
    ensures
      var r := PutLocked(ix, s, name, id, Some(doc));
      var e0 := s.engine[MetaKey := CatalogVal(r.state.cat)];
      var docs := StoredDocs(e0, s.cat.collections[name].dbid);
      && EngineOk(ix, e0, r.state.cat) && docs == Live(s, name)
      && CurrentDoc(s, name, id) == Find(docs, id)
      && AllUnique(ix, docs[id := doc], s.cat.collections[name].indexes)
  {
    hide Storable, LiveConflict, UniqueConflict, AllUnique;
    PutCommits(ix, s, name, id, doc);
    var r := PutLocked(ix, s, name, id, Some(doc));
    hide PutLocked, Commit, ReplayOne;
    UniqueCheckExact(ix, s, name, id, doc);
    NothingStale(ix, s, name, id, doc);
    UniqueCheckSound(ix, s, name, id, doc);
    CurrentIsLive(s, name, id);
    PutShape(ix, s, r.state, PutDoc(name, id, CurrentDoc(s, name, id), doc));
    hide EngineAgrees, CatalogOk, NoOrphans;
    ShapeKeepsEngine(ix, s.engine, s.cat, r.state.cat);
    WritingMetaKeepsEngine(ix, s.engine, r.state.cat, CatalogVal(r.state.cat));
  }

  lemma PutShape(ix: Indexer, s: State, s': State, m: Mutation)
    requires m.name in s.cat.collections && Appends(ix, s, s', m)
    ensures SameShape(s.cat, s'.cat)
  {
    UpdateKeepsShape(s, m.name, s'.cat.collections[m.name]);
  }

  /**
   A put that is accepted and encoded leaves the indexes in agreement with the stored documents if and only
   if the document has the same values in every index of its collection before and after the codec.
   */
  lemma PutKeepsAgreementExactly(ix: Indexer, s: State, name: Name, id: i64, doc: Doc)
    requires Valid(ix, s) && s.pending == [] && name in s.cat.collections
    requires Storable(doc) && !LiveConflict(ix, s, name, id, doc)
    ensures
      var s' := Commit(ix, PutLocked(ix, s, name, id, Some(doc)).state).state;
      EngineAgrees(ix, s'.engine, s'.cat) <==>
        forall def | def in s.cat.collections[name].indexes :: SameValues(ix, def, doc, Reread(doc))
  {
    hide Valid, Storable, LiveConflict, UniqueConflict, Reread, StoredDocs, IndexAgrees, Live, SameValues, AllUnique;
    var r := PutLocked(ix, s, name, id, Some(doc));
    var cat := r.state.cat;
    var m := PutDoc(name, id, CurrentDoc(s, name, id), doc);
    PutCommits(ix, s, name, id, doc);
    PutStarts(ix, s, name, id, doc);
    var e0 := s.engine[MetaKey := CatalogVal(cat)];
    var e' := ReplayOne(ix, e0, cat, m).value;
    hide PutLocked, Commit, ReplayOne;
    var indexes := s.cat.collections[name].indexes;
    if EngineAgrees(ix, e', cat) {
      forall def | def in indexes ensures SameValues(ix, def, doc, Reread(doc)) {
        AgreesAt(ix, e0, cat, m, name, def, indexes);
      }
    } else {
      var n, def :| n in cat.collections && def in cat.collections[n].indexes
        && !IndexAgrees(ix, e', def, cat.collections[n].indexes[def].dbid, StoredDocs(e', cat.collections[n].dbid));
      AgreesAt(ix, e0, cat, m, n, def, indexes);
    }
  }

  lemma AgreesAt(ix: Indexer, e: Engine, cat: Catalog, m: Mutation, n: Name, def: IndexDef, indexes: map<IndexDef, IndexState>)
    requires EngineOk(ix, e, cat) && m.PutDoc? && m.name in cat.collections && ReplayOne(ix, e, cat, m).Some?
    requires cat.collections[m.name].indexes.Keys == indexes.Keys
    requires var docs := StoredDocs(e, cat.collections[m.name].dbid);
             Previous(m) == Find(docs, m.id) && AllUnique(ix, docs[m.id := m.doc], indexes)
    requires n in cat.collections && def in cat.collections[n].indexes
    ensures
      var e' := ReplayOne(ix, e, cat, m).value;
      IndexAgrees(ix, e', def, cat.collections[n].indexes[def].dbid, StoredDocs(e', cat.collections[n].dbid))
      <==> (n == m.name ==> SameValues(ix, def, m.doc, Reread(m.doc)))
  {
    hide Reread, ReplayOne, IndexAgrees, StoredDocs, SameValues;
    if n == m.name {
      PutAgreesExactly(ix, e, cat, m, def);
    } else {
      ReplayOneDocs(ix, e, cat, m, n);
      ReplayOneElsewhere(ix, e, cat, m, n, def, StoredDocs(e, cat.collections[n].dbid));
    }
  }
}
