/**
 Every document operation, inside or outside a transaction, keeps the invariants; a commit succeeds
 exactly when all documents can be encoded; an aborted transaction leaves no trace.
 */
module StoreSteps {
  import opened Wrappers
  import opened Bytes
  import opened Keys
  import opened Document
  import opened Patch
  import opened Store
  import opened StoreInvariants
  import opened StoreReplay
  import opened StoreStable

  // ----- changing the catalog without changing who owns what -----

  ghost predicate SameShape(cat: Catalog, cat': Catalog) {
    && cat'.next == cat.next && cat'.collections.Keys == cat.collections.Keys
    && forall n | n in cat.collections ::
         && cat'.collections[n].dbid == cat.collections[n].dbid
         && cat'.collections[n].indexes.Keys == cat.collections[n].indexes.Keys
         && forall def | def in cat.collections[n].indexes ::
              cat'.collections[n].indexes[def].dbid == cat.collections[n].indexes[def].dbid
  }

  lemma ShapeKeepsSlots(cat: Catalog, cat': Catalog, t: Slot)
    requires SameShape(cat, cat')
    ensures HasSlot(cat', t) <==> HasSlot(cat, t)
    ensures HasSlot(cat, t) ==> SlotDbid(cat', t) == SlotDbid(cat, t)
  {
  }

  lemma ShapeKeepsEngine(ix: Indexer, e: Engine, cat: Catalog, cat': Catalog)
    requires SameShape(cat, cat') && EngineOk(ix, e, cat)
    ensures EngineOk(ix, e, cat')
  {
    forall t ensures HasSlot(cat', t) <==> HasSlot(cat, t)
             ensures HasSlot(cat, t) ==> SlotDbid(cat', t) == SlotDbid(cat, t)
    {
      ShapeKeepsSlots(cat, cat', t);
    }
    forall k | k in e && !k.MetaKey? ensures exists t :: OwnedBy(cat', k, t) {
      var t :| OwnedBy(cat, k, t);
      assert OwnedBy(cat', k, t);
    }
  }

  /** The parts of the catalog the log depends on are still there. */
  ghost predicate Extends(cat: Catalog, cat': Catalog) {
    forall n | n in cat.collections ::
      && n in cat'.collections && cat'.collections[n].dbid == cat.collections[n].dbid
      && cat'.collections[n].indexes.Keys == cat.collections[n].indexes.Keys
  }

  lemma {:induction false} ExtensionKeepsLog(ix: Indexer, e: Engine, cat: Catalog, cat': Catalog, log: seq<Mutation>)
    requires Extends(cat, cat') && LogOk(ix, e, cat, log)
    ensures LogOk(ix, e, cat', log)
  {
    if log != [] {
      ExtensionKeepsLog(ix, e, cat, cat', log[..|log| - 1]);
    }
  }

  lemma {:induction false} LogName(ix: Indexer, e: Engine, cat: Catalog, log: seq<Mutation>, i: nat)
    requires LogOk(ix, e, cat, log) && i < |log|
    ensures log[i].name in cat.collections
  {
    if i < |log| - 1 {
      LogName(ix, e, cat, log[..|log| - 1], i);
    }
  }

  lemma LogNames(ix: Indexer, e: Engine, cat: Catalog, log: seq<Mutation>)
    requires LogOk(ix, e, cat, log)
    ensures forall i | 0 <= i < |log| :: log[i].name in cat.collections
  {
    forall i | 0 <= i < |log| ensures log[i].name in cat.collections {
      LogName(ix, e, cat, log, i);
    }
  }

  lemma {:induction false} OverlayForeign(docs: map<i64, Doc>, log: seq<Mutation>, name: Name)
    requires forall i | 0 <= i < |log| :: log[i].name != name
    ensures Overlay(docs, log, name) == docs
  {
    if log != [] {
      OverlayForeign(docs, log[..|log| - 1], name);
    }
  }

  // ----- creating a collection -----

  lemma EnsureKeepsCatalog(s: State, name: Name)
    requires CatalogOk(s.cat) && s.cat.next < MAX_I64
    ensures CatalogOk(Ensure(s, name).cat) && Extends(s.cat, Ensure(s, name).cat)
    ensures s.cat.next <= Ensure(s, name).cat.next <= s.cat.next + 1
  {
    var cat, cat' := s.cat, Ensure(s, name).cat;
    if name !in cat.collections {
      forall t ensures HasSlot(cat', t) <==> HasSlot(cat, t) || t == ColSlot(name)
               ensures HasSlot(cat, t) ==> SlotDbid(cat', t) == SlotDbid(cat, t)
      {
      }
      assert SlotDbid(cat', ColSlot(name)) == cat.next + 1;
    }
  }

  lemma FreshDbidUnused(e: Engine, cat: Catalog, dbid: i64)
    requires CatalogOk(cat) && NoOrphans(e, cat) && dbid > cat.next
    ensures forall k | k in e && !k.MetaKey? :: k.dbid != dbid
    ensures StoredDocs(e, dbid) == map[]
  {
    StoredDocsContents(e, dbid);
    forall k | k in e && !k.MetaKey? ensures k.dbid != dbid {
      var t :| OwnedBy(cat, k, t);
    }
  }

  lemma NewCollectionEmpty(ix: Indexer, s: State, name: Name)
    requires CatalogOk(s.cat) && NoOrphans(s.engine, s.cat) && LogOk(ix, s.engine, s.cat, s.pending)
    requires name !in s.cat.collections && s.cat.next < MAX_I64
    ensures Live(Ensure(s, name), name) == map[]
  {
    var dbid := Ensure(s, name).cat.collections[name].dbid;
    FreshDbidUnused(s.engine, s.cat, dbid);
    LogNames(ix, s.engine, s.cat, s.pending);
    OverlayForeign(StoredDocs(s.engine, dbid), s.pending, name);
  }

  lemma EnsureKeepsEngine(ix: Indexer, s: State, name: Name)
    requires EngineOk(ix, s.engine, s.cat) && s.cat.next < MAX_I64
    ensures EngineOk(ix, s.engine, Ensure(s, name).cat)
  {
    hide IndexAgrees, CatalogOk;
    var cat' := Ensure(s, name).cat;
    EnsureKeepsCatalog(s, name);
    forall k | k in s.engine && !k.MetaKey? ensures exists t :: OwnedBy(cat', k, t) {
      var t :| OwnedBy(s.cat, k, t);
      assert OwnedBy(cat', k, t);
    }
  }

  lemma EnsureKeepsCounters(ix: Indexer, s: State, name: Name)
    requires CountersOk(ix, s)
    requires name !in s.cat.collections ==> Live(Ensure(s, name), name) == map[]
    ensures CountersOk(ix, Ensure(s, name))
    ensures forall n | n in s.cat.collections :: Live(Ensure(s, name), n) == Live(s, n)
  {
    hide TotalValues, StoredDocs;
    var s' := Ensure(s, name);
    forall n | n in s'.cat.collections ensures CountsOk(ix, s'.cat.collections[n], Live(s', n)) {
      if n in s.cat.collections {
        assert CountsOk(ix, s.cat.collections[n], Live(s, n)) && Live(s', n) == Live(s, n);
      }
    }
  }

  lemma EnsureKeepsValid(ix: Indexer, s: State, name: Name)
    requires Valid(ix, s) && s.cat.next < MAX_I64
    ensures Valid(ix, Ensure(s, name))
    ensures s.cat.next <= Ensure(s, name).cat.next <= s.cat.next + 1
    ensures forall n | n in s.cat.collections :: Live(Ensure(s, name), n) == Live(s, n)
  {
    hide EngineAgrees, NoOrphans, CountersOk;
    EnsureKeepsCatalog(s, name);
    EnsureKeepsEngine(ix, s, name);
    ExtensionKeepsLog(ix, s.engine, s.cat, Ensure(s, name).cat, s.pending);
    if name !in s.cat.collections {
      NewCollectionEmpty(ix, s, name);
    }
    EnsureKeepsCounters(ix, s, name);
  }

  // ----- uniqueness -----

  /** At every prefix of the log, the documents are unique in every unique index. */
  lemma {:induction false} LiveUnique(ix: Indexer, e: Engine, cat: Catalog, log: seq<Mutation>, n: Name, def: IndexDef)
    requires EngineOk(ix, e, cat) && LogOk(ix, e, cat, log)
    requires n in cat.collections && def in cat.collections[n].indexes && def.unique
    ensures UniqueDocs(ix, Overlay(StoredDocs(e, cat.collections[n].dbid), log, n), def)
  {
    var dbid, docs := cat.collections[n].indexes[def].dbid, StoredDocs(e, cat.collections[n].dbid);
    if log == [] {
      assert IndexAgrees(ix, e, def, dbid, docs);
      forall id1, id2, v | id1 in docs && id2 in docs && v in ix(docs[id1], def) && v in ix(docs[id2], def)
        ensures id1 == id2
      {
        assert e[UIdxKey(dbid, v)] == Owner(id1);
        assert e[UIdxKey(dbid, v)] == Owner(id2);
      }
    } else {
      LiveUnique(ix, e, cat, log[..|log| - 1], n, def);
    }
  }

  /** Some other live document already has the value. */
  ghost predicate LiveConflict(ix: Indexer, s: State, name: Name, id: i64, doc: Doc)
    requires name in s.cat.collections
  {
    exists def, v, other: i64 :: def in s.cat.collections[name].indexes && def.unique &&
      v in ix(doc, def) && other != id && other in Live(s, name) && v in ix(Live(s, name)[other], def)
  }

  /** The committed owner of a value has given it up in this transaction by being put again without it. */
  ghost predicate StaleClaim(ix: Indexer, s: State, name: Name, id: i64, doc: Doc)
    requires name in s.cat.collections
  {
    exists def, v :: def in s.cat.collections[name].indexes && def.unique && v in ix(doc, def) &&
      var k := UIdxKey(s.cat.collections[name].indexes[def].dbid, v);
      k in s.engine && OwnerOf(s.engine[k]) != id &&
      Lookup(s.pending, name, OwnerOf(s.engine[k])).Present? &&
      v !in ix(Lookup(s.pending, name, OwnerOf(s.engine[k])).doc, def)
  }

  lemma ConflictOfLive(ix: Indexer, s: State, name: Name, id: i64, doc: Doc, def: IndexDef, v: bytes, other: i64)
    requires name in s.cat.collections && def in s.cat.collections[name].indexes && def.unique
    requires IndexAgrees(ix, s.engine, def, s.cat.collections[name].indexes[def].dbid,
                         StoredDocs(s.engine, s.cat.collections[name].dbid))
    requires v in ix(doc, def) && other != id && other in Live(s, name) && v in ix(Live(s, name)[other], def)
    ensures UniqueConflict(ix, s, name, id, doc)
  {
    var col := s.cat.collections[name];
    var docs := StoredDocs(s.engine, col.dbid);
    LookupIsOverlay(docs, s.pending, name, other);
    if Lookup(s.pending, name, other).Present? {
      assert PendingConflict(ix, s, name, def, id, v);
    } else {
      assert CommittedConflict(s, name, col.indexes[def].dbid, id, v);
    }
  }

  lemma LiveOfCommitted(ix: Indexer, s: State, name: Name, id: i64, doc: Doc, def: IndexDef, v: bytes)
    requires name in s.cat.collections && def in s.cat.collections[name].indexes && def.unique
    requires IndexAgrees(ix, s.engine, def, s.cat.collections[name].indexes[def].dbid,
                         StoredDocs(s.engine, s.cat.collections[name].dbid))
    requires v in ix(doc, def) && CommittedConflict(s, name, s.cat.collections[name].indexes[def].dbid, id, v)
    ensures LiveConflict(ix, s, name, id, doc) || StaleClaim(ix, s, name, id, doc)
  {
    var col := s.cat.collections[name];
    var docs := StoredDocs(s.engine, col.dbid);
    var owner := OwnerOf(s.engine[UIdxKey(col.indexes[def].dbid, v)]);
    assert owner in docs && v in ix(docs[owner], def);
    LookupIsOverlay(docs, s.pending, name, owner);
    if Lookup(s.pending, name, owner).Untouched? || v in ix(Lookup(s.pending, name, owner).doc, def) {
      assert owner in Live(s, name) && v in ix(Live(s, name)[owner], def);
    }
  }

  /**
   What the unique check decides: it reports every clash with a live document, and, beyond those,
   exactly the values whose committed owner was rewritten without them in the same transaction.
   */
  lemma UniqueCheckExact(ix: Indexer, s: State, name: Name, id: i64, doc: Doc)
    requires EngineAgrees(ix, s.engine, s.cat) && name in s.cat.collections
    ensures UniqueConflict(ix, s, name, id, doc)
       <==> LiveConflict(ix, s, name, id, doc) || StaleClaim(ix, s, name, id, doc)
  {
    var col := s.cat.collections[name];
    var docs := StoredDocs(s.engine, col.dbid);
    if UniqueConflict(ix, s, name, id, doc) {
      var def, v :| def in col.indexes && def.unique && v in ix(doc, def) &&
        (CommittedConflict(s, name, col.indexes[def].dbid, id, v) || PendingConflict(ix, s, name, def, id, v));
      if PendingConflict(ix, s, name, def, id, v) {
        var other: i64 :| other != id && Lookup(s.pending, name, other).Present? &&
          v in ix(Lookup(s.pending, name, other).doc, def);
        LookupIsOverlay(docs, s.pending, name, other);
        assert other in Live(s, name) && v in ix(Live(s, name)[other], def);
      } else {
        LiveOfCommitted(ix, s, name, id, doc, def, v);
      }
    }
    if LiveConflict(ix, s, name, id, doc) {
      var def, v, other: i64 :| def in s.cat.collections[name].indexes && def.unique &&
        v in ix(doc, def) && other != id && other in Live(s, name) && v in ix(Live(s, name)[other], def);
      ConflictOfLive(ix, s, name, id, doc, def, v, other);
    }
    if StaleClaim(ix, s, name, id, doc) {
      var def, v :| def in s.cat.collections[name].indexes && def.unique && v in ix(doc, def) &&
        var k := UIdxKey(s.cat.collections[name].indexes[def].dbid, v);
        k in s.engine && OwnerOf(s.engine[k]) != id &&
        Lookup(s.pending, name, OwnerOf(s.engine[k])).Present? &&
        v !in ix(Lookup(s.pending, name, OwnerOf(s.engine[k])).doc, def);
      assert CommittedConflict(s, name, col.indexes[def].dbid, id, v);
    }
  }

  /** A put that passes the check leaves every unique index unique. */
  lemma UniqueCheckSound(ix: Indexer, s: State, name: Name, id: i64, doc: Doc)
    requires Valid(ix, s) && name in s.cat.collections && !UniqueConflict(ix, s, name, id, doc)
    ensures AllUnique(ix, Live(s, name)[id := doc], s.cat.collections[name].indexes)
  {
    UniqueCheckExact(ix, s, name, id, doc);
    forall def | def in s.cat.collections[name].indexes && def.unique
      ensures UniqueDocs(ix, Live(s, name)[id := doc], def)
    {
      LiveUnique(ix, s.engine, s.cat, s.pending, name, def);
      NoClashKeepsUnique(ix, s, name, id, doc, def);
    }
  }

  lemma NoClashKeepsUnique(ix: Indexer, s: State, name: Name, id: i64, doc: Doc, def: IndexDef)
    requires name in s.cat.collections && def in s.cat.collections[name].indexes && def.unique
    requires !LiveConflict(ix, s, name, id, doc) && UniqueDocs(ix, Live(s, name), def)
    ensures UniqueDocs(ix, Live(s, name)[id := doc], def)
  {
  }

  // ----- recording -----

  lemma AppendToLog(docs: map<i64, Doc>, log: seq<Mutation>, m: Mutation, name: Name)
    ensures Overlay(docs, log + [m], name) == OverlayOne(Overlay(docs, log, name), m, name)
  {
    assert (log + [m])[..|log|] == log;
  }

  /** Counters after one mutation of the collection `m.name`. */
  ghost predicate CountsMutation(ix: Indexer, col: Collection, col': Collection, m: Mutation) {
    var next := if m.PutDoc? then Some(m.doc) else None;
    && col'.rnum == (if m.DeleteDoc? then (if col.rnum > 0 then col.rnum - 1 else col.rnum)
                     else if Previous(m).None? then col.rnum + 1 else col.rnum)
    && col'.indexes == AdjustRNums(ix, col.indexes, Previous(m), next)
  }

  /** One entry appended to the log, the counters of its collection adjusted. */
  ghost predicate Appends(ix: Indexer, s: State, s': State, m: Mutation)
    requires m.name in s.cat.collections
  {
    && s'.engine == s.engine && s'.pending == s.pending + [m]
    && m.name in s'.cat.collections
    && s'.cat == s.cat.(collections := s.cat.collections[m.name := s'.cat.collections[m.name]])
    && SameDbids(s.cat.collections[m.name], s'.cat.collections[m.name])
    && CountsMutation(ix, s.cat.collections[m.name], s'.cat.collections[m.name], m)
  }

  lemma AppendShowsInLive(ix: Indexer, s: State, s': State, m: Mutation, n: Name)
    requires m.name in s.cat.collections && n in s.cat.collections && Appends(ix, s, s', m)
    ensures n in s'.cat.collections && Live(s', n) == OverlayOne(Live(s, n), m, n)
  {
    AppendToLog(StoredDocs(s.engine, s.cat.collections[n].dbid), s.pending, m, n);
  }

  lemma AppendKeepsCounters(ix: Indexer, s: State, s': State, m: Mutation)
    requires m.name in s.cat.collections && Appends(ix, s, s', m) && CountersOk(ix, s)
    requires Previous(m) == Find(Live(s, m.name), m.id)
    ensures CountersOk(ix, s')
  {
    forall n | n in s'.cat.collections ensures CountsOk(ix, s'.cat.collections[n], Live(s', n)) {
      AppendShowsInLive(ix, s, s', m, n);
      assert CountsOk(ix, s.cat.collections[n], Live(s, n));
      if n == m.name {
        CountsAfterMutation(ix, s.cat.collections[n], s'.cat.collections[n], Live(s, n), m);
      }
    }
  }

  lemma AppendKeepsLog(ix: Indexer, s: State, s': State, m: Mutation)
    requires m.name in s.cat.collections && Appends(ix, s, s', m) && LogOk(ix, s.engine, s.cat, s.pending)
    requires Previous(m) == Find(Live(s, m.name), m.id)
    requires AllUnique(ix, OverlayOne(Live(s, m.name), m, m.name), s.cat.collections[m.name].indexes)
    ensures LogOk(ix, s'.engine, s'.cat, s'.pending)
  {
    ExtensionKeepsLog(ix, s.engine, s.cat, s'.cat, s.pending);
    AppendToLog(StoredDocs(s.engine, s.cat.collections[m.name].dbid), s.pending, m, m.name);
    assert s'.pending[..|s'.pending| - 1] == s.pending;
  }

  lemma AppendKeepsEngine(ix: Indexer, s: State, s': State, m: Mutation)
    requires m.name in s.cat.collections && Appends(ix, s, s', m) && EngineOk(ix, s.engine, s.cat)
    ensures EngineOk(ix, s'.engine, s'.cat)
  {
    UpdateKeepsShape(s, m.name, s'.cat.collections[m.name]);
    ShapeKeepsEngine(ix, s.engine, s.cat, s'.cat);
  }

  lemma MutationKeepsValid(ix: Indexer, s: State, s': State, m: Mutation)
    requires Valid(ix, s) && m.name in s.cat.collections && Appends(ix, s, s', m)
    requires Previous(m) == Find(Live(s, m.name), m.id)
    requires AllUnique(ix, OverlayOne(Live(s, m.name), m, m.name), s.cat.collections[m.name].indexes)
    ensures Valid(ix, s')
  {
    AppendKeepsEngine(ix, s, s', m);
    AppendKeepsLog(ix, s, s', m);
    AppendKeepsCounters(ix, s, s', m);
  }

  lemma LiveSize(live: map<i64, Doc>, m: Mutation)
    ensures |OverlayOne(live, m, m.name)| ==
      if m.PutDoc? then (if m.id in live then |live| else |live| + 1)
      else if m.id in live then |live| - 1 else |live|
  {
    var live' := OverlayOne(live, m, m.name);
    assert live'.Keys == if m.PutDoc? then live.Keys + {m.id} else live.Keys - {m.id};
    assert |live'| == |live'.Keys| && |live| == |live.Keys|;
  }

  /** The counters of the mutated collection; the clamps at zero never act. */
  lemma CountsAfterMutation(ix: Indexer, col: Collection, col': Collection, live: map<i64, Doc>, m: Mutation)
    requires CountsOk(ix, col, live) && Previous(m) == Find(live, m.id) && CountsMutation(ix, col, col', m)
    ensures CountsOk(ix, col', OverlayOne(live, m, m.name))
  {
    hide TotalValues;
    var live' := OverlayOne(live, m, m.name);
    LiveSize(live, m);
    forall def | def in col'.indexes ensures col'.indexes[def].rnum == TotalValues(ix, live', def) {
      assert def in col.indexes;
      if m.PutDoc? {
        TotalValuesPut(ix, live, def, m.id, m.doc);
      } else {
        TotalValuesRemove(ix, live, def, m.id);
      }
    }
  }

  /** Replacing a collection by one with the same dbids. */
  ghost predicate SameDbids(col: Collection, col': Collection) {
    && col'.dbid == col.dbid && col'.indexes.Keys == col.indexes.Keys
    && forall def | def in col.indexes :: col'.indexes[def].dbid == col.indexes[def].dbid
  }

  lemma UpdateKeepsShape(s: State, name: Name, col': Collection)
    requires name in s.cat.collections && SameDbids(s.cat.collections[name], col')
    ensures SameShape(s.cat, WithCollection(s, name, col').cat)
  {
  }

  lemma PutAppends(ix: Indexer, s: State, name: Name, id: i64, raw: Option<Doc>)
    requires name in s.cat.collections && PutLocked(ix, s, name, id, raw).error.None?
    ensures raw.Some? && !UniqueConflict(ix, s, name, id, raw.value)
    ensures Appends(ix, s, PutLocked(ix, s, name, id, raw).state, PutDoc(name, id, CurrentDoc(s, name, id), raw.value))
  {
  }

  lemma PutKeepsValid(ix: Indexer, s: State, name: Name, id: i64, raw: Option<Doc>)
    requires Valid(ix, s) && name in s.cat.collections
    ensures Valid(ix, PutLocked(ix, s, name, id, raw).state)
    ensures PutLocked(ix, s, name, id, raw).state.cat.next == s.cat.next
  {
    var r := PutLocked(ix, s, name, id, raw);
    if r.error.None? {
      PutAppends(ix, s, name, id, raw);
      CurrentIsLive(s, name, id);
      UniqueCheckSound(ix, s, name, id, raw.value);
      MutationKeepsValid(ix, s, r.state, PutDoc(name, id, CurrentDoc(s, name, id), raw.value));
    }
  }

  lemma DeleteAppends(ix: Indexer, s: State, name: Name, id: i64, doc: Doc)
    requires name in s.cat.collections
    ensures Appends(ix, s, DeleteLocked(ix, s, name, id, doc), DeleteDoc(name, id, doc))
  {
  }

  lemma DeleteKeepsValid(ix: Indexer, s: State, name: Name, id: i64, doc: Doc)
    requires Valid(ix, s) && name in s.cat.collections && Find(Live(s, name), id) == Some(doc)
    ensures Valid(ix, DeleteLocked(ix, s, name, id, doc))
  {
    DeleteAppends(ix, s, name, id, doc);
    forall def | def in s.cat.collections[name].indexes && def.unique
      ensures UniqueDocs(ix, Live(s, name) - {id}, def)
    {
      LiveUnique(ix, s.engine, s.cat, s.pending, name, def);
      UniqueAfterRemove(ix, Live(s, name), def, id);
    }
    MutationKeepsValid(ix, s, DeleteLocked(ix, s, name, id, doc), DeleteDoc(name, id, doc));
  }

  lemma UniqueAfterRemove(ix: Indexer, docs: map<i64, Doc>, def: IndexDef, id: i64)
    requires UniqueDocs(ix, docs, def)
    ensures UniqueDocs(ix, docs - {id}, def)
  {
  }

  // ----- next ids -----

  function WithNextId(s: State, name: Name, next: i64): State
    requires name in s.cat.collections
  {
    WithCollection(s, name, s.cat.collections[name].(nextId := next))
  }

  lemma NextIdKeepsLive(s: State, name: Name, next: i64, n: Name)
    requires name in s.cat.collections && n in s.cat.collections
    ensures n in WithNextId(s, name, next).cat.collections
    ensures Live(WithNextId(s, name, next), n) == Live(s, n)
  {
  }

  lemma NextIdKeepsCounters(ix: Indexer, s: State, name: Name, next: i64)
    requires name in s.cat.collections && CountersOk(ix, s)
    ensures CountersOk(ix, WithNextId(s, name, next))
  {
    var s' := WithNextId(s, name, next);
    forall n | n in s'.cat.collections ensures CountsOk(ix, s'.cat.collections[n], Live(s', n)) {
      NextIdKeepsLive(s, name, next, n);
      assert CountsOk(ix, s.cat.collections[n], Live(s, n));
    }
  }

  /** Changing NextID touches nothing the invariants speak of. */
  lemma NextIdKeepsValid(ix: Indexer, s: State, name: Name, next: i64)
    requires Valid(ix, s) && name in s.cat.collections
    ensures Valid(ix, WithNextId(s, name, next))
  {
    var s' := WithNextId(s, name, next);
    UpdateKeepsShape(s, name, s.cat.collections[name].(nextId := next));
    ShapeKeepsEngine(ix, s.engine, s.cat, s'.cat);
    ExtensionKeepsLog(ix, s.engine, s.cat, s'.cat, s.pending);
    NextIdKeepsCounters(ix, s, name, next);
  }

  lemma RaiseKeepsValid(ix: Indexer, s: State, name: Name, id: i64)
    requires Valid(ix, s) && name in s.cat.collections
    ensures Valid(ix, RaiseNextId(s, name, id))
    ensures name in RaiseNextId(s, name, id).cat.collections
    ensures RaiseNextId(s, name, id).cat.next == s.cat.next
  {
    if id > s.cat.collections[name].nextId {
      NextIdKeepsValid(ix, s, name, id);
    }
  }

  /** Outside a transaction nothing is pending, so the engine is what a transaction would see. */
  lemma ReadsAgree(ix: Indexer, s: State, inTx: bool, name: Name, id: i64)
    requires Valid(ix, s) && name in s.cat.collections && (inTx || s.pending == [])
    ensures ReadDoc(s, inTx, name, id) == Find(Live(s, name), id)
  {
    CurrentIsLive(s, name, id);
    if !inTx {
      StoredDocsContents(s.engine, s.cat.collections[name].dbid);
    }
  }

  /** The state of a step is valid, and it handed out at most one dbid. */
  ghost predicate StepOk(ix: Indexer, s: State, s': State) {
    Valid(ix, s') && s.cat.next <= s'.cat.next <= s.cat.next + 1
  }

  lemma PutNewKeepsValid(ix: Indexer, s: State, name: Name, raw: Option<Doc>)
    requires Valid(ix, s) && s.cat.next < MAX_I64
    ensures StepOk(ix, s, PutNew(ix, s, name, raw).state)
  {
    EnsureKeepsValid(ix, s, name);
    hide Valid, PutLocked;
    var s1 := Ensure(s, name);
    var id := Next(s1.cat.collections[name].nextId);
    NextIdKeepsValid(ix, s1, name, id);
    PutKeepsValid(ix, WithNextId(s1, name, id), name, id, raw);
  }

  lemma PutOpKeepsValid(ix: Indexer, s: State, name: Name, id: i64, raw: Option<Doc>)
    requires Valid(ix, s) && s.cat.next < MAX_I64
    ensures StepOk(ix, s, Put(ix, s, name, id, raw).state)
  {
    hide Valid, PutLocked;
    EnsureKeepsValid(ix, s, name);
    RaiseKeepsValid(ix, Ensure(s, name), name, id);
    PutKeepsValid(ix, RaiseNextId(Ensure(s, name), name, id), name, id, raw);
  }

  lemma DeleteOpKeepsValid(ix: Indexer, s: State, inTx: bool, name: Name, id: i64)
    requires Valid(ix, s) && (inTx || s.pending == [])
    ensures StepOk(ix, s, Delete(ix, s, inTx, name, id).state)
  {
    hide Valid;
    if name in s.cat.collections {
      ReadsAgree(ix, s, inTx, name, id);
      if ReadDoc(s, inTx, name, id).Some? {
        DeleteKeepsValid(ix, s, name, id, ReadDoc(s, inTx, name, id).value);
      }
    }
  }

  lemma PatchKeepsValid(ix: Indexer, s: State, inTx: bool, name: Name, id: i64, patch: Doc -> Option<Doc>)
    requires Valid(ix, s)
    ensures StepOk(ix, s, PatchDoc(ix, s, inTx, name, id, patch).state)
  {
    hide Valid, PutLocked;
    if name in s.cat.collections && ReadDoc(s, inTx, name, id).Some? {
      var d := patch(ReadDoc(s, inTx, name, id).value);
      if d.Some? {
        PutKeepsValid(ix, s, name, id, d);
      }
    }
  }

  lemma MergeOrPutKeepsValid(ix: Indexer, s: State, inTx: bool, name: Name, id: i64, raw: Option<Doc>)
    requires Valid(ix, s) && s.cat.next < MAX_I64
    ensures StepOk(ix, s, MergeOrPut(ix, s, inTx, name, id, raw).state)
  {
    hide Valid, PutLocked;
    EnsureKeepsValid(ix, s, name);
    var s1 := Ensure(s, name);
    var cur := ReadDoc(s1, inTx, name, id);
    if cur.None? {
      RaiseKeepsValid(ix, s1, name, id);
      PutKeepsValid(ix, RaiseNextId(s1, name, id), name, id, raw);
    } else if raw.Some? {
      PutKeepsValid(ix, s1, name, id, Some(MergePatch(cur.value, raw.value)));
    }
  }

  /** Every document operation keeps the invariants, whether it succeeds or fails. */
  lemma RecordKeepsValid(ix: Indexer, s: State, inTx: bool, op: DocOp)
    requires Valid(ix, s) && (inTx || s.pending == []) && s.cat.next < MAX_I64
    ensures StepOk(ix, s, Record(ix, s, inTx, op).state)
  {
    hide Valid, PutNew, Put, Delete, PatchDoc, MergeOrPut;
    match op
    case OpEnsureCollection(name) =>
      EnsureKeepsValid(ix, s, name);
      DirtyKeepsValid(ix, Ensure(s, name));
    case OpPutNew(name, raw) => PutNewKeepsValid(ix, s, name, raw);
    case OpPut(name, id, raw) => PutOpKeepsValid(ix, s, name, id, raw);
    case OpDelete(name, id) => DeleteOpKeepsValid(ix, s, inTx, name, id);
    case OpPatch(name, id, patch) => PatchKeepsValid(ix, s, inTx, name, id, patch);
    case OpMergeOrPut(name, id, raw) => MergeOrPutKeepsValid(ix, s, inTx, name, id, raw);
  }

  lemma DirtyKeepsValid(ix: Indexer, s: State)
    requires Valid(ix, s)
    ensures Valid(ix, s.(dirtyMeta := true))
  {
    var s' := s.(dirtyMeta := true);
    forall n | n in s'.cat.collections ensures Live(s', n) == Live(s, n) {
    }
  }

  // ----- committing -----

  lemma WritingMetaKeepsEngine(ix: Indexer, e: Engine, cat: Catalog, v: Val)
    requires EngineOk(ix, e, cat)
    ensures EngineOk(ix, e[MetaKey := v], cat)
    ensures forall dbid: i64 :: StoredDocs(e[MetaKey := v], dbid) == StoredDocs(e, dbid)
  {
    hide IndexAgrees;
    var e' := e[MetaKey := v];
    forall dbid: i64 ensures StoredDocs(e', dbid) == StoredDocs(e, dbid) {
      StoredDocsFrame(e, e', dbid);
    }
    forall n, def | n in cat.collections && def in cat.collections[n].indexes
      ensures IndexAgrees(ix, e', def, cat.collections[n].indexes[def].dbid, StoredDocs(e', cat.collections[n].dbid))
    {
      IndexAgreesFrame(ix, e, e', def, cat.collections[n].indexes[def].dbid, StoredDocs(e, cat.collections[n].dbid));
    }
  }

  lemma {:induction false} SameDocsKeepLog(ix: Indexer, e: Engine, e': Engine, cat: Catalog, log: seq<Mutation>)
    requires LogOk(ix, e, cat, log)
    requires forall dbid: i64 :: StoredDocs(e', dbid) == StoredDocs(e, dbid)
    ensures LogOk(ix, e', cat, log)
  {
    if log != [] {
      SameDocsKeepLog(ix, e, e', cat, log[..|log| - 1]);
    }
  }

  /** Nothing left to write in the log. */
  ghost predicate AllStorable(log: seq<Mutation>) {
    forall i | 0 <= i < |log| && log[i].PutDoc? :: Storable(log[i].doc)
  }

  /**
   A commit succeeds exactly when every pending document can be encoded; otherwise nothing has changed.
   If the codec returns the pending documents unchanged, the database is then clean, and every collection
   holds the documents the transaction saw.
   */
  lemma CommitExact(ix: Indexer, s: State)
    requires Valid(ix, s)
    ensures Commit(ix, s).error.None? <==> AllStorable(s.pending)
    ensures Commit(ix, s).error.Some? ==> Commit(ix, s).state == s
    ensures Commit(ix, s).error.None? && AllStable(s.pending) ==>
      && Clean(ix, Commit(ix, s).state)
      && Commit(ix, s).state.cat == s.cat
      && forall n | n in s.cat.collections :: Live(Commit(ix, s).state, n) == Live(s, n)
  {
    if s.dirtyMeta || s.pending != [] {
      var e := s.engine[MetaKey := CatalogVal(s.cat)];
      WritingMetaKeepsEngine(ix, s.engine, s.cat, CatalogVal(s.cat));
      SameDocsKeepLog(ix, s.engine, e, s.cat, s.pending);
      LogNames(ix, s.engine, s.cat, s.pending);
      ReplaySucceedsExactly(ix, e, s.cat, s.pending);
      if Replay(ix, e, s.cat, s.pending).Some? && AllStable(s.pending) {
        ReplayRefinesOverlay(ix, e, s.cat, s.pending);
        var s' := Commit(ix, s).state;
        forall n | n in s.cat.collections ensures Live(s', n) == Live(s, n) {
        }
      }
    }
  }

  // ----- transactions -----

  lemma {:induction false} RecordAllKeepsValid(ix: Indexer, s: State, ops: seq<DocOp>)
    requires Valid(ix, s) && s.cat.next + |ops| <= MAX_I64
    ensures Valid(ix, RecordAll(ix, s, ops))
    ensures s.cat.next <= RecordAll(ix, s, ops).cat.next <= s.cat.next + |ops|
  {
    if ops != [] {
      RecordAllKeepsValid(ix, s, ops[..|ops| - 1]);
      RecordKeepsValid(ix, RecordAll(ix, s, ops[..|ops| - 1]), true, ops[|ops| - 1]);
    }
  }

  /**
   Abort is total: whatever the callback did, and whether the callback or the commit failed, the
   transaction that reports an error leaves the engine, catalog, counters, next ids, log and flags
   exactly as they were.
   */
  lemma AbortIsTotal(ix: Indexer, s: State, ops: seq<DocOp>, fails: bool)
    requires WriteTx(ix, s, ops, fails).error.Some?
    ensures WriteTx(ix, s, ops, fails).state == s
  {
    RecordAllGrowsLog(ix, s, ops);
    var after := RecordAll(ix, s, ops);
    assert after.pending[..|s.pending|] == s.pending;
  }

  /** A transaction keeps the invariants, fails exactly when it must, and shows what it saw. */
  lemma WriteTxExact(ix: Indexer, s: State, ops: seq<DocOp>, fails: bool)
    requires Clean(ix, s) && Steady(s) && StableOps(ops) && s.cat.next + |ops| <= MAX_I64
    ensures Clean(ix, WriteTx(ix, s, ops, fails).state) && Steady(WriteTx(ix, s, ops, fails).state)
    ensures s.cat.next <= WriteTx(ix, s, ops, fails).state.cat.next <= s.cat.next + |ops|
    ensures WriteTx(ix, s, ops, fails).error.None? <==> !fails && AllStorable(RecordAll(ix, s, ops).pending)
    ensures WriteTx(ix, s, ops, fails).error.None? ==>
      var after := RecordAll(ix, s, ops);
      && WriteTx(ix, s, ops, fails).state.cat == after.cat
      && forall n | n in after.cat.collections :: Live(WriteTx(ix, s, ops, fails).state, n) == Live(after, n)
  {
    RecordAllKeepsValid(ix, s, ops);
    RecordAllKeepsSteady(ix, s, ops);
    RecordAllGrowsLog(ix, s, ops);
    CommitExact(ix, RecordAll(ix, s, ops));
    CommitKeepsSteady(ix, RecordAll(ix, s, ops));
    if WriteTx(ix, s, ops, fails).error.Some? {
      AbortIsTotal(ix, s, ops, fails);
    }
  }
}
