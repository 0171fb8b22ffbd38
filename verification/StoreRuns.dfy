/**
 Whole runs of the database: collections and indexes come and go, documents are written one by one or in
 transactions, and after every command the invariants hold again.
 */
module StoreRuns {
  import opened Wrappers
  import opened Bytes
  import opened Keys
  import opened IndexRange
  import opened Document
  import opened Store
  import opened StoreInvariants
  import opened StoreReplay
  import opened StoreStable
  import opened StoreSteps
  import opened Patch

  // ----- dropping part of the catalog -----

  /** `cat'` keeps some of the slots of `cat`, with their dbids. */
  ghost predicate Restricts(cat: Catalog, cat': Catalog) {
    && cat'.next == cat.next
    && forall t | HasSlot(cat', t) :: HasSlot(cat, t) && SlotDbid(cat', t) == SlotDbid(cat, t)
  }

  /** The keys of the remaining slots are untouched, all others are gone. */
  ghost predicate KeepsOwned(e: Engine, e': Engine, cat': Catalog) {
    forall k: Key | !k.MetaKey? ::
      if exists t :: OwnedBy(cat', k, t) then SameAt(e, e', k) else k !in e'
  }

  lemma OwnedStays(e: Engine, e': Engine, cat': Catalog, k: Key, t: Slot)
    requires KeepsOwned(e, e', cat') && OwnedBy(cat', k, t)
    ensures SameAt(e, e', k)
  {
  }

  lemma RestrictedIndex(ix: Indexer, e: Engine, e': Engine, cat: Catalog, cat': Catalog, n: Name, def: IndexDef)
    requires EngineAgrees(ix, e, cat) && Restricts(cat, cat') && KeepsOwned(e, e', cat')
    requires n in cat'.collections && def in cat'.collections[n].indexes
    ensures IndexAgrees(ix, e', def, cat'.collections[n].indexes[def].dbid, StoredDocs(e', cat'.collections[n].dbid))
  {
    var t, c := IdxSlot(n, def), ColSlot(n);
    assert HasSlot(cat', t) && HasSlot(cat', c);
    assert HasSlot(cat, t) && SlotDbid(cat, t) == SlotDbid(cat', t);
    assert HasSlot(cat, c) && SlotDbid(cat, c) == SlotDbid(cat', c);
    var dbid, docsDbid := SlotDbid(cat', t), SlotDbid(cat', c);
    forall k | IndexKeyOf(k, dbid) ensures SameAt(e, e', k) {
      OwnedStays(e, e', cat', k, t);
    }
    forall id: i64 ensures SameAt(e, e', DocKey(docsDbid, id)) {
      OwnedStays(e, e', cat', DocKey(docsDbid, id), c);
    }
    StoredDocsFrame(e, e', docsDbid);
    IndexAgreesFrame(ix, e, e', def, dbid, StoredDocs(e, docsDbid));
  }

  lemma RestrictKeepsEngine(ix: Indexer, e: Engine, e': Engine, cat: Catalog, cat': Catalog)
    requires EngineOk(ix, e, cat) && Restricts(cat, cat') && KeepsOwned(e, e', cat')
    ensures EngineOk(ix, e', cat')
    ensures forall n | n in cat'.collections ::
      n in cat.collections && StoredDocs(e', cat'.collections[n].dbid) == StoredDocs(e, cat.collections[n].dbid)
  {
    forall n, def | n in cat'.collections && def in cat'.collections[n].indexes
      ensures IndexAgrees(ix, e', def, cat'.collections[n].indexes[def].dbid, StoredDocs(e', cat'.collections[n].dbid))
    {
      RestrictedIndex(ix, e, e', cat, cat', n, def);
    }
    forall n | n in cat'.collections
      ensures n in cat.collections && StoredDocs(e', cat'.collections[n].dbid) == StoredDocs(e, cat.collections[n].dbid)
    {
      var c := ColSlot(n);
      assert HasSlot(cat', c);
      assert HasSlot(cat, c) && SlotDbid(cat, c) == SlotDbid(cat', c);
      forall id: i64 ensures SameAt(e, e', DocKey(SlotDbid(cat', c), id)) {
        OwnedStays(e, e', cat', DocKey(SlotDbid(cat', c), id), c);
      }
      StoredDocsFrame(e, e', SlotDbid(cat', c));
    }
  }

  /** With nothing pending, the live documents are the stored ones. */
  lemma LiveIsStored(s: State, n: Name)
    requires s.pending == [] && n in s.cat.collections
    ensures Live(s, n) == StoredDocs(s.engine, s.cat.collections[n].dbid)
  {
  }

  ghost predicate StoredCountsOk(ix: Indexer, e: Engine, cat: Catalog) {
    forall n | n in cat.collections :: CountsOk(ix, cat.collections[n], StoredDocs(e, cat.collections[n].dbid))
  }

  lemma CleanFromParts(ix: Indexer, s: State)
    requires EngineOk(ix, s.engine, s.cat) && s.pending == [] && !s.dirtyMeta
    requires StoredCountsOk(ix, s.engine, s.cat)
    ensures Clean(ix, s)
  {
    forall n | n in s.cat.collections ensures CountsOk(ix, s.cat.collections[n], Live(s, n)) {
      LiveIsStored(s, n);
    }
  }

  lemma CleanEngine(ix: Indexer, s: State)
    requires Clean(ix, s)
    ensures EngineOk(ix, s.engine, s.cat)
    ensures s.pending == [] && !s.dirtyMeta
  {
  }

  lemma CleanCounts(ix: Indexer, s: State)
    requires Clean(ix, s)
    ensures StoredCountsOk(ix, s.engine, s.cat)
  {
    forall n | n in s.cat.collections
      ensures CountsOk(ix, s.cat.collections[n], StoredDocs(s.engine, s.cat.collections[n].dbid))
    {
      LiveIsStored(s, n);
    }
  }

  /** Counters survive when collections keep their documents and lose no more than indexes. */
  lemma FewerIndexesKeepCounts(ix: Indexer, e: Engine, e': Engine, cat: Catalog, cat': Catalog)
    requires StoredCountsOk(ix, e, cat)
    requires forall n | n in cat'.collections ::
      && n in cat.collections && cat'.collections[n].rnum == cat.collections[n].rnum
      && StoredDocs(e', cat'.collections[n].dbid) == StoredDocs(e, cat.collections[n].dbid)
      && forall def | def in cat'.collections[n].indexes ::
           def in cat.collections[n].indexes && cat'.collections[n].indexes[def] == cat.collections[n].indexes[def]
    ensures StoredCountsOk(ix, e', cat')
  {
  }

  // ----- RemoveCollection -----

  /** The collection or one of its indexes owns the key. */
  predicate PartOf(col: Collection, k: Key) {
    match k
    case MetaKey => false
    case SeqKey(d) => d == col.dbid
    case DocKey(d, _) => d == col.dbid
    case IdxKey(d, _, _) => exists def :: def in col.indexes && col.indexes[def].dbid == d
    case UIdxKey(d, _) => exists def :: def in col.indexes && col.indexes[def].dbid == d
  }

  /** Drop isolation: exactly the keys of the collection and its indexes disappear. */
  lemma RemoveCollectionExact(s: State, name: Name, k: Key)
    requires name in s.cat.collections && !k.MetaKey?
    ensures
      var e' := RemoveCollection(s, name).state.engine;
      if PartOf(s.cat.collections[name], k) then k !in e' else SameAt(s.engine, e', k)
  {
    var col := s.cat.collections[name];
    DropPrefixExact(s.engine, TAG_DOC, col.dbid);
    IndexRangesExactForAll();
  }

  lemma RemoveCollectionRestricts(s: State, name: Name)
    requires CatalogOk(s.cat) && name in s.cat.collections
    ensures Restricts(s.cat, RemoveCollection(s, name).state.cat)
    ensures forall k: Key | !k.MetaKey? && PartOf(s.cat.collections[name], k) ::
      !exists t :: OwnedBy(RemoveCollection(s, name).state.cat, k, t)
  {
    var cat, cat', col := s.cat, RemoveCollection(s, name).state.cat, s.cat.collections[name];
    forall k: Key | !k.MetaKey? && PartOf(col, k) ensures !exists t :: OwnedBy(cat', k, t) {
      var mine: Slot :| mine.name == name && HasSlot(cat, mine) && SlotDbid(cat, mine) == k.dbid by {
        if k.SeqKey? || k.DocKey? {
          assert HasSlot(cat, ColSlot(name)) && SlotDbid(cat, ColSlot(name)) == k.dbid;
        } else {
          var def :| def in col.indexes && col.indexes[def].dbid == k.dbid;
          assert HasSlot(cat, IdxSlot(name, def)) && SlotDbid(cat, IdxSlot(name, def)) == k.dbid;
        }
      }
      forall t ensures !OwnedBy(cat', k, t) {
        assert HasSlot(cat', t) ==> HasSlot(cat, t) && t != mine && SlotDbid(cat', t) == SlotDbid(cat, t);
      }
    }
  }

  lemma RemovedCatalog(s: State, name: Name)
    requires name in s.cat.collections
    ensures RemoveCollection(s, name).state.cat == s.cat.(collections := s.cat.collections - {name})
  {
  }

  lemma RemoveCollectionKeepsOwned(s: State, name: Name)
    requires CatalogOk(s.cat) && NoOrphans(s.engine, s.cat) && name in s.cat.collections
    ensures KeepsOwned(s.engine, RemoveCollection(s, name).state.engine, RemoveCollection(s, name).state.cat)
  {
    hide RemoveCollection, CatalogOk, PartOf;
    var r := RemoveCollection(s, name).state;
    RemovedCatalog(s, name);
    RemoveCollectionRestricts(s, name);
    forall k: Key | !k.MetaKey?
      ensures if exists t :: OwnedBy(r.cat, k, t) then SameAt(s.engine, r.engine, k) else k !in r.engine
    {
      RemoveCollectionExact(s, name, k);
      if !PartOf(s.cat.collections[name], k) && k in s.engine {
        var t :| OwnedBy(s.cat, k, t);
        OwnerStays(s.cat, r.cat, name, k, t);
      }
    }
  }

  lemma OwnerStays(cat: Catalog, cat': Catalog, name: Name, k: Key, t: Slot)
    requires name in cat.collections && cat' == cat.(collections := cat.collections - {name})
    requires OwnedBy(cat, k, t) && !PartOf(cat.collections[name], k)
    ensures OwnedBy(cat', k, t)
  {
    assert t.name != name;
  }

  lemma RemoveCollectionKeepsClean(ix: Indexer, s: State, name: Name)
    requires Clean(ix, s)
    ensures Clean(ix, RemoveCollection(s, name).state)
  {
    if name in s.cat.collections {
      var r := RemoveCollection(s, name).state;
      RemoveCollectionRestricts(s, name);
      RemoveCollectionKeepsOwned(s, name);
      RestrictKeepsEngine(ix, s.engine, r.engine, s.cat, r.cat);
      CleanCounts(ix, s);
      FewerIndexesKeepCounts(ix, s.engine, r.engine, s.cat, r.cat);
      hide Valid, StoredCountsOk;
      CleanFromParts(ix, r);
    }
  }

  // ----- RemoveIndex -----

  /** Exactly the keys of the removed indexes disappear. */
  lemma RemoveIndexExact(s: State, name: Name, path: bytes, kind: IndexKind, k: Key)
    requires RemoveIndex(s, name, path, kind).error.None? && !k.MetaKey?
    ensures
      var removed := IndexesAt(s.cat.collections[name], path, kind);
      var e' := RemoveIndex(s, name, path, kind).state.engine;
      if exists def :: def in removed && IndexKeyOf(k, removed[def].dbid) then k !in e' else SameAt(s.engine, e', k)
  {
    IndexRangesExactForAll();
  }

  lemma RemoveIndexSlots(s: State, name: Name, path: bytes, kind: IndexKind, t: Slot)
    requires RemoveIndex(s, name, path, kind).error.None?
    ensures HasSlot(RemoveIndex(s, name, path, kind).state.cat, t) <==>
      HasSlot(s.cat, t) && !(t.IdxSlot? && t.name == name && t.def.path == path && t.def.kind == kind)
    ensures HasSlot(RemoveIndex(s, name, path, kind).state.cat, t) ==>
      SlotDbid(RemoveIndex(s, name, path, kind).state.cat, t) == SlotDbid(s.cat, t)
  {
  }

  lemma RemoveIndexKeepsOwned(s: State, name: Name, path: bytes, kind: IndexKind, k: Key)
    requires CatalogOk(s.cat) && NoOrphans(s.engine, s.cat) && !k.MetaKey?
    requires RemoveIndex(s, name, path, kind).error.None?
    ensures
      var r := RemoveIndex(s, name, path, kind).state;
      if exists t :: OwnedBy(r.cat, k, t) then SameAt(s.engine, r.engine, k) else k !in r.engine
  {
    RemoveIndexExact(s, name, path, kind, k);
    hide DropIndexes;
    var r := RemoveIndex(s, name, path, kind).state;
    var removed := IndexesAt(s.cat.collections[name], path, kind);
    if exists def :: def in removed && IndexKeyOf(k, removed[def].dbid) {
      var def :| def in removed && IndexKeyOf(k, removed[def].dbid);
      forall t ensures !OwnedBy(r.cat, k, t) {
        RemoveIndexSlots(s, name, path, kind, t);
        assert HasSlot(s.cat, IdxSlot(name, def)) && SlotDbid(s.cat, IdxSlot(name, def)) == k.dbid;
      }
    } else if k in s.engine {
      var t :| OwnedBy(s.cat, k, t);
      RemoveIndexSlots(s, name, path, kind, t);
      assert OwnedBy(r.cat, k, t);
    }
  }

  lemma RemoveIndexKeepsEngine(ix: Indexer, s: State, name: Name, path: bytes, kind: IndexKind)
    requires EngineOk(ix, s.engine, s.cat) && RemoveIndex(s, name, path, kind).error.None?
    ensures
      var r := RemoveIndex(s, name, path, kind).state;
      && EngineOk(ix, r.engine, r.cat)
      && forall n | n in r.cat.collections ::
           n in s.cat.collections && StoredDocs(r.engine, r.cat.collections[n].dbid) == StoredDocs(s.engine, s.cat.collections[n].dbid)
  {
    var r := RemoveIndex(s, name, path, kind).state;
    forall k: Key | !k.MetaKey?
      ensures if exists t :: OwnedBy(r.cat, k, t) then SameAt(s.engine, r.engine, k) else k !in r.engine
    {
      RemoveIndexKeepsOwned(s, name, path, kind, k);
    }
    forall t | HasSlot(r.cat, t) ensures HasSlot(s.cat, t) && SlotDbid(r.cat, t) == SlotDbid(s.cat, t) {
      RemoveIndexSlots(s, name, path, kind, t);
    }
    RestrictKeepsEngine(ix, s.engine, r.engine, s.cat, r.cat);
  }

  lemma RemoveIndexKeepsCounts(ix: Indexer, s: State, name: Name, path: bytes, kind: IndexKind)
    requires StoredCountsOk(ix, s.engine, s.cat) && RemoveIndex(s, name, path, kind).error.None?
    requires
      var r := RemoveIndex(s, name, path, kind).state;
      forall n | n in r.cat.collections ::
        n in s.cat.collections && StoredDocs(r.engine, r.cat.collections[n].dbid) == StoredDocs(s.engine, s.cat.collections[n].dbid)
    ensures StoredCountsOk(ix, RemoveIndex(s, name, path, kind).state.engine, RemoveIndex(s, name, path, kind).state.cat)
  {
    hide DropIndexes, StoredDocs, StoredCountsOk;
    var r := RemoveIndex(s, name, path, kind).state;
    FewerIndexesKeepCounts(ix, s.engine, r.engine, s.cat, r.cat);
  }

  lemma RemoveIndexKeepsClean(ix: Indexer, s: State, name: Name, path: bytes, kind: IndexKind)
    requires Clean(ix, s)
    ensures Clean(ix, RemoveIndex(s, name, path, kind).state)
  {
    hide Valid, EngineOk, StoredCountsOk;
    if RemoveIndex(s, name, path, kind).error.None? {
      var r := RemoveIndex(s, name, path, kind).state;
      CleanEngine(ix, s);
      RemoveIndexKeepsEngine(ix, s, name, path, kind);
      CleanCounts(ix, s);
      RemoveIndexKeepsCounts(ix, s, name, path, kind);
      CleanFromParts(ix, r);
    }
  }

  // ----- RenameCollection -----

  /** With an empty log, committing a catalog only writes the catalog. */
  lemma CommitOfCatalog(ix: Indexer, s: State)
    requires EngineOk(ix, s.engine, s.cat) && s.pending == []
    requires StoredCountsOk(ix, s.engine, s.cat)
    ensures Commit(ix, s.(dirtyMeta := true)).error.None?
    ensures Clean(ix, Commit(ix, s.(dirtyMeta := true)).state)
    ensures Commit(ix, s.(dirtyMeta := true)).state.cat == s.cat
    ensures Commit(ix, s.(dirtyMeta := true)).state.engine == s.engine[MetaKey := CatalogVal(s.cat)]
  {
    WritingMetaKeepsEngine(ix, s.engine, s.cat, CatalogVal(s.cat));
    var r := Commit(ix, s.(dirtyMeta := true)).state;
    assert r.engine == s.engine[MetaKey := CatalogVal(s.cat)];
    hide Valid;
    CleanFromParts(ix, r);
  }

  function Renamed(cat: Catalog, from: Name, to: Name): Catalog
    requires from in cat.collections
  {
    cat.(collections := (cat.collections - {from})[to := cat.collections[from]])
  }

  function OriginalSlot(t: Slot, from: Name, to: Name): Slot {
    if t.name == to then t.(name := from) else t
  }

  lemma RenamedSlots(cat: Catalog, from: Name, to: Name, t: Slot)
    requires from in cat.collections && to !in cat.collections
    ensures HasSlot(Renamed(cat, from, to), t) <==> t.name != from && HasSlot(cat, OriginalSlot(t, from, to))
    ensures HasSlot(Renamed(cat, from, to), t) ==>
      SlotDbid(Renamed(cat, from, to), t) == SlotDbid(cat, OriginalSlot(t, from, to))
  {
  }

  lemma RenameKeepsEngine(ix: Indexer, e: Engine, cat: Catalog, from: Name, to: Name)
    requires EngineOk(ix, e, cat) && from in cat.collections && to !in cat.collections
    ensures EngineOk(ix, e, Renamed(cat, from, to))
  {
    var cat' := Renamed(cat, from, to);
    forall t ensures HasSlot(cat', t) <==> t.name != from && HasSlot(cat, OriginalSlot(t, from, to))
             ensures HasSlot(cat', t) ==> SlotDbid(cat', t) == SlotDbid(cat, OriginalSlot(t, from, to))
    {
      RenamedSlots(cat, from, to, t);
    }
    forall k | k in e && !k.MetaKey? ensures exists t :: OwnedBy(cat', k, t) {
      var t :| OwnedBy(cat, k, t);
      var t' := if t.name == from then t.(name := to) else t;
      assert OriginalSlot(t', from, to) == t;
      assert OwnedBy(cat', k, t');
    }
  }

  lemma RenameKeepsClean(ix: Indexer, s: State, from: Name, to: Name)
    requires Clean(ix, s)
    ensures Clean(ix, RenameCollection(ix, s, from, to).state)
    ensures RenameCollection(ix, s, from, to).state.cat.next == s.cat.next
  {
    if from in s.cat.collections && to !in s.cat.collections {
      var cat' := Renamed(s.cat, from, to);
      RenameKeepsEngine(ix, s.engine, s.cat, from, to);
      CleanCounts(ix, s);
      assert StoredCountsOk(ix, s.engine, cat');
      hide Valid;
      CommitOfCatalog(ix, s.(cat := cat'));
    }
  }

  // ----- EnsureIndex -----

  /** The rebuilt index agrees with the documents, and no other key has moved. */
  lemma RebuiltAgrees(ix: Indexer, e: Engine, docs: map<i64, Doc>, def: IndexDef, dbid: i64)
    requires def.unique ==> !SharedValue(ix, docs, def)
    ensures IndexAgrees(ix, Rebuilt(ix, e, docs, def, dbid), def, dbid, docs)
    ensures forall k | !IndexKeyOf(k, dbid) :: SameAt(e, Rebuilt(ix, e, docs, def, dbid), k)
  {
    IndexRangesExactForAll();
    var e' := Rebuilt(ix, e, docs, def, dbid);
    var keys := AllEntryKeys(ix, docs, def, dbid);
    forall v, id: i64 ensures IdxKey(dbid, v, id) in keys <==> !def.unique && id in docs && v in ix(docs[id], def) {
      if !def.unique && id in docs && v in ix(docs[id], def) {
        assert EntryKey(def.unique, dbid, v, id) == IdxKey(dbid, v, id);
      }
    }
    forall v, id: i64 | def.unique && id in docs && v in ix(docs[id], def)
      ensures UIdxKey(dbid, v) in e' && e'[UIdxKey(dbid, v)] == Owner(id)
    {
      assert EntryKey(def.unique, dbid, v, id) == UIdxKey(dbid, v);
      var owner := EntryOwner(ix, docs, def, v);
      assert owner in docs && v in ix(docs[owner], def);
    }
  }

  /** Rebuilding an index that has been maintained all along changes nothing. */
  lemma RebuildChangesNothing(ix: Indexer, s: State, name: Name, def: IndexDef, k: Key)
    requires Clean(ix, s) && name in s.cat.collections && def in s.cat.collections[name].indexes
    ensures
      var col := s.cat.collections[name];
      SameAt(s.engine, Rebuilt(ix, s.engine, StoredDocs(s.engine, col.dbid), def, col.indexes[def].dbid), k)
  {
    var col := s.cat.collections[name];
    var docs, dbid := StoredDocs(s.engine, col.dbid), col.indexes[def].dbid;
    assert IndexAgrees(ix, s.engine, def, dbid, docs);
    if def.unique {
      LiveUnique(ix, s.engine, s.cat, [], name, def);
    }
    RebuiltAgrees(ix, s.engine, docs, def, dbid);
    if IndexKeyOf(k, dbid) {
      AgreementDetermines(ix, s.engine, Rebuilt(ix, s.engine, docs, def, dbid), def, dbid, docs, k);
    }
  }

  /** The catalog with one more index. */
  function WithIndex(cat: Catalog, name: Name, def: IndexDef, idx: IndexState): Catalog
    requires name in cat.collections
  {
    var col := cat.collections[name];
    Catalog(idx.dbid, cat.collections[name := col.(indexes := col.indexes[def := idx])])
  }

  lemma NewIndexSlots(cat: Catalog, name: Name, def: IndexDef, idx: IndexState, t: Slot)
    requires name in cat.collections && def !in cat.collections[name].indexes
    ensures HasSlot(WithIndex(cat, name, def, idx), t) <==> HasSlot(cat, t) || t == IdxSlot(name, def)
    ensures HasSlot(cat, t) ==> SlotDbid(WithIndex(cat, name, def, idx), t) == SlotDbid(cat, t)
  {
  }

  lemma NewIndexKeepsCatalog(cat: Catalog, name: Name, def: IndexDef, idx: IndexState)
    requires CatalogOk(cat) && name in cat.collections && def !in cat.collections[name].indexes
    requires idx.dbid > cat.next
    ensures CatalogOk(WithIndex(cat, name, def, idx))
  {
    var cat' := WithIndex(cat, name, def, idx);
    forall t ensures HasSlot(cat', t) <==> HasSlot(cat, t) || t == IdxSlot(name, def)
             ensures HasSlot(cat, t) ==> SlotDbid(cat', t) == SlotDbid(cat, t)
    {
      NewIndexSlots(cat, name, def, idx, t);
    }
    assert SlotDbid(cat', IdxSlot(name, def)) == idx.dbid;
  }

  lemma NewIndexNoOrphans(e: Engine, e': Engine, cat: Catalog, name: Name, def: IndexDef, idx: IndexState)
    requires NoOrphans(e, cat) && name in cat.collections && def !in cat.collections[name].indexes
    requires forall k | !IndexKeyOf(k, idx.dbid) :: SameAt(e, e', k)
    ensures NoOrphans(e', WithIndex(cat, name, def, idx))
  {
    hide WithIndex;
    var cat' := WithIndex(cat, name, def, idx);
    forall k | k in e' && !k.MetaKey? ensures exists t :: OwnedBy(cat', k, t) {
      if IndexKeyOf(k, idx.dbid) {
        NewSlotOwns(cat, name, def, idx, k);
        assert OwnedBy(cat', k, IdxSlot(name, def));
      } else {
        assert SameAt(e, e', k);
        var t :| OwnedBy(cat, k, t);
        NewIndexSlots(cat, name, def, idx, t);
        assert OwnedBy(cat', k, t);
      }
    }
  }

  lemma NewSlotOwns(cat: Catalog, name: Name, def: IndexDef, idx: IndexState, k: Key)
    requires name in cat.collections && IndexKeyOf(k, idx.dbid)
    ensures OwnedBy(WithIndex(cat, name, def, idx), k, IdxSlot(name, def))
  {
  }

  lemma NewIndexKeepsEngine(ix: Indexer, e: Engine, cat: Catalog, name: Name, def: IndexDef, idx: IndexState)
    requires EngineOk(ix, e, cat) && name in cat.collections && def !in cat.collections[name].indexes
    requires idx.dbid > cat.next
    requires def.unique ==> !SharedValue(ix, StoredDocs(e, cat.collections[name].dbid), def)
    ensures
      var e' := Rebuilt(ix, e, StoredDocs(e, cat.collections[name].dbid), def, idx.dbid);
      && EngineOk(ix, e', WithIndex(cat, name, def, idx))
      && forall n | n in cat.collections :: StoredDocs(e', cat.collections[n].dbid) == StoredDocs(e, cat.collections[n].dbid)
  {
    hide Rebuilt, IndexAgrees, CatalogOk, NoOrphans, EngineAgrees, StoredDocs;
    var docs := StoredDocs(e, cat.collections[name].dbid);
    var e', cat' := Rebuilt(ix, e, docs, def, idx.dbid), WithIndex(cat, name, def, idx);
    RebuiltAgrees(ix, e, docs, def, idx.dbid);
    NewIndexKeepsCatalog(cat, name, def, idx);
    NewIndexNoOrphans(e, e', cat, name, def, idx);
    forall n | n in cat.collections ensures StoredDocs(e', cat.collections[n].dbid) == StoredDocs(e, cat.collections[n].dbid) {
      StoredDocsFrame(e, e', cat.collections[n].dbid);
    }
    NewIndexAgreement(ix, e, e', cat, name, def, idx);
  }

  lemma NewIndexAgreement(ix: Indexer, e: Engine, e': Engine, cat: Catalog, name: Name, def: IndexDef, idx: IndexState)
    requires CatalogOk(cat) && EngineAgrees(ix, e, cat) && name in cat.collections && idx.dbid > cat.next
    requires IndexAgrees(ix, e', def, idx.dbid, StoredDocs(e', cat.collections[name].dbid))
    requires forall k | !IndexKeyOf(k, idx.dbid) :: SameAt(e, e', k)
    ensures EngineAgrees(ix, e', WithIndex(cat, name, def, idx))
  {
    hide IndexAgrees, CatalogOk;
    var cat' := WithIndex(cat, name, def, idx);
    forall n, d | n in cat'.collections && d in cat'.collections[n].indexes
      ensures IndexAgrees(ix, e', d, cat'.collections[n].indexes[d].dbid, StoredDocs(e', cat'.collections[n].dbid))
    {
      if !(n == name && d == def) {
        OldIndexUndisturbed(ix, e, e', cat, n, d, idx.dbid);
      }
    }
  }

  lemma OldIndexUndisturbed(ix: Indexer, e: Engine, e': Engine, cat: Catalog, n: Name, d: IndexDef, newDbid: i64)
    requires CatalogOk(cat) && EngineAgrees(ix, e, cat) && newDbid > cat.next
    requires n in cat.collections && d in cat.collections[n].indexes
    requires forall k | !IndexKeyOf(k, newDbid) :: SameAt(e, e', k)
    ensures IndexAgrees(ix, e', d, cat.collections[n].indexes[d].dbid, StoredDocs(e', cat.collections[n].dbid))
  {
    var t := IdxSlot(n, d);
    assert HasSlot(cat, t) && SlotDbid(cat, t) <= cat.next;
    StoredDocsFrame(e, e', cat.collections[n].dbid);
    IndexAgreesFrame(ix, e, e', d, SlotDbid(cat, t), StoredDocs(e, cat.collections[n].dbid));
  }

  lemma NewIndexCounts(ix: Indexer, e: Engine, e': Engine, cat: Catalog, name: Name, def: IndexDef, idx: IndexState)
    requires StoredCountsOk(ix, e, cat) && name in cat.collections
    requires idx.rnum == TotalValues(ix, StoredDocs(e, cat.collections[name].dbid), def)
    requires forall n | n in cat.collections :: StoredDocs(e', cat.collections[n].dbid) == StoredDocs(e, cat.collections[n].dbid)
    ensures StoredCountsOk(ix, e', WithIndex(cat, name, def, idx))
  {
    hide TotalValues, StoredDocs;
    var cat' := WithIndex(cat, name, def, idx);
    forall n | n in cat'.collections
      ensures CountsOk(ix, cat'.collections[n], StoredDocs(e', cat'.collections[n].dbid))
    {
      assert CountsOk(ix, cat.collections[n], StoredDocs(e, cat.collections[n].dbid));
    }
  }

  /** EnsureIndex once the definition is accepted and the collection exists. */
  lemma BuildKeepsClean(ix: Indexer, s: State, name: Name, def: IndexDef)
    requires Clean(ix, s) && name in s.cat.collections && s.cat.next < MAX_I64
    requires def !in s.cat.collections[name].indexes
    requires !(def.unique && SharedValue(ix, StoredDocs(s.engine, s.cat.collections[name].dbid), def))
    ensures
      var docs := StoredDocs(s.engine, s.cat.collections[name].dbid);
      var idx := IndexState(Next(s.cat.next), TotalValues(ix, docs, def));
      var cat' := WithIndex(s.cat, name, def, idx);
      var meta := CatalogVal(cat'.(next := s.cat.next));
      var s2 := s.(engine := Rebuilt(ix, s.engine, docs, def, idx.dbid)[MetaKey := meta], cat := cat', dirtyMeta := true);
      Clean(ix, Commit(ix, s2).state) && Commit(ix, s2).state.cat.next == s.cat.next + 1
  {
    hide Valid, Commit, EngineOk, StoredCountsOk;
    var docs := StoredDocs(s.engine, s.cat.collections[name].dbid);
    var idx := IndexState(Next(s.cat.next), TotalValues(ix, docs, def));
    var cat' := WithIndex(s.cat, name, def, idx);
    var meta := CatalogVal(cat'.(next := s.cat.next));
    var built := Rebuilt(ix, s.engine, docs, def, idx.dbid);
    CleanEngine(ix, s);
    NewIndexKeepsEngine(ix, s.engine, s.cat, name, def, idx);
    hide Rebuilt;
    WritingMetaKeepsEngine(ix, built, cat', meta);
    var s2 := s.(engine := built[MetaKey := meta], cat := cat');
    CleanCounts(ix, s);
    NewIndexCounts(ix, s.engine, s2.engine, s.cat, name, def, idx);
    CommitOfCatalog(ix, s2);
  }

  lemma EnsureIndexKeepsClean(ix: Indexer, s: State, name: Name, def: IndexDef)
    requires Clean(ix, s) && s.cat.next + 2 <= MAX_I64
    ensures Clean(ix, EnsureIndex(ix, s, name, def).state)
    ensures s.cat.next <= EnsureIndex(ix, s, name, def).state.cat.next <= s.cat.next + 2
  {
    hide Valid, Commit, Rebuilt;
    EnsureKeepsValid(ix, s, name);
    var s1 := Ensure(s, name);
    var col := s1.cat.collections[name];
    var docs := StoredDocs(s1.engine, col.dbid);
    if ValidIndexPath(def.path) && def !in col.indexes && def.(unique := !def.unique) !in col.indexes
       && !(def.unique && SharedValue(ix, docs, def)) {
      BuildKeepsClean(ix, s1, name, def);
    }
  }

  // ----- commands and runs -----

  datatype Command =
    | Single(op: DocOp)
    | DropCollection(name: Name)
    | Rename(from: Name, to: Name)
    | AddIndex(name: Name, def: IndexDef)
    | DropIndex(name: Name, path: bytes, kind: IndexKind)
    | Transaction(ops: seq<DocOp>, fails: bool)

  ghost function Execute(ix: Indexer, s: State, c: Command): Step {
    match c
    case Single(op) => Auto(ix, s, op)
    case DropCollection(name) => RemoveCollection(s, name)
    case Rename(from, to) => RenameCollection(ix, s, from, to)
    case AddIndex(name, def) => EnsureIndex(ix, s, name, def)
    case DropIndex(name, path, kind) => RemoveIndex(s, name, path, kind)
    case Transaction(ops, fails) => WriteTx(ix, s, ops, fails)
  }

  /** How many dbids a command can consume. */
  function Cost(c: Command): nat {
    match c
    case Single(_) => 1
    case AddIndex(_, _) => 2
    case Transaction(ops, _) => |ops|
    case _ => 0
  }

  /** The document an operation outside a transaction is about to put, and where; None when it puts none. */
  function Target(s: State, op: DocOp): Option<(Name, i64, Doc)> {
    match op
    case OpPutNew(name, Some(doc)) => Some((name, Next(Ensure(s, name).cat.collections[name].nextId), doc))
    case OpPut(name, id, Some(doc)) => Some((name, id, doc))
    case OpPatch(name, id, patch) =>
      if name !in s.cat.collections then None else
      (match ReadDoc(s, false, name, id)
       case None => None
       case Some(doc) => match patch(doc) case None => None case Some(d) => Some((name, id, d)))
    case OpMergeOrPut(name, id, Some(raw)) =>
      (match ReadDoc(Ensure(s, name), false, name, id)
       case None => Some((name, id, raw))
       case Some(doc) => Some((name, id, MergePatch(doc, raw))))
    case _ => None
  }

  /**
   A write outside a transaction that cannot be encoded although no other document has its unique values:
   the commit fails, and the mutation stays in the log.
   */
  ghost predicate Poisons(ix: Indexer, s: State, op: DocOp) {
    match Target(s, op)
    case None => false
    case Some((name, id, doc)) => !Storable(doc) && !LiveConflict(ix, Ensure(s, name), name, id, doc)
  }

  /** The operation is recorded, and the log it leaves cannot be committed. */
  ghost predicate StaysInLog(ix: Indexer, s: State, op: DocOp) {
    Record(ix, s, false, op).error.None? && !AllStorable(Record(ix, s, false, op).state.pending)
  }

  /** The unique check looks at the engine, the log and the indexes only. */
  lemma ConflictDependsOn(ix: Indexer, s1: State, s2: State, name: Name, id: i64, doc: Doc)
    requires name in s1.cat.collections && name in s2.cat.collections
    requires s1.engine == s2.engine && s1.pending == s2.pending
    requires s1.cat.collections[name].indexes == s2.cat.collections[name].indexes
    ensures UniqueConflict(ix, s1, name, id, doc) <==> UniqueConflict(ix, s2, name, id, doc)
  {
    hide CommittedConflict, PendingConflict;
    forall def, v ensures
      && (CommittedConflict(s1, name, def, id, v) <==> CommittedConflict(s2, name, def, id, v))
    {
      SameConflicts(ix, s1, s2, name, def, id, v);
    }
    forall def, v ensures PendingConflict(ix, s1, name, def, id, v) <==> PendingConflict(ix, s2, name, def, id, v) {
      SamePending(ix, s1, s2, name, def, id, v);
    }
  }

  lemma SameConflicts(ix: Indexer, s1: State, s2: State, name: Name, dbid: i64, id: i64, v: bytes)
    requires s1.engine == s2.engine && s1.pending == s2.pending
    ensures CommittedConflict(s1, name, dbid, id, v) <==> CommittedConflict(s2, name, dbid, id, v)
  {
  }

  lemma SamePending(ix: Indexer, s1: State, s2: State, name: Name, def: IndexDef, id: i64, v: bytes)
    requires s1.pending == s2.pending
    ensures PendingConflict(ix, s1, name, def, id, v) <==> PendingConflict(ix, s2, name, def, id, v)
  {
  }

  /** With an empty log, a put is left in it exactly when it passes the check and cannot be encoded. */
  lemma PutStaysExactly(ix: Indexer, s: State, s1: State, name: Name, id: i64, doc: Doc)
    requires EngineAgrees(ix, s1.engine, s1.cat) && name in s1.cat.collections && name in s.cat.collections
    requires s.engine == s1.engine && s.pending == [] && s1.pending == []
    requires s.cat.collections[name].indexes == s1.cat.collections[name].indexes
    ensures var r := PutLocked(ix, s, name, id, Some(doc));
            r.error.None? && !AllStorable(r.state.pending) <==> !Storable(doc) && !LiveConflict(ix, s1, name, id, doc)
  {
    hide AllStorable, LiveConflict, Storable;
    ConflictDependsOn(ix, s, s1, name, id, doc);
    UniqueCheckExact(ix, s1, name, id, doc);
    NothingStale(ix, s1, name, id, doc);
    PutConflicts(ix, s, name, id, doc);
    if !UniqueConflict(ix, s, name, id, doc) {
      PutAppends(ix, s, name, id, Some(doc));
      OneMutation(PutDoc(name, id, CurrentDoc(s, name, id), doc));
    }
  }

  lemma NothingStale(ix: Indexer, s: State, name: Name, id: i64, doc: Doc)
    requires name in s.cat.collections && s.pending == []
    ensures !StaleClaim(ix, s, name, id, doc)
  {
  }

  /** For every operation the condition can be read off the state, the operation and the document beforehand. */
  lemma PoisonsExactly(ix: Indexer, s: State, op: DocOp)
    requires Clean(ix, s) && s.cat.next < MAX_I64
    ensures StaysInLog(ix, s, op) <==> Poisons(ix, s, op)
  {
    hide Valid, EngineOk, PutLocked, AllStorable, LiveConflict, Storable, MergePatch, EngineAgrees;
    CleanEngine(ix, s);
    if op.OpDelete? || Target(s, op).None? {
      NoPutNoPoison(ix, s, op);
    } else {
      var (name, id, doc) := Target(s, op).value;
      var s1 := Ensure(s, name);
      EnsuredAgrees(ix, s, name);
      var col := s1.cat.collections[name];
      match op
      case OpPutNew(_, _) => PutStaysExactly(ix, WithCollection(s1, name, col.(nextId := id)), s1, name, id, doc);
      case OpPut(_, _, _) => PutStaysExactly(ix, RaiseNextId(s1, name, id), s1, name, id, doc);
      case OpPatch(_, _, _) => PutStaysExactly(ix, s1, s1, name, id, doc);
      case OpMergeOrPut(_, _, _) =>
        PutStaysExactly(ix, RaiseNextId(s1, name, id), s1, name, id, doc);
        PutStaysExactly(ix, s1, s1, name, id, doc);
    }
  }

  lemma EnsuredAgrees(ix: Indexer, s: State, name: Name)
    requires Clean(ix, s) && s.cat.next < MAX_I64
    ensures EngineAgrees(ix, s.engine, Ensure(s, name).cat)
  {
    EnsureKeepsValid(ix, s, name);
  }

  lemma NoPutNoPoison(ix: Indexer, s: State, op: DocOp)
    requires s.pending == [] && (op.OpDelete? || Target(s, op).None?)
    ensures !StaysInLog(ix, s, op)
  {
    hide Storable, MergePatch, AdjustRNums;
  }

  /** A single write returns the database to a clean state exactly when it does not poison it. */
  lemma AutoExact(ix: Indexer, s: State, op: DocOp)
    requires Clean(ix, s) && Steady(s) && StableOp(op) && s.cat.next < MAX_I64
    ensures Clean(ix, Auto(ix, s, op).state) <==> !Poisons(ix, s, op)
    ensures Steady(Auto(ix, s, op).state)
    ensures s.cat.next <= Auto(ix, s, op).state.cat.next <= s.cat.next + 1
  {
    RecordKeepsValid(ix, s, false, op);
    RecordKeepsSteady(ix, s, false, op);
    PoisonsExactly(ix, s, op);
    var r := Record(ix, s, false, op);
    hide Valid, Poisons, Record;
    if r.error.None? {
      CommitExact(ix, r.state);
      CommitKeepsSteady(ix, r.state);
    } else {
      FailedRecordKeepsLog(ix, s, op);
    }
  }

  /** Once an unstorable document is in the log, no transaction commits any more. */
  lemma PoisonedTxFails(ix: Indexer, s: State, ops: seq<DocOp>, fails: bool)
    requires Valid(ix, s) && s.cat.next + |ops| <= MAX_I64 && !AllStorable(s.pending)
    ensures WriteTx(ix, s, ops, fails).error.Some? && WriteTx(ix, s, ops, fails).state == s
  {
    hide Valid, Commit, RecordAll;
    RecordAllKeepsValid(ix, s, ops);
    RecordAllGrowsLog(ix, s, ops);
    var after := RecordAll(ix, s, ops);
    var i :| 0 <= i < |s.pending| && s.pending[i].PutDoc? && !Storable(s.pending[i].doc);
    assert after.pending[i] == s.pending[i];
    CommitExact(ix, after);
    AbortIsTotal(ix, s, ops, fails);
  }

  /** A rejected operation records nothing. */
  lemma FailedRecordKeepsLog(ix: Indexer, s: State, op: DocOp)
    requires Record(ix, s, false, op).error.Some?
    ensures Record(ix, s, false, op).state.pending == s.pending
    ensures Record(ix, s, false, op).state.dirtyMeta == s.dirtyMeta
  {
    hide UniqueConflict;
  }

  lemma PutConflicts(ix: Indexer, s: State, name: Name, id: i64, doc: Doc)
    requires name in s.cat.collections
    ensures PutLocked(ix, s, name, id, Some(doc)).error.None? <==> !UniqueConflict(ix, s, name, id, doc)
  {
    hide UniqueConflict;
  }

  lemma OneMutation(m: Mutation)
    ensures AllStorable([] + [m]) <==> (m.PutDoc? ==> Storable(m.doc))
  {
    assert ([] + [m])[0] == m;
  }

  /** What a command is given is stable, and a write outside a transaction does not poison the log. */
  ghost predicate Sound(ix: Indexer, s: State, c: Command) {
    match c
    case Single(op) => StableOp(op) && !Poisons(ix, s, op)
    case Transaction(ops, _) => StableOps(ops)
    case _ => true
  }

  lemma ExecuteKeepsClean(ix: Indexer, s: State, c: Command)
    requires Clean(ix, s) && Steady(s) && s.cat.next + Cost(c) <= MAX_I64 && Sound(ix, s, c)
    ensures Clean(ix, Execute(ix, s, c).state) && Steady(Execute(ix, s, c).state)
    ensures s.cat.next <= Execute(ix, s, c).state.cat.next <= s.cat.next + Cost(c)
  {
    hide Clean, Steady, Poisons, Auto, RenameCollection, EnsureIndex, WriteTx;
    match c
    case Single(op) => AutoExact(ix, s, op);
    case DropCollection(name) =>
      RemoveCollectionKeepsClean(ix, s, name);
      DropsKeepSteady(s, name);
    case Rename(from, to) =>
      RenameKeepsClean(ix, s, from, to);
      RenameKeepsSteady(ix, s, from, to);
    case AddIndex(name, def) =>
      EnsureIndexKeepsClean(ix, s, name, def);
      EnsureIndexKeepsSteady(ix, s, name, def);
    case DropIndex(name, path, kind) =>
      RemoveIndexKeepsClean(ix, s, name, path, kind);
      RemoveIndexKeepsSteady(s, name, path, kind);
    case Transaction(ops, fails) => WriteTxExact(ix, s, ops, fails);
  }

  lemma DropsKeepSteady(s: State, name: Name)
    requires Steady(s)
    ensures Steady(RemoveCollection(s, name).state)
  {
    hide Stable;
  }

  lemma RemoveIndexKeepsSteady(s: State, name: Name, path: bytes, kind: IndexKind)
    requires Steady(s)
    ensures Steady(RemoveIndex(s, name, path, kind).state)
  {
    hide Stable;
  }

  lemma RenameKeepsSteady(ix: Indexer, s: State, from: Name, to: Name)
    requires Steady(s)
    ensures Steady(RenameCollection(ix, s, from, to).state)
  {
    hide Stable, Commit;
    if from in s.cat.collections && to !in s.cat.collections {
      var col := s.cat.collections[from];
      CommitKeepsSteady(ix, s.(cat := s.cat.(collections := (s.cat.collections - {from})[to := col]), dirtyMeta := true));
    }
  }

  lemma EnsureIndexKeepsSteady(ix: Indexer, s: State, name: Name, def: IndexDef)
    requires Steady(s)
    ensures Steady(EnsureIndex(ix, s, name, def).state)
  {
    hide Stable, Commit, Rebuilt, BuildIndex, ValidIndexPath;
    BuildKeepsSteady(ix, Ensure(s, name), name, def);
  }

  lemma BuildKeepsSteady(ix: Indexer, s1: State, name: Name, def: IndexDef)
    requires Steady(s1) && name in s1.cat.collections
    ensures Steady(BuildIndex(ix, s1, name, def).state)
  {
    hide Stable, Commit, Rebuilt, StoredDocs, TotalValues, SharedValue;
    var col := s1.cat.collections[name];
    var docs := StoredDocs(s1.engine, col.dbid);
    var dbid := Next(s1.cat.next);
    RebuiltStable(ix, s1.engine, docs, def, dbid);
    var idx := IndexState(dbid, TotalValues(ix, docs, def));
    var s2 := WithCollection(s1, name, col.(indexes := col.indexes[def := idx]));
    var e := Rebuilt(ix, s1.engine, docs, def, dbid)[MetaKey := CatalogVal(s2.cat)];
    CommitKeepsSteady(ix, s2.(engine := e, cat := s2.cat.(next := dbid), dirtyMeta := true));
  }

  lemma RebuiltStable(ix: Indexer, e: Engine, docs: map<i64, Doc>, def: IndexDef, dbid: i64)
    requires StableEngine(e)
    ensures StableEngine(Rebuilt(ix, e, docs, def, dbid))
  {
    hide Stable, InIndexRanges;
  }

  ghost function Run(ix: Indexer, s: State, run: seq<Command>): State {
    if run == [] then s
    else Execute(ix, Run(ix, s, run[..|run| - 1]), run[|run| - 1]).state
  }

  function TotalCost(run: seq<Command>): nat {
    if run == [] then 0 else TotalCost(run[..|run| - 1]) + Cost(run[|run| - 1])
  }

  /** Every command of the run is sound in the state it finds. */
  ghost predicate Tame(ix: Indexer, s: State, run: seq<Command>) {
    run == [] ||
    (Tame(ix, s, run[..|run| - 1]) && Sound(ix, Run(ix, s, run[..|run| - 1]), run[|run| - 1]))
  }

  lemma InitialClean(ix: Indexer)
    ensures Clean(ix, INITIAL) && Steady(INITIAL)
  {
  }

  /** Every run from an empty database ends in a clean state, as long as dbids last. */
  lemma {:induction false} EveryRunIsClean(ix: Indexer, run: seq<Command>)
    requires Tame(ix, INITIAL, run) && 1 + TotalCost(run) <= MAX_I64
    ensures Clean(ix, Run(ix, INITIAL, run)) && Steady(Run(ix, INITIAL, run))
    ensures Run(ix, INITIAL, run).cat.next <= 1 + TotalCost(run)
  {
    if run == [] {
      InitialClean(ix);
    } else {
      hide Clean, Steady, Sound, Execute;
      EveryRunIsClean(ix, run[..|run| - 1]);
      ExecuteKeepsClean(ix, Run(ix, INITIAL, run[..|run| - 1]), run[|run| - 1]);
    }
  }

  /** After every such run, rebuilding an index that was maintained step by step changes nothing. */
  lemma EveryRebuildChangesNothing(ix: Indexer, run: seq<Command>, name: Name, def: IndexDef, k: Key)
    requires Tame(ix, INITIAL, run) && 1 + TotalCost(run) <= MAX_I64
    requires var s := Run(ix, INITIAL, run); name in s.cat.collections && def in s.cat.collections[name].indexes
    ensures
      var s := Run(ix, INITIAL, run);
      var col := s.cat.collections[name];
      SameAt(s.engine, Rebuilt(ix, s.engine, StoredDocs(s.engine, col.dbid), def, col.indexes[def].dbid), k)
  {
    hide Clean, Tame, Run, Rebuilt, StoredDocs;
    EveryRunIsClean(ix, run);
    RebuildChangesNothing(ix, Run(ix, INITIAL, run), name, def, k);
  }
}
