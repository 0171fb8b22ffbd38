/**
 Commit: replaying the log on the stored keys gives exactly the documents the overlay showed, and keeps
 every index in agreement with them, one mutation at a time.
 */
module StoreReplay {
  import opened Bytes
  import opened Keys
  import opened IndexRange
  import opened Document
  import opened Store
  import opened StoreInvariants

  // ----- frames -----

  predicate SameAt(e: Engine, e': Engine, k: Key) {
    (k in e <==> k in e') && (k in e ==> e[k] == e'[k])
  }

  lemma StoredDocsFrame(e: Engine, e': Engine, dbid: i64)
    requires forall id: i64 :: SameAt(e, e', DocKey(dbid, id))
    ensures StoredDocs(e', dbid) == StoredDocs(e, dbid)
  {
    StoredDocsContents(e, dbid);
    StoredDocsContents(e', dbid);
    forall id: i64 ensures DocKey(dbid, id) in e <==> DocKey(dbid, id) in e' {
      assert SameAt(e, e', DocKey(dbid, id));
    }
    forall id | id in StoredDocs(e, dbid) ensures StoredDocs(e', dbid)[id] == StoredDocs(e, dbid)[id] {
      assert SameAt(e, e', DocKey(dbid, id));
    }
  }

  lemma IndexAgreesFrame(ix: Indexer, e: Engine, e': Engine, def: IndexDef, dbid: i64, docs: map<i64, Doc>)
    requires IndexAgrees(ix, e, def, dbid, docs)
    requires forall k | IndexKeyOf(k, dbid) :: SameAt(e, e', k)
    ensures IndexAgrees(ix, e', def, dbid, docs)
  {
    forall v, id: i64 ensures SameAt(e, e', IdxKey(dbid, v, id)) {
      assert IndexKeyOf(IdxKey(dbid, v, id), dbid);
    }
    forall v ensures SameAt(e, e', UIdxKey(dbid, v)) {
      assert IndexKeyOf(UIdxKey(dbid, v), dbid);
    }
  }

  /** Two engines that agree with the same documents hold the same entries: an index is determined. */
  lemma AgreementDetermines(ix: Indexer, e1: Engine, e2: Engine, def: IndexDef, dbid: i64, docs: map<i64, Doc>, k: Key)
    requires IndexAgrees(ix, e1, def, dbid, docs) && IndexAgrees(ix, e2, def, dbid, docs)
    requires IndexKeyOf(k, dbid)
    ensures SameAt(e1, e2, k)
  {
    match k
    case IdxKey(_, v, id) =>
    case UIdxKey(_, v) =>
      if k in e1 {
        var id := e1[UIdxKey(dbid, v)].id;
        assert v in ix(docs[id], def);
      }
  }

  // ----- the keys of one document, index by index -----

  /** Under the dbid of one index, a document's keys are its values in that index. */
  lemma EntryKeysOfIndex(ix: Indexer, cat: Catalog, name: Name, def: IndexDef, id: i64, doc: Doc)
    requires CatalogOk(cat) && HasSlot(cat, IdxSlot(name, def))
    ensures
      var indexes := cat.collections[name].indexes;
      var dbid := indexes[def].dbid;
      && (forall v, id2: i64 :: IdxKey(dbid, v, id2) in EntryKeys(ix, indexes, id, doc)
            <==> !def.unique && id2 == id && v in ix(doc, def))
      && (forall v :: UIdxKey(dbid, v) in EntryKeys(ix, indexes, id, doc)
            <==> def.unique && v in ix(doc, def))
  {
    var indexes := cat.collections[name].indexes;
    var dbid := indexes[def].dbid;
    forall k | k in EntryKeys(ix, indexes, id, doc) && k.dbid == dbid
      ensures exists v :: v in ix(doc, def) && k == EntryKey(def.unique, dbid, v, id)
    {
      var d, v :| d in indexes && v in ix(doc, d) && k == EntryKey(d.unique, indexes[d].dbid, v, id);
      assert HasSlot(cat, IdxSlot(name, d)) && SlotDbid(cat, IdxSlot(name, d)) == SlotDbid(cat, IdxSlot(name, def));
      assert d == def;
    }
    forall v, id2: i64
      ensures IdxKey(dbid, v, id2) in EntryKeys(ix, indexes, id, doc)
         <==> !def.unique && id2 == id && v in ix(doc, def)
    {
      if !def.unique && id2 == id && v in ix(doc, def) {
        assert EntryKey(def.unique, indexes[def].dbid, v, id) == IdxKey(dbid, v, id2);
      }
    }
    forall v
      ensures UIdxKey(dbid, v) in EntryKeys(ix, indexes, id, doc) <==> def.unique && v in ix(doc, def)
    {
      if def.unique && v in ix(doc, def) {
        assert EntryKey(def.unique, indexes[def].dbid, v, id) == UIdxKey(dbid, v);
      }
    }
  }

  /** A document has no keys in the indexes of another collection. */
  lemma EntryKeysElsewhere(ix: Indexer, cat: Catalog, name: Name, id: i64, doc: Doc, t: Slot, k: Key)
    requires CatalogOk(cat) && name in cat.collections && HasSlot(cat, t) && t.IdxSlot? && t.name != name
    requires IndexKeyOf(k, SlotDbid(cat, t))
    ensures k !in EntryKeys(ix, cat.collections[name].indexes, id, doc)
  {
    var indexes := cat.collections[name].indexes;
    if k in EntryKeys(ix, indexes, id, doc) {
      var d, v :| d in indexes && v in ix(doc, d) && k == EntryKey(d.unique, indexes[d].dbid, v, id);
      assert HasSlot(cat, IdxSlot(name, d));
    }
  }

  // ----- one mutation -----

  ghost predicate Touched(ix: Indexer, cat: Catalog, m: Mutation, k: Key)
    requires m.name in cat.collections
  {
    var col := cat.collections[m.name];
    || k == SeqKey(col.dbid)
    || k == DocKey(col.dbid, m.id)
    || (Previous(m).Some? && k in EntryKeys(ix, col.indexes, m.id, Previous(m).value))
    || (m.PutDoc? && k in EntryKeys(ix, col.indexes, m.id, m.doc))
  }

  lemma ReplayOneTouches(ix: Indexer, e: Engine, cat: Catalog, m: Mutation, k: Key)
    requires m.name in cat.collections && ReplayOne(ix, e, cat, m).Some? && !Touched(ix, cat, m, k)
    ensures SameAt(e, ReplayOne(ix, e, cat, m).value, k)
  {
  }

  lemma EntryKeysAreIndexKeys(ix: Indexer, indexes: map<IndexDef, IndexState>, id: i64, doc: Doc)
    ensures forall k | k in EntryKeys(ix, indexes, id, doc) :: k.IdxKey? || k.UIdxKey?
  {
  }

  /** The mutation as the codec leaves it. */
  function Stored(m: Mutation): Mutation {
    match m
    case PutDoc(_, _, _, doc) => m.(doc := Reread(doc))
    case DeleteDoc(_, _, _) => m
  }

  lemma ReplayOneDocs(ix: Indexer, e: Engine, cat: Catalog, m: Mutation, n: Name)
    requires CatalogOk(cat) && m.name in cat.collections && n in cat.collections
    requires ReplayOne(ix, e, cat, m).Some?
    ensures StoredDocs(ReplayOne(ix, e, cat, m).value, cat.collections[n].dbid)
         == OverlayOne(StoredDocs(e, cat.collections[n].dbid), Stored(m), n)
  {
    hide Reread;
    var e' := ReplayOne(ix, e, cat, m).value;
    var col := cat.collections[m.name];
    var dbid := cat.collections[n].dbid;
    if Previous(m).Some? {
      EntryKeysAreIndexKeys(ix, col.indexes, m.id, Previous(m).value);
    }
    if m.PutDoc? {
      EntryKeysAreIndexKeys(ix, col.indexes, m.id, m.doc);
    }
    if n != m.name {
      assert HasSlot(cat, ColSlot(n)) && HasSlot(cat, ColSlot(m.name));
      assert SlotDbid(cat, ColSlot(n)) != SlotDbid(cat, ColSlot(m.name));
    }
    forall id: i64 | !(n == m.name && id == m.id) ensures SameAt(e, e', DocKey(dbid, id)) {
      ReplayOneTouches(ix, e, cat, m, DocKey(dbid, id));
    }
    if n != m.name {
      StoredDocsFrame(e, e', dbid);
    } else {
      StoredDocsContents(e, dbid);
      StoredDocsContents(e', dbid);
      assert m.PutDoc? ==> DocKey(dbid, m.id) in e' && BodyOf(e'[DocKey(dbid, m.id)]) == Reread(m.doc);
      assert m.DeleteDoc? ==> DocKey(dbid, m.id) !in e';
      var docs, docs' := StoredDocs(e, dbid), StoredDocs(e', dbid);
      forall id: i64 | id != m.id ensures Find(docs', id) == Find(docs, id) {
        assert SameAt(e, e', DocKey(dbid, id));
      }
      SameFinds(docs', OverlayOne(docs, Stored(m), n));
    }
  }

  lemma SameFinds(d1: map<i64, Doc>, d2: map<i64, Doc>)
    requires forall id: i64 :: Find(d1, id) == Find(d2, id)
    ensures d1 == d2
  {
    forall id: i64 ensures (id in d1 <==> id in d2) && (id in d1 ==> d1[id] == d2[id]) {
      assert Find(d1, id) == Find(d2, id);
    }
  }

  /** The indexes of the other collections are out of reach. */
  lemma ReplayOneElsewhere(ix: Indexer, e: Engine, cat: Catalog, m: Mutation, n: Name, def: IndexDef, docs: map<i64, Doc>)
    requires CatalogOk(cat) && m.name in cat.collections && HasSlot(cat, IdxSlot(n, def)) && n != m.name
    requires ReplayOne(ix, e, cat, m).Some?
    requires IndexAgrees(ix, e, def, cat.collections[n].indexes[def].dbid, docs)
    ensures IndexAgrees(ix, ReplayOne(ix, e, cat, m).value, def, cat.collections[n].indexes[def].dbid, docs)
  {
    var dbid := cat.collections[n].indexes[def].dbid;
    var e' := ReplayOne(ix, e, cat, m).value;
    forall k | IndexKeyOf(k, dbid) ensures SameAt(e, e', k) {
      if Previous(m).Some? {
        EntryKeysElsewhere(ix, cat, m.name, m.id, Previous(m).value, IdxSlot(n, def), k);
      }
      if m.PutDoc? {
        EntryKeysElsewhere(ix, cat, m.name, m.id, m.doc, IdxSlot(n, def), k);
      }
      ReplayOneTouches(ix, e, cat, m, k);
    }
    IndexAgreesFrame(ix, e, e', def, dbid, docs);
  }

  ghost function OldValues(ix: Indexer, m: Mutation, def: IndexDef): seq<bytes> {
    if Previous(m).Some? then ix(Previous(m).value, def) else []
  }

  ghost function NewValues(ix: Indexer, m: Mutation, def: IndexDef): seq<bytes> {
    if m.PutDoc? then ix(m.doc, def) else []
  }

  /** What one mutation does to the entries of one index of its own collection. */
  lemma ReplayOneEntries(ix: Indexer, e: Engine, cat: Catalog, m: Mutation, def: IndexDef)
    requires CatalogOk(cat) && HasSlot(cat, IdxSlot(m.name, def)) && ReplayOne(ix, e, cat, m).Some?
    ensures
      var e' := ReplayOne(ix, e, cat, m).value;
      var dbid := cat.collections[m.name].indexes[def].dbid;
      && (forall v, id: i64 ::
            if !def.unique && id == m.id && v in NewValues(ix, m, def)
            then IdxKey(dbid, v, id) in e' && e'[IdxKey(dbid, v, id)] == Mark
            else if !def.unique && id == m.id && v in OldValues(ix, m, def) then IdxKey(dbid, v, id) !in e'
            else SameAt(e, e', IdxKey(dbid, v, id)))
      && (forall v ::
            if def.unique && v in NewValues(ix, m, def)
            then UIdxKey(dbid, v) in e' && e'[UIdxKey(dbid, v)] == Owner(m.id)
            else if def.unique && v in OldValues(ix, m, def) then UIdxKey(dbid, v) !in e'
            else SameAt(e, e', UIdxKey(dbid, v)))
  {
    if Previous(m).Some? {
      EntryKeysOfIndex(ix, cat, m.name, def, m.id, Previous(m).value);
    }
    if m.PutDoc? {
      EntryKeysOfIndex(ix, cat, m.name, def, m.id, m.doc);
    }
  }

  /**
   The step that matters: the entry a mutation deletes is its own, because the log recorded what the
   document was, and the entry it sets is free, because the documents are unique after the mutation.
   */
  lemma ReplayOneKeepsIndex(ix: Indexer, e: Engine, cat: Catalog, m: Mutation, def: IndexDef)
    requires CatalogOk(cat) && HasSlot(cat, IdxSlot(m.name, def)) && ReplayOne(ix, e, cat, m).Some?
    requires
      var docs := StoredDocs(e, cat.collections[m.name].dbid);
      && IndexAgrees(ix, e, def, cat.collections[m.name].indexes[def].dbid, docs)
      && Previous(m) == Find(docs, m.id)
      && (def.unique ==> UniqueDocs(ix, OverlayOne(docs, m, m.name), def))
    ensures IndexAgrees(ix, ReplayOne(ix, e, cat, m).value, def, cat.collections[m.name].indexes[def].dbid,
                        OverlayOne(StoredDocs(e, cat.collections[m.name].dbid), m, m.name))
  {
    var e' := ReplayOne(ix, e, cat, m).value;
    var dbid := cat.collections[m.name].indexes[def].dbid;
    var docs := StoredDocs(e, cat.collections[m.name].dbid);
    var docs' := OverlayOne(docs, m, m.name);
    ReplayOneEntries(ix, e, cat, m, def);
    if def.unique {
      KeepsUniqueIndex(ix, e, e', m, def, dbid, docs);
    } else {
      KeepsPlainIndex(ix, e, e', m, def, dbid, docs);
    }
  }

  lemma KeepsPlainIndex(ix: Indexer, e: Engine, e': Engine, m: Mutation, def: IndexDef, dbid: i64, docs: map<i64, Doc>)
    requires !def.unique && IndexAgrees(ix, e, def, dbid, docs) && Previous(m) == Find(docs, m.id)
    requires forall v, id: i64 ::
      if id == m.id && v in NewValues(ix, m, def) then IdxKey(dbid, v, id) in e' && e'[IdxKey(dbid, v, id)] == Mark
      else if id == m.id && v in OldValues(ix, m, def) then IdxKey(dbid, v, id) !in e'
      else SameAt(e, e', IdxKey(dbid, v, id))
    requires forall v :: SameAt(e, e', UIdxKey(dbid, v))
    ensures IndexAgrees(ix, e', def, dbid, OverlayOne(docs, m, m.name))
  {
    var docs' := OverlayOne(docs, m, m.name);
    forall v, id: i64
      ensures IdxKey(dbid, v, id) in e' <==> id in docs' && v in ix(docs'[id], def)
      ensures IdxKey(dbid, v, id) in e' ==> e'[IdxKey(dbid, v, id)] == Mark
    {
      assert IdxKey(dbid, v, id) in e <==> id in docs && v in ix(docs[id], def);
    }
    forall v ensures UIdxKey(dbid, v) !in e' {
      assert SameAt(e, e', UIdxKey(dbid, v));
    }
  }

  lemma KeepsUniqueIndex(ix: Indexer, e: Engine, e': Engine, m: Mutation, def: IndexDef, dbid: i64, docs: map<i64, Doc>)
    requires def.unique && IndexAgrees(ix, e, def, dbid, docs) && Previous(m) == Find(docs, m.id)
    requires UniqueDocs(ix, OverlayOne(docs, m, m.name), def)
    requires forall v ::
      if v in NewValues(ix, m, def) then UIdxKey(dbid, v) in e' && e'[UIdxKey(dbid, v)] == Owner(m.id)
      else if v in OldValues(ix, m, def) then UIdxKey(dbid, v) !in e'
      else SameAt(e, e', UIdxKey(dbid, v))
    requires forall v, id: i64 :: SameAt(e, e', IdxKey(dbid, v, id))
    ensures IndexAgrees(ix, e', def, dbid, OverlayOne(docs, m, m.name))
  {
    var docs' := OverlayOne(docs, m, m.name);
    forall v, id: i64 ensures IdxKey(dbid, v, id) !in e' {
      assert SameAt(e, e', IdxKey(dbid, v, id));
    }
    forall v | UIdxKey(dbid, v) in e'
      ensures e'[UIdxKey(dbid, v)].Owner? && e'[UIdxKey(dbid, v)].id in docs'
           && v in ix(docs'[e'[UIdxKey(dbid, v)].id], def)
    {
      if v in NewValues(ix, m, def) {
        assert docs'[m.id] == m.doc;
      } else {
        var owner := e[UIdxKey(dbid, v)].id;
        assert v in ix(docs[owner], def);
        assert owner != m.id;
      }
    }
    forall v, id: i64 | id in docs' && v in ix(docs'[id], def)
      ensures UIdxKey(dbid, v) in e' && e'[UIdxKey(dbid, v)] == Owner(id)
    {
      if v in NewValues(ix, m, def) {
        assert docs'[m.id] == m.doc;
        assert id == m.id;
      } else {
        assert id != m.id && docs'[id] == docs[id];
        assert UIdxKey(dbid, v) in e && e[UIdxKey(dbid, v)] == Owner(id);
      }
    }
  }

  lemma ReplayOneNoOrphans(ix: Indexer, e: Engine, cat: Catalog, m: Mutation)
    requires CatalogOk(cat) && m.name in cat.collections && NoOrphans(e, cat) && ReplayOne(ix, e, cat, m).Some?
    ensures NoOrphans(ReplayOne(ix, e, cat, m).value, cat)
  {
    var e' := ReplayOne(ix, e, cat, m).value;
    var col := cat.collections[m.name];
    forall k | k in e' && !k.MetaKey? ensures exists t :: OwnedBy(cat, k, t) {
      if k == SeqKey(col.dbid) || k == DocKey(col.dbid, m.id) {
        assert OwnedBy(cat, k, ColSlot(m.name));
      } else if m.PutDoc? && k in EntryKeys(ix, col.indexes, m.id, m.doc) {
        var d, v :| d in col.indexes && v in ix(m.doc, d) && k == EntryKey(d.unique, col.indexes[d].dbid, v, m.id);
        assert OwnedBy(cat, k, IdxSlot(m.name, d));
      } else {
        assert k in e;
      }
    }
  }

  // ----- the whole log -----

  /** The engine and the catalog fit together. */
  ghost predicate EngineOk(ix: Indexer, e: Engine, cat: Catalog) {
    CatalogOk(cat) && NoOrphans(e, cat) && EngineAgrees(ix, e, cat)
  }

  /** The document of the mutation comes back from the codec as it is. */
  predicate StableMutation(m: Mutation) {
    m.PutDoc? ==> Stable(m.doc)
  }

  ghost predicate AllStable(log: seq<Mutation>) {
    forall i | 0 <= i < |log| :: StableMutation(log[i])
  }

  lemma StoredWhenStable(m: Mutation)
    requires StableMutation(m)
    ensures Stored(m) == m
  {
    if m.PutDoc? {
      RereadExactly(m.doc);
    }
  }

  /** The two documents have the same values in the index. */
  ghost predicate SameValues(ix: Indexer, def: IndexDef, d1: Doc, d2: Doc) {
    forall v :: v in ix(d1, def) <==> v in ix(d2, def)
  }

  /**
   After a put is replayed, an index of its collection agrees with the stored documents if and only if the
   document has the same values before and after the codec.
   */
  lemma PutAgreesExactly(ix: Indexer, e: Engine, cat: Catalog, m: Mutation, def: IndexDef)
    requires CatalogOk(cat) && HasSlot(cat, IdxSlot(m.name, def)) && m.PutDoc? && ReplayOne(ix, e, cat, m).Some?
    requires
      var docs := StoredDocs(e, cat.collections[m.name].dbid);
      && IndexAgrees(ix, e, def, cat.collections[m.name].indexes[def].dbid, docs)
      && Previous(m) == Find(docs, m.id)
      && (def.unique ==> UniqueDocs(ix, OverlayOne(docs, m, m.name), def))
    ensures
      var e' := ReplayOne(ix, e, cat, m).value;
      IndexAgrees(ix, e', def, cat.collections[m.name].indexes[def].dbid, StoredDocs(e', cat.collections[m.name].dbid))
      <==> SameValues(ix, def, m.doc, Reread(m.doc))
  {
    hide Reread, ReplayOne, StoredDocs;
    var e' := ReplayOne(ix, e, cat, m).value;
    var docs := StoredDocs(e, cat.collections[m.name].dbid);
    var dbid := cat.collections[m.name].indexes[def].dbid;
    ReplayOneKeepsIndex(ix, e, cat, m, def);
    ReplayOneDocs(ix, e, cat, m, m.name);
    SameEntriesExactly(ix, e', def, dbid, docs, m.id, m.doc, Reread(m.doc));
  }

  lemma SameEntriesExactly(ix: Indexer, e: Engine, def: IndexDef, dbid: i64, docs: map<i64, Doc>, id: i64, d1: Doc, d2: Doc)
    requires IndexAgrees(ix, e, def, dbid, docs[id := d1])
    ensures IndexAgrees(ix, e, def, dbid, docs[id := d2]) <==> SameValues(ix, def, d1, d2)
  {
    var docs1, docs2 := docs[id := d1], docs[id := d2];
    if SameValues(ix, def, d1, d2) {
      forall v, i: i64 | i in docs1 ensures v in ix(docs1[i], def) <==> v in ix(docs2[i], def) {
      }
    } else {
      var v :| v in ix(d1, def) <==> v !in ix(d2, def);
      if IndexAgrees(ix, e, def, dbid, docs2) {
        EntryOfValue(ix, e, def, dbid, docs1, id, v);
        EntryOfValue(ix, e, def, dbid, docs2, id, v);
        assert false;
      }
    }
  }

  /** In an index that agrees, a document has a value exactly when its entry is there. */
  lemma EntryOfValue(ix: Indexer, e: Engine, def: IndexDef, dbid: i64, docs: map<i64, Doc>, id: i64, v: bytes)
    requires IndexAgrees(ix, e, def, dbid, docs) && id in docs
    ensures v in ix(docs[id], def) <==>
      if def.unique then UIdxKey(dbid, v) in e && e[UIdxKey(dbid, v)] == Owner(id) else IdxKey(dbid, v, id) in e
  {
  }

  lemma ReplayStep(ix: Indexer, e: Engine, cat: Catalog, m: Mutation)
    requires EngineOk(ix, e, cat) && m.name in cat.collections && ReplayOne(ix, e, cat, m).Some? && StableMutation(m)
    requires Previous(m) == Find(StoredDocs(e, cat.collections[m.name].dbid), m.id)
    requires AllUnique(ix, OverlayOne(StoredDocs(e, cat.collections[m.name].dbid), m, m.name),
                       cat.collections[m.name].indexes)
    ensures EngineOk(ix, ReplayOne(ix, e, cat, m).value, cat)
  {
    var e' := ReplayOne(ix, e, cat, m).value;
    StoredWhenStable(m);
    ReplayOneNoOrphans(ix, e, cat, m);
    forall n, def | n in cat.collections && def in cat.collections[n].indexes
      ensures IndexAgrees(ix, e', def, cat.collections[n].indexes[def].dbid, StoredDocs(e', cat.collections[n].dbid))
    {
      ReplayOneDocs(ix, e, cat, m, n);
      if n == m.name {
        ReplayOneKeepsIndex(ix, e, cat, m, def);
      } else {
        ReplayOneElsewhere(ix, e, cat, m, n, def, StoredDocs(e, cat.collections[n].dbid));
      }
    }
  }

  /** Commit refines the overlay: the replayed engine is consistent and holds exactly the live documents. */
  lemma {:induction false} ReplayRefinesOverlay(ix: Indexer, e: Engine, cat: Catalog, log: seq<Mutation>)
    requires EngineOk(ix, e, cat) && LogOk(ix, e, cat, log) && AllStable(log)
    requires Replay(ix, e, cat, log).Some?
    ensures EngineOk(ix, Replay(ix, e, cat, log).value, cat)
    ensures forall n | n in cat.collections ::
      StoredDocs(Replay(ix, e, cat, log).value, cat.collections[n].dbid)
        == Overlay(StoredDocs(e, cat.collections[n].dbid), log, n)
  {
    if log != [] {
      var init, m := log[..|log| - 1], log[|log| - 1];
      ReplayRefinesOverlay(ix, e, cat, init);
      var mid := Replay(ix, e, cat, init).value;
      assert StableMutation(m);
      StoredWhenStable(m);
      ReplayStep(ix, mid, cat, m);
      forall n | n in cat.collections
        ensures StoredDocs(Replay(ix, e, cat, log).value, cat.collections[n].dbid)
             == Overlay(StoredDocs(e, cat.collections[n].dbid), log, n)
      {
        ReplayOneDocs(ix, mid, cat, m, n);
      }
    }
  }

  /** A batch fails exactly when the log puts a document the codec cannot encode. */
  lemma {:induction false} ReplaySucceedsExactly(ix: Indexer, e: Engine, cat: Catalog, log: seq<Mutation>)
    requires forall i | 0 <= i < |log| :: log[i].name in cat.collections
    ensures Replay(ix, e, cat, log).Some? <==> forall i | 0 <= i < |log| && log[i].PutDoc? :: Storable(log[i].doc)
  {
    if log != [] {
      var init := log[..|log| - 1];
      ReplaySucceedsExactly(ix, e, cat, init);
      assert forall i | 0 <= i < |init| :: init[i] == log[i];
      assert (forall i | 0 <= i < |log| && log[i].PutDoc? :: Storable(log[i].doc)) <==>
             (forall i | 0 <= i < |init| && init[i].PutDoc? :: Storable(init[i].doc)) &&
             (log[|log| - 1].PutDoc? ==> Storable(log[|log| - 1].doc));
    }
  }

  // ----- the sequence keys -----

  predicate HoldsSequence(e: Engine, col: Collection) {
    SeqKey(col.dbid) in e && e[SeqKey(col.dbid)] == SeqVal(col.nextId)
  }

  lemma ReplayOneSequences(ix: Indexer, e: Engine, cat: Catalog, m: Mutation, n: Name)
    requires CatalogOk(cat) && m.name in cat.collections && n in cat.collections && ReplayOne(ix, e, cat, m).Some?
    requires n == m.name || HoldsSequence(e, cat.collections[n])
    ensures HoldsSequence(ReplayOne(ix, e, cat, m).value, cat.collections[n])
  {
    hide Storable, Reread;
    assert HasSlot(cat, ColSlot(n)) && HasSlot(cat, ColSlot(m.name));
  }

  /** A commit stores NextID under the sequence key of every collection that the log touches. */
  lemma {:induction false} ReplayWritesSequences(ix: Indexer, e: Engine, cat: Catalog, log: seq<Mutation>, i: nat)
    requires CatalogOk(cat) && (forall j | 0 <= j < |log| :: log[j].name in cat.collections)
    requires i < |log| && Replay(ix, e, cat, log).Some?
    ensures HoldsSequence(Replay(ix, e, cat, log).value, cat.collections[log[i].name])
  {
    hide CatalogOk, ReplayOne, HoldsSequence;
    var last := |log| - 1;
    if i < last {
      ReplayWritesSequences(ix, e, cat, log[..last], i);
    }
    ReplayOneSequences(ix, Replay(ix, e, cat, log[..last]).value, cat, log[last], log[i].name);
  }
}
