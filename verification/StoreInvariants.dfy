/**
 What every operation of the store keeps: the catalog hands out distinct dbids, no key is without an
 owner, every index holds exactly the values of the stored documents, the log is consistent and unique
 at each of its prefixes, and the counters equal what they count.
 */
module StoreInvariants {
  import opened Wrappers
  import opened Bytes
  import opened Keys
  import opened Document
  import opened Store
  import opened Sums

  // ----- dropping a key range -----

  /** The key carries the tag and the dbid. */
  predicate HasTag(k: Key, tag: byte, dbid: i64) {
    match k
    case MetaKey => false
    case SeqKey(d) => tag == TAG_SEQ && d == dbid
    case DocKey(d, _) => tag == TAG_DOC && d == dbid
    case IdxKey(d, _, _) => tag == TAG_IDX && d == dbid
    case UIdxKey(d, _) => tag == TAG_UIDX && d == dbid
  }

  predicate KnownTag(tag: byte) {
    tag == TAG_SEQ || tag == TAG_DOC || tag == TAG_IDX || tag == TAG_UIDX
  }

  function TagOf(k: Key): byte {
    match k
    case MetaKey => META_KEY[0]
    case SeqKey(_) => TAG_SEQ
    case DocKey(_, _) => TAG_DOC
    case IdxKey(_, _, _) => TAG_IDX
    case UIdxKey(_, _) => TAG_UIDX
  }

  lemma KeyStarts(k: Key)
    ensures |KeyBytes(k)| >= 9 && KeyBytes(k)[0] == TagOf(k)
    ensures !k.MetaKey? ==> KeyBytes(k)[1..9] == I64Bytes(k.dbid)
  {
    if k.IdxKey? {
      assert KeyBytes(k)[..9] == TagPrefix(TAG_IDX, k.dbid);
    } else if k.UIdxKey? {
      assert KeyBytes(k)[..9] == TagPrefix(TAG_UIDX, k.dbid);
    }
  }

  lemma TagPrefixExact(k: Key, tag: byte, dbid: i64)
    requires KnownTag(tag)
    ensures TagPrefix(tag, dbid) <= KeyBytes(k) <==> HasTag(k, tag, dbid)
  {
    var p, b := TagPrefix(tag, dbid), KeyBytes(k);
    KeyStarts(k);
    assert p[0] == tag && p[1..9] == I64Bytes(dbid);
    if p <= b {
      assert b[..9] == p;
      assert b[0] == tag && b[1..9] == I64Bytes(dbid);
      if !k.MetaKey? {
        I64BytesOrder(k.dbid, dbid);
      }
    }
    assert b[..9] == [b[0]] + b[1..9] && p == [p[0]] + p[1..9];
  }

  /** A range delete over a tag prefix removes the keys of that tag and dbid, and nothing else. */
  lemma DropPrefixExact(e: Engine, tag: byte, dbid: i64)
    requires KnownTag(tag)
    ensures DropPrefix(e, TagPrefix(tag, dbid)) == map k | k in e && !HasTag(k, tag, dbid) :: e[k]
  {
    forall k | k in e
      ensures InInterval(KeyBytes(k), TagPrefix(tag, dbid), PrefixEnd(TagPrefix(tag, dbid))) <==> HasTag(k, tag, dbid)
    {
      PrefixIntervalExact(TagPrefix(tag, dbid), KeyBytes(k));
      TagPrefixExact(k, tag, dbid);
    }
  }

  predicate IndexKeyOf(k: Key, dbid: i64) {
    (k.IdxKey? || k.UIdxKey?) && k.dbid == dbid
  }

  lemma IndexRangesExact(k: Key, dbid: i64)
    ensures InIndexRanges(k, dbid) <==> IndexKeyOf(k, dbid)
  {
    PrefixIntervalExact(TagPrefix(TAG_IDX, dbid), KeyBytes(k));
    TagPrefixExact(k, TAG_IDX, dbid);
    PrefixIntervalExact(TagPrefix(TAG_UIDX, dbid), KeyBytes(k));
    TagPrefixExact(k, TAG_UIDX, dbid);
  }

  lemma IndexRangesExactForAll()
    ensures forall k, dbid :: InIndexRanges(k, dbid) <==> IndexKeyOf(k, dbid)
  {
    forall k, dbid ensures InIndexRanges(k, dbid) <==> IndexKeyOf(k, dbid) {
      IndexRangesExact(k, dbid);
    }
  }

  // ----- the overlay -----

  lemma StoredDocsContents(e: Engine, dbid: i64)
    ensures forall id: i64 :: id in StoredDocs(e, dbid) <==> DocKey(dbid, id) in e
    ensures forall id: i64 | DocKey(dbid, id) in e :: StoredDocs(e, dbid)[id] == BodyOf(e[DocKey(dbid, id)])
  {
    forall id: i64 | DocKey(dbid, id) in e ensures id in StoredIds(e, dbid) {
      assert DocKey(dbid, id).id == id;
    }
  }

  /** Reading backwards through the log is reading the log applied in order. */
  lemma {:induction false} LookupIsOverlay(docs: map<i64, Doc>, log: seq<Mutation>, name: Name, id: i64)
    ensures
      match Lookup(log, name, id)
      case Present(doc) => id in Overlay(docs, log, name) && Overlay(docs, log, name)[id] == doc
      case Gone => id !in Overlay(docs, log, name)
      case Untouched =>
        && (id in Overlay(docs, log, name) <==> id in docs)
        && (id in docs ==> Overlay(docs, log, name)[id] == docs[id])
  {
    if log != [] {
      LookupIsOverlay(docs, log[..|log| - 1], name, id);
    }
  }

  function Find(docs: map<i64, Doc>, id: i64): Option<Doc> {
    if id in docs then Some(docs[id]) else None
  }

  /** A transaction reads exactly the live documents. */
  lemma CurrentIsLive(s: State, name: Name, id: i64)
    requires name in s.cat.collections
    ensures CurrentDoc(s, name, id) == Find(Live(s, name), id)
  {
    var dbid := s.cat.collections[name].dbid;
    StoredDocsContents(s.engine, dbid);
    LookupIsOverlay(StoredDocs(s.engine, dbid), s.pending, name, id);
  }

  // ----- sums over documents -----

  lemma TotalValuesRemove(ix: Indexer, docs: map<i64, Doc>, def: IndexDef, id: i64)
    requires id in docs
    ensures TotalValues(ix, docs, def) == |ix(docs[id], def)| + TotalValues(ix, docs - {id}, def)
  {
    SumRemove(docs.Keys, ValueCounts(ix, docs, def), id);
    assert (docs - {id}).Keys == docs.Keys - {id};
    SumAgrees(docs.Keys - {id}, ValueCounts(ix, docs, def), ValueCounts(ix, docs - {id}, def));
  }

  lemma TotalValuesPut(ix: Indexer, docs: map<i64, Doc>, def: IndexDef, id: i64, doc: Doc)
    ensures TotalValues(ix, docs[id := doc], def)
         == TotalValues(ix, docs, def) + |ix(doc, def)| - CountValues(ix, Find(docs, id), def)
  {
    var docs' := docs[id := doc];
    TotalValuesRemove(ix, docs', def, id);
    if id in docs {
      TotalValuesRemove(ix, docs, def, id);
      assert docs' - {id} == docs - {id};
    } else {
      assert docs' - {id} == docs;
    }
  }

  // ----- the invariants -----

  /** Everything that owns a dbid. */
  datatype Slot = ColSlot(name: Name) | IdxSlot(name: Name, def: IndexDef)

  predicate HasSlot(cat: Catalog, t: Slot) {
    t.name in cat.collections && (t.IdxSlot? ==> t.def in cat.collections[t.name].indexes)
  }

  function SlotDbid(cat: Catalog, t: Slot): i64
    requires HasSlot(cat, t)
  {
    match t
    case ColSlot(name) => cat.collections[name].dbid
    case IdxSlot(name, def) => cat.collections[name].indexes[def].dbid
  }

  /** Dbids are pairwise distinct and were all handed out by the counter. */
  ghost predicate CatalogOk(cat: Catalog) {
    && (forall t :: HasSlot(cat, t) ==> SlotDbid(cat, t) <= cat.next)
    && (forall t1, t2 :: HasSlot(cat, t1) && HasSlot(cat, t2) && SlotDbid(cat, t1) == SlotDbid(cat, t2) ==> t1 == t2)
  }

  /** The slot a key belongs to. */
  predicate OwnedBy(cat: Catalog, k: Key, t: Slot) {
    HasSlot(cat, t) &&
    match k
    case MetaKey => false
    case SeqKey(d) => t.ColSlot? && SlotDbid(cat, t) == d
    case DocKey(d, _) => t.ColSlot? && SlotDbid(cat, t) == d
    case IdxKey(d, _, _) => t.IdxSlot? && SlotDbid(cat, t) == d
    case UIdxKey(d, _) => t.IdxSlot? && SlotDbid(cat, t) == d
  }

  ghost predicate NoOrphans(e: Engine, cat: Catalog) {
    forall k | k in e && !k.MetaKey? :: exists t :: OwnedBy(cat, k, t)
  }

  /** The entries under the index's dbid are exactly the (value, id) pairs of the documents. */
  ghost predicate IndexAgrees(ix: Indexer, e: Engine, def: IndexDef, dbid: i64, docs: map<i64, Doc>) {
    && (forall v, id: i64 :: IdxKey(dbid, v, id) in e <==> !def.unique && id in docs && v in ix(docs[id], def))
    && (forall v, id: i64 | IdxKey(dbid, v, id) in e :: e[IdxKey(dbid, v, id)] == Mark)
    && (forall v | UIdxKey(dbid, v) in e ::
          && def.unique && e[UIdxKey(dbid, v)].Owner?
          && e[UIdxKey(dbid, v)].id in docs && v in ix(docs[e[UIdxKey(dbid, v)].id], def))
    && (forall v, id: i64 | def.unique && id in docs && v in ix(docs[id], def) ::
          UIdxKey(dbid, v) in e && e[UIdxKey(dbid, v)] == Owner(id))
  }

  ghost predicate EngineAgrees(ix: Indexer, e: Engine, cat: Catalog) {
    forall n, def | n in cat.collections && def in cat.collections[n].indexes ::
      IndexAgrees(ix, e, def, cat.collections[n].indexes[def].dbid, StoredDocs(e, cat.collections[n].dbid))
  }

  ghost predicate UniqueDocs(ix: Indexer, docs: map<i64, Doc>, def: IndexDef) {
    forall id1, id2, v | id1 in docs && id2 in docs &&
      v in ix(docs[id1], def) && v in ix(docs[id2], def) :: id1 == id2
  }

  ghost predicate AllUnique(ix: Indexer, docs: map<i64, Doc>, indexes: map<IndexDef, IndexState>) {
    forall def | def in indexes && def.unique :: UniqueDocs(ix, docs, def)
  }

  function Previous(m: Mutation): Option<Doc> {
    match m
    case PutDoc(_, _, prev, _) => prev
    case DeleteDoc(_, _, was) => Some(was)
  }

  /** Every entry recorded what it replaced, and left every unique index unique. */
  ghost predicate LogOk(ix: Indexer, e: Engine, cat: Catalog, log: seq<Mutation>) {
    log == [] ||
    (var init, m := log[..|log| - 1], log[|log| - 1];
     && LogOk(ix, e, cat, init)
     && m.name in cat.collections
     && var docs := StoredDocs(e, cat.collections[m.name].dbid);
     && Previous(m) == Find(Overlay(docs, init, m.name), m.id)
     && AllUnique(ix, Overlay(docs, log, m.name), cat.collections[m.name].indexes))
  }

  /** The record count is the number of documents, each entry count the number of their values. */
  ghost predicate CountsOk(ix: Indexer, col: Collection, live: map<i64, Doc>) {
    && col.rnum == |live|
    && forall def | def in col.indexes :: col.indexes[def].rnum == TotalValues(ix, live, def)
  }

  ghost predicate CountersOk(ix: Indexer, s: State) {
    forall n | n in s.cat.collections :: CountsOk(ix, s.cat.collections[n], Live(s, n))
  }

  /** Holds in every state, inside a transaction too. */
  ghost predicate Valid(ix: Indexer, s: State) {
    && CatalogOk(s.cat)
    && NoOrphans(s.engine, s.cat)
    && EngineAgrees(ix, s.engine, s.cat)
    && LogOk(ix, s.engine, s.cat, s.pending)
    && CountersOk(ix, s)
  }

  /** Holds between operations: nothing is pending. */
  ghost predicate Clean(ix: Indexer, s: State) {
    Valid(ix, s) && s.pending == [] && !s.dirtyMeta
  }
}
