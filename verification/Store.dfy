/**
 The database as a state machine over values (db.go, tx.go).

 The storage engine is a map from keys to values; keys carry the byte encoding of module Keys, and a
 range delete removes what lies between two byte strings.  The functions below say what each operation
 does to the engine, the catalog and the log of pending mutations.  How an indexed value is turned into
 text is library code, so it is a parameter.
 */
module Store {
  import opened Wrappers
  import opened Bytes
  import opened Keys
  import opened IndexRange
  import opened Document
  import opened Pointer
  import opened Patch
  import opened Sums

  type Name = bytes

  /** `normalizeIndexValue`: the stored form of a value, or None when the kind cannot index it. */
  type Normalizer = (Doc, IndexKind) -> Option<bytes>

  // ----- data -----

  /** What identifies an index within its collection (`indexKey`). */
  datatype IndexDef = IndexDef(path: bytes, kind: IndexKind, unique: bool)

  datatype IndexState = IndexState(dbid: i64, rnum: int)

  datatype Collection = Collection(dbid: i64, nextId: i64, rnum: int, indexes: map<IndexDef, IndexState>)

  /** `next` is NextCollectionID, the last dbid handed out. */
  datatype Catalog = Catalog(next: i64, collections: map<Name, Collection>)

  /** A Body is the document that decoding the stored bytes returns (module Binn). */
  datatype Val =
    | CatalogVal(cat: Catalog)
    | SeqVal(next: i64)
    | Body(doc: Doc)
    | Mark
    | Owner(id: i64)

  type Engine = map<Key, Val>

  datatype Mutation =
    | PutDoc(name: Name, id: i64, prev: Option<Doc>, doc: Doc)
    | DeleteDoc(name: Name, id: i64, was: Doc)

  /**
   `dirtyMeta` is the flag that makes a commit write the catalog.  The flag for a full rewrite is only
   set by changes of collections or indexes inside a transaction, which are not part of this model.
   */
  datatype State = State(engine: Engine, cat: Catalog, pending: seq<Mutation>, dirtyMeta: bool)

  datatype Error =
    | ErrNotFound
    | ErrUniqueConstraint
    | ErrCollectionExists
    | ErrCollectionAbsent
    | ErrIndexNotFound
    | ErrIndexMismatch
    | ErrInvalidIndex
    | ErrInvalidJson
    | ErrPatchFailed
    | ErrUnstorable
    | ErrCallback

  const INITIAL: State := State(map[], Catalog(1, map[]), [], false)

  /** `x + 1` on int64, which wraps. */
  function Next(x: i64): i64 {
    if x == MAX_I64 then MIN_I64 else x + 1
  }

  // ----- indexed values -----

  /** The distinct normalized forms of a list, in order of first appearance. */
  function ValuesOf(nz: Normalizer, items: seq<Doc>, kind: IndexKind): (vals: seq<bytes>)
    ensures forall i, j | 0 <= i < j < |vals| :: vals[i] != vals[j]
  {
    if items == [] then [] else
    var last := |items| - 1;
    var vals := ValuesOf(nz, items[..last], kind);
    match nz(items[last], kind)
    case Some(v) => if v in vals then vals else vals + [v]
    case None => vals
  }

  function Indexed(doc: Doc, path: bytes): seq<Doc> {
    match PointerGet(doc, path)
    case None => []
    case Some(Arr(items)) => items
    case Some(v) => [v]
  }

  /** `valuesForIndex`: an array contributes its elements, anything else itself. */
  function Values(nz: Normalizer, doc: Doc, def: IndexDef): seq<bytes> {
    ValuesOf(nz, Indexed(doc, def.path), def.kind)
  }

  /** How documents are indexed; every statement about the store holds for every such function. */
  type Indexer = (Doc, IndexDef) -> seq<bytes>

  /** The indexer of the database, given the normalizer. */
  function IndexerOf(nz: Normalizer): Indexer {
    (doc, def) => Values(nz, doc, def)
  }

  /** The loop of valuesForIndex with its set of values already seen. */
  method ComputeValues(nz: Normalizer, doc: Doc, def: IndexDef) returns (out: seq<bytes>)
    ensures out == Values(nz, doc, def)
  {
    var items := Indexed(doc, def.path);
    out := [];
    var seen: set<bytes> := {};
    for i := 0 to |items|
      invariant out == ValuesOf(nz, items[..i], def.kind)
      invariant seen == set v | v in out
    {
      assert items[..i + 1][..i] == items[..i];
      var s := nz(items[i], def.kind);
      if s.Some? && s.value !in seen {
        seen := seen + {s.value};
        out := out + [s.value];
      }
    }
    assert items[..|items|] == items;
  }

  /** A value is indexed if and only if an element of the array at the path normalizes to it, or what is there, if no array, does. */
  lemma ValuesExactly(nz: Normalizer, doc: Doc, def: IndexDef, v: bytes)
    ensures v in Values(nz, doc, def) <==>
      match PointerGet(doc, def.path)
      case None => false
      case Some(x) =>
        if x.Arr? then exists i | 0 <= i < |x.items| :: nz(x.items[i], def.kind) == Some(v) else nz(x, def.kind) == Some(v)
  {
    hide PointerGet;
    ValuesOfExactly(nz, Indexed(doc, def.path), def.kind, v);
  }

  lemma {:induction false} ValuesOfExactly(nz: Normalizer, items: seq<Doc>, kind: IndexKind, v: bytes)
    ensures v in ValuesOf(nz, items, kind) <==> exists i | 0 <= i < |items| :: nz(items[i], kind) == Some(v)
  {
    if items != [] {
      ValuesOfExactly(nz, items[..|items| - 1], kind, v);
    }
  }

  // ----- reading -----

  function BodyOf(v: Val): Doc {
    if v.Body? then v.doc else Null
  }

  function StoredDoc(e: Engine, dbid: i64, id: i64): Option<Doc> {
    if DocKey(dbid, id) in e then Some(BodyOf(e[DocKey(dbid, id)])) else None
  }

  ghost function StoredIds(e: Engine, dbid: i64): set<i64> {
    set k | k in e && k.DocKey? && k.dbid == dbid :: k.id
  }

  /** The committed documents of a collection. */
  ghost function StoredDocs(e: Engine, dbid: i64): map<i64, Doc> {
    map id | id in StoredIds(e, dbid) && DocKey(dbid, id) in e :: BodyOf(e[DocKey(dbid, id)])
  }

  datatype Pending = Untouched | Gone | Present(doc: Doc)

  /** `pendingDocState`: the last mutation of the id decides. */
  function Lookup(log: seq<Mutation>, name: Name, id: i64): Pending {
    if log == [] then Untouched else
    var m := log[|log| - 1];
    if m.name == name && m.id == id then (if m.PutDoc? then Present(m.doc) else Gone)
    else Lookup(log[..|log| - 1], name, id)
  }

  /** What a transaction sees under an id: its own mutations over the committed document. */
  function CurrentDoc(s: State, name: Name, id: i64): Option<Doc>
    requires name in s.cat.collections
  {
    match Lookup(s.pending, name, id)
    case Present(doc) => Some(doc)
    case Gone => None
    case Untouched => StoredDoc(s.engine, s.cat.collections[name].dbid, id)
  }

  /** One mutation applied to the documents of a collection. */
  ghost function OverlayOne(docs: map<i64, Doc>, m: Mutation, name: Name): map<i64, Doc> {
    if m.name != name then docs
    else if m.PutDoc? then docs[m.id := m.doc]
    else docs - {m.id}
  }

  /** A log applied to the documents of a collection, in order. */
  ghost function Overlay(docs: map<i64, Doc>, log: seq<Mutation>, name: Name): map<i64, Doc> {
    if log == [] then docs else OverlayOne(Overlay(docs, log[..|log| - 1], name), log[|log| - 1], name)
  }

  /** The documents of a collection, pending mutations included. */
  ghost function Live(s: State, name: Name): map<i64, Doc>
    requires name in s.cat.collections
  {
    Overlay(StoredDocs(s.engine, s.cat.collections[name].dbid), s.pending, name)
  }

  // ----- the unique check -----

  function OwnerOf(v: Val): i64 {
    if v.Owner? then v.id else 0
  }

  /** A committed entry of another document blocks the value unless that document is being deleted. */
  predicate CommittedConflict(s: State, name: Name, dbid: i64, id: i64, v: bytes) {
    && UIdxKey(dbid, v) in s.engine
    && OwnerOf(s.engine[UIdxKey(dbid, v)]) != id
    && Lookup(s.pending, name, OwnerOf(s.engine[UIdxKey(dbid, v)])) != Gone
  }

  /** A document put earlier in the log holds the value. */
  ghost predicate PendingConflict(ix: Indexer, s: State, name: Name, def: IndexDef, id: i64, v: bytes) {
    exists other: i64 :: other != id && Lookup(s.pending, name, other).Present? &&
      v in ix(Lookup(s.pending, name, other).doc, def)
  }

  /** checkUniqueConstraints reports an error. */
  ghost predicate UniqueConflict(ix: Indexer, s: State, name: Name, id: i64, doc: Doc)
    requires name in s.cat.collections
  {
    exists def, v :: def in s.cat.collections[name].indexes && def.unique && v in ix(doc, def) &&
      (CommittedConflict(s, name, s.cat.collections[name].indexes[def].dbid, id, v) ||
       PendingConflict(ix, s, name, def, id, v))
  }

  // ----- recording document mutations -----

  function CountValues(ix: Indexer, doc: Option<Doc>, def: IndexDef): nat {
    if doc.Some? then |ix(doc.value, def)| else 0
  }

  function Clamp(n: int): int {
    if n < 0 then 0 else n
  }

  /** `adjustIndexRNums` */
  function AdjustRNums(ix: Indexer, indexes: map<IndexDef, IndexState>, prev: Option<Doc>, new': Option<Doc>)
    : map<IndexDef, IndexState>
  {
    map def | def in indexes ::
      indexes[def].(rnum := Clamp(indexes[def].rnum + CountValues(ix, new', def) - CountValues(ix, prev, def)))
  }

  function WithCollection(s: State, name: Name, col: Collection): State {
    s.(cat := s.cat.(collections := s.cat.collections[name := col]))
  }

  /** `ensureCollectionLocked` */
  function Ensure(s: State, name: Name): (r: State)
    ensures name in r.cat.collections
  {
    if name in s.cat.collections then s else
    var dbid := Next(s.cat.next);
    s.(cat := Catalog(dbid, s.cat.collections[name := Collection(dbid, 0, 0, map[])]))
  }

  datatype Step = Step(state: State, error: Option<Error>)

  /** `putLocked` */
  ghost function PutLocked(ix: Indexer, s: State, name: Name, id: i64, raw: Option<Doc>): Step
    requires name in s.cat.collections
  {
    if raw.None? then Step(s, Some(ErrInvalidJson))
    else if UniqueConflict(ix, s, name, id, raw.value) then Step(s, Some(ErrUniqueConstraint))
    else
      var prev := CurrentDoc(s, name, id);
      var col := s.cat.collections[name];
      var col' := col.(rnum := if prev.None? then col.rnum + 1 else col.rnum,
                       indexes := AdjustRNums(ix, col.indexes, prev, raw));
      var s' := WithCollection(s, name, col');
      Step(s'.(pending := s.pending + [PutDoc(name, id, prev, raw.value)], dirtyMeta := true), None)
  }

  /** The tail of Delete, once the document has been read. */
  function DeleteLocked(ix: Indexer, s: State, name: Name, id: i64, doc: Doc): State
    requires name in s.cat.collections
  {
    var col := s.cat.collections[name];
    var col' := col.(rnum := if col.rnum > 0 then col.rnum - 1 else col.rnum,
                     indexes := AdjustRNums(ix, col.indexes, Some(doc), None));
    WithCollection(s, name, col').(pending := s.pending + [DeleteDoc(name, id, doc)], dirtyMeta := true)
  }

  /**
   The document operations.  `raw` is None when the text is not JSON; `patch` is what applyJSONPatch does
   with the given patch text, None when it fails (module Patch).
   */
  datatype DocOp =
    | OpEnsureCollection(name: Name)
    | OpPutNew(name: Name, raw: Option<Doc>)
    | OpPut(name: Name, id: i64, raw: Option<Doc>)
    | OpDelete(name: Name, id: i64)
    | OpPatch(name: Name, id: i64, patch: Doc -> Option<Doc>)
    | OpMergeOrPut(name: Name, id: i64, raw: Option<Doc>)

  /** What the operation reads: DB methods read the engine, Tx methods read through the log. */
  function ReadDoc(s: State, inTx: bool, name: Name, id: i64): Option<Doc>
    requires name in s.cat.collections
  {
    if inTx then CurrentDoc(s, name, id) else StoredDoc(s.engine, s.cat.collections[name].dbid, id)
  }

  function RaiseNextId(s: State, name: Name, id: i64): State
    requires name in s.cat.collections
  {
    var col := s.cat.collections[name];
    if id > col.nextId then WithCollection(s, name, col.(nextId := id)) else s
  }

  ghost function PutNew(ix: Indexer, s: State, name: Name, raw: Option<Doc>): Step {
    var s1 := Ensure(s, name);
    var col := s1.cat.collections[name];
    var id := Next(col.nextId);
    var put := PutLocked(ix, WithCollection(s1, name, col.(nextId := id)), name, id, raw);
    if put.error.Some? then Step(s1, put.error) else put
  }

  ghost function Put(ix: Indexer, s: State, name: Name, id: i64, raw: Option<Doc>): Step {
    PutLocked(ix, RaiseNextId(Ensure(s, name), name, id), name, id, raw)
  }

  function Delete(ix: Indexer, s: State, inTx: bool, name: Name, id: i64): Step {
    if name !in s.cat.collections then Step(s, Some(ErrNotFound)) else
    match ReadDoc(s, inTx, name, id)
    case None => Step(s, Some(ErrNotFound))
    case Some(doc) => Step(DeleteLocked(ix, s, name, id, doc), None)
  }

  ghost function PatchDoc(ix: Indexer, s: State, inTx: bool, name: Name, id: i64, patch: Doc -> Option<Doc>): Step {
    if name !in s.cat.collections then Step(s, Some(ErrNotFound)) else
    match ReadDoc(s, inTx, name, id)
    case None => Step(s, Some(ErrNotFound))
    case Some(doc) =>
      match patch(doc)
      case None => Step(s, Some(ErrPatchFailed))
      case Some(d) => PutLocked(ix, s, name, id, Some(d))
  }

  ghost function MergeOrPut(ix: Indexer, s: State, inTx: bool, name: Name, id: i64, raw: Option<Doc>): Step {
    var s1 := Ensure(s, name);
    match ReadDoc(s1, inTx, name, id)
    case None => PutLocked(ix, RaiseNextId(s1, name, id), name, id, raw)
    case Some(doc) =>
      if raw.None? then Step(s1, Some(ErrInvalidJson))
      else PutLocked(ix, s1, name, id, Some(MergePatch(doc, raw.value)))
  }

  /** One document operation up to, and not including, the commit. */
  ghost function Record(ix: Indexer, s: State, inTx: bool, op: DocOp): Step {
    match op
    case OpEnsureCollection(name) => Step(Ensure(s, name).(dirtyMeta := true), None)
    case OpPutNew(name, raw) => PutNew(ix, s, name, raw)
    case OpPut(name, id, raw) => Put(ix, s, name, id, raw)
    case OpDelete(name, id) => Delete(ix, s, inTx, name, id)
    case OpPatch(name, id, patch) => PatchDoc(ix, s, inTx, name, id, patch)
    case OpMergeOrPut(name, id, raw) => MergeOrPut(ix, s, inTx, name, id, raw)
  }

  // ----- commit -----

  /** The index keys of one document. */
  ghost function EntryKeys(ix: Indexer, indexes: map<IndexDef, IndexState>, id: i64, doc: Doc): set<Key> {
    set def, v | def in indexes && v in ix(doc, def) :: EntryKey(def.unique, indexes[def].dbid, v, id)
  }

  function EntryVal(k: Key, id: i64): Val {
    if k.UIdxKey? then Owner(id) else Mark
  }

  ghost function SetEntries(e: Engine, keys: set<Key>, id: i64): Engine {
    map k | k in e.Keys + keys :: if k in keys then EntryVal(k, id) else e[k]
  }

  /** One mutation of the batch; None aborts the batch. */
  ghost function ReplayOne(ix: Indexer, e: Engine, cat: Catalog, m: Mutation): Option<Engine> {
    if m.name !in cat.collections then (if m.PutDoc? then None else Some(e)) else
    var col := cat.collections[m.name];
    var e0 := e[SeqKey(col.dbid) := SeqVal(col.nextId)];
    match m
    case PutDoc(_, id, prev, doc) =>
      var e1 := if prev.Some? then e0 - EntryKeys(ix, col.indexes, id, prev.value) else e0;
      if !Storable(doc) then None
      else Some(SetEntries(e1[DocKey(col.dbid, id) := Body(Reread(doc))], EntryKeys(ix, col.indexes, id, doc), id))
    case DeleteDoc(_, id, was) =>
      Some(e0 - EntryKeys(ix, col.indexes, id, was) - {DocKey(col.dbid, id)})
  }

  /** The batch built by persistPendingLocked, applied in order. */
  ghost function Replay(ix: Indexer, e: Engine, cat: Catalog, log: seq<Mutation>): Option<Engine> {
    if log == [] then Some(e) else
    match Replay(ix, e, cat, log[..|log| - 1])
    case None => None
    case Some(e') => ReplayOne(ix, e', cat, log[|log| - 1])
  }

  /** `commitLocked` */
  ghost function Commit(ix: Indexer, s: State): Step {
    if !s.dirtyMeta && s.pending == [] then Step(s, None)
    else
      match Replay(ix, s.engine[MetaKey := CatalogVal(s.cat)], s.cat, s.pending)
      case None => Step(s, Some(ErrUnstorable))
      case Some(e) => Step(State(e, s.cat, [], false), None)
  }

  /** A document operation outside a transaction. */
  ghost function Auto(ix: Indexer, s: State, op: DocOp): Step {
    var r := Record(ix, s, false, op);
    if r.error.Some? then r else Commit(ix, r.state)
  }

  // ----- transactions -----

  /** The callback's operations; it is free to ignore the error of any of them. */
  ghost function RecordAll(ix: Indexer, s: State, ops: seq<DocOp>): State {
    if ops == [] then s
    else Record(ix, RecordAll(ix, s, ops[..|ops| - 1]), true, ops[|ops| - 1]).state
  }

  /** The snapshot is put back, the log is cut to its prev length. */
  function Abort(before: State, after: State): State
    requires |before.pending| <= |after.pending|
  {
    State(after.engine, before.cat, after.pending[..|before.pending|], before.dirtyMeta)
  }

  lemma {:induction false} RecordAllGrowsLog(ix: Indexer, s: State, ops: seq<DocOp>)
    ensures GrowsLog(s, RecordAll(ix, s, ops))
  {
    if ops != [] {
      RecordAllGrowsLog(ix, s, ops[..|ops| - 1]);
      RecordGrowsLog(ix, RecordAll(ix, s, ops[..|ops| - 1]), true, ops[|ops| - 1]);
    }
  }

  /** Only the catalog, the end of the log and the meta flag differ. */
  ghost predicate GrowsLog(s: State, s': State) {
    s.pending <= s'.pending && s'.engine == s.engine
  }

  lemma PutGrowsLog(ix: Indexer, s: State, name: Name, id: i64, raw: Option<Doc>)
    requires name in s.cat.collections
    ensures GrowsLog(s, PutLocked(ix, s, name, id, raw).state)
  {
  }

  lemma RecordGrowsLog(ix: Indexer, s: State, inTx: bool, op: DocOp)
    ensures GrowsLog(s, Record(ix, s, inTx, op).state)
  {
    hide PutLocked, MergePatch;
    match op
    case OpEnsureCollection(name) =>
    case OpPutNew(name, raw) =>
      var s1 := Ensure(s, name);
      var col := s1.cat.collections[name];
      PutGrowsLog(ix, WithCollection(s1, name, col.(nextId := Next(col.nextId))), name, Next(col.nextId), raw);
    case OpPut(name, id, raw) => PutGrowsLog(ix, RaiseNextId(Ensure(s, name), name, id), name, id, raw);
    case OpDelete(name, id) =>
    case OpPatch(name, id, patch) =>
      if name in s.cat.collections && ReadDoc(s, inTx, name, id).Some? {
        var d := patch(ReadDoc(s, inTx, name, id).value);
        if d.Some? {
          PutGrowsLog(ix, s, name, id, d);
        }
      }
    case OpMergeOrPut(name, id, raw) =>
      var s1 := Ensure(s, name);
      PutGrowsLog(ix, RaiseNextId(s1, name, id), name, id, raw);
      if ReadDoc(s1, inTx, name, id).Some? && raw.Some? {
        PutGrowsLog(ix, s1, name, id, Some(MergePatch(ReadDoc(s1, inTx, name, id).value, raw.value)));
      }
  }

  /** `WriteTx`: `fails` is the callback's own verdict. */
  ghost function WriteTx(ix: Indexer, s: State, ops: seq<DocOp>, fails: bool): Step {
    var after := RecordAll(ix, s, ops);
    RecordAllGrowsLog(ix, s, ops);
    if fails then Step(Abort(s, after), Some(ErrCallback)) else
    var done := Commit(ix, after);
    if done.error.Some? then Step(Abort(s, done.state), done.error) else done
  }

  // ----- definition of collections and indexes -----

  /** `DeleteRange`: everything whose encoded key lies in the interval goes. */
  ghost function DeleteRange(e: Engine, lower: bytes, upper: Option<bytes>): Engine {
    map k | k in e && !InInterval(KeyBytes(k), lower, upper) :: e[k]
  }

  ghost function DropPrefix(e: Engine, prefix: bytes): Engine {
    DeleteRange(e, prefix, PrefixEnd(prefix))
  }

  /** The key lies in one of the two ranges of an index dbid. */
  predicate InIndexRanges(k: Key, dbid: i64) {
    || InInterval(KeyBytes(k), TagPrefix(TAG_IDX, dbid), PrefixEnd(TagPrefix(TAG_IDX, dbid)))
    || InInterval(KeyBytes(k), TagPrefix(TAG_UIDX, dbid), PrefixEnd(TagPrefix(TAG_UIDX, dbid)))
  }

  /** The ranges of several indexes, in one batch. */
  ghost function DropIndexes(e: Engine, indexes: map<IndexDef, IndexState>): Engine {
    map k | k in e && !(exists def :: def in indexes && InIndexRanges(k, indexes[def].dbid)) :: e[k]
  }

  /** `RemoveCollection` with `dropCollectionDataAndCommitLocked` */
  ghost function RemoveCollection(s: State, name: Name): Step {
    if name !in s.cat.collections then Step(s, None) else
    var col := s.cat.collections[name];
    var cat := s.cat.(collections := s.cat.collections - {name});
    var e := DropIndexes(DropPrefix(s.engine, TagPrefix(TAG_DOC, col.dbid)) - {SeqKey(col.dbid)}, col.indexes);
    Step(s.(engine := e[MetaKey := CatalogVal(cat)], cat := cat), None)
  }

  /** `RenameCollection` */
  ghost function RenameCollection(ix: Indexer, s: State, from: Name, to: Name): Step {
    if from !in s.cat.collections then Step(s, Some(ErrCollectionAbsent))
    else if to in s.cat.collections then Step(s, Some(ErrCollectionExists))
    else
      var col := s.cat.collections[from];
      Commit(ix, s.(cat := s.cat.(collections := (s.cat.collections - {from})[to := col]), dirtyMeta := true))
  }

  /** `validateIndexDefinition`: a pointer without wildcard tokens. */
  predicate ValidIndexPath(path: bytes) {
    path != [] && path[0] == SLASH && Tokens(path).Some? &&
    [0x2a] !in Tokens(path).value && [0x2a, 0x2a] !in Tokens(path).value
  }

  ghost predicate SharedValue(ix: Indexer, docs: map<i64, Doc>, def: IndexDef) {
    exists id1, id2, v :: id1 in docs && id2 in docs && id1 != id2 &&
      v in ix(docs[id1], def) && v in ix(docs[id2], def)
  }

  ghost function ValueCounts(ix: Indexer, docs: map<i64, Doc>, def: IndexDef): map<i64, nat> {
    map id | id in docs :: |ix(docs[id], def)|
  }

  /** The number of entries an index over the documents has. */
  ghost function TotalValues(ix: Indexer, docs: map<i64, Doc>, def: IndexDef): nat {
    Sum(docs.Keys, ValueCounts(ix, docs, def))
  }

  ghost function AllEntryKeys(ix: Indexer, docs: map<i64, Doc>, def: IndexDef, dbid: i64): set<Key> {
    set id, v | id in docs && v in ix(docs[id], def) :: EntryKey(def.unique, dbid, v, id)
  }

  ghost function EntryOwner(ix: Indexer, docs: map<i64, Doc>, def: IndexDef, v: bytes): i64
    requires exists id :: id in docs && v in ix(docs[id], def)
  {
    var id :| id in docs && v in ix(docs[id], def);
    id
  }

  /** The engine after rebuildIndex's batch: both ranges cleared, then one entry for each value. */
  ghost function Rebuilt(ix: Indexer, e: Engine, docs: map<i64, Doc>, def: IndexDef, dbid: i64): Engine {
    var cleared := map k | k in e && !InIndexRanges(k, dbid) :: e[k];
    var keys := AllEntryKeys(ix, docs, def, dbid);
    map k | k in cleared.Keys + keys ::
      if k !in keys then cleared[k]
      else if k.UIdxKey? then Owner(EntryOwner(ix, docs, def, k.value))
      else Mark
  }

  /** EnsureIndex once the definition is accepted: rebuild, then commit the catalog. */
  ghost function BuildIndex(ix: Indexer, s: State, name: Name, def: IndexDef): Step
    requires name in s.cat.collections
  {
    var col := s.cat.collections[name];
    var docs := StoredDocs(s.engine, col.dbid);
    var dbid := Next(s.cat.next);
    if def.unique && SharedValue(ix, docs, def) then Step(s, Some(ErrUniqueConstraint)) else
    var idx := IndexState(dbid, TotalValues(ix, docs, def));
    var s' := WithCollection(s, name, col.(indexes := col.indexes[def := idx]));
    var e := Rebuilt(ix, s.engine, docs, def, dbid)[MetaKey := CatalogVal(s'.cat)];
    Commit(ix, s'.(engine := e, cat := s'.cat.(next := dbid), dirtyMeta := true))
  }

  /** `EnsureIndex` */
  ghost function EnsureIndex(ix: Indexer, s: State, name: Name, def: IndexDef): Step {
    if !ValidIndexPath(def.path) then Step(s, Some(ErrInvalidIndex)) else
    var s1 := Ensure(s, name);
    var col := s1.cat.collections[name];
    if def in col.indexes then Step(s1, None)
    else if def.(unique := !def.unique) in col.indexes then Step(s1, Some(ErrIndexMismatch))
    else BuildIndex(ix, s1, name, def)
  }

  ghost function IndexesAt(col: Collection, path: bytes, kind: IndexKind): map<IndexDef, IndexState> {
    map def | def in col.indexes && def.path == path && def.kind == kind :: col.indexes[def]
  }

  /** `RemoveIndex` with `dropIndexesDataAndCommitLocked` */
  ghost function RemoveIndex(s: State, name: Name, path: bytes, kind: IndexKind): Step {
    if name !in s.cat.collections then Step(s, Some(ErrCollectionAbsent)) else
    var col := s.cat.collections[name];
    var removed := IndexesAt(col, path, kind);
    if removed == map[] then Step(s, Some(ErrIndexNotFound)) else
    var s1 := WithCollection(s, name, col.(indexes := col.indexes - removed.Keys));
    Step(s1.(engine := DropIndexes(s.engine, removed)[MetaKey := CatalogVal(s1.cat)]), None)
  }
}
