/**
 The database object (type DB of db.go and the methods of tx.go), with its fields updated in place and
 the loops of the source.  Every method is proved to do what the functions of module Store say, so the
 results about runs of module StoreRuns are about this object.
 */
module Database {
  import opened Wrappers
  import opened Bytes
  import opened Keys
  import opened IndexRange
  import opened Document
  import opened Patch
  import opened Store
  import opened StoreInvariants
  import opened StoreReplay
  import opened StoreRuns

  /** Some value of the document is taken in the given unique index. */
  ghost predicate ValueConflict(s: State, ix: Indexer, name: Name, def: IndexDef, dbid: i64, id: i64, doc: Doc) {
    exists v :: v in ix(doc, def) && (CommittedConflict(s, name, dbid, id, v) || PendingConflict(ix, s, name, def, id, v))
  }

  /** The keys of the values of one index. */
  ghost function KeysOf(def: IndexDef, dbid: i64, vals: seq<bytes>, id: i64): set<Key> {
    set v | v in vals :: EntryKey(def.unique, dbid, v, id)
  }

  lemma KeysOfNext(def: IndexDef, dbid: i64, vals: seq<bytes>, id: i64, i: nat)
    requires i < |vals|
    ensures KeysOf(def, dbid, vals[..i + 1], id) == KeysOf(def, dbid, vals[..i], id) + {EntryKey(def.unique, dbid, vals[i], id)}
  {
    assert vals[..i + 1] == vals[..i] + [vals[i]];
  }

  /** The keys of a document in some of the indexes. */
  ghost function KeysIn(ix: Indexer, indexes: map<IndexDef, IndexState>, done: set<IndexDef>, id: i64, doc: Doc): set<Key>
    requires done <= indexes.Keys
  {
    set def, v | def in done && v in ix(doc, def) :: EntryKey(def.unique, indexes[def].dbid, v, id)
  }

  lemma KeysInNext(ix: Indexer, indexes: map<IndexDef, IndexState>, done: set<IndexDef>, id: i64, doc: Doc, def: IndexDef)
    requires done <= indexes.Keys && def in indexes
    ensures KeysIn(ix, indexes, done + {def}, id, doc)
         == KeysIn(ix, indexes, done, id, doc) + KeysOf(def, indexes[def].dbid, ix(doc, def), id)
  {
  }

  lemma KeysInAll(ix: Indexer, indexes: map<IndexDef, IndexState>, id: i64, doc: Doc)
    ensures KeysIn(ix, indexes, indexes.Keys, id, doc) == EntryKeys(ix, indexes, id, doc)
    ensures KeysIn(ix, indexes, {}, id, doc) == {}
  {
  }

  lemma SetOneMore(e: Engine, keys: set<Key>, k: Key, id: i64)
    ensures SetEntries(e, keys, id)[k := EntryVal(k, id)] == SetEntries(e, keys + {k}, id)
  {
  }

  /** adjustIndexRNums once the indexes of `done` have been visited. */
  ghost function Adjusted(ix: Indexer, indexes: map<IndexDef, IndexState>, prev: Option<Doc>, next: Option<Doc>,
                          done: set<IndexDef>): map<IndexDef, IndexState>
  {
    map def | def in indexes :: if def in done then AdjustRNums(ix, indexes, prev, next)[def] else indexes[def]
  }

  lemma AdjustedEnds(ix: Indexer, indexes: map<IndexDef, IndexState>, prev: Option<Doc>, next: Option<Doc>)
    ensures Adjusted(ix, indexes, prev, next, {}) == indexes
    ensures Adjusted(ix, indexes, prev, next, indexes.Keys) == AdjustRNums(ix, indexes, prev, next)
  {
  }

  lemma AdjustedNext(ix: Indexer, indexes: map<IndexDef, IndexState>, prev: Option<Doc>, next: Option<Doc>,
                     done: set<IndexDef>, def: IndexDef, rnum: int)
    requires def in indexes
    requires rnum == Clamp(indexes[def].rnum + CountValues(ix, next, def) - CountValues(ix, prev, def))
    ensures Adjusted(ix, indexes, prev, next, done + {def})
         == Adjusted(ix, indexes, prev, next, done)[def := indexes[def].(rnum := rnum)]
  {
  }

  lemma AllDone(done: set<IndexDef>, all: set<IndexDef>)
    requires done <= all && all - done == {}
    ensures done == all
  {
    assert forall d | d in all :: d in all - done || d in done;
  }

  lemma SetNothing(e: Engine, id: i64)
    ensures SetEntries(e, {}, id) == e
  {
  }

  lemma SetMore(e: Engine, keys: set<Key>, more: set<Key>, id: i64)
    ensures SetEntries(SetEntries(e, keys, id), more, id) == SetEntries(e, keys + more, id)
  {
  }

  class DB {
    const index: Indexer
    var engine: map<Key, Val>
    var cat: Catalog
    var pending: seq<Mutation>
    var dirtyMeta: bool

    ghost function View(): State
      reads this
    {
      State(engine, cat, pending, dirtyMeta)
    }

    constructor (index: Indexer)
      ensures this.index == index && View() == INITIAL
    {
      this.index := index;
      engine := map[];
      cat := Catalog(1, map[]);
      pending := [];
      dirtyMeta := false;
    }

    // ----- reading -----

    /** pendingDocState: the log is searched backwards. */
    method PendingDocState(name: Name, id: i64) returns (r: Pending)
      ensures r == Lookup(pending, name, id)
    {
      var i := |pending|;
      assert pending[..i] == pending;
      while i > 0
        invariant 0 <= i <= |pending|
        invariant Lookup(pending[..i], name, id) == Lookup(pending, name, id)
      {
        i := i - 1;
        assert pending[..i + 1][..i] == pending[..i];
        var m := pending[i];
        if m.name == name && m.id == id {
          return if m.PutDoc? then Present(m.doc) else Gone;
        }
      }
      return Untouched;
    }

    /** Tx.Get when `inTx`, otherwise DB.Get; None is ErrNotFound, also for a missing collection. */
    method Get(inTx: bool, name: Name, id: i64) returns (r: Option<Doc>)
      ensures r == if name in cat.collections then ReadDoc(View(), inTx, name, id) else None
    {
      if name !in cat.collections {
        return None;
      }
      if inTx {
        var p := PendingDocState(name, id);
        if p.Present? {
          return Some(p.doc);
        } else if p.Gone? {
          return None;
        }
      }
      r := StoredDoc(engine, cat.collections[name].dbid, id);
    }

    // ----- the unique check -----

    /** The documents other than `id` whose last mutation in the log is a put. */
    method PendingPuts(name: Name, id: i64) returns (puts: map<i64, Doc>)
      ensures forall other: i64 :: other in puts <==> other != id && Lookup(pending, name, other).Present?
      ensures forall other: i64 | other in puts :: puts[other] == Lookup(pending, name, other).doc
    {
      puts := map[];
      for i := 0 to |pending|
        invariant forall other: i64 :: other in puts <==> other != id && Lookup(pending[..i], name, other).Present?
        invariant forall other: i64 | other in puts :: puts[other] == Lookup(pending[..i], name, other).doc
      {
        var m := pending[i];
        assert pending[..i + 1][..i] == pending[..i];
        if m.name == name && m.id != id {
          match m
          case PutDoc(_, mid, _, doc) => puts := puts[mid := doc];
          case DeleteDoc(_, mid, _) => puts := puts - {mid};
        }
      }
      assert pending[..|pending|] == pending;
    }

    /** One unique index of checkUniqueConstraints. */
    method CheckIndex(name: Name, def: IndexDef, dbid: i64, id: i64, doc: Doc) returns (clash: bool)
      ensures clash <==> ValueConflict(View(), index, name, def, dbid, id, doc)
    {
      var vals := index(doc, def);
      for i := 0 to |vals|
        invariant forall j | 0 <= j < i :: !CommittedConflict(View(), name, dbid, id, vals[j])
      {
        if UIdxKey(dbid, vals[i]) in engine {
          var cur := OwnerOf(engine[UIdxKey(dbid, vals[i])]);
          var p := PendingDocState(name, cur);
          if cur != id && p != Gone {
            assert CommittedConflict(View(), name, dbid, id, vals[i]) && vals[i] in index(doc, def);
            return true;
          }
        }
      }
      var puts := PendingPuts(name, id);
      var todo := puts.Keys;
      while todo != {}
        invariant todo <= puts.Keys
        invariant forall other, v | other in puts.Keys - todo && v in index(puts[other], def) :: v !in vals
        decreases |todo|
      {
        var other :| other in todo;
        todo := todo - {other};
        var theirs := index(puts[other], def);
        for i := 0 to |theirs|
          invariant forall j | 0 <= j < i :: theirs[j] !in vals
        {
          if theirs[i] in vals {
            assert PendingConflict(index, View(), name, def, id, theirs[i]);
            return true;
          }
        }
      }
      return false;
    }

    /** checkUniqueConstraints: the indexes are visited in any order. */
    method CheckUniqueConstraints(name: Name, id: i64, doc: Doc) returns (clash: bool)
      requires name in cat.collections
      ensures clash <==> UniqueConflict(index, View(), name, id, doc)
    {
      var indexes := cat.collections[name].indexes;
      var todo := indexes.Keys;
      while todo != {}
        invariant todo <= indexes.Keys
        invariant forall def, v | def in indexes.Keys - todo && def.unique && v in index(doc, def) ::
          !CommittedConflict(View(), name, indexes[def].dbid, id, v) && !PendingConflict(index, View(), name, def, id, v)
        decreases |todo|
      {
        var def :| def in todo;
        todo := todo - {def};
        if def.unique {
          var hit := CheckIndex(name, def, indexes[def].dbid, id, doc);
          if hit {
            return true;
          }
        }
      }
      return false;
    }

    // ----- recording -----

    /** adjustIndexRNums */
    method AdjustIndexRNums(indexes: map<IndexDef, IndexState>, prev: Option<Doc>, next: Option<Doc>)
      returns (r: map<IndexDef, IndexState>)
      ensures r == AdjustRNums(index, indexes, prev, next)
    {
      hide AdjustRNums;
      r := indexes;
      var done: set<IndexDef> := {};
      AdjustedEnds(index, indexes, prev, next);
      while indexes.Keys - done != {}
        invariant done <= indexes.Keys && r == Adjusted(index, indexes, prev, next, done)
        decreases indexes.Keys - done
      {
        var def :| def in indexes.Keys - done;
        var rnum := indexes[def].rnum + CountValues(index, next, def) - CountValues(index, prev, def);
        if rnum < 0 {
          rnum := 0;
        }
        AdjustedNext(index, indexes, prev, next, done, def, rnum);
        r := r[def := indexes[def].(rnum := rnum)];
        done := done + {def};
      }
      AllDone(done, indexes.Keys);
    }

    method SetCollection(name: Name, col: Collection)
      modifies this`cat
      ensures View() == WithCollection(old(View()), name, col)
    {
      cat := cat.(collections := cat.collections[name := col]);
    }

    /** putLocked */
    method PutLocked(name: Name, id: i64, raw: Option<Doc>) returns (error: Option<Error>)
      requires name in cat.collections
      modifies this`cat, this`pending, this`dirtyMeta
      ensures Step(View(), error) == Store.PutLocked(index, old(View()), name, id, raw)
    {
      if raw.None? {
        return Some(ErrInvalidJson);
      }
      var prev := Get(true, name, id);
      var clash := CheckUniqueConstraints(name, id, raw.value);
      if clash {
        return Some(ErrUniqueConstraint);
      }
      var col := cat.collections[name];
      var indexes := AdjustIndexRNums(col.indexes, prev, raw);
      SetCollection(name, col.(rnum := if prev.None? then col.rnum + 1 else col.rnum, indexes := indexes));
      pending := pending + [PutDoc(name, id, prev, raw.value)];
      dirtyMeta := true;
      return None;
    }

    method EnsureCollection(name: Name)
      modifies this`cat
      ensures View() == Ensure(old(View()), name)
    {
      if name !in cat.collections {
        var dbid := Next(cat.next);
        cat := Catalog(dbid, cat.collections[name := Collection(dbid, 0, 0, map[])]);
      }
    }

    method PutNew(name: Name, raw: Option<Doc>) returns (error: Option<Error>)
      modifies this`cat, this`pending, this`dirtyMeta
      ensures Step(View(), error) == Store.PutNew(index, old(View()), name, raw)
    {
      EnsureCollection(name);
      var before := cat;
      var col := cat.collections[name];
      SetCollection(name, col.(nextId := Next(col.nextId)));
      error := PutLocked(name, Next(col.nextId), raw);
      if error.Some? {
        cat := before;
      }
    }

    method RaiseNextId(name: Name, id: i64)
      requires name in cat.collections
      modifies this`cat
      ensures View() == Store.RaiseNextId(old(View()), name, id)
    {
      var col := cat.collections[name];
      if id > col.nextId {
        SetCollection(name, col.(nextId := id));
      }
    }

    method Put(name: Name, id: i64, raw: Option<Doc>) returns (error: Option<Error>)
      modifies this`cat, this`pending, this`dirtyMeta
      ensures Step(View(), error) == Store.Put(index, old(View()), name, id, raw)
    {
      EnsureCollection(name);
      RaiseNextId(name, id);
      error := PutLocked(name, id, raw);
    }

    method Delete(inTx: bool, name: Name, id: i64) returns (error: Option<Error>)
      modifies this`cat, this`pending, this`dirtyMeta
      ensures Step(View(), error) == Store.Delete(index, old(View()), inTx, name, id)
    {
      if name !in cat.collections {
        return Some(ErrNotFound);
      }
      var doc := Get(inTx, name, id);
      if doc.None? {
        return Some(ErrNotFound);
      }
      pending := pending + [DeleteDoc(name, id, doc.value)];
      dirtyMeta := true;
      var col := cat.collections[name];
      var indexes := AdjustIndexRNums(col.indexes, doc, None);
      SetCollection(name, col.(rnum := if col.rnum > 0 then col.rnum - 1 else col.rnum, indexes := indexes));
      return None;
    }

    method Patch(inTx: bool, name: Name, id: i64, patch: Doc -> Option<Doc>) returns (error: Option<Error>)
      modifies this`cat, this`pending, this`dirtyMeta
      ensures Step(View(), error) == PatchDoc(index, old(View()), inTx, name, id, patch)
    {
      if name !in cat.collections {
        return Some(ErrNotFound);
      }
      var doc := Get(inTx, name, id);
      if doc.None? {
        return Some(ErrNotFound);
      }
      var patched := patch(doc.value);
      if patched.None? {
        return Some(ErrPatchFailed);
      }
      error := PutLocked(name, id, patched);
    }

    method MergeOrPut(inTx: bool, name: Name, id: i64, raw: Option<Doc>) returns (error: Option<Error>)
      modifies this`cat, this`pending, this`dirtyMeta
      ensures Step(View(), error) == Store.MergeOrPut(index, old(View()), inTx, name, id, raw)
    {
      EnsureCollection(name);
      var doc := Get(inTx, name, id);
      if doc.None? {
        RaiseNextId(name, id);
        error := PutLocked(name, id, raw);
        return;
      }
      if raw.None? {
        return Some(ErrInvalidJson);
      }
      var merged := ComputeMerge(doc.value, raw.value);
      error := PutLocked(name, id, Some(merged));
    }

    /** A document operation without its commit. */
    method RecordOp(inTx: bool, op: DocOp) returns (error: Option<Error>)
      modifies this`cat, this`pending, this`dirtyMeta
      ensures Step(View(), error) == Record(index, old(View()), inTx, op)
    {
      match op
      case OpEnsureCollection(name) =>
        EnsureCollection(name);
        dirtyMeta := true;
        error := None;
      case OpPutNew(name, raw) => error := PutNew(name, raw);
      case OpPut(name, id, raw) => error := Put(name, id, raw);
      case OpDelete(name, id) => error := Delete(inTx, name, id);
      case OpPatch(name, id, patch) => error := Patch(inTx, name, id, patch);
      case OpMergeOrPut(name, id, raw) => error := MergeOrPut(inTx, name, id, raw);
    }

    // ----- committing -----

    /** deleteIndexKeys: the batch is the engine it will leave behind. */
    method DeleteIndexKeys(batch: Engine, indexes: map<IndexDef, IndexState>, id: i64, doc: Doc) returns (b: Engine)
      ensures b == batch - EntryKeys(index, indexes, id, doc)
    {
      b := batch;
      var done: set<IndexDef> := {};
      KeysInAll(index, indexes, id, doc);
      while indexes.Keys - done != {}
        invariant done <= indexes.Keys
        invariant b == batch - KeysIn(index, indexes, done, id, doc)
        decreases indexes.Keys - done
      {
        var def :| def in indexes.Keys - done;
        b := DeleteEntriesOf(b, def, indexes[def].dbid, id, index(doc, def));
        KeysInNext(index, indexes, done, id, doc, def);
        done := done + {def};
      }
      AllDone(done, indexes.Keys);
    }

    /** The inner loop of deleteIndexKeys. */
    static method DeleteEntriesOf(batch: Engine, def: IndexDef, dbid: i64, id: i64, vals: seq<bytes>) returns (b: Engine)
      ensures b == batch - KeysOf(def, dbid, vals, id)
    {
      b := batch;
      for i := 0 to |vals|
        invariant b == batch - KeysOf(def, dbid, vals[..i], id)
      {
        KeysOfNext(def, dbid, vals, id, i);
        b := b - {EntryKey(def.unique, dbid, vals[i], id)};
      }
      assert vals[..|vals|] == vals;
    }

    /** setIndexKeys */
    method SetIndexKeys(batch: Engine, indexes: map<IndexDef, IndexState>, id: i64, doc: Doc) returns (b: Engine)
      ensures b == SetEntries(batch, EntryKeys(index, indexes, id, doc), id)
    {
      b := batch;
      var done: set<IndexDef> := {};
      KeysInAll(index, indexes, id, doc);
      SetNothing(batch, id);
      while indexes.Keys - done != {}
        invariant done <= indexes.Keys
        invariant b == SetEntries(batch, KeysIn(index, indexes, done, id, doc), id)
        decreases indexes.Keys - done
      {
        var def :| def in indexes.Keys - done;
        b := SetEntriesOf(b, def, indexes[def].dbid, id, index(doc, def));
        KeysInNext(index, indexes, done, id, doc, def);
        SetMore(batch, KeysIn(index, indexes, done, id, doc), KeysOf(def, indexes[def].dbid, index(doc, def), id), id);
        done := done + {def};
      }
      AllDone(done, indexes.Keys);
    }

    /** The inner loop of setIndexKeys. */
    static method SetEntriesOf(batch: Engine, def: IndexDef, dbid: i64, id: i64, vals: seq<bytes>) returns (b: Engine)
      ensures b == SetEntries(batch, KeysOf(def, dbid, vals, id), id)
    {
      b := batch;
      assert KeysOf(def, dbid, vals[..0], id) == {};
      SetNothing(batch, id);
      for i := 0 to |vals|
        invariant b == SetEntries(batch, KeysOf(def, dbid, vals[..i], id), id)
      {
        var k := EntryKey(def.unique, dbid, vals[i], id);
        SetOneMore(batch, KeysOf(def, dbid, vals[..i], id), k, id);
        KeysOfNext(def, dbid, vals, id, i);
        b := b[k := if def.unique then Owner(id) else Mark];
      }
      assert vals[..|vals|] == vals;
    }

    /** One turn of persistPendingLocked's loop; None is an encoding error. */
    method ReplayMutation(batch: Engine, m: Mutation) returns (b: Option<Engine>)
      ensures b == ReplayOne(index, batch, cat, m)
    {
      if m.name !in cat.collections {
        return if m.PutDoc? then None else Some(batch);
      }
      var col := cat.collections[m.name];
      var e := batch[SeqKey(col.dbid) := SeqVal(col.nextId)];
      match m
      case PutDoc(_, id, prev, doc) =>
        if prev.Some? {
          e := DeleteIndexKeys(e, col.indexes, id, prev.value);
        }
        if !Storable(doc) {
          return None;
        }
        e := SetIndexKeys(e[DocKey(col.dbid, id) := Body(Reread(doc))], col.indexes, id, doc);
        return Some(e);
      case DeleteDoc(_, id, was) =>
        e := DeleteIndexKeys(e, col.indexes, id, was);
        return Some(e - {DocKey(col.dbid, id)});
    }

    /** commitLocked with persistPendingLocked: the engine changes only once the batch is complete. */
    method CommitLocked() returns (error: Option<Error>)
      modifies this`engine, this`pending, this`dirtyMeta
      ensures Step(View(), error) == Commit(index, old(View()))
    {
      if !dirtyMeta && pending == [] {
        return None;
      }
      var start, log := engine[MetaKey := CatalogVal(cat)], pending;
      var batch := start;
      for i := 0 to |log|
        invariant View() == old(View())
        invariant Replay(index, start, cat, log[..i]) == Some(batch)
      {
        assert log[..i + 1][..i] == log[..i];
        var next := ReplayMutation(batch, log[i]);
        if next.None? {
          FailedReplay(index, start, cat, log, i + 1);
          return Some(ErrUnstorable);
        }
        batch := next.value;
      }
      assert log[..|log|] == log;
      engine := batch;
      pending := [];
      dirtyMeta := false;
      return None;
    }

    /** A document operation outside a transaction. */
    method Single(op: DocOp) returns (error: Option<Error>)
      modifies this`engine, this`cat, this`pending, this`dirtyMeta
      ensures Step(View(), error) == Auto(index, old(View()), op)
    {
      error := RecordOp(false, op);
      if error.None? {
        error := CommitLocked();
      }
    }

    /** WriteTx, the callback given by its operations and its own verdict. */
    method WriteTx(ops: seq<DocOp>, fails: bool) returns (error: Option<Error>)
      modifies this`engine, this`cat, this`pending, this`dirtyMeta
      ensures Step(View(), error) == Store.WriteTx(index, old(View()), ops, fails)
    {
      var snapshot, length, dirty := cat, |pending|, dirtyMeta;
      ghost var before := View();
      for i := 0 to |ops|
        invariant View() == RecordAll(index, before, ops[..i])
      {
        assert ops[..i + 1][..i] == ops[..i];
        var ignored := RecordOp(true, ops[i]);
      }
      assert ops[..|ops|] == ops;
      RecordAllGrowsLog(index, before, ops);
      if fails {
        cat, pending, dirtyMeta := snapshot, pending[..length], dirty;
        return Some(ErrCallback);
      }
      error := CommitLocked();
      if error.Some? {
        cat, pending, dirtyMeta := snapshot, pending[..length], dirty;
      }
    }

    /** One command of a run, whatever its error. */
    method Execute(c: Command) returns (error: Option<Error>)
      modifies this`engine, this`cat, this`pending, this`dirtyMeta
      ensures Step(View(), error) == StoreRuns.Execute(index, old(View()), c)
    {
      match c
      case Single(op) => error := Single(op);
      case DropCollection(name) =>
        RemoveCollection(name);
        error := None;
      case Rename(from, to) => error := RenameCollection(from, to);
      case AddIndex(name, def) => error := EnsureIndex(name, def);
      case DropIndex(name, path, kind) => error := RemoveIndex(name, path, kind);
      case Transaction(ops, fails) => error := WriteTx(ops, fails);
    }

    /** A whole run: the object goes through the states of the state machine. */
    method ExecuteAll(run: seq<Command>)
      modifies this`engine, this`cat, this`pending, this`dirtyMeta
      ensures View() == Run(index, old(View()), run)
    {
      hide StoreRuns.Execute;
      for i := 0 to |run|
        invariant View() == Run(index, old(View()), run[..i])
      {
        assert run[..i + 1][..i] == run[..i];
        var ignored := Execute(run[i]);
      }
      assert run[..|run|] == run;
    }

    // ----- collections and indexes -----

    /** dropIndexesDataAndCommitLocked's ranges: all index keys in one of the intervals go. */
    method DropIndexRanges(batch: Engine, indexes: map<IndexDef, IndexState>) returns (b: Engine)
      ensures b == DropIndexes(batch, indexes)
    {
      b := batch;
      var todo := indexes.Keys;
      while todo != {}
        invariant todo <= indexes.Keys
        invariant b == map k | k in batch &&
          !(exists def :: def in indexes.Keys - todo && InIndexRanges(k, indexes[def].dbid)) :: batch[k]
        decreases |todo|
      {
        var def :| def in todo;
        ghost var before := indexes.Keys - todo;
        todo := todo - {def};
        assert forall d :: d in indexes.Keys - todo <==> d in before || d == def;
        b := map k | k in b && !InIndexRanges(k, indexes[def].dbid) :: b[k];
      }
    }

    method RemoveCollection(name: Name)
      modifies this`engine, this`cat
      ensures View() == Store.RemoveCollection(old(View()), name).state
    {
      if name !in cat.collections {
        return;
      }
      var col := cat.collections[name];
      cat := cat.(collections := cat.collections - {name});
      var prefix := TagPrefix(TAG_DOC, col.dbid);
      var end := ComputePrefixEnd(prefix);
      var b := map k | k in engine && !InInterval(KeyBytes(k), prefix, end) :: engine[k];
      b := DropIndexRanges(b - {SeqKey(col.dbid)}, col.indexes);
      engine := b[MetaKey := CatalogVal(cat)];
    }

    method RenameCollection(from: Name, to: Name) returns (error: Option<Error>)
      modifies this`engine, this`cat, this`pending, this`dirtyMeta
      ensures Step(View(), error) == Store.RenameCollection(index, old(View()), from, to)
    {
      if from !in cat.collections {
        return Some(ErrCollectionAbsent);
      }
      if to in cat.collections {
        return Some(ErrCollectionExists);
      }
      var col := cat.collections[from];
      cat := cat.(collections := (cat.collections - {from})[to := col]);
      dirtyMeta := true;
      error := CommitLocked();
    }

    /** The values of one scanned document are noted; None reports a value noted for another one. */
    static method NoteValues(seen: map<bytes, i64>, vals: seq<bytes>, id: i64) returns (r: Option<map<bytes, i64>>)
      requires forall v | v in seen :: seen[v] != id
      ensures r.None? <==> exists v :: v in vals && v in seen
      ensures r.Some? ==> r.value == Noted(seen, vals, id)
    {
      hide Noted;
      var noted := seen;
      NotedNothing(seen, id);
      for i := 0 to |vals|
        invariant forall j | 0 <= j < i :: vals[j] !in seen
        invariant noted == Noted(seen, vals[..i], id)
      {
        NotedNext(seen, vals, id, i);
        if vals[i] in noted && noted[vals[i]] != id {
          assert vals[i] in vals && vals[i] in seen;
          return None;
        }
        noted := noted[vals[i] := id];
      }
      assert vals[..|vals|] == vals;
      return Some(noted);
    }

    /** rebuildIndex: one scan of the stored documents; None reports a value held twice. */
    method RebuildIndex(colDbid: i64, def: IndexDef, dbid: i64) returns (r: Option<(Engine, nat)>)
      ensures r.None? <==> def.unique && SharedValue(index, StoredDocs(engine, colDbid), def)
      ensures r.Some? ==> r.value.0 == Rebuilt(index, engine, StoredDocs(engine, colDbid), def, dbid)
      ensures r.Some? ==> r.value.1 == TotalValues(index, StoredDocs(engine, colDbid), def)
    {
      hide StoredDocs, Rebuilt, TotalValues, SharedValue, SetEntries, SeenOk, ScanOk, InIndexRanges, KeysOf;
      var b := map k | k in engine && !InIndexRanges(k, dbid) :: engine[k];
      var todo := set k | k in engine && k.DocKey? && k.dbid == colDbid;
      var seen: map<bytes, i64> := map[];
      var rnum := 0;
      ghost var docs := StoredDocs(engine, colDbid);
      ghost var part: map<i64, Doc> := map[];
      NothingRebuilt(index, engine, def, dbid);
      ScanStarts(engine, colDbid);
      while todo != {}
        invariant ScanOk(engine, colDbid, docs, part, todo)
        invariant b == Rebuilt(index, engine, part, def, dbid)
        invariant def.unique ==> SeenOk(index, part, def, seen)
        invariant rnum == TotalValues(index, part, def)
        decreases todo
      {
        var k :| k in todo;
        ScanStep(engine, colDbid, docs, part, todo, k);
        todo := todo - {k};
        var id, doc := k.id, BodyOf(engine[k]);
        var vals := index(doc, def);
        ghost var before := seen;
        if def.unique {
          SeenIds(index, part, def, seen, id);
          var noted := NoteValues(seen, vals, id);
          if noted.None? {
            var v :| v in vals && v in seen;
            Clash(index, docs, part, def, seen, id, doc, v);
            return None;
          }
          SeenStep(index, part, def, seen, id, doc);
          seen := noted.value;
        }
        RebuildStep(index, engine, part, def, dbid, id, doc, before);
        b := SetEntriesOf(b, def, dbid, id, vals);
        rnum := rnum + |vals|;
        TotalValuesPut(index, part, def, id, doc);
        part := part[id := doc];
      }
      ScanEnds(engine, colDbid, docs, part);
      if def.unique {
        SeenMeansUnique(index, docs, def, seen);
      }
      return Some((b, rnum));
    }

    method BuildIndex(name: Name, def: IndexDef) returns (error: Option<Error>)
      requires name in cat.collections
      modifies this`engine, this`cat, this`pending, this`dirtyMeta
      ensures Step(View(), error) == Store.BuildIndex(index, old(View()), name, def)
    {
      hide Rebuilt, TotalValues, StoredDocs, SharedValue, Commit;
      var col, dbid := cat.collections[name], Next(cat.next);
      var built := RebuildIndex(col.dbid, def, dbid);
      if built.None? {
        return Some(ErrUniqueConstraint);
      }
      SetCollection(name, col.(indexes := col.indexes[def := IndexState(dbid, built.value.1)]));
      engine := built.value.0[MetaKey := CatalogVal(cat)];
      cat := cat.(next := dbid);
      dirtyMeta := true;
      error := CommitLocked();
    }

    method EnsureIndex(name: Name, def: IndexDef) returns (error: Option<Error>)
      modifies this`engine, this`cat, this`pending, this`dirtyMeta
      ensures Step(View(), error) == Store.EnsureIndex(index, old(View()), name, def)
    {
      hide Store.BuildIndex;
      if !ValidIndexPath(def.path) {
        return Some(ErrInvalidIndex);
      }
      EnsureCollection(name);
      var col := cat.collections[name];
      if def in col.indexes {
        return None;
      }
      if def.(unique := !def.unique) in col.indexes {
        return Some(ErrIndexMismatch);
      }
      error := BuildIndex(name, def);
    }

    method RemoveIndex(name: Name, path: bytes, kind: IndexKind) returns (error: Option<Error>)
      modifies this`engine, this`cat
      ensures Step(View(), error) == Store.RemoveIndex(old(View()), name, path, kind)
    {
      if name !in cat.collections {
        return Some(ErrCollectionAbsent);
      }
      var col := cat.collections[name];
      var removed := map def | def in col.indexes && def.path == path && def.kind == kind :: col.indexes[def];
      if removed == map[] {
        return Some(ErrIndexNotFound);
      }
      SetCollection(name, col.(indexes := col.indexes - removed.Keys));
      var b := DropIndexRanges(engine, removed);
      engine := b[MetaKey := CatalogVal(cat)];
      return None;
    }
  }

  /** `seen` maps each value of the scanned documents to the one document that has it. */
  ghost predicate SeenOk(ix: Indexer, part: map<i64, Doc>, def: IndexDef, seen: map<bytes, i64>) {
    && (forall v | v in seen :: seen[v] in part && v in ix(part[seen[v]], def))
    && (forall id, v | id in part && v in ix(part[id], def) :: v in seen && seen[v] == id)
  }

  ghost function Noted(seen: map<bytes, i64>, vals: seq<bytes>, id: i64): map<bytes, i64> {
    seen + map v | v in vals :: id
  }

  lemma NotedNothing(seen: map<bytes, i64>, id: i64)
    ensures Noted(seen, [], id) == seen
  {
  }

  lemma NotedNext(seen: map<bytes, i64>, vals: seq<bytes>, id: i64, i: nat)
    requires i < |vals|
    ensures Noted(seen, vals[..i + 1], id) == Noted(seen, vals[..i], id)[vals[i] := id]
    ensures vals[i] in Noted(seen, vals[..i], id) && Noted(seen, vals[..i], id)[vals[i]] != id ==> vals[i] in seen
    ensures vals[i] in seen && seen[vals[i]] != id && vals[i] !in vals[..i] ==>
      vals[i] in Noted(seen, vals[..i], id) && Noted(seen, vals[..i], id)[vals[i]] != id
  {
    assert vals[..i + 1] == vals[..i] + [vals[i]];
  }

  lemma SeenIds(ix: Indexer, part: map<i64, Doc>, def: IndexDef, seen: map<bytes, i64>, id: i64)
    requires SeenOk(ix, part, def, seen) && id !in part
    ensures forall v | v in seen :: seen[v] != id
  {
  }

  lemma SeenStep(ix: Indexer, part: map<i64, Doc>, def: IndexDef, seen: map<bytes, i64>, id: i64, doc: Doc)
    requires SeenOk(ix, part, def, seen) && id !in part && forall v | v in ix(doc, def) :: v !in seen
    ensures SeenOk(ix, part[id := doc], def, Noted(seen, ix(doc, def), id))
  {
  }

  lemma SeenMeansUnique(ix: Indexer, docs: map<i64, Doc>, def: IndexDef, seen: map<bytes, i64>)
    requires SeenOk(ix, docs, def, seen)
    ensures !SharedValue(ix, docs, def)
  {
    forall id1, id2, v | id1 in docs && id2 in docs && v in ix(docs[id1], def) && v in ix(docs[id2], def)
      ensures id1 == id2
    {
      assert seen[v] == id1 && seen[v] == id2;
    }
  }

  /** The documents still to be scanned are those not yet taken over. */
  ghost predicate ScanOk(e: Engine, colDbid: i64, docs: map<i64, Doc>, part: map<i64, Doc>, todo: set<Key>) {
    && (forall id: i64 :: DocKey(colDbid, id) in todo <==> id in docs && id !in part)
    && (forall k | k in todo :: k.DocKey? && k.dbid == colDbid && k in e && docs[k.id] == BodyOf(e[k]))
    && (forall id | id in part :: id in docs && part[id] == docs[id])
  }

  lemma ScanStarts(e: Engine, colDbid: i64)
    ensures ScanOk(e, colDbid, StoredDocs(e, colDbid), map[], set k | k in e && k.DocKey? && k.dbid == colDbid)
  {
    StoredDocsContents(e, colDbid);
    var todo := set k | k in e && k.DocKey? && k.dbid == colDbid;
    forall k | k in todo ensures StoredDocs(e, colDbid)[k.id] == BodyOf(e[k]) {
      assert k == DocKey(colDbid, k.id);
    }
  }

  lemma ScanStep(e: Engine, colDbid: i64, docs: map<i64, Doc>, part: map<i64, Doc>, todo: set<Key>, k: Key)
    requires ScanOk(e, colDbid, docs, part, todo) && k in todo
    ensures k.DocKey? && k in e && k.id !in part && k.id in docs && docs[k.id] == BodyOf(e[k])
    ensures forall id | id in part :: id in docs && docs[id] == part[id]
    ensures ScanOk(e, colDbid, docs, part[k.id := BodyOf(e[k])], todo - {k})
  {
    assert k == DocKey(colDbid, k.id);
  }

  lemma ScanEnds(e: Engine, colDbid: i64, docs: map<i64, Doc>, part: map<i64, Doc>)
    requires ScanOk(e, colDbid, docs, part, {})
    ensures part == docs
  {
    forall id: i64 | id in docs ensures id in part {
      assert DocKey(colDbid, id) !in {};
    }
  }

  lemma NothingRebuilt(ix: Indexer, e: Engine, def: IndexDef, dbid: i64)
    ensures Rebuilt(ix, e, map[], def, dbid) == map k | k in e && !InIndexRanges(k, dbid) :: e[k]
    ensures TotalValues(ix, map[], def) == 0
    ensures SeenOk(ix, map[], def, map[])
  {
    assert AllEntryKeys(ix, map[], def, dbid) == {};
  }

  lemma Clash(ix: Indexer, docs: map<i64, Doc>, part: map<i64, Doc>, def: IndexDef, seen: map<bytes, i64>,
              id: i64, doc: Doc, v: bytes)
    requires SeenOk(ix, part, def, seen) && v in seen && v in ix(doc, def)
    requires id !in part && id in docs && docs[id] == doc
    requires forall i | i in part :: i in docs && docs[i] == part[i]
    ensures SharedValue(ix, docs, def)
  {
    var other := seen[v];
    assert other in docs && other != id && v in ix(docs[other], def) && v in ix(docs[id], def);
  }

  /** One more document: its entries are added, and nothing else changes. */
  lemma RebuildStep(ix: Indexer, e: Engine, part: map<i64, Doc>, def: IndexDef, dbid: i64, id: i64, doc: Doc,
                    seen: map<bytes, i64>)
    requires id !in part
    requires def.unique ==> SeenOk(ix, part, def, seen) && forall v | v in ix(doc, def) :: v !in seen
    ensures Rebuilt(ix, e, part[id := doc], def, dbid)
         == SetEntries(Rebuilt(ix, e, part, def, dbid), KeysOf(def, dbid, ix(doc, def), id), id)
  {
    var more := KeysOf(def, dbid, ix(doc, def), id);
    var l, r := Rebuilt(ix, e, part[id := doc], def, dbid), SetEntries(Rebuilt(ix, e, part, def, dbid), more, id);
    EntryKeysGrow(ix, part, def, dbid, id, doc);
    forall k ensures SameAt(l, r, k) {
      if k in AllEntryKeys(ix, part[id := doc], def, dbid) && k.UIdxKey? {
        OwnerAfter(ix, part, def, dbid, id, doc, seen, k);
      }
    }
    SameEverywhere(l, r);
  }

  lemma SameEverywhere(l: Engine, r: Engine)
    requires forall k :: SameAt(l, r, k)
    ensures l == r
  {
    forall k ensures (k in l <==> k in r) && (k in l ==> l[k] == r[k]) {
      assert SameAt(l, r, k);
    }
  }

  ghost predicate HasValue(ix: Indexer, docs: map<i64, Doc>, def: IndexDef, v: bytes) {
    exists id :: id in docs && v in ix(docs[id], def)
  }

  lemma EntryKeysGrow(ix: Indexer, part: map<i64, Doc>, def: IndexDef, dbid: i64, id: i64, doc: Doc)
    requires id !in part
    ensures AllEntryKeys(ix, part[id := doc], def, dbid)
         == AllEntryKeys(ix, part, def, dbid) + KeysOf(def, dbid, ix(doc, def), id)
  {
    var part' := part[id := doc];
    var keys, keys' := AllEntryKeys(ix, part, def, dbid), AllEntryKeys(ix, part', def, dbid);
    var more := KeysOf(def, dbid, ix(doc, def), id);
    forall k | k in keys ensures k in keys' {
      var i, v :| i in part && v in ix(part[i], def) && k == EntryKey(def.unique, dbid, v, i);
      assert i in part' && v in ix(part'[i], def);
    }
    forall k | k in more ensures k in keys' {
      var v :| v in ix(doc, def) && k == EntryKey(def.unique, dbid, v, id);
      assert id in part' && v in ix(part'[id], def);
    }
    forall k | k in keys' ensures k in keys || k in more {
      var i, v :| i in part' && v in ix(part'[i], def) && k == EntryKey(def.unique, dbid, v, i);
      if i != id {
        assert i in part && v in ix(part[i], def);
      }
    }
  }

  lemma OwnerAfter(ix: Indexer, part: map<i64, Doc>, def: IndexDef, dbid: i64, id: i64, doc: Doc,
                   seen: map<bytes, i64>, k: Key)
    requires id !in part
    requires def.unique ==> SeenOk(ix, part, def, seen) && forall v | v in ix(doc, def) :: v !in seen
    requires k.UIdxKey? && k in AllEntryKeys(ix, part[id := doc], def, dbid)
    ensures HasValue(ix, part[id := doc], def, k.value)
    ensures k in KeysOf(def, dbid, ix(doc, def), id) ==> EntryOwner(ix, part[id := doc], def, k.value) == id
    ensures k !in KeysOf(def, dbid, ix(doc, def), id) ==>
      && HasValue(ix, part, def, k.value)
      && EntryOwner(ix, part[id := doc], def, k.value) == EntryOwner(ix, part, def, k.value)
  {
    var part' := part[id := doc];
    var i, v :| i in part' && v in ix(part'[i], def) && k == EntryKey(def.unique, dbid, v, i);
    assert def.unique && v == k.value;
    var owner := EntryOwner(ix, part', def, v);
    assert owner in part' && v in ix(part'[owner], def);
    if v in ix(doc, def) {
      assert k == EntryKey(def.unique, dbid, v, id);
      assert owner == id;
    } else {
      assert k !in KeysOf(def, dbid, ix(doc, def), id);
      assert i in part && v in ix(part[i], def);
      var owner' := EntryOwner(ix, part, def, v);
      assert owner' in part && v in ix(part[owner'], def);
      assert seen[v] == owner' && owner in part && seen[v] == owner;
    }
  }

  lemma {:induction false} FailedReplay(ix: Indexer, e: Engine, cat: Catalog, log: seq<Mutation>, k: nat)
    requires k <= |log| && Replay(ix, e, cat, log[..k]) == None
    ensures Replay(ix, e, cat, log) == None
    decreases |log| - k
  {
    if k == |log| {
      assert log[..k] == log;
    } else {
      assert log[..k + 1][..k] == log[..k];
      FailedReplay(ix, e, cat, log, k + 1);
    }
  }

  /** A new database that has served a tame run is clean. */
  method ServeRun(index: Indexer, run: seq<Command>) returns (db: DB)
    requires Tame(index, INITIAL, run) && 1 + TotalCost(run) <= MAX_I64
    ensures fresh(db) && db.index == index && db.View() == Run(index, INITIAL, run)
    ensures Clean(index, db.View())
  {
    hide Clean, Tame, Run;
    db := new DB(index);
    db.ExecuteAll(run);
    EveryRunIsClean(index, run);
  }
}
