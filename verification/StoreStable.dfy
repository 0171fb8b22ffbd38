/**
 Documents that the codec returns unchanged.  A put indexes the document it was given, later operations
 index the document that was read back, so index agreement needs the two to be the same.  If every
 document handed to the database is stable, everything in the engine and in the log is.
 */
module StoreStable {
  import opened Wrappers
  import opened Bytes
  import opened Numerals
  import opened Keys
  import opened Document
  import opened Pointer
  import opened Patch
  import opened Store
  import opened StoreReplay

  ghost predicate StableEngine(e: Engine) {
    forall k | k in e && e[k].Body? :: Stable(e[k].doc)
  }

  ghost predicate Steady(s: State) {
    StableEngine(s.engine) && AllStable(s.pending)
  }

  /** What the operation is given is stable; a patch may rely on the document it patches. */
  ghost predicate StableOp(op: DocOp) {
    match op
    case OpEnsureCollection(_) => true
    case OpPutNew(_, raw) => StableInput(raw)
    case OpPut(_, _, raw) => StableInput(raw)
    case OpDelete(_, _) => true
    case OpPatch(_, _, patch) => forall d | Stable(d) :: StableInput(patch(d))
    case OpMergeOrPut(_, _, raw) => StableInput(raw)
  }

  predicate StableInput(raw: Option<Doc>) {
    raw.Some? ==> Stable(raw.value)
  }

  ghost predicate StableOps(ops: seq<DocOp>) {
    forall i | 0 <= i < |ops| :: StableOp(ops[i])
  }

  // ----- patches of stable documents -----

  lemma StableField(d: Doc, k: bytes)
    requires Stable(d) && d.Obj? && k in d.fields
    ensures Stable(d.fields[k])
  {
  }

  /** A merge patch of stable values keeps a document stable. */
  lemma {:induction false} MergeKeepsStable(target: Doc, patch: Doc)
    requires Stable(target) && Stable(patch)
    ensures Stable(MergePatch(target, patch))
    decreases patch
  {
    if patch.Obj? {
      var r := MergePatch(target, patch);
      forall k | k in r.fields ensures Stable(r.fields[k]) {
        hide Stable;
        StableOrNull(target, k);
        if k in patch.fields {
          StableField(patch, k);
          MergeKeepsStable(FieldOrNull(FieldsOf(target), k), patch.fields[k]);
        }
      }
    }
  }

  lemma StableOrNull(target: Doc, k: bytes)
    requires Stable(target)
    ensures Stable(FieldOrNull(FieldsOf(target), k))
  {
  }

  lemma StableArray(items: seq<Doc>)
    ensures Stable(Arr(items)) <==> forall i | 0 <= i < |items| :: Stable(items[i])
  {
  }

  lemma StableObject(fields: map<bytes, Doc>)
    ensures Stable(Obj(fields)) <==> forall k | k in fields :: Stable(fields[k])
  {
  }

  /** Everything an edit leaves behind is stable. */
  predicate StableEdit(e: Edit) {
    Stable(e.view) && (e.ret.Ok? ==> Stable(e.ret.value))
  }

  lemma SetLeafKeepsStable(cur: Doc, t: Pointer.Token, val: Doc, m: Mode, spare: bool)
    requires Stable(cur) && Stable(val)
    ensures StableEdit(SetLeaf(cur, t, val, m, spare))
  {
    hide Stable;
    if cur.Arr? {
      var items := cur.items;
      StableArray(items);
      StableArray(items + [val]);
      var i := ParseInt(t);
      if i.Some? && 0 <= i.value <= |items| {
        var grown := Patch.Insert(items, i.value, val);
        StableArray(grown);
        StableArray(grown[..|items|]);
        if i.value < |items| {
          StableArray(items[i.value := val]);
        }
      }
    } else if cur.Obj? {
      StableObject(cur.fields);
      StableObject(cur.fields[t := val]);
    }
  }

  lemma {:induction false} SetKeepsStable(cur: Doc, tokens: seq<Pointer.Token>, val: Doc, m: Mode, spare: bool)
    requires Stable(cur) && Stable(val)
    ensures StableEdit(SetAt(cur, tokens, val, m, spare))
    decreases |tokens|
  {
    hide Stable, SetLeaf;
    if |tokens| == 1 {
      SetLeafKeepsStable(cur, tokens[0], val, m, spare);
    } else if |tokens| > 1 && cur.Obj? {
      var t, fields := tokens[0], cur.fields;
      var child := if t in fields then fields[t] else Obj(map[]);
      StableObject(fields);
      StableObject(map[]);
      var e := SetAt(child, tokens[1..], val, m, spare);
      SetKeepsStable(child, tokens[1..], val, m, spare);
      StableObject(fields[t := e.view]);
      if e.ret.Ok? {
        StableObject(fields[t := e.ret.value]);
      }
    } else if |tokens| > 1 && cur.Arr? && ArrayIndex(tokens[0], |cur.items|).Some? {
      var i, items := ArrayIndex(tokens[0], |cur.items|).value, cur.items;
      StableArray(items);
      var e := SetAt(items[i], tokens[1..], val, m, spare);
      SetKeepsStable(items[i], tokens[1..], val, m, spare);
      StableArray(items[i := e.view]);
      if e.ret.Ok? {
        StableArray(items[i := e.ret.value]);
      }
    }
  }

  lemma {:induction false} RemoveKeepsStable(cur: Doc, tokens: seq<Pointer.Token>)
    requires Stable(cur)
    ensures StableEdit(RemoveAt(cur, tokens))
    decreases |tokens|
  {
    hide Stable, ArrayIndex;
    if tokens != [] && cur.Obj? && tokens[0] in cur.fields {
      var t, fields := tokens[0], cur.fields;
      StableObject(fields);
      StableObject(fields - {t});
      var e := RemoveAt(fields[t], tokens[1..]);
      RemoveKeepsStable(fields[t], tokens[1..]);
      StableObject(fields[t := e.view]);
      if e.ret.Ok? {
        StableObject(fields[t := e.ret.value]);
      }
    } else if tokens != [] && cur.Arr? && ArrayIndex(tokens[0], |cur.items|).Some? {
      var i, items := ArrayIndex(tokens[0], |cur.items|).value, cur.items;
      StableArray(items);
      StableArray(Without(items, i));
      StableArray(Without(items, i) + [items[|items| - 1]]);
      var e := RemoveAt(items[i], tokens[1..]);
      RemoveKeepsStable(items[i], tokens[1..]);
      StableArray(items[i := e.view]);
      if e.ret.Ok? {
        StableArray(items[i := e.ret.value]);
      }
    }
  }

  lemma {:induction false} GetIsStable(doc: Doc, tokens: seq<Pointer.Token>)
    requires Stable(doc)
    ensures StableInput(Get(doc, tokens))
    decreases |tokens|
  {
    if tokens != [] && Child(doc, tokens[0]).Some? {
      GetIsStable(Child(doc, tokens[0]).value, tokens[1..]);
    }
  }

  predicate StablePatchOp(op: PatchOp) {
    match op
    case Add(_, value) => Stable(value)
    case AddCreate(_, value) => Stable(value)
    case Replace(_, value) => Stable(value)
    case _ => true
  }

  lemma OpKeepsStable(doc: Doc, op: PatchOp, spare: bool)
    requires Stable(doc) && StablePatchOp(op)
    ensures Stable(ApplyOp(doc, op, spare).doc)
  {
    hide Stable, SetAt, RemoveAt, Tokens, Get;
    match op
    case Add(path, value) => PointerSetKeepsStable(doc, path, value, ADD, spare);
    case AddCreate(path, value) => PointerSetKeepsStable(doc, path, value, ADD_CREATE, spare);
    case Replace(path, value) => PointerSetKeepsStable(doc, path, value, REPLACE, spare);
    case Remove(path) => PointerRemoveKeepsStable(doc, path);
    case Move(from, path) =>
      PointerRemoveKeepsStable(doc, from);
      if PointerGet(doc, from).Some? {
        GetIsStable(doc, Tokens(from).value);
        PointerSetKeepsStable(PointerRemove(doc, from).doc, path, PointerGet(doc, from).value, ADD, spare);
      }
  }

  lemma PointerSetKeepsStable(doc: Doc, path: bytes, val: Doc, m: Mode, spare: bool)
    requires Stable(doc) && Stable(val)
    ensures Stable(PointerSetMode(doc, path, val, m, spare).doc)
  {
    hide Stable, SetAt, Tokens;
    if Tokens(path).Some? {
      SetKeepsStable(doc, Tokens(path).value, val, m, spare);
    }
  }

  lemma PointerRemoveKeepsStable(doc: Doc, path: bytes)
    requires Stable(doc)
    ensures Stable(PointerRemove(doc, path).doc)
  {
    hide Stable, RemoveAt, Tokens;
    if Tokens(path).Some? {
      RemoveKeepsStable(doc, Tokens(path).value);
    }
  }

  /** A JSON patch whose values are stable keeps a document stable. */
  lemma {:induction false} PatchKeepsStable(doc: Doc, ops: seq<PatchOp>, spare: nat -> bool)
    requires Stable(doc) && forall i | 0 <= i < |ops| :: StablePatchOp(ops[i])
    ensures StableInput(ApplyPatch(doc, ops, spare))
  {
    if ops != [] {
      hide Stable, ApplyOp;
      var last := |ops| - 1;
      PatchKeepsStable(doc, ops[..last], spare);
      var before := ApplyPatch(doc, ops[..last], spare);
      if before.Some? {
        OpKeepsStable(before.value, ops[last], spare(last));
      }
    }
  }

  // ----- document operations -----

  lemma {:induction false} LookupStable(log: seq<Mutation>, name: Name, id: i64)
    requires AllStable(log)
    ensures Lookup(log, name, id).Present? ==> Stable(Lookup(log, name, id).doc)
  {
    if log != [] {
      var last := |log| - 1;
      assert StableMutation(log[last]);
      LookupStable(log[..last], name, id);
    }
  }

  lemma ReadsStable(s: State, inTx: bool, name: Name, id: i64)
    requires Steady(s) && name in s.cat.collections
    ensures StableInput(ReadDoc(s, inTx, name, id))
  {
    hide Stable;
    LookupStable(s.pending, name, id);
    NullStable();
  }

  lemma NullStable()
    ensures Stable(Null)
  {
  }

  lemma PutKeepsSteady(ix: Indexer, s: State, name: Name, id: i64, raw: Option<Doc>)
    requires Steady(s) && name in s.cat.collections && StableInput(raw)
    ensures Steady(PutLocked(ix, s, name, id, raw).state)
  {
    hide Stable, UniqueConflict, AdjustRNums;
  }

  lemma RecordKeepsSteady(ix: Indexer, s: State, inTx: bool, op: DocOp)
    requires Steady(s) && StableOp(op)
    ensures Steady(Record(ix, s, inTx, op).state)
  {
    hide Stable, PutLocked, MergePatch;
    match op
    case OpEnsureCollection(name) =>
    case OpPutNew(name, raw) =>
      var s1 := Ensure(s, name);
      var col := s1.cat.collections[name];
      PutKeepsSteady(ix, WithCollection(s1, name, col.(nextId := Next(col.nextId))), name, Next(col.nextId), raw);
    case OpPut(name, id, raw) => PutKeepsSteady(ix, RaiseNextId(Ensure(s, name), name, id), name, id, raw);
    case OpDelete(name, id) =>
    case OpPatch(name, id, patch) =>
      if name in s.cat.collections && ReadDoc(s, inTx, name, id).Some? {
        ReadsStable(s, inTx, name, id);
        PutKeepsSteady(ix, s, name, id, patch(ReadDoc(s, inTx, name, id).value));
      }
    case OpMergeOrPut(name, id, raw) =>
      var s1 := Ensure(s, name);
      ReadsStable(s1, inTx, name, id);
      PutKeepsSteady(ix, RaiseNextId(s1, name, id), name, id, raw);
      if ReadDoc(s1, inTx, name, id).Some? && raw.Some? {
        MergeKeepsStable(ReadDoc(s1, inTx, name, id).value, raw.value);
        PutKeepsSteady(ix, s1, name, id, Some(MergePatch(ReadDoc(s1, inTx, name, id).value, raw.value)));
      }
  }

  lemma {:induction false} RecordAllKeepsSteady(ix: Indexer, s: State, ops: seq<DocOp>)
    requires Steady(s) && StableOps(ops)
    ensures Steady(RecordAll(ix, s, ops))
  {
    if ops != [] {
      hide Steady, StableOp, Record;
      var init, op := ops[..|ops| - 1], ops[|ops| - 1];
      assert StableOp(op);
      RecordAllKeepsSteady(ix, s, init);
      RecordKeepsSteady(ix, RecordAll(ix, s, init), true, op);
    }
  }

  // ----- commits -----

  lemma {:induction false} ReplayKeepsStable(ix: Indexer, e: Engine, cat: Catalog, log: seq<Mutation>)
    requires StableEngine(e) && Replay(ix, e, cat, log).Some?
    ensures StableEngine(Replay(ix, e, cat, log).value)
  {
    if log != [] {
      var init, m := log[..|log| - 1], log[|log| - 1];
      ReplayKeepsStable(ix, e, cat, init);
      ReplayOneKeepsStable(ix, Replay(ix, e, cat, init).value, cat, m);
    }
  }

  lemma ReplayOneKeepsStable(ix: Indexer, e: Engine, cat: Catalog, m: Mutation)
    requires StableEngine(e) && ReplayOne(ix, e, cat, m).Some?
    ensures StableEngine(ReplayOne(ix, e, cat, m).value)
  {
    hide Stable, Reread, EntryKeys;
    if m.PutDoc? {
      RereadIsStable(m.doc);
    }
  }

  lemma CommitKeepsSteady(ix: Indexer, s: State)
    requires Steady(s)
    ensures Steady(Commit(ix, s).state)
  {
    hide Stable;
    var e := s.engine[MetaKey := CatalogVal(s.cat)];
    if Replay(ix, e, s.cat, s.pending).Some? {
      ReplayKeepsStable(ix, e, s.cat, s.pending);
    }
  }
}
