/**
 What changes of collections and indexes do, told by what an application sees of a collection: its documents, its
 NextID and its index definitions.
 */
module CatalogOutcomes {
  import opened Wrappers
  import opened Bytes
  import opened IndexRange
  import opened Pointer
  import opened Store
  import opened StoreInvariants
  import opened StoreStable
  import opened StoreSteps
  import opened StoreRuns
  import opened StoreIds
  import opened StoreEffects

  /** The collection `n` is afterwards what `o` was before; a missing one has nothing. */
  ghost predicate LooksAs(s: State, s': State, n: Name, o: Name) {
    && (n in s'.cat.collections <==> o in s.cat.collections)
    && DocsOf(s', n) == DocsOf(s, o) && NextIdOf(s', n) == NextIdOf(s, o) && IndexesOf(s', n) == IndexesOf(s, o)
  }

  ghost predicate OthersLookAs(s: State, s': State, name: Name) {
    forall n | n != name :: LooksAs(s, s', n, n)
  }

  /** Only the definitions of the collection's indexes are different. */
  ghost predicate OnlyIndexes(s: State, s': State, name: Name, defs: set<IndexDef>) {
    && name in s'.cat.collections && IndexesOf(s', name) == defs
    && DocsOf(s', name) == DocsOf(s, name) && NextIdOf(s', name) == NextIdOf(s, name)
    && OthersLookAs(s, s', name)
  }

  lemma LooksTwice(s: State, s1: State, s2: State, n: Name, o: Name)
    requires LooksAs(s, s1, o, o) && LooksAs(s1, s2, n, o)
    ensures LooksAs(s, s2, n, o)
  {
    hide DocsOf;
  }

  // ----- EnsureIndex -----

  const STAR_TOKEN: bytes := [0x2a]

  /** The text of a pointer is an index path if and only if none of its tokens is a wildcard; other texts are none. */
  lemma ValidPathExactly(tokens: seq<Pointer.Token>, text: bytes)
    requires tokens != [[]]
    ensures ValidIndexPath(PointerText(tokens)) <==> STAR_TOKEN !in tokens && STAR_TOKEN + STAR_TOKEN !in tokens
    ensures text == [] || text[0] != SLASH ==> !ValidIndexPath(text)
  {
    hide Tokens;
    TokensRoundTrip(tokens);
    assert STAR_TOKEN + STAR_TOKEN == [0x2a, 0x2a];
  }

  /** What stands against an index. */
  ghost function IndexObjection(ix: Indexer, s: State, name: Name, def: IndexDef): Option<Error> {
    if !ValidIndexPath(def.path) then Some(ErrInvalidIndex)
    else if def in IndexesOf(s, name) then None
    else if def.(unique := !def.unique) in IndexesOf(s, name) then Some(ErrIndexMismatch)
    else if def.unique && SharedValue(ix, DocsOf(s, name), def) then Some(ErrUniqueConstraint)
    else None
  }

  /**
   EnsureIndex: a definition nothing stands against is among the collection's indexes afterwards, in a clean state,
   so that it has an entry for every value; the same definition again changes nothing; a failure changes nothing.
   */
  lemma EnsureIndexTakesEffect(ix: Indexer, s: State, name: Name, def: IndexDef)
    requires Clean(ix, s) && Steady(s) && s.cat.next + 2 <= MAX_I64
    ensures
      var r := EnsureIndex(ix, s, name, def);
      && r.error == IndexObjection(ix, s, name, def)
      && (r.error.Some? || def in IndexesOf(s, name) ==> r.state == s)
      && (r.error.None? ==>
            Clean(ix, r.state) && Steady(r.state) && OnlyIndexes(s, r.state, name, IndexesOf(s, name) + {def}))
  {
    hide Valid, Rebuilt, TotalValues, Steady, ValidIndexPath, Live, SharedValue, OnlyIndexes, BuildIndex;
    EnsuredDocs(ix, s, name);
    EnsureIndexKeepsClean(ix, s, name, def);
    EnsureIndexKeepsSteady(ix, s, name, def);
    var s1 := Ensure(s, name);
    LiveIsStored(s1, name);
    if IndexObjection(ix, s, name, def) == Some(ErrUniqueConstraint) {
      SharedNeedsDocs(ix, s, name, def);
      SharedRefused(ix, s, name, def);
    } else if IndexObjection(ix, s, name, def).None? {
      if def in IndexesOf(s, name) {
        NothingChanges(s, name, def);
      } else {
        IndexAdded(ix, s, name, def);
      }
    }
  }

  lemma SharedNeedsDocs(ix: Indexer, s: State, name: Name, def: IndexDef)
    requires SharedValue(ix, DocsOf(s, name), def)
    ensures name in s.cat.collections
  {
  }

  lemma SharedRefused(ix: Indexer, s: State, name: Name, def: IndexDef)
    requires s.pending == [] && name in s.cat.collections && ValidIndexPath(def.path)
    requires def !in IndexesOf(s, name) && def.(unique := !def.unique) !in IndexesOf(s, name)
    requires def.unique && SharedValue(ix, DocsOf(s, name), def)
    ensures EnsureIndex(ix, s, name, def) == Step(s, Some(ErrUniqueConstraint))
  {
    hide SharedValue, StoredDocs, TotalValues;
    LiveIsStored(s, name);
  }

  lemma NothingChanges(s: State, name: Name, def: IndexDef)
    requires def in IndexesOf(s, name)
    ensures OnlyIndexes(s, s, name, IndexesOf(s, name) + {def})
  {
    hide Live;
    assert IndexesOf(s, name) + {def} == IndexesOf(s, name);
  }

  /** The build, from the state in which the collection exists. */
  lemma NewIndexResult(ix: Indexer, s: State, name: Name, def: IndexDef)
    requires s.pending == [] && name in s.cat.collections && ValidIndexPath(def.path)
    requires def !in IndexesOf(s, name) && def.(unique := !def.unique) !in IndexesOf(s, name)
    requires !(def.unique && SharedValue(ix, StoredDocs(s.engine, s.cat.collections[name].dbid), def))
    ensures
      var r := EnsureIndex(ix, s, name, def);
      var idx := IndexState(Next(s.cat.next), TotalValues(ix, StoredDocs(s.engine, s.cat.collections[name].dbid), def));
      r.error.None? && r.state.cat == WithIndex(s.cat, name, def, idx)
  {
    hide Rebuilt, StoredDocs, TotalValues, SharedValue;
  }

  lemma IndexAdded(ix: Indexer, s: State, name: Name, def: IndexDef)
    requires Clean(ix, s) && s.cat.next + 2 <= MAX_I64 && ValidIndexPath(def.path)
    requires def !in IndexesOf(s, name) && IndexObjection(ix, s, name, def).None?
    ensures var r := EnsureIndex(ix, s, name, def);
            r.error.None? && OnlyIndexes(s, r.state, name, IndexesOf(s, name) + {def})
  {
    hide Valid, SharedValue, ValidIndexPath, Live, TotalValues, StoredDocs;
    EnsuredDocs(ix, s, name);
    var s1 := Ensure(s, name);
    LiveIsStored(s1, name);
    NewIndexResult(ix, s1, name, def);
    AddIndexCarries(ix, s1, name, def);
    var r := EnsureIndex(ix, s, name, def);
    assert r == EnsureIndex(ix, s1, name, def);
    hide EnsureIndex;
    assert CarriedFrom(s1, r.state, name, Origin(name, name, name));
    forall n | n != name ensures LooksAs(s, r.state, n, n) {
      EnsuredLooks(ix, s, name, n);
      if n in r.state.cat.collections {
        assert CarriedFrom(s1, r.state, n, Origin(n, name, name));
      }
      LooksTwice(s, s1, r.state, n, n);
    }
  }

  lemma EnsuredLooks(ix: Indexer, s: State, name: Name, n: Name)
    requires Clean(ix, s) && s.cat.next < MAX_I64 && n != name
    ensures LooksAs(s, Ensure(s, name), n, n)
  {
    hide EngineAgrees, CountersOk;
    EnsureKeepsValid(ix, s, name);
    if name !in s.cat.collections {
      NewCollectionEmpty(ix, s, name);
    }
  }

  // ----- dropping and renaming -----

  /** RemoveCollection: the collection is gone, every other one is as before; a missing one is no error. */
  lemma RemoveCollectionTakesEffect(ix: Indexer, s: State, name: Name)
    requires Clean(ix, s)
    ensures
      var r := RemoveCollection(s, name);
      && r.error.None? && Clean(ix, r.state) && name !in r.state.cat.collections && OthersLookAs(s, r.state, name)
      && (name !in s.cat.collections ==> r.state == s)
  {
    hide Valid, Live;
    RemoveCollectionKeepsClean(ix, s, name);
    DropCollectionCarries(ix, s, name);
    if name in s.cat.collections {
      RemovedCatalog(s, name);
    }
    var r := RemoveCollection(s, name);
    forall n | n != name ensures LooksAs(s, r.state, n, n) {
      if n in r.state.cat.collections {
        assert CarriedFrom(s, r.state, n, Origin(n, name, name));
      }
    }
  }

  /**
   RenameCollection: the documents, NextID and indexes of the one name are found under the other, nothing is left
   under the old name, every other collection is as before; a missing source or an existing target is refused.
   */
  lemma RenameTakesEffect(ix: Indexer, s: State, from: Name, to: Name)
    requires Clean(ix, s)
    ensures
      var r := RenameCollection(ix, s, from, to);
      if from !in s.cat.collections then r == Step(s, Some(ErrCollectionAbsent))
      else if to in s.cat.collections then r == Step(s, Some(ErrCollectionExists))
      else
        && r.error.None? && Clean(ix, r.state) && from !in r.state.cat.collections
        && (forall n | n != from :: LooksAs(s, r.state, n, Origin(n, from, to)))
  {
    hide Valid, Live;
    RenameKeepsClean(ix, s, from, to);
    RenameCarries(ix, s, from, to);
    if from in s.cat.collections && to !in s.cat.collections {
      RenameResult(ix, s, from, to);
      RenameSucceeds(ix, s, from, to);
      hide RenameCollection;
      var r := RenameCollection(ix, s, from, to);
      forall n | n != from ensures LooksAs(s, r.state, n, Origin(n, from, to)) {
        if n in r.state.cat.collections {
          assert CarriedFrom(s, r.state, n, Origin(n, from, to));
        }
      }
    }
  }

  lemma RenameSucceeds(ix: Indexer, s: State, from: Name, to: Name)
    requires s.pending == [] && from in s.cat.collections && to !in s.cat.collections
    ensures RenameCollection(ix, s, from, to).error.None? && RenameCollection(ix, s, from, to).state != s
  {
    assert from !in RenameCollection(ix, s, from, to).state.cat.collections;
  }

  /** RemoveIndex: the definitions of the path and kind go, whether unique or not, and nothing else changes. */
  lemma RemoveIndexTakesEffect(ix: Indexer, s: State, name: Name, path: bytes, kind: IndexKind)
    requires Clean(ix, s)
    ensures
      var r := RemoveIndex(s, name, path, kind);
      var kept := set def | def in IndexesOf(s, name) && !(def.path == path && def.kind == kind);
      if name !in s.cat.collections then r == Step(s, Some(ErrCollectionAbsent))
      else if kept == IndexesOf(s, name) then r == Step(s, Some(ErrIndexNotFound))
      else r.error.None? && Clean(ix, r.state) && OnlyIndexes(s, r.state, name, kept)
  {
    hide Valid, Live, DropIndexes;
    RemoveIndexKeepsClean(ix, s, name, path, kind);
    if name in s.cat.collections {
      IndexLeft(s, name, path, kind);
      DropIndexCarries(ix, s, name, path, kind);
      var r := RemoveIndex(s, name, path, kind);
      if r.error.None? {
        forall n | n in r.state.cat.collections ensures CarriedFrom(s, r.state, n, n) {
          assert CarriedFrom(s, r.state, n, Origin(n, name, name));
        }
      }
    }
  }

  lemma IndexLeft(s: State, name: Name, path: bytes, kind: IndexKind)
    requires name in s.cat.collections
    ensures
      var kept := set def | def in IndexesOf(s, name) && !(def.path == path && def.kind == kind);
      var removed := IndexesAt(s.cat.collections[name], path, kind);
      && (removed == map[] <==> kept == IndexesOf(s, name))
      && kept == (s.cat.collections[name].indexes - removed.Keys).Keys
  {
    var kept := set def | def in IndexesOf(s, name) && !(def.path == path && def.kind == kind);
    var removed := IndexesAt(s.cat.collections[name], path, kind);
    assert removed == map[] <==> removed.Keys == {};
    if kept != IndexesOf(s, name) {
      var def :| def in IndexesOf(s, name) && def !in kept;
      assert def in removed;
    }
    if removed.Keys != {} {
      var def :| def in removed;
      assert def in IndexesOf(s, name) && def !in kept;
    }
  }
}
