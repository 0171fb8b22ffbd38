/**
 Pointer edits, JSON Patch and JSON Merge Patch (pointer.go, patch.go).

 The edits work in place.  A Go map is a reference, so writing a member is seen by everyone who holds
 the map; a slice header is a value, so growing or shrinking an array is seen only by those who take
 the returned slice.  An edit therefore yields two things: what is returned, and the `view` that a
 holder of the old reference is left with.  Parents store what is returned; the entry points of
 pointer.go drop it, and are left with the view of the root.
 */
module Patch {
  import opened Wrappers
  import opened Bytes
  import opened Numerals
  import opened Document
  import opened Pointer

  datatype Mode = Mode(createParents: bool, allowLeafCreate: bool, arrayInsert: bool)

  const ADD: Mode := Mode(false, true, true)
  const ADD_CREATE: Mode := Mode(true, true, true)
  const REPLACE: Mode := Mode(false, false, false)

  datatype EditError = NotFound

  datatype Edit = Edit(view: Doc, ret: Result<Doc, EditError>)

  function Refused(cur: Doc): Edit { Edit(cur, Err(NotFound)) }

  function InPlace(d: Doc): Edit { Edit(d, Ok(d)) }

  function Insert(items: seq<Doc>, i: nat, val: Doc): seq<Doc>
    requires i <= |items|
  {
    items[..i] + [val] + items[i..]
  }

  function Without(items: seq<Doc>, i: nat): seq<Doc>
    requires i < |items|
  {
    items[..i] + items[i + 1..]
  }

  /** `setAt` on the last token; `spare` says whether the array's backing store has room to grow. */
  function SetLeaf(cur: Doc, t: Token, val: Doc, m: Mode, spare: bool): Edit {
    match cur
    case Obj(fields) =>
      if t !in fields && !m.allowLeafCreate then Refused(cur) else InPlace(Obj(fields[t := val]))
    case Arr(items) =>
      if t == [MINUS] && m.allowLeafCreate && m.arrayInsert then Edit(cur, Ok(Arr(items + [val]))) else
      (match ParseInt(t)
       case None => Refused(cur)
       case Some(i) =>
         if i < 0 then Refused(cur)
         else if m.allowLeafCreate && m.arrayInsert then
           if i > |items| then Refused(cur) else
           var grown := Insert(items, i, val);
           Edit(if spare then Arr(grown[..|items|]) else cur, Ok(Arr(grown)))
         else if i == |items| && m.allowLeafCreate then Edit(cur, Ok(Arr(items + [val])))
         else if i >= |items| then Refused(cur)
         else InPlace(Arr(items[i := val])))
    case _ => Refused(cur)
  }

  /** `setAt` */
  function SetAt(cur: Doc, tokens: seq<Token>, val: Doc, m: Mode, spare: bool): Edit
    decreases |tokens|
  {
    if tokens == [] then Edit(cur, Ok(val))
    else if |tokens| == 1 then SetLeaf(cur, tokens[0], val, m, spare)
    else
      var t := tokens[0];
      match cur
      case Obj(fields) =>
        if t !in fields && !m.createParents then Refused(cur) else
        var e := SetAt(if t in fields then fields[t] else Obj(map[]), tokens[1..], val, m, spare);
        (match e.ret
         case Err(error) => Edit(if t in fields then Obj(fields[t := e.view]) else cur, Err(error))
         case Ok(n) => InPlace(Obj(fields[t := n])))
      case Arr(items) =>
        (match ArrayIndex(t, |items|)
         case None => Refused(cur)
         case Some(i) =>
           var e := SetAt(items[i], tokens[1..], val, m, spare);
           (match e.ret
            case Err(error) => Edit(Arr(items[i := e.view]), Err(error))
            case Ok(n) => InPlace(Arr(items[i := n]))))
      case _ => Refused(cur)
  }

  /** `removeAt` on the last token; cutting an element shifts the shared backing store. */
  function RemoveLeaf(cur: Doc, t: Token): Edit {
    match cur
    case Obj(fields) => if t !in fields then Refused(cur) else InPlace(Obj(fields - {t}))
    case Arr(items) =>
      (match ArrayIndex(t, |items|)
       case None => Refused(cur)
       case Some(i) => Edit(Arr(Without(items, i) + [items[|items| - 1]]), Ok(Arr(Without(items, i)))))
    case _ => Refused(cur)
  }

  /** `removeAt` */
  function RemoveAt(cur: Doc, tokens: seq<Token>): Edit
    decreases |tokens|
  {
    if tokens == [] then InPlace(cur)
    else if |tokens| == 1 then RemoveLeaf(cur, tokens[0])
    else
      var t := tokens[0];
      match cur
      case Obj(fields) =>
        if t !in fields then Refused(cur) else
        var e := RemoveAt(fields[t], tokens[1..]);
        (match e.ret
         case Err(error) => Edit(Obj(fields[t := e.view]), Err(error))
         case Ok(n) => InPlace(Obj(fields[t := n])))
      case Arr(items) =>
        (match ArrayIndex(t, |items|)
         case None => Refused(cur)
         case Some(i) =>
           var e := RemoveAt(items[i], tokens[1..]);
           (match e.ret
            case Err(error) => Edit(Arr(items[i := e.view]), Err(error))
            case Ok(n) => InPlace(Arr(items[i := n]))))
      case _ => Refused(cur)
  }

  // ----- a failed edit leaves the whole tree unchanged -----

  lemma {:induction false} FailedSetChangesNothing(cur: Doc, tokens: seq<Token>, val: Doc, m: Mode, spare: bool)
    requires SetAt(cur, tokens, val, m, spare).ret.Err?
    ensures SetAt(cur, tokens, val, m, spare).view == cur
    decreases |tokens|
  {
    if |tokens| > 1 {
      var t := tokens[0];
      if cur.Obj? && t in cur.fields {
        FailedSetChangesNothing(cur.fields[t], tokens[1..], val, m, spare);
        assert cur.fields[t := cur.fields[t]] == cur.fields;
      } else if cur.Arr? && ArrayIndex(t, |cur.items|).Some? {
        var i := ArrayIndex(t, |cur.items|).value;
        FailedSetChangesNothing(cur.items[i], tokens[1..], val, m, spare);
        assert cur.items[i := cur.items[i]] == cur.items;
      }
    }
  }

  lemma {:induction false} FailedRemoveChangesNothing(cur: Doc, tokens: seq<Token>)
    requires RemoveAt(cur, tokens).ret.Err?
    ensures RemoveAt(cur, tokens).view == cur
    decreases |tokens|
  {
    if |tokens| > 1 {
      var t := tokens[0];
      if cur.Obj? && t in cur.fields {
        FailedRemoveChangesNothing(cur.fields[t], tokens[1..]);
        assert cur.fields[t := cur.fields[t]] == cur.fields;
      } else if cur.Arr? && ArrayIndex(t, |cur.items|).Some? {
        var i := ArrayIndex(t, |cur.items|).value;
        FailedRemoveChangesNothing(cur.items[i], tokens[1..]);
        assert cur.items[i := cur.items[i]] == cur.items;
      }
    }
  }

  // ----- reading back, and leaving the rest alone -----

  /** Arrays along the path are no longer than a Go slice can be. */
  ghost predicate ArraysFit(cur: Doc, tokens: seq<Token>)
    decreases |tokens|
  {
    && (cur.Arr? ==> |cur.items| <= MAX_I64)
    && (tokens != [] && Child(cur, tokens[0]).Some? ==> ArraysFit(Child(cur, tokens[0]).value, tokens[1..]))
  }

  function LeafSlot(cur: Doc, t: Token, m: Mode): Token {
    if cur.Arr? && t == [MINUS] && m.arrayInsert then FormatInt(|cur.items|) else t
  }

  function ChildOrEmpty(cur: Doc, t: Token): Doc {
    match Child(cur, t)
    case Some(n) => n
    case None => Obj(map[])
  }

  /** Where the value ends up: "-" names the index the element gets. */
  function Slot(cur: Doc, tokens: seq<Token>, m: Mode): seq<Token>
    decreases |tokens|
  {
    if tokens == [] then []
    else if |tokens| == 1 then [LeafSlot(cur, tokens[0], m)]
    else [tokens[0]] + Slot(ChildOrEmpty(cur, tokens[0]), tokens[1..], m)
  }

  /** A location written by add or replace reads back the value. */
  lemma {:induction false} SetReadsBack(cur: Doc, tokens: seq<Token>, val: Doc, m: Mode, spare: bool)
    requires ArraysFit(cur, tokens)
    requires SetAt(cur, tokens, val, m, spare).ret.Ok?
    ensures Get(SetAt(cur, tokens, val, m, spare).ret.value, Slot(cur, tokens, m)) == Some(val)
    decreases |tokens|
  {
    if |tokens| == 1 {
      SetLeafReadsBack(cur, tokens[0], val, m, spare);
      var slot := Slot(cur, tokens, m);
      assert slot[1..] == [] && slot[0] == LeafSlot(cur, tokens[0], m);
    } else if |tokens| > 1 {
      var n := ChildOrEmpty(cur, tokens[0]);
      SetReadsBack(n, tokens[1..], val, m, spare);
      var slot := Slot(cur, tokens, m);
      assert slot[1..] == Slot(n, tokens[1..], m);
      SetThroughChild(cur, tokens, val, m, spare);
    }
  }

  lemma SetLeafReadsBack(cur: Doc, t: Token, val: Doc, m: Mode, spare: bool)
    requires cur.Arr? ==> |cur.items| <= MAX_I64
    requires SetLeaf(cur, t, val, m, spare).ret.Ok?
    ensures Child(SetLeaf(cur, t, val, m, spare).ret.value, LeafSlot(cur, t, m)) == Some(val)
  {
    if cur.Arr? {
      ParseIntBack(|cur.items|);
      assert ParseInt([MINUS]) == None;
    }
  }

  lemma SetThroughChild(cur: Doc, tokens: seq<Token>, val: Doc, m: Mode, spare: bool)
    requires |tokens| > 1 && SetAt(cur, tokens, val, m, spare).ret.Ok?
    ensures SetAt(ChildOrEmpty(cur, tokens[0]), tokens[1..], val, m, spare).ret.Ok?
    ensures Child(SetAt(cur, tokens, val, m, spare).ret.value, tokens[0])
         == Some(SetAt(ChildOrEmpty(cur, tokens[0]), tokens[1..], val, m, spare).ret.value)
  {
  }

  /** `other` leaves the edited path at an object member or at an array the edit only passes through. */
  predicate Diverges(cur: Doc, tokens: seq<Token>, other: seq<Token>)
    decreases |tokens|
  {
    tokens != [] && other != [] &&
    match cur
    case Obj(fields) =>
      tokens[0] != other[0] || (tokens[0] in fields && Diverges(fields[tokens[0]], tokens[1..], other[1..]))
    case Arr(items) =>
      && |tokens| > 1 && ArrayIndex(tokens[0], |items|).Some?
      && (ArrayIndex(tokens[0], |items|) != ArrayIndex(other[0], |items|) ||
          Diverges(items[ArrayIndex(tokens[0], |items|).value], tokens[1..], other[1..]))
    case _ => false
  }

  lemma {:induction false} SetLeavesRestAlone(cur: Doc, tokens: seq<Token>, val: Doc, m: Mode, spare: bool,
                                              other: seq<Token>)
    requires SetAt(cur, tokens, val, m, spare).ret.Ok?
    requires Diverges(cur, tokens, other)
    ensures Get(SetAt(cur, tokens, val, m, spare).ret.value, other) == Get(cur, other)
    decreases |tokens|
  {
    if |tokens| > 1 {
      var next := Child(cur, tokens[0]);
      if next.Some? && Diverges(next.value, tokens[1..], other[1..]) {
        SetLeavesRestAlone(next.value, tokens[1..], val, m, spare, other[1..]);
      }
    }
  }

  lemma {:induction false} RemoveLeavesRestAlone(cur: Doc, tokens: seq<Token>, other: seq<Token>)
    requires RemoveAt(cur, tokens).ret.Ok?
    requires Diverges(cur, tokens, other)
    ensures Get(RemoveAt(cur, tokens).ret.value, other) == Get(cur, other)
    decreases |tokens|
  {
    if |tokens| > 1 {
      var next := Child(cur, tokens[0]);
      if next.Some? && Diverges(next.value, tokens[1..], other[1..]) {
        RemoveLeavesRestAlone(next.value, tokens[1..], other[1..]);
      }
    }
  }

  /** Removing an object member makes the pointer point nowhere. */
  lemma {:induction false} RemovedMemberIsGone(cur: Doc, tokens: seq<Token>)
    requires tokens != [] && RemoveAt(cur, tokens).ret.Ok?
    requires Get(cur, tokens[..|tokens| - 1]).Some? && Get(cur, tokens[..|tokens| - 1]).value.Obj?
    ensures Get(RemoveAt(cur, tokens).ret.value, tokens) == None
    decreases |tokens|
  {
    if |tokens| > 1 {
      assert tokens[..|tokens| - 1][1..] == tokens[1..][..|tokens| - 2];
      RemovedMemberIsGone(Child(cur, tokens[0]).value, tokens[1..]);
    }
  }

  // ----- add, then remove -----

  /** The target of an add does not exist yet: an absent member, or an array, where add inserts. */
  predicate NewLocation(cur: Doc, tokens: seq<Token>)
    requires tokens != []
  {
    var parent := Get(cur, tokens[..|tokens| - 1]);
    parent.Some? && (parent.value.Arr? || (parent.value.Obj? && tokens[|tokens| - 1] !in parent.value.fields))
  }

  lemma InsertThenDelete(items: seq<Doc>, i: nat, val: Doc)
    requires i <= |items|
    ensures Without(Insert(items, i, val), i) == items
  {
  }

  lemma AddLeafThenRemove(cur: Doc, t: Token, val: Doc, spare: bool)
    requires ArraysFit(cur, [t]) && SetLeaf(cur, t, val, ADD, spare).ret.Ok?
    ensures RemoveAt(SetLeaf(cur, t, val, ADD, spare).ret.value, Slot(cur, [t], ADD)).ret == Ok(cur)
       <==> NewLocation(cur, [t])
  {
    assert Get(cur, [t][..0]) == Some(cur);
    var d := SetLeaf(cur, t, val, ADD, spare).ret.value;
    if cur.Obj? {
      if t !in cur.fields {
        assert d.fields - {t} == cur.fields;
      } else {
        assert t !in (d.fields - {t});
      }
    } else if t == [MINUS] {
      var n := |cur.items|;
      ParseIntBack(n);
      assert d.items == Insert(cur.items, n, val);
      InsertThenDelete(cur.items, n, val);
      assert RemoveAt(d, [FormatInt(n)]) == RemoveLeaf(d, FormatInt(n));
    } else {
      InsertThenDelete(cur.items, ParseInt(t).value, val);
    }
  }

  /** `remove` undoes `add` exactly when the added location was new (sections 4.1 and 4.2 of RFC 6902). */
  lemma {:induction false} RemoveUndoesAdd(cur: Doc, tokens: seq<Token>, val: Doc, spare: bool)
    requires tokens != [] && ArraysFit(cur, tokens)
    requires SetAt(cur, tokens, val, ADD, spare).ret.Ok?
    ensures RemoveAt(SetAt(cur, tokens, val, ADD, spare).ret.value, Slot(cur, tokens, ADD)).ret == Ok(cur)
       <==> NewLocation(cur, tokens)
    decreases |tokens|
  {
    if |tokens| == 1 {
      assert tokens == [tokens[0]];
      AddLeafThenRemove(cur, tokens[0], val, spare);
    } else {
      var t, rest := tokens[0], tokens[1..];
      var next := Child(cur, t).value;
      RemoveUndoesAdd(next, rest, val, spare);
      assert tokens[..|tokens| - 1][1..] == rest[..|rest| - 1];
      var n := SetAt(next, rest, val, ADD, spare).ret.value;
      assert SetAt(cur, tokens, val, ADD, spare).ret.value == WithChild(cur, t, n);
      var slot := Slot(cur, tokens, ADD);
      assert slot[1..] == Slot(next, rest, ADD) && |slot| > 1;
      RemoveThroughChild(cur, slot, n);
      if RemoveAt(n, slot[1..]).ret.Ok? {
        WithChildIdentity(cur, t, RemoveAt(n, slot[1..]).ret.value);
      }
    }
  }

  /** The container with the child named by `t` exchanged. */
  function WithChild(cur: Doc, t: Token, x: Doc): Doc
    requires Child(cur, t).Some?
  {
    if cur.Obj? then Obj(cur.fields[t := x]) else Arr(cur.items[ArrayIndex(t, |cur.items|).value := x])
  }

  lemma WithChildIdentity(cur: Doc, t: Token, x: Doc)
    requires Child(cur, t).Some?
    ensures WithChild(cur, t, x) == cur <==> x == Child(cur, t).value
  {
    if cur.Obj? {
      assert cur.fields[t := x][t] == x;
      assert x == cur.fields[t] ==> cur.fields[t := x] == cur.fields;
    } else {
      var i := ArrayIndex(t, |cur.items|).value;
      assert cur.items[i := x][i] == x;
      assert x == cur.items[i] ==> cur.items[i := x] == cur.items;
    }
  }

  lemma RemoveThroughChild(cur: Doc, tokens: seq<Token>, n: Doc)
    requires |tokens| > 1 && Child(cur, tokens[0]).Some?
    ensures RemoveAt(WithChild(cur, tokens[0], n), tokens).ret ==
      match RemoveAt(n, tokens[1..]).ret
      case Err(error) => Err(error)
      case Ok(x) => Ok(WithChild(cur, tokens[0], x))
  {
    var d := WithChild(cur, tokens[0], n);
    assert Child(d, tokens[0]) == Some(n);
    if RemoveAt(n, tokens[1..]).ret.Ok? {
      var x := RemoveAt(n, tokens[1..]).ret.value;
      assert WithChild(d, tokens[0], x) == WithChild(cur, tokens[0], x) by {
        if cur.Obj? {
          assert d.fields[tokens[0] := x] == cur.fields[tokens[0] := x];
        } else {
          var i := ArrayIndex(tokens[0], |cur.items|).value;
          assert d.items[i := x] == cur.items[i := x];
        }
      }
    }
  }

  // ----- the entry points, which drop the returned root -----

  datatype Outcome = Outcome(doc: Doc, ok: bool)

  function Kept(e: Edit): Outcome { Outcome(e.view, e.ret.Ok?) }

  /** `pointerSetMode` */
  function PointerSetMode(doc: Doc, ptr: bytes, val: Doc, m: Mode, spare: bool): Outcome {
    match Tokens(ptr)
    case None => Outcome(doc, false)
    case Some(tokens) => if tokens == [] then Outcome(doc, false) else Kept(SetAt(doc, tokens, val, m, spare))
  }

  /** `pointerRemove` */
  function PointerRemove(doc: Doc, ptr: bytes): Outcome {
    match Tokens(ptr)
    case None => Outcome(doc, false)
    case Some(tokens) => if tokens == [] then Outcome(doc, false) else Kept(RemoveAt(doc, tokens))
  }

  /** The last token makes the array itself longer. */
  predicate Grows(cur: Doc, t: Token, m: Mode) {
    cur.Arr? && m.allowLeafCreate && (m.arrayInsert || ParseInt(t) == Some(|cur.items|))
  }

  /**
   A successful set reaches the caller's document exactly when it does not make a root array longer:
   in that case the grown slice is dropped and the document keeps its old length.
   */
  lemma SetKeptExactly(doc: Doc, tokens: seq<Token>, val: Doc, m: Mode, spare: bool)
    requires tokens != [] && SetAt(doc, tokens, val, m, spare).ret.Ok?
    ensures SetAt(doc, tokens, val, m, spare).view == SetAt(doc, tokens, val, m, spare).ret.value
       <==> !(|tokens| == 1 && Grows(doc, tokens[0], m))
  {
    if |tokens| == 1 && Grows(doc, tokens[0], m) {
      var e := SetAt(doc, tokens, val, m, spare);
      assert |e.view.items| == |doc.items| && |e.ret.value.items| == |doc.items| + 1;
    }
  }

  /** A successful remove reaches the caller's document exactly when it does not shorten a root array. */
  lemma RemoveKeptExactly(doc: Doc, tokens: seq<Token>)
    requires tokens != [] && RemoveAt(doc, tokens).ret.Ok?
    ensures RemoveAt(doc, tokens).view == RemoveAt(doc, tokens).ret.value <==> !(|tokens| == 1 && doc.Arr?)
  {
    if |tokens| == 1 && doc.Arr? {
      var e := RemoveAt(doc, tokens);
      assert |e.view.items| == |doc.items| && |e.ret.value.items| == |doc.items| - 1;
    }
  }

  /** Removing the first of three root elements leaves [2, 3, 3] behind. */
  lemma RootArrayRemoveIsLost()
    ensures PointerRemove(Arr([Int(1), Int(2), Int(3)]), [SLASH, ZERO])
         == Outcome(Arr([Int(2), Int(3), Int(3)]), true)
  {
    var items := [Int(1), Int(2), Int(3)];
    var ptr := [SLASH, ZERO];
    assert ptr[1..] == [ZERO];
    SplitPart([ZERO]);
    assert [ZERO][1..] == [];
    assert UnescapeToken([ZERO]) == [ZERO] by {
      NothingToReplace([TILDE, ONE], [SLASH]);
      NothingToReplace([TILDE, ZERO], [TILDE]);
    }
    assert UnescapeAll([[ZERO]]) == [[ZERO]];
    assert [ZERO][..0] == [];
    assert ParseDigits([ZERO]) == Some(0);
    assert ParseInt([ZERO]) == Some(0);
    assert Without(items, 0) + [items[2]] == [Int(2), Int(3), Int(3)];
  }

  lemma NothingToReplace(from: bytes, to: bytes)
    requires |from| == 2
    ensures ReplaceAll([ZERO], from, to) == [ZERO]
  {
    var s := [ZERO];
    assert !(from <= s);
    assert s[1..] == [];
    assert ReplaceAll(s, from, to) == [ZERO] + ReplaceAll(s[1..], from, to);
  }

  // ----- JSON Patch -----

  datatype PatchOp =
    | Add(path: bytes, value: Doc)
    | AddCreate(path: bytes, value: Doc)
    | Replace(path: bytes, value: Doc)
    | Remove(path: bytes)
    | Move(from: bytes, path: bytes)

  /** One arm of applyRFC6902. */
  function ApplyOp(doc: Doc, op: PatchOp, spare: bool): Outcome {
    match op
    case Add(path, value) => PointerSetMode(doc, path, value, ADD, spare)
    case AddCreate(path, value) => PointerSetMode(doc, path, value, ADD_CREATE, spare)
    case Replace(path, value) => PointerSetMode(doc, path, value, REPLACE, spare)
    case Remove(path) => PointerRemove(doc, path)
    case Move(from, path) =>
      match PointerGet(doc, from)
      case None => Outcome(doc, false)
      case Some(v) =>
        var removed := PointerRemove(doc, from);
        if !removed.ok then removed else PointerSetMode(removed.doc, path, v, ADD, spare)
  }

  /** The patched document, or None when an operation fails: then the whole patch is discarded. */
  function ApplyPatch(doc: Doc, ops: seq<PatchOp>, spare: nat -> bool): Option<Doc> {
    if ops == [] then Some(doc) else
    var last := |ops| - 1;
    match ApplyPatch(doc, ops[..last], spare)
    case None => None
    case Some(d) =>
      var o := ApplyOp(d, ops[last], spare(last));
      if o.ok then Some(o.doc) else None
  }

  /** applyRFC6902's loop over the operations. */
  method ComputePatch(doc: Doc, ops: seq<PatchOp>, spare: nat -> bool) returns (r: Option<Doc>)
    ensures r == ApplyPatch(doc, ops, spare)
  {
    var cur := doc;
    for i := 0 to |ops|
      invariant ApplyPatch(doc, ops[..i], spare) == Some(cur)
    {
      assert ops[..i + 1][..i] == ops[..i];
      var o := ApplyOp(cur, ops[i], spare(i));
      if !o.ok {
        FailureIsFinal(doc, ops, i + 1, spare);
        return None;
      }
      cur := o.doc;
    }
    assert ops[..|ops|] == ops;
    return Some(cur);
  }

  lemma {:induction false} FailureIsFinal(doc: Doc, ops: seq<PatchOp>, k: nat, spare: nat -> bool)
    requires k <= |ops| && ApplyPatch(doc, ops[..k], spare) == None
    ensures ApplyPatch(doc, ops, spare) == None
    decreases |ops| - k
  {
    if k == |ops| {
      assert ops[..k] == ops;
    } else {
      assert ops[..k + 1][..k] == ops[..k];
      FailureIsFinal(doc, ops, k + 1, spare);
    }
  }

  lemma SpareIrrelevantInside(doc: Doc, tokens: seq<Token>, val: Doc, m: Mode, s1: bool, s2: bool)
    ensures SetAt(doc, tokens, val, m, s1).ret == SetAt(doc, tokens, val, m, s2).ret
    decreases |tokens|
  {
  }

  lemma {:induction false} OpOnObject(doc: Doc, op: PatchOp, s1: bool, s2: bool)
    requires doc.Obj?
    ensures ApplyOp(doc, op, s1).ok == ApplyOp(doc, op, s2).ok
    ensures ApplyOp(doc, op, s1).ok ==> ApplyOp(doc, op, s1) == ApplyOp(doc, op, s2) && ApplyOp(doc, op, s1).doc.Obj?
  {
    match op
    case Add(path, value) => SetOnObject(doc, path, value, ADD, s1, s2);
    case AddCreate(path, value) => SetOnObject(doc, path, value, ADD_CREATE, s1, s2);
    case Replace(path, value) => SetOnObject(doc, path, value, REPLACE, s1, s2);
    case Remove(path) =>
    case Move(from, path) =>
      if PointerGet(doc, from).Some? {
        var removed := PointerRemove(doc, from);
        if removed.ok {
          SetOnObject(removed.doc, path, PointerGet(doc, from).value, ADD, s1, s2);
        }
      }
  }

  lemma SetOnObject(doc: Doc, path: bytes, val: Doc, m: Mode, s1: bool, s2: bool)
    requires doc.Obj?
    ensures PointerSetMode(doc, path, val, m, s1).ok == PointerSetMode(doc, path, val, m, s2).ok
    ensures PointerSetMode(doc, path, val, m, s1).ok ==>
      && PointerSetMode(doc, path, val, m, s1) == PointerSetMode(doc, path, val, m, s2)
      && PointerSetMode(doc, path, val, m, s1).doc.Obj?
  {
    hide Tokens, SetAt;
    if Tokens(path).Some? && Tokens(path).value != [] {
      var tokens := Tokens(path).value;
      SpareIrrelevantInside(doc, tokens, val, m, s1, s2);
      SetKeepsObject(doc, tokens, val, m, s1);
      if SetAt(doc, tokens, val, m, s1).ret.Ok? {
        SetKeptExactly(doc, tokens, val, m, s1);
        SetKeptExactly(doc, tokens, val, m, s2);
      }
    }
  }

  lemma SetKeepsObject(doc: Doc, tokens: seq<Token>, val: Doc, m: Mode, spare: bool)
    requires tokens != [] && doc.Obj?
    ensures SetAt(doc, tokens, val, m, spare).ret.Ok? ==> SetAt(doc, tokens, val, m, spare).ret.value.Obj?
  {
  }

  /** On an object root a whole patch has one outcome, whatever the allocator did, and stays an object. */
  lemma {:induction false} PatchOnObject(doc: Doc, ops: seq<PatchOp>, s1: nat -> bool, s2: nat -> bool)
    requires doc.Obj?
    ensures ApplyPatch(doc, ops, s1) == ApplyPatch(doc, ops, s2)
    ensures ApplyPatch(doc, ops, s1).Some? ==> ApplyPatch(doc, ops, s1).value.Obj?
  {
    if ops != [] {
      var last := |ops| - 1;
      PatchOnObject(doc, ops[..last], s1, s2);
      var before := ApplyPatch(doc, ops[..last], s1);
      if before.Some? {
        OpOnObject(before.value, ops[last], s1(last), s2(last));
      }
    }
  }

  // ----- what one operation does to an object -----

  /** The container takes a value under the token: any object; an array at "-" or at an index up to its end. */
  predicate CanHold(d: Doc, t: Token) {
    d.Obj? || (d.Arr? && (t == [MINUS] || (ParseInt(t).Some? && 0 <= ParseInt(t).value <= |d.items|)))
  }

  predicate ParentCanHold(cur: Doc, tokens: seq<Token>)
    requires tokens != []
  {
    var parent := Get(cur, tokens[..|tokens| - 1]);
    parent.Some? && CanHold(parent.value, tokens[|tokens| - 1])
  }

  /** The first `k` tokens lead to an object without the member that comes next, and more tokens follow. */
  predicate MissingAt(cur: Doc, tokens: seq<Token>, k: nat) {
    && k + 1 < |tokens| && Get(cur, tokens[..k]).Some? && Get(cur, tokens[..k]).value.Obj?
    && tokens[k] !in Get(cur, tokens[..k]).value.fields
  }

  ghost predicate ParentMissing(cur: Doc, tokens: seq<Token>) {
    exists k: nat :: MissingAt(cur, tokens, k)
  }

  /** Replace needs the value itself, add needs its parent, and the creating form makes missing parents. */
  ghost predicate Settable(cur: Doc, tokens: seq<Token>, m: Mode)
    requires tokens != []
  {
    if !m.allowLeafCreate then Get(cur, tokens).Some?
    else ParentCanHold(cur, tokens) || (m.createParents && ParentMissing(cur, tokens))
  }

  lemma {:induction false} SetSucceedsExactly(cur: Doc, tokens: seq<Token>, val: Doc, m: Mode, spare: bool)
    requires tokens != [] && m in {ADD, ADD_CREATE, REPLACE}
    ensures SetAt(cur, tokens, val, m, spare).ret.Ok? <==> Settable(cur, tokens, m)
    decreases |tokens|
  {
    var t, rest := tokens[0], tokens[1..];
    hide ParentMissing, ParentCanHold;
    if |tokens| == 1 {
      assert tokens == [t];
      LeafSucceedsExactly(cur, t, val, m, spare);
      LeafSettable(cur, t);
      hide SetLeaf;
    } else {
      SetSucceedsExactly(ChildOrEmpty(cur, t), rest, val, m, spare);
      SetDescends(cur, tokens, val, m, spare);
      hide SetAt, Get;
      if Child(cur, t).Some? {
        ParentBelow(cur, tokens);
        MissingBelow(cur, tokens);
      } else {
        ParentAbsent(cur, tokens);
        NewParent(rest);
      }
    }
  }

  lemma SetDescends(cur: Doc, tokens: seq<Token>, val: Doc, m: Mode, spare: bool)
    requires |tokens| > 1
    ensures SetAt(cur, tokens, val, m, spare).ret.Ok?
       <==> (Child(cur, tokens[0]).Some? || (cur.Obj? && m.createParents))
            && SetAt(ChildOrEmpty(cur, tokens[0]), tokens[1..], val, m, spare).ret.Ok?
  {
  }

  lemma LeafSucceedsExactly(cur: Doc, t: Token, val: Doc, m: Mode, spare: bool)
    requires m in {ADD, ADD_CREATE, REPLACE}
    ensures SetLeaf(cur, t, val, m, spare).ret.Ok? <==> if m == REPLACE then Child(cur, t).Some? else CanHold(cur, t)
  {
    assert ParseInt([MINUS]) == None;
  }

  lemma LeafSettable(cur: Doc, t: Token)
    ensures Get(cur, [t]) == Child(cur, t)
    ensures ParentCanHold(cur, [t]) <==> CanHold(cur, t)
    ensures !ParentMissing(cur, [t])
  {
    hide Child;
    assert [t][..0] == [] && [t][1..] == [];
  }

  lemma ParentBelow(cur: Doc, tokens: seq<Token>)
    requires |tokens| > 1 && Child(cur, tokens[0]).Some?
    ensures Get(cur, tokens) == Get(Child(cur, tokens[0]).value, tokens[1..])
    ensures ParentCanHold(cur, tokens) <==> ParentCanHold(Child(cur, tokens[0]).value, tokens[1..])
  {
    hide Child, CanHold;
    var rest := tokens[1..];
    assert tokens[..|tokens| - 1][1..] == rest[..|rest| - 1];
  }

  lemma MissingBelow(cur: Doc, tokens: seq<Token>)
    requires |tokens| > 1 && Child(cur, tokens[0]).Some?
    ensures ParentMissing(cur, tokens) <==> ParentMissing(Child(cur, tokens[0]).value, tokens[1..])
  {
    var n, rest := Child(cur, tokens[0]).value, tokens[1..];
    PresentHere(cur, tokens);
    forall k: nat ensures MissingAt(cur, tokens, k + 1) <==> MissingAt(n, rest, k) {
      MissingNext(cur, tokens, k);
    }
    hide MissingAt, Child;
    if ParentMissing(cur, tokens) {
      var k: nat :| MissingAt(cur, tokens, k);
      assert MissingAt(n, rest, k - 1);
    }
    if ParentMissing(n, rest) {
      var k: nat :| MissingAt(n, rest, k);
      assert MissingAt(cur, tokens, k + 1);
    }
  }

  lemma MissingNext(cur: Doc, tokens: seq<Token>, k: nat)
    requires |tokens| > 1 && Child(cur, tokens[0]).Some?
    ensures MissingAt(cur, tokens, k + 1) <==> MissingAt(Child(cur, tokens[0]).value, tokens[1..], k)
  {
    hide Child;
    if k + 1 < |tokens| - 1 {
      assert tokens[..k + 1][1..] == tokens[1..][..k];
    }
  }

  lemma PresentHere(cur: Doc, tokens: seq<Token>)
    requires tokens != [] && Child(cur, tokens[0]).Some?
    ensures !MissingAt(cur, tokens, 0)
  {
    assert tokens[..0] == [];
  }

  lemma ParentAbsent(cur: Doc, tokens: seq<Token>)
    requires |tokens| > 1 && Child(cur, tokens[0]).None?
    ensures Get(cur, tokens) == None && !ParentCanHold(cur, tokens)
    ensures ParentMissing(cur, tokens) <==> cur.Obj?
  {
    assert tokens[..|tokens| - 1][0] == tokens[0];
    assert tokens[..0] == [];
    assert cur.Obj? ==> MissingAt(cur, tokens, 0);
    forall k: nat | 0 < k < |tokens| ensures Get(cur, tokens[..k]) == None {
      assert tokens[..k][0] == tokens[0];
    }
  }

  lemma NewParent(tokens: seq<Token>)
    requires tokens != []
    ensures ParentCanHold(Obj(map[]), tokens) || ParentMissing(Obj(map[]), tokens)
  {
    assert tokens[..0] == [];
    if |tokens| > 1 {
      assert MissingAt(Obj(map[]), tokens, 0);
    }
  }

  lemma {:induction false} RemoveSucceedsExactly(cur: Doc, tokens: seq<Token>)
    requires tokens != []
    ensures RemoveAt(cur, tokens).ret.Ok? <==> Get(cur, tokens).Some?
    decreases |tokens|
  {
    if |tokens| > 1 && Child(cur, tokens[0]).Some? {
      RemoveSucceedsExactly(Child(cur, tokens[0]).value, tokens[1..]);
    }
  }

  /**
   The value was put at the path: it reads back there, or at the index that "-" stands for, and what lies off the
   path reads as before.  It fails exactly when the path is no pointer to a place that takes a value.
   */
  ghost predicate Wrote(doc: Doc, o: Outcome, path: bytes, val: Doc, m: Mode) {
    match Tokens(path)
    case None => !o.ok
    case Some(tokens) =>
      && (o.ok <==> tokens != [] && Settable(doc, tokens, m))
      && (o.ok ==>
            && (ArraysFit(doc, tokens) ==> Get(o.doc, Slot(doc, tokens, m)) == Some(val))
            && (forall other | Diverges(doc, tokens, other) :: Get(o.doc, other) == Get(doc, other)))
  }

  /** What the path led to was taken out; it fails exactly when the path leads nowhere or to the root. */
  ghost predicate TookOut(doc: Doc, o: Outcome, path: bytes) {
    match Tokens(path)
    case None => !o.ok
    case Some(tokens) =>
      && (o.ok <==> tokens != [] && Get(doc, tokens).Some?)
      && (o.ok ==>
            && (Get(doc, tokens[..|tokens| - 1]).Some? && Get(doc, tokens[..|tokens| - 1]).value.Obj? ==>
                  Get(o.doc, tokens) == None)
            && (forall other | Diverges(doc, tokens, other) :: Get(o.doc, other) == Get(doc, other)))
  }

  lemma SetWrites(doc: Doc, path: bytes, val: Doc, m: Mode, spare: bool)
    requires doc.Obj? && m in {ADD, ADD_CREATE, REPLACE}
    ensures Wrote(doc, PointerSetMode(doc, path, val, m, spare), path, val, m)
  {
    hide Tokens, SetAt, Slot, Settable, Diverges, ArraysFit;
    if Tokens(path).Some? && Tokens(path).value != [] {
      var tokens := Tokens(path).value;
      SetSucceedsExactly(doc, tokens, val, m, spare);
      if SetAt(doc, tokens, val, m, spare).ret.Ok? {
        SetKeptExactly(doc, tokens, val, m, spare);
        if ArraysFit(doc, tokens) {
          SetReadsBack(doc, tokens, val, m, spare);
        }
        forall other | Diverges(doc, tokens, other)
          ensures Get(SetAt(doc, tokens, val, m, spare).ret.value, other) == Get(doc, other)
        {
          SetLeavesRestAlone(doc, tokens, val, m, spare, other);
        }
      }
    }
  }

  lemma RemoveTakesOut(doc: Doc, path: bytes)
    requires doc.Obj?
    ensures TookOut(doc, PointerRemove(doc, path), path)
    ensures PointerRemove(doc, path).ok ==> PointerRemove(doc, path).doc.Obj?
  {
    hide Tokens, Diverges;
    if Tokens(path).Some? && Tokens(path).value != [] {
      var tokens := Tokens(path).value;
      RemoveSucceedsExactly(doc, tokens);
      RemovedObject(doc, tokens);
      hide RemoveAt, Get;
      if RemoveAt(doc, tokens).ret.Ok? {
        RemoveKeptExactly(doc, tokens);
        var parent := Get(doc, tokens[..|tokens| - 1]);
        if parent.Some? && parent.value.Obj? {
          RemovedMemberIsGone(doc, tokens);
        }
        forall other | Diverges(doc, tokens, other) ensures Get(RemoveAt(doc, tokens).ret.value, other) == Get(doc, other) {
          RemoveLeavesRestAlone(doc, tokens, other);
        }
      }
    }
  }

  lemma RemovedObject(doc: Doc, tokens: seq<Token>)
    requires tokens != [] && doc.Obj?
    ensures RemoveAt(doc, tokens).ret.Ok? ==> RemoveAt(doc, tokens).ret.value.Obj?
  {
  }

  /** What each operation of a patch does to an object, and exactly when it fails. */
  ghost predicate Applied(doc: Doc, o: Outcome, op: PatchOp) {
    match op
    case Add(path, value) => Wrote(doc, o, path, value, ADD)
    case AddCreate(path, value) => Wrote(doc, o, path, value, ADD_CREATE)
    case Replace(path, value) => Wrote(doc, o, path, value, REPLACE)
    case Remove(path) => TookOut(doc, o, path)
    case Move(from, path) => exists between :: Moved(doc, between, o, from, path)
  }

  /** The value at `from` is taken out, and then put at the path of what is left. */
  ghost predicate Moved(doc: Doc, between: Outcome, o: Outcome, from: bytes, path: bytes) {
    && TookOut(doc, between, from)
    && (if between.ok then PointerGet(doc, from).Some? && Wrote(between.doc, o, path, PointerGet(doc, from).value, ADD)
        else !o.ok)
  }

  lemma OpApplies(doc: Doc, op: PatchOp, spare: bool)
    requires doc.Obj?
    ensures Applied(doc, ApplyOp(doc, op, spare), op)
  {
    hide PointerSetMode, PointerRemove, Wrote;
    match op
    case Add(path, value) => SetWrites(doc, path, value, ADD, spare);
    case AddCreate(path, value) => SetWrites(doc, path, value, ADD_CREATE, spare);
    case Replace(path, value) => SetWrites(doc, path, value, REPLACE, spare);
    case Remove(path) => RemoveTakesOut(doc, path);
    case Move(from, path) =>
      var between := PointerRemove(doc, from);
      RemoveTakesOut(doc, from);
      hide Get, Diverges;
      if between.ok {
        SetWrites(between.doc, path, PointerGet(doc, from).value, ADD, spare);
      }
      assert Moved(doc, between, ApplyOp(doc, op, spare), from, path);
  }

  /** A member that was moved away is gone, when the new place is off its path in what is left. */
  lemma MovedMemberIsGone(doc: Doc, from: bytes, path: bytes, spare: bool)
    requires doc.Obj? && ApplyOp(doc, Move(from, path), spare).ok
    requires Tokens(from).Some? && Tokens(from).value != []
    requires var tokens := Tokens(from).value;
             Get(doc, tokens[..|tokens| - 1]).Some? && Get(doc, tokens[..|tokens| - 1]).value.Obj?
    requires Tokens(path).Some? && Diverges(PointerRemove(doc, from).doc, Tokens(path).value, Tokens(from).value)
    ensures PointerGet(ApplyOp(doc, Move(from, path), spare).doc, from) == None
  {
    hide Tokens, Get, Diverges, Settable, Slot, ArraysFit, PointerSetMode, PointerRemove;
    RemoveTakesOut(doc, from);
    var between := PointerRemove(doc, from);
    SetWrites(between.doc, path, PointerGet(doc, from).value, ADD, spare);
  }

  // ----- JSON Merge Patch -----

  function FieldsOf(d: Doc): map<bytes, Doc> {
    if d.Obj? then d.fields else map[]
  }

  function FieldOrNull(fields: map<bytes, Doc>, k: bytes): Doc {
    if k in fields then fields[k] else Null
  }

  /** The algorithm in section 2 of RFC 7396, as the members of the result rather than as a loop. */
  function MergePatch(target: Doc, patch: Doc): Doc
    decreases patch
  {
    match patch
    case Obj(changes) =>
      var fields := FieldsOf(target);
      Obj(map k | k in fields.Keys + changes.Keys && (k in changes ==> changes[k] != Null) ::
            if k in changes then MergePatch(FieldOrNull(fields, k), changes[k]) else fields[k])
    case _ => patch
  }

  /** mergePatchValue: the patch's members are taken in any order, updating the target's map. */
  method ComputeMerge(target: Doc, patch: Doc) returns (r: Doc)
    ensures r == MergePatch(target, patch)
    decreases patch
  {
    if !patch.Obj? {
      return patch;
    }
    var before, changes := FieldsOf(target), patch.fields;
    var fields := before;
    var done := {};
    MergeEnds(target, patch);
    while changes.Keys - done != {}
      invariant done <= changes.Keys
      invariant fields == MergedSoFar(before, changes, done)
      decreases changes.Keys - done
    {
      var k :| k in changes.Keys - done;
      MergeStep(before, changes, done, k);
      done := done + {k};
      if changes[k] == Null {
        fields := fields - {k};
      } else {
        var v := ComputeMerge(FieldOrNull(fields, k), changes[k]);
        fields := fields[k := v];
      }
    }
    assert done == changes.Keys;
    return Obj(fields);
  }

  lemma MergeEnds(target: Doc, patch: Doc)
    requires patch.Obj?
    ensures MergedSoFar(FieldsOf(target), patch.fields, {}) == FieldsOf(target)
    ensures Obj(MergedSoFar(FieldsOf(target), patch.fields, patch.fields.Keys)) == MergePatch(target, patch)
  {
  }

  /** The members of the target once those of `done` have been merged. */
  ghost function MergedSoFar(before: map<bytes, Doc>, changes: map<bytes, Doc>, done: set<bytes>): map<bytes, Doc>
    requires done <= changes.Keys
  {
    map k | k in before.Keys + done && (k in done ==> changes[k] != Null) ::
      if k in done then MergePatch(FieldOrNull(before, k), changes[k]) else before[k]
  }

  lemma MergeStep(before: map<bytes, Doc>, changes: map<bytes, Doc>, done: set<bytes>, k: bytes)
    requires done <= changes.Keys && k in changes && k !in done
    ensures FieldOrNull(MergedSoFar(before, changes, done), k) == FieldOrNull(before, k)
    ensures MergedSoFar(before, changes, done + {k}) ==
      if changes[k] == Null then MergedSoFar(before, changes, done) - {k}
      else MergedSoFar(before, changes, done)[k := MergePatch(FieldOrNull(before, k), changes[k])]
  {
  }

  /** The tokens name members of objects nested in one another. */
  predicate ThroughObjects(d: Doc, tokens: seq<Token>)
    decreases |tokens|
  {
    tokens == [] ||
    (d.Obj? && tokens[0] in d.fields && ThroughObjects(d.fields[tokens[0]], tokens[1..]))
  }

  lemma MergedMember(target: Doc, patch: Doc, t: Token)
    requires patch.Obj?
    ensures MergePatch(target, patch).Obj?
    ensures Child(MergePatch(target, patch), t)
         == if t !in patch.fields then (if t in FieldsOf(target) then Some(FieldsOf(target)[t]) else None)
            else if patch.fields[t] == Null then None
            else Some(MergePatch(FieldOrNull(FieldsOf(target), t), patch.fields[t]))
  {
  }

  /**
   Where a patch leads through its objects: a value that is neither object nor null reads back from the result, a
   null member is absent from it, and an object is found as an object.
   */
  lemma {:induction false} MergedAt(target: Doc, patch: Doc, tokens: seq<Token>)
    requires ThroughObjects(patch, tokens)
    ensures Get(patch, tokens).Some?
    ensures var leaf := Get(patch, tokens).value;
            var found := Get(MergePatch(target, patch), tokens);
            if leaf.Obj? then found.Some? && found.value.Obj?
            else if leaf.Null? && tokens != [] then found == None
            else found == Some(leaf)
    decreases |tokens|
  {
    if tokens != [] {
      var t := tokens[0];
      MergedMember(target, patch, t);
      hide MergePatch;
      if patch.fields[t] != Null {
        MergedAt(FieldOrNull(FieldsOf(target), t), patch.fields[t], tokens[1..]);
      }
    }
  }

  /**
   Where a path leaves the patch, at a member its object does not mention, the result reads as the target does, if
   the target has that member in objects too; otherwise there is nothing.
   */
  lemma {:induction false} MergedBeside(target: Doc, patch: Doc, tokens: seq<Token>, t: Token, rest: seq<Token>)
    requires ThroughObjects(patch, tokens) && Get(patch, tokens).Some?
    requires Get(patch, tokens).value.Obj? && t !in Get(patch, tokens).value.fields
    ensures Get(MergePatch(target, patch), tokens + [t] + rest)
         == if ThroughObjects(target, tokens + [t]) then Get(target, tokens + [t] + rest) else None
    decreases |tokens|
  {
    var path, up := tokens + [t] + rest, tokens + [t];
    MergedMember(target, patch, path[0]);
    hide MergePatch;
    if tokens == [] {
      assert path[1..] == rest && up[1..] == [];
    } else {
      var k, below := tokens[0], tokens[1..];
      assert path[0] == up[0] == k && path[1..] == below + [t] + rest && up[1..] == below + [t];
      MergedBeside(FieldOrNull(FieldsOf(target), k), patch.fields[k], below, t, rest);
    }
  }

  /** Applying a merge patch twice is applying it once. */
  lemma {:induction false} MergeIdempotent(target: Doc, patch: Doc)
    ensures MergePatch(MergePatch(target, patch), patch) == MergePatch(target, patch)
    decreases patch
  {
    if patch.Obj? {
      var once := MergePatch(target, patch);
      var twice := MergePatch(once, patch);
      forall k | k in patch.fields && patch.fields[k] != Null
        ensures k in once.fields && k in twice.fields && twice.fields[k] == once.fields[k]
      {
        MergeIdempotent(FieldOrNull(FieldsOf(target), k), patch.fields[k]);
      }
      assert twice.fields == once.fields;
    }
  }
}
