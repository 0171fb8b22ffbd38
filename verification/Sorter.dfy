/**
 Sorting matched documents with a bounded buffer (db.go): documents beyond the buffer are written to a
 spill file and read back for the window only.  The window returned is the one of a sort that never
 spills, for every buffer size.
 */
module Sorter {
  import opened Wrappers
  import opened Bytes
  import opened Document
  import opened Ordering
  import opened JqValue

  // ----- the window -----

  /** Addition on int64, which wraps. */
  function AddI64(a: i64, b: i64): i64 {
    var s := a + b;
    if s > MAX_I64 then s - TWO_64 else if s < MIN_I64 then s + TWO_64 else s
  }

  /** The bounds of the window over `len` matches; None is the panic of a slice with its end before its start. */
  function WindowBounds(len: nat, skip: i64, limit: i64): (r: Option<(nat, nat)>)
    requires len <= MAX_I64 && 0 <= skip
    ensures r.Some? ==> r.value.0 <= r.value.1 <= len
  {
    var start := if skip > len then len else skip;
    var end := if limit >= 0 && AddI64(start, limit) < len then AddI64(start, limit) else len;
    if end < start then None else Some((start, end))
  }

  /** `limit` elements after the first `skip`; a negative limit is none. */
  function Slice<T>(s: seq<T>, skip: nat, limit: int): seq<T> {
    var rest := if skip > |s| then [] else s[skip..];
    if 0 <= limit < |rest| then rest[..limit] else rest
  }

  /** Element by element; a negative limit takes all that is left. */
  lemma SliceExact<T>(s: seq<T>, skip: nat, limit: int)
    ensures var r := Slice(s, skip, limit);
            var left := if skip > |s| then 0 else |s| - skip;
            && |r| == (if 0 <= limit < left then limit else left)
            && forall i | 0 <= i < |r| :: r[i] == s[skip + i]
  {
  }

  /** The window is the requested slice unless the sum of its start and the limit leaves int64. */
  lemma WindowExact<T>(s: seq<T>, skip: i64, limit: i64)
    requires |s| <= MAX_I64 && 0 <= skip
    ensures var start := if skip > |s| then |s| else skip;
            var r := WindowBounds(|s|, skip, limit);
            && (r.None? <==> limit >= 0 && start + limit > MAX_I64)
            && (r.Some? ==> s[r.value.0..r.value.1] == Slice(s, skip, limit))
  {
  }

  // ----- the spill file -----

  /** `sortSpill`: an append-only file and the position of its end. */
  class SortSpill {
    var file: bytes
    var pos: nat

    ghost predicate Valid()
      reads this
    {
      pos == |file|
    }

    constructor ()
      ensures Valid() && file == []
    {
      file, pos := [], 0;
    }

    method Write(raw: bytes) returns (off: nat, size: nat)
      requires Valid()
      modifies this
      ensures Valid() && file == old(file) + raw
      ensures off == |old(file)| && size == |raw|
    {
      off, size := pos, |raw|;
      file := file + raw;
      pos := pos + |raw|;
    }

    method Read(off: nat, size: nat) returns (r: Option<bytes>)
      requires Valid()
      ensures r == Region(file, off, size)
    {
      return if off + size <= |file| then Some(file[off..off + size]) else None;
    }
  }

  /** The bytes of a region; None is reading past the end. */
  function Region(file: bytes, off: nat, size: nat): Option<bytes> {
    if off + size <= |file| then Some(file[off..off + size]) else None
  }

  /** What was written reads back from the region it was given, whatever was written before and after. */
  lemma WrittenReadsBack(before: bytes, raw: bytes, after: bytes)
    ensures Region(before + raw + after, |before|, |raw|) == Some(raw)
  {
    assert (before + raw + after)[|before|..|before| + |raw|] == raw;
  }

  // ----- collecting -----

  /** A document that matched. */
  datatype Row = Row(key: SortKey, raw: bytes, node: Doc)

  /** `matchedDoc`: in memory, or a region of the spill file. */
  datatype MatchedDoc = MatchedDoc(key: SortKey, raw: bytes, node: Option<Doc>, off: nat, size: nat)

  /** The matched document stands for the row. */
  predicate Holds(file: bytes, d: MatchedDoc, row: Row) {
    && d.key == row.key
    && if d.size == 0 then d.raw == row.raw && d.node == Some(row.node)
       else d.raw == [] && d.node.None? && d.off + d.size <= |file| && file[d.off..d.off + d.size] == row.raw
  }

  ghost predicate AllHold(file: bytes, docs: seq<MatchedDoc>, rows: seq<Row>) {
    |docs| == |rows| && forall i | 0 <= i < |docs| :: Holds(file, docs[i], rows[i])
  }

  predicate Apart(c: MatchedDoc, d: MatchedDoc) {
    c.size > 0 && d.size > 0 ==> c.off + c.size <= d.off || d.off + d.size <= c.off
  }

  /** Spilled regions do not overlap. */
  ghost predicate Disjoint(docs: seq<MatchedDoc>) {
    forall i, j | 0 <= i < j < |docs| :: Apart(docs[i], docs[j])
  }

  lemma HoldsAfterAppend(file: bytes, more: bytes, d: MatchedDoc, row: Row)
    requires Holds(file, d, row)
    ensures Holds(file + more, d, row)
  {
    if d.size > 0 {
      assert (file + more)[d.off..d.off + d.size] == file[d.off..d.off + d.size];
    }
  }

  lemma AllHoldAfterAppend(file: bytes, more: bytes, docs: seq<MatchedDoc>, rows: seq<Row>)
    requires AllHold(file, docs, rows)
    ensures AllHold(file + more, docs, rows)
  {
    forall i | 0 <= i < |docs| ensures Holds(file + more, docs[i], rows[i]) {
      HoldsAfterAppend(file, more, docs[i], rows[i]);
    }
  }

  /** Moving document `i` to a new region at the end keeps everything. */
  lemma SpillOne(file: bytes, docs: seq<MatchedDoc>, rows: seq<Row>, i: nat)
    requires AllHold(file, docs, rows) && Disjoint(docs) && i < |docs| && docs[i].raw != [] && docs[i].size == 0
    ensures var d := docs[i].(raw := [], node := None, off := |file|, size := |docs[i].raw|);
            AllHold(file + docs[i].raw, docs[i := d], rows) && Disjoint(docs[i := d])
  {
    var raw := docs[i].raw;
    var d := docs[i].(raw := [], node := None, off := |file|, size := |raw|);
    assert docs[i].raw == rows[i].raw;
    AllHoldAfterAppend(file, raw, docs, rows);
    assert (file + raw)[|file|..|file| + |raw|] == raw;
    forall j | 0 <= j < |docs| && j != i ensures Apart(docs[j], d) && Apart(d, docs[j]) {
      assert Holds(file, docs[j], rows[j]);
    }
  }

  /** `spillMatchedDocs` */
  method SpillMatchedDocs(spill: SortSpill, docs: seq<MatchedDoc>, ghost rows: seq<Row>) returns (out: seq<MatchedDoc>)
    requires spill.Valid() && AllHold(spill.file, docs, rows) && Disjoint(docs)
    modifies spill
    ensures spill.Valid() && AllHold(spill.file, out, rows) && Disjoint(out)
    ensures old(spill.file) <= spill.file
    ensures forall i | 0 <= i < |out| :: out[i].raw == []
  {
    out := docs;
    for i := 0 to |docs|
      invariant spill.Valid() && AllHold(spill.file, out, rows) && Disjoint(out) && |out| == |docs|
      invariant old(spill.file) <= spill.file
      invariant forall j | 0 <= j < i :: out[j].raw == []
    {
      assert Holds(spill.file, out[i], rows[i]);
      if out[i].raw != [] && out[i].size == 0 {
        SpillOne(spill.file, out, rows, i);
        var off, size := spill.Write(out[i].raw);
        out := out[i := out[i].(raw := [], node := None, off := off, size := size)];
      }
    }
  }

  /** The bytes of text held in memory. */
  function InMemory(docs: seq<MatchedDoc>): nat {
    if docs == [] then 0 else InMemory(docs[..|docs| - 1]) + |docs[|docs| - 1].raw|
  }

  lemma {:induction false} NothingInMemory(docs: seq<MatchedDoc>)
    requires forall i | 0 <= i < |docs| :: docs[i].raw == []
    ensures InMemory(docs) == 0
  {
    if docs != [] {
      NothingInMemory(docs[..|docs| - 1]);
    }
  }

  lemma OneMore(file: bytes, docs: seq<MatchedDoc>, rows: seq<Row>, d: MatchedDoc, row: Row)
    requires AllHold(file, docs, rows) && Disjoint(docs) && Holds(file, d, row) && d.size == 0
    ensures AllHold(file, docs + [d], rows + [row]) && Disjoint(docs + [d])
    ensures InMemory(docs + [d]) == InMemory(docs) + |d.raw|
  {
    hide Holds;
    assert (docs + [d])[..|docs|] == docs;
  }

  /** The matched documents of one query and their buffer. */
  class Collector {
    const bufferSize: int
    var matched: seq<MatchedDoc>
    var buffered: nat
    var spill: SortSpill?
    /** What was added, in order. */
    ghost var rows: seq<Row>

    ghost function File(): bytes
      reads this, spill
    {
      if spill == null then [] else spill.file
    }

    ghost predicate Valid()
      reads this, spill
    {
      && (spill != null ==> spill.Valid())
      && AllHold(File(), matched, rows)
      && Disjoint(matched)
      && buffered == InMemory(matched)
      && (buffered == 0 || buffered <= bufferSize)
    }

    constructor (bufferSize: int)
      ensures Valid() && rows == [] && spill == null && this.bufferSize == bufferSize
    {
      this.bufferSize := bufferSize;
      matched, buffered, spill, rows := [], 0, null, [];
    }

    /** `addMatchedDoc` for a document that matched; no more text than the buffer size stays in memory */
    method Add(row: Row)
      requires Valid()
      modifies this, spill
      ensures Valid() && rows == old(rows) + [row]
      ensures spill == old(spill) || fresh(spill)
    {
      hide AllHold, Disjoint, InMemory;
      var d := MatchedDoc(row.key, row.raw, Some(row.node), 0, 0);
      OneMore(File(), matched, rows, d, row);
      matched := matched + [d];
      rows := rows + [row];
      buffered := buffered + |row.raw|;
      if buffered > bufferSize {
        Overflow();
      }
    }

    /** The buffer is full: everything goes to the spill file, which is created when it is first needed. */
    method Overflow()
      requires (spill != null ==> spill.Valid()) && AllHold(File(), matched, rows) && Disjoint(matched)
      modifies this, spill
      ensures Valid() && rows == old(rows) && buffered == 0
      ensures spill == old(spill) || fresh(spill)
    {
      hide AllHold, Disjoint, InMemory;
      if spill == null {
        spill := new SortSpill();
      }
      matched := SpillMatchedDocs(spill, matched, rows);
      NothingInMemory(matched);
      buffered := 0;
    }

    /** `hydrateMatchedDocs` */
    method Hydrate(decode: bytes -> Option<Doc>, docs: seq<MatchedDoc>, ghost want: seq<Row>)
      returns (r: Option<seq<MatchedDoc>>)
      requires Valid() && AllHold(File(), docs, want)
      requires forall i | 0 <= i < |want| :: decode(want[i].raw) == Some(want[i].node)
      ensures r.Some? && Shows(r.value, want)
    {
      var out := docs;
      for i := 0 to |docs|
        invariant |out| == |docs|
        invariant forall j | i <= j < |docs| :: out[j] == docs[j]
        invariant Shows(out[..i], want[..i])
      {
        assert Holds(File(), docs[i], want[i]);
        var d := out[i];
        if d.raw == [] && d.size > 0 {
          var raw: Option<bytes> := None;
          if spill != null {
            raw := spill.Read(d.off, d.size);
          }
          if raw.None? {
            return None;
          }
          d := d.(raw := raw.value);
        }
        if d.node.None? && d.raw != [] {
          var node := decode(d.raw);
          if node.None? {
            return None;
          }
          d := d.(node := node);
        }
        out := out[i := d];
      }
      assert out[..|docs|] == out && want[..|docs|] == want;
      return Some(out);
    }
  }

  /** Every document carries what its row says. */
  ghost predicate Shows(docs: seq<MatchedDoc>, rows: seq<Row>) {
    |docs| == |rows| && forall i | 0 <= i < |docs| ::
      docs[i].key == rows[i].key && docs[i].raw == rows[i].raw && docs[i].node == Some(rows[i].node)
  }

  // ----- the whole run -----

  function KeysOf(rows: seq<Row>): (r: seq<SortKey>)
    ensures |r| == |rows| && forall i | 0 <= i < |rows| :: r[i] == rows[i].key
  {
    seq(|rows|, i requires 0 <= i < |rows| => rows[i].key)
  }

  /** Every position below `n` occurs, none twice. */
  ghost predicate Permutes(p: seq<nat>, n: nat) {
    |p| == n && (forall i | 0 <= i < n :: p[i] < n) && forall i | 0 <= i < n :: i in p
  }

  function Picked<T>(s: seq<T>, p: seq<nat>): (r: seq<T>)
    requires forall i | 0 <= i < |p| :: p[i] < |s|
    ensures |r| == |p| && forall i | 0 <= i < |p| :: r[i] == s[p[i]]
  {
    seq(|p|, i requires 0 <= i < |p| => s[p[i]])
  }

  lemma UnspilledShow(docs: seq<MatchedDoc>, rows: seq<Row>)
    requires AllHold([], docs, rows)
    ensures Shows(docs, rows)
  {
    forall i | 0 <= i < |docs| ensures docs[i].size == 0 {
      assert Holds([], docs[i], rows[i]);
    }
  }

  /**
   The sorter path of runQueryLocked: collect, spill, sort, cut the window, read it back.  `arrange` is the
   sorting, which compares sort keys only.  Whatever the buffer size and whatever order results, the window shows the
   requested slice of the rows in that order; None is the panic on overflow.
   */
  method RunSorter(arrange: seq<SortKey> -> seq<nat>, decode: bytes -> Option<Doc>, bufferSize: int, rows: seq<Row>,
                   skip: i64, limit: i64)
    returns (r: Option<seq<MatchedDoc>>)
    requires Permutes(arrange(KeysOf(rows)), |rows|) && |rows| <= MAX_I64 && 0 <= skip
    requires forall i | 0 <= i < |rows| :: decode(rows[i].raw) == Some(rows[i].node)
    ensures r.None? <==> limit >= 0 && (if skip > |rows| then |rows| else skip) + limit > MAX_I64
    ensures r.Some? ==> Shows(r.value, Slice(Picked(rows, arrange(KeysOf(rows))), skip, limit))
  {
    hide Slice, WindowBounds, Holds, AllHold, KeysOf, Picked;
    var c := new Collector(bufferSize);
    for i := 0 to |rows|
      invariant c.Valid() && c.rows == rows[..i] && fresh(c) && (c.spill != null ==> fresh(c.spill))
    {
      c.Add(rows[i]);
    }
    assert rows[..|rows|] == rows;
    r := Finish(c, arrange, decode, rows, skip, limit);
  }

  method Finish(c: Collector, arrange: seq<SortKey> -> seq<nat>, decode: bytes -> Option<Doc>, ghost rows: seq<Row>,
                skip: i64, limit: i64)
    returns (r: Option<seq<MatchedDoc>>)
    requires c.Valid() && c.rows == rows
    requires Permutes(arrange(KeysOf(rows)), |rows|) && |rows| <= MAX_I64 && 0 <= skip
    requires forall i | 0 <= i < |rows| :: decode(rows[i].raw) == Some(rows[i].node)
    ensures r.None? <==> limit >= 0 && (if skip > |rows| then |rows| else skip) + limit > MAX_I64
    ensures r.Some? ==> Shows(r.value, Slice(Picked(rows, arrange(KeysOf(rows))), skip, limit))
  {
    hide Slice, Picked;
    var matched := c.matched;
    var keys := seq(|matched|, i requires 0 <= i < |matched| => matched[i].key);
    forall i | 0 <= i < |rows| ensures keys[i] == rows[i].key {
      assert Holds(c.File(), matched[i], rows[i]);
    }
    assert keys == KeysOf(rows);
    hide Holds;
    var p := arrange(keys);
    var sorted := Picked(matched, p);
    ghost var s := Picked(rows, p);
    WindowExact(s, skip, limit);
    var bounds := WindowBounds(|sorted|, skip, limit);
    if bounds.None? {
      return None;
    }
    var (start, end) := bounds.value;
    var window := sorted[start..end];
    ghost var want := s[start..end];
    assert AllHold(c.File(), window, want) by {
      assert forall i | 0 <= i < |s| :: Holds(c.File(), sorted[i], s[i]);
    }
    if c.spill == null {
      UnspilledShow(window, want);
      return Some(window);
    }
    r := c.Hydrate(decode, window, want);
  }

  // ----- sorted arrangements -----

  /** The sorter's order on rows. */
  function RowOrder(lib: Lib, desc: seq<bool>): (Row, Row) -> bool {
    (a: Row, b: Row) => Before(lib, desc, a.key, b.key)
  }

  /** A sorted arrangement of the rows. */
  ghost predicate Arranged(lib: Lib, desc: seq<bool>, rows: seq<Row>, s: seq<Row>) {
    Sorted(RowOrder(lib, desc), s) && SameElements(s, rows)
  }

  /** A permutation that sorts gives a sorted arrangement. */
  lemma SortedPermutation(lib: Lib, desc: seq<bool>, rows: seq<Row>, p: seq<nat>)
    requires Permutes(p, |rows|) && Sorted(RowOrder(lib, desc), Picked(rows, p))
    ensures Arranged(lib, desc, rows, Picked(rows, p))
  {
    hide RowOrder;
    var s := Picked(rows, p);
    forall i | 0 <= i < |rows| ensures rows[i] in s {
      assert i in p;
      var j :| 0 <= j < |p| && p[j] == i;
      assert s[j] == rows[i];
    }
  }

  lemma RowsOrdered(lib: Lib, cols: seq<Column>, desc: seq<bool>, rows: seq<Row>)
    requires |desc| == |cols| && TypedRows(cols, KeysOf(rows))
    ensures Strict(RowOrder(lib, desc), rows)
  {
    hide Before, InColumns;
    var ks := KeysOf(rows);
    ComparatorIsOrder(lib, cols, desc, ks);
    var less := (a, b) => Before(lib, desc, a, b);
    forall i, j, k | 0 <= i < |rows| && 0 <= j < |rows| && 0 <= k < |rows|
      && Before(lib, desc, rows[i].key, rows[j].key) && Before(lib, desc, rows[j].key, rows[k].key)
      ensures Before(lib, desc, rows[i].key, rows[k].key)
    {
      assert less(ks[i], ks[j]) && less(ks[j], ks[k]);
    }
    forall i | 0 <= i < |rows| ensures !Before(lib, desc, rows[i].key, rows[i].key) {
      assert !less(ks[i], ks[i]);
    }
  }

  /** Rows of typed columns have one sorted arrangement, so there is one window. */
  lemma ArrangementUnique(lib: Lib, cols: seq<Column>, desc: seq<bool>, rows: seq<Row>, s: seq<Row>, t: seq<Row>)
    requires |desc| == |cols| && TypedRows(cols, KeysOf(rows))
    requires Arranged(lib, desc, rows, s) && Arranged(lib, desc, rows, t)
    ensures s == t
  {
    hide Before, InColumns;
    RowsOrdered(lib, cols, desc, rows);
    Among(RowOrder(lib, desc), rows, s);
    SortedUnique(RowOrder(lib, desc), s, t);
  }
}
