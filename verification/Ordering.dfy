/** Strictly sorted sequences: what `sort.Slice` leaves when the order is strict and total. */
module Ordering {

  predicate Sorted<T>(less: (T, T) -> bool, s: seq<T>) {
    forall i, j | 0 <= i < j < |s| :: less(s[i], s[j])
  }

  /** No element is below itself, and being below carries over, among the elements of `s`. */
  ghost predicate Strict<T>(less: (T, T) -> bool, s: seq<T>) {
    && (forall i | 0 <= i < |s| :: !less(s[i], s[i]))
    && (forall i, j, k | 0 <= i < |s| && 0 <= j < |s| && 0 <= k < |s| ::
          less(s[i], s[j]) && less(s[j], s[k]) ==> less(s[i], s[k]))
  }

  ghost predicate Total<T>(less: (T, T) -> bool, s: seq<T>) {
    forall i, j | 0 <= i < |s| && 0 <= j < |s| :: less(s[i], s[j]) || s[i] == s[j] || less(s[j], s[i])
  }

  /** The two sequences have the same elements. */
  ghost predicate SameElements<T>(s: seq<T>, t: seq<T>) {
    |s| == |t| && (forall x | x in s :: x in t) && (forall x | x in t :: x in s)
  }

  /** A set of elements has only one sorted order. */
  lemma {:induction false} SortedUnique<T>(less: (T, T) -> bool, s: seq<T>, t: seq<T>)
    requires Sorted(less, s) && Sorted(less, t) && SameElements(s, t) && Strict(less, s)
    ensures s == t
  {
    if s != [] {
      StrictTransfers(less, s, t);
      SameHead(less, s, t);
      TailElements(less, s);
      TailElements(less, t);
      assert SameElements(s[1..], t[1..]);
      SortedUnique(less, s[1..], t[1..]);
      assert s == [s[0]] + s[1..] && t == [t[0]] + t[1..];
    }
  }

  lemma StrictTransfers<T>(less: (T, T) -> bool, s: seq<T>, t: seq<T>)
    requires SameElements(s, t) && Strict(less, s)
    ensures Strict(less, t)
  {
    Among(less, s, t);
  }

  lemma SameHead<T>(less: (T, T) -> bool, s: seq<T>, t: seq<T>)
    requires Sorted(less, s) && Sorted(less, t) && SameElements(s, t) && Strict(less, s) && s != []
    ensures s[0] == t[0]
  {
    HeadIsLeast(less, s, t[0]);
    HeadIsLeast(less, t, s[0]);
  }

  lemma HeadIsLeast<T>(less: (T, T) -> bool, s: seq<T>, x: T)
    requires Sorted(less, s) && x in s
    ensures s[0] == x || less(s[0], x)
  {
  }

  lemma TailElements<T>(less: (T, T) -> bool, s: seq<T>)
    requires Sorted(less, s) && Strict(less, s) && s != []
    ensures forall x | x in s[1..] :: x in s && x != s[0]
    ensures forall x | x in s && x != s[0] :: x in s[1..]
    ensures Sorted(less, s[1..]) && Strict(less, s[1..])
  {
    assert s == [s[0]] + s[1..];
    forall x | x in s[1..] ensures x != s[0] {
      var i :| 0 <= i < |s[1..]| && s[1..][i] == x;
      assert s[i + 1] == x && less(s[0], s[i + 1]);
    }
  }

  /** Where an element is inserted among sorted ones. */
  method Insert<T>(less: (T, T) -> bool, s: seq<T>, x: T) returns (r: seq<T>)
    requires Sorted(less, s) && Strict(less, s + [x]) && Total(less, s + [x]) && x !in s
    ensures Sorted(less, r) && SameElements(r, s + [x])
  {
    var i := 0;
    while i < |s| && less(s[i], x)
      invariant i <= |s|
      invariant forall j | 0 <= j < i :: less(s[j], x)
    {
      i := i + 1;
    }
    r := s[..i] + [x] + s[i..];
    InsertedSorted(less, s, i, x);
    assert s == s[..i] + s[i..];
  }

  lemma InsertedSorted<T>(less: (T, T) -> bool, s: seq<T>, i: nat, x: T)
    requires Sorted(less, s) && Strict(less, s + [x]) && Total(less, s + [x]) && x !in s && i <= |s|
    requires (forall j | 0 <= j < i :: less(s[j], x)) && (i < |s| ==> !less(s[i], x))
    ensures Sorted(less, s[..i] + [x] + s[i..])
  {
    var all := s + [x];
    assert all[|s|] == x;
    forall j | i <= j < |s| ensures less(x, s[j]) {
      assert all[i] == s[i] && all[j] == s[j];
      assert less(x, all[i]);
    }
    var r := s[..i] + [x] + s[i..];
    forall a, b | 0 <= a < b < |r| ensures less(r[a], r[b]) {
      assert r[a] == if a < i then s[a] else if a == i then x else s[a - 1];
      assert r[b] == if b < i then s[b] else if b == i then x else s[b - 1];
    }
  }

  lemma Among<T>(less: (T, T) -> bool, s: seq<T>, t: seq<T>)
    requires forall i | 0 <= i < |t| :: t[i] in s
    ensures Strict(less, s) ==> Strict(less, t)
    ensures Total(less, s) ==> Total(less, t)
  {
  }
}
