/**
 Comparison of query values (jqvalue.go) and the multi-key order of the sorter (db.go).  Numbers and
 strings are compared across types by rules that are no order; on columns of integers or strings, with
 missing values, the comparator is a strict total order.
 */
module JqValue {
  import opened Wrappers
  import opened Bytes
  import opened Numerals
  import opened Document
  import opened Floats
  import opened IndexRange
  import opened Ordering

  /** Library behaviour: `trim` is strings.TrimSpace, `rest` covers two arrays, two
   objects, float text and what only the decoder produces. */
  datatype Lib = Lib(trim: bytes -> bytes, rest: (Doc, Doc) -> Option<int>)

  /** `atoiOfficial`: the number a text is read as, zero if it is none. */
  function Atoi(lib: Lib, s: bytes): i64 {
    match ParseInt(lib.trim(s))
    case Some(i) => i
    case None => 0
  }

  const TRUE_TEXT: bytes := [0x74, 0x72, 0x75, 0x65]
  const FALSE_TEXT: bytes := [0x66, 0x61, 0x6c, 0x73, 0x65]

  function BoolInt(b: bool): int {
    if b then 1 else 0
  }

  /** `strings.Compare` */
  function CompareText(a: bytes, b: bytes): int {
    Sign(Less(a, b), Less(b, a))
  }

  function CompareInt(a: int, b: int): int {
    Sign(a < b, a > b)
  }

  /** `cmpFloat`: NaN compares equal to everything. */
  function CompareFloat(x: u64, y: u64): int {
    var ordered := !IsNaN(x) && !IsNaN(y);
    Sign(ordered && FloatValue(x) < FloatValue(y), ordered && FloatValue(x) > FloatValue(y))
  }

  /** `compareJQValues`; None is a pair of kinds that do not compare. */
  function Compare(lib: Lib, a: Doc, b: Doc): Option<int> {
    if a.Foreign? || b.Foreign? then lib.rest(a, b) else
    match a
    case Str(s) =>
      (match b
       case Str(t) => Some(if |s| != |t| then |s| - |t| else CompareText(s, t))
       case Bool(y) => Some(BoolInt(s == TRUE_TEXT) - BoolInt(y))
       case Int(i) => Some(CompareText(s, FormatInt(i)))
       case Null => Some(if s == [] then 0 else 1)
       case Float(_) => lib.rest(a, b)
       case _ => None)
    case Int(i) =>
      (match b
       case Int(j) => Some(CompareInt(i, j))
       case Str(t) => Some(CompareInt(i, Atoi(lib, t)))
       case Null => Some(1)
       case Bool(y) => Some(BoolInt(i != 0) - BoolInt(y))
       case Float(y) => Some(CompareFloat(FromInt(i), y))
       case _ => None)
    case Float(x) =>
      (match b
       case Float(y) => Some(CompareFloat(x, y))
       case Int(j) => Some(CompareFloat(x, FromInt(j)))
       case Null => Some(1)
       case Str(_) => lib.rest(a, b)
       case Bool(_) => lib.rest(a, b)
       case _ => None)
    case Bool(x) =>
      (match b
       case Bool(y) => Some(BoolInt(x) - BoolInt(y))
       case Int(j) => Some(BoolInt(x) - BoolInt(j != 0))
       case Str(t) => Some(if t == TRUE_TEXT then BoolInt(x) - 1 else if t == FALSE_TEXT then BoolInt(x) else -1)
       case Null => Some(BoolInt(x))
       case Float(_) => lib.rest(a, b)
       case _ => None)
    case Null =>
      (match b
       case Null => Some(0)
       case Str(t) => Some(if t == [] then 0 else -1)
       case _ => Some(-1))
    case Arr(_) => if b.Arr? then lib.rest(a, b) else None
    case Obj(_) => if b.Obj? then lib.rest(a, b) else None
  }

  function Kind(v: Doc): nat {
    match v
    case Null => 0
    case Bool(_) => 1
    case Int(_) => 2
    case Float(_) => 3
    case Str(_) => 4
    case Foreign(_, _) => 4
    case Arr(_) => 5
    case Obj(_) => 6
  }

  /** `genericCmp`: kinds decide what does not compare. */
  function GenericCmp(lib: Lib, a: Doc, b: Doc): int {
    match Compare(lib, a, b)
    case Some(c) => c
    case None => CompareInt(Kind(a), Kind(b))
  }

  // ----- columns -----

  datatype Column = IntColumn | StrColumn

  /** A value of the column's type, or nothing. */
  predicate InColumn(c: Column, v: Doc) {
    v.Null? || (c.IntColumn? && v.Int?) || (c.StrColumn? && v.Str?)
  }

  /** What the comparisons of three values have to do with each other in a total preorder. */
  predicate Preorder(aa: int, ab: int, ba: int, bc: int, ac: int) {
    && aa == 0
    && (ab < 0 <==> ba > 0)
    && (ab <= 0 && bc <= 0 ==> ac <= 0 && (ac == 0 ==> ab == 0 && bc == 0))
  }

  lemma TextOrder(a: bytes, b: bytes, c: bytes)
    ensures CompareText(a, a) == 0
    ensures CompareText(a, b) < 0 <==> CompareText(b, a) > 0
    ensures CompareText(a, b) == 0 <==> a == b
    ensures CompareText(a, b) <= 0 && CompareText(b, c) <= 0 ==>
              CompareText(a, c) <= 0 && (CompareText(a, c) == 0 ==> a == b == c)
  {
    hide Less;
    LessIrreflexive(a);
    LessIrreflexive(b);
    LessTotal(a, b);
    LessTotal(b, c);
    if Less(a, b) && Less(b, a) {
      LessTransitive(a, b, a);
    }
    if Less(a, b) && Less(b, c) {
      LessTransitive(a, b, c);
      if Less(c, a) {
        LessTransitive(b, c, a);
        LessTransitive(a, b, a);
      }
    }
  }

  /** Within a column the comparison is a total preorder; null ties with the empty string. */
  lemma ColumnOrder(lib: Lib, col: Column, a: Doc, b: Doc, c: Doc)
    requires InColumn(col, a) && InColumn(col, b) && InColumn(col, c)
    ensures Preorder(GenericCmp(lib, a, a), GenericCmp(lib, a, b), GenericCmp(lib, b, a),
                     GenericCmp(lib, b, c), GenericCmp(lib, a, c))
  {
    if col.StrColumn? {
      StrOrder(lib, a, b, c);
    }
  }

  function TextOf(v: Doc): bytes {
    if v.Str? then v.s else []
  }

  function CompareLengthFirst(a: bytes, b: bytes): int {
    if |a| != |b| then |a| - |b| else CompareText(a, b)
  }

  lemma StrCmp(lib: Lib, a: Doc, b: Doc)
    requires InColumn(StrColumn, a) && InColumn(StrColumn, b)
    ensures GenericCmp(lib, a, b) < 0 <==> CompareLengthFirst(TextOf(a), TextOf(b)) < 0
    ensures GenericCmp(lib, a, b) > 0 <==> CompareLengthFirst(TextOf(a), TextOf(b)) > 0
  {
    TextOrder([], [], []);
  }

  lemma StrOrder(lib: Lib, a: Doc, b: Doc, c: Doc)
    requires InColumn(StrColumn, a) && InColumn(StrColumn, b) && InColumn(StrColumn, c)
    ensures Preorder(GenericCmp(lib, a, a), GenericCmp(lib, a, b), GenericCmp(lib, b, a),
                     GenericCmp(lib, b, c), GenericCmp(lib, a, c))
  {
    hide Less, CompareText, GenericCmp;
    StrCmp(lib, a, a);
    StrCmp(lib, a, b);
    StrCmp(lib, b, a);
    StrCmp(lib, b, c);
    StrCmp(lib, a, c);
    TextOrder(TextOf(a), TextOf(b), TextOf(c));
    TextOrder(TextOf(b), TextOf(c), TextOf(a));
  }

  /** The order of a column: integers by value, texts by length and then by bytes, a missing value below both. */
  predicate ColumnLess(col: Column, v: Doc, w: Doc) {
    match col
    case IntColumn => w.Int? && (v.Int? ==> v.i < w.i)
    case StrColumn => |TextOf(v)| < |TextOf(w)| || (|TextOf(v)| == |TextOf(w)| && Less(TextOf(v), TextOf(w)))
  }

  /** Within a column the comparison is that order; a missing value and the empty string tie. */
  lemma ColumnCompares(lib: Lib, col: Column, v: Doc, w: Doc)
    requires InColumn(col, v) && InColumn(col, w)
    ensures GenericCmp(lib, v, w) < 0 <==> ColumnLess(col, v, w)
    ensures GenericCmp(lib, v, w) > 0 <==> ColumnLess(col, w, v)
  {
    if col.StrColumn? {
      hide Less;
      StrCmp(lib, v, w);
      LessTotal(TextOf(v), TextOf(w));
      TextOrder(TextOf(v), TextOf(w), TextOf(v));
    }
  }

  // ----- values of different types -----

  /** The two directions of a comparison contradict each other unless their signs are opposite. */
  predicate Opposite(x: int, y: int) {
    (x < 0 <==> y > 0) && (x > 0 <==> y < 0)
  }

  /** The text lies on the side of the numeral on which its number lies; an equal number needs an equal text. */
  predicate AgreesAsText(lib: Lib, i: i64, s: bytes) {
    var n := Atoi(lib, s);
    if i == n then s == FormatInt(i) else if i < n then Less(FormatInt(i), s) else Less(s, FormatInt(i))
  }

  /** A number and a string compare consistently if and only if the text agrees with the number it is read as. */
  lemma MixedCompareExactly(lib: Lib, i: i64, s: bytes)
    ensures Opposite(GenericCmp(lib, Int(i), Str(s)), GenericCmp(lib, Str(s), Int(i))) <==> AgreesAsText(lib, i, s)
  {
    hide Less, FormatInt;
    TextOrder(s, FormatInt(i), s);
  }

  /** The numeral of i comes before that of j. */
  predicate NumeralsInOrder(i: int, j: int) {
    if i < 0 then j >= 0 || NumeralBelow(-i, -j) else j >= 0 && NumeralBelow(i, j)
  }

  lemma IntegerNumerals(i: int, j: int)
    ensures Less(FormatInt(i), FormatInt(j)) <==> NumeralsInOrder(i, j)
  {
    hide NumeralBelow;
    if i < 0 && j < 0 {
      NumeralOrder(-i, -j);
      LessCommonPrefix([MINUS], FormatNat(-i), FormatNat(-j));
    } else if i >= 0 && j >= 0 {
      NumeralOrder(i, j);
    }
  }

  /**
   A number and the numeral of another one compare consistently if and only if the numbers are equal or their
   numerals are in numeric order: for non-negative i < j, if and only if i, padded with zeros to as many digits as
   j has, does not exceed j.
   */
  lemma MixedNumeralsExactly(lib: Lib, i: i64, j: i64)
    requires lib.trim(FormatInt(j)) == FormatInt(j)
    ensures Opposite(GenericCmp(lib, Int(i), Str(FormatInt(j))), GenericCmp(lib, Str(FormatInt(j)), Int(i)))
       <==> i == j || (if i < j then NumeralsInOrder(i, j) else NumeralsInOrder(j, i))
  {
    hide FormatInt, GenericCmp, Less, NumeralsInOrder;
    ParseIntBack(j);
    MixedCompareExactly(lib, i, FormatInt(j));
    IntegerNumerals(i, j);
    IntegerNumerals(j, i);
  }

  predicate IsContainerValue(v: Doc) {
    v.Arr? || v.Obj?
  }

  /** An array comes after every scalar, and an object after every array, whichever is compared with which. */
  lemma KindsDecide(lib: Lib, a: Doc, b: Doc)
    requires !a.Foreign? && !b.Foreign?
    requires (!IsContainerValue(a) && IsContainerValue(b)) || (a.Arr? && b.Obj?)
    ensures GenericCmp(lib, a, b) < 0 && GenericCmp(lib, b, a) > 0
  {
  }

  /** What is wrong between two scalars: the directions of their comparison do not have opposite signs. */
  predicate Clashes(lib: Lib, a: Doc, b: Doc) {
    || (a.Null? && b == Bool(false))
    || (a.Bool? && b.Str? && b.s != TRUE_TEXT && b.s != FALSE_TEXT)
    || (a.Int? && b.Str? && !AgreesAsText(lib, a.i, b.s))
  }

  predicate PlainScalar(v: Doc) {
    v.Null? || v.Bool? || v.Int? || v.Str?
  }

  /**
   Two scalars other than floats compare consistently if and only if they are not null and false, not a boolean and
   a text that is neither "true" nor "false", and not a number and a text that disagrees with it.
   */
  lemma ScalarsCompareExactly(lib: Lib, a: Doc, b: Doc)
    requires PlainScalar(a) && PlainScalar(b)
    ensures Opposite(GenericCmp(lib, a, b), GenericCmp(lib, b, a)) <==> !Clashes(lib, a, b) && !Clashes(lib, b, a)
  {
    hide Less, FormatInt, Atoi, AgreesAsText;
    if a.Int? && b.Str? {
      MixedCompareExactly(lib, a.i, b.s);
    } else if a.Str? && b.Int? {
      MixedCompareExactly(lib, b.i, a.s);
    } else if a.Str? && b.Str? {
      TextOrder(a.s, b.s, a.s);
      TextOrder(b.s, a.s, b.s);
    }
  }

  /** false is below true and a boolean compares with a number as with whether it is zero. */
  lemma BooleansCompare(lib: Lib, x: bool, y: bool, i: i64)
    ensures GenericCmp(lib, Bool(x), Bool(y)) < 0 <==> !x && y
    ensures GenericCmp(lib, Int(i), Bool(y)) < 0 <==> i == 0 && y
    ensures GenericCmp(lib, Int(i), Bool(y)) == 0 <==> ((i == 0) == !y)
  {
  }

  /** 9 is below "10" and "10" is below 9, but 1 is above "" both ways. */
  lemma MixedColumnIsNoOrder(lib: Lib)
    requires lib.trim([0x31, 0x30]) == [0x31, 0x30] && lib.trim([]) == []
    ensures GenericCmp(lib, Int(9), Str([0x31, 0x30])) < 0 && GenericCmp(lib, Str([0x31, 0x30]), Int(9)) < 0
    ensures GenericCmp(lib, Int(1), Str([])) > 0 && GenericCmp(lib, Str([]), Int(1)) < 0
  {
    assert FormatInt(9) == [0x39];
    assert Less([0x31, 0x30], [0x39]);
    assert FormatNat(10) == FormatNat(1) + [0x30] == [0x31, 0x30];
    ParseIntBack(10);
    assert FormatInt(1) == [0x31];
  }

  // ----- rows -----

  /** What the sorter looks at: the values at the order-by paths, and the id. */
  datatype SortKey = SortKey(id: i64, values: seq<Doc>)

  function ValueAt(k: SortKey, i: nat): Doc {
    if i < |k.values| then k.values[i] else Null
  }

  /** The comparison closure of runQueryLocked from column `i` on. */
  predicate BeforeFrom(lib: Lib, desc: seq<bool>, a: SortKey, b: SortKey, i: nat)
    requires i <= |desc|
    decreases |desc| - i
  {
    if i == |desc| then (if |desc| > 0 && desc[0] then a.id > b.id else a.id < b.id)
    else
      var c := GenericCmp(lib, ValueAt(a, i), ValueAt(b, i));
      if c == 0 then BeforeFrom(lib, desc, a, b, i + 1) else if desc[i] then c > 0 else c < 0
  }

  predicate Before(lib: Lib, desc: seq<bool>, a: SortKey, b: SortKey) {
    BeforeFrom(lib, desc, a, b, 0)
  }

  /** The two rows tie on the first `i` columns. */
  predicate TieUpTo(lib: Lib, a: SortKey, b: SortKey, i: nat) {
    forall j | 0 <= j < i :: GenericCmp(lib, ValueAt(a, j), ValueAt(b, j)) == 0
  }

  /**
   The first column on which two rows differ decides, upwards or downwards as that column is sorted; rows that differ
   on none go by id, downwards if the first column is.
   */
  lemma FirstDifferenceDecides(lib: Lib, desc: seq<bool>, a: SortKey, b: SortKey, i: nat)
    requires i <= |desc| && TieUpTo(lib, a, b, i)
    ensures i < |desc| && GenericCmp(lib, ValueAt(a, i), ValueAt(b, i)) != 0 ==>
              (Before(lib, desc, a, b) <==>
                 if desc[i] then GenericCmp(lib, ValueAt(a, i), ValueAt(b, i)) > 0
                 else GenericCmp(lib, ValueAt(a, i), ValueAt(b, i)) < 0)
    ensures i == |desc| ==> (Before(lib, desc, a, b) <==> if desc != [] && desc[0] then a.id > b.id else a.id < b.id)
  {
    hide GenericCmp;
    TiesAreSkipped(lib, desc, a, b, i);
  }

  lemma {:induction false} TiesAreSkipped(lib: Lib, desc: seq<bool>, a: SortKey, b: SortKey, i: nat)
    requires i <= |desc| && TieUpTo(lib, a, b, i)
    ensures BeforeFrom(lib, desc, a, b, 0) == BeforeFrom(lib, desc, a, b, i)
  {
    hide GenericCmp;
    if i > 0 {
      TiesAreSkipped(lib, desc, a, b, i - 1);
    }
  }

  /** Every order-by path has a type. */
  predicate InColumns(cols: seq<Column>, k: SortKey) {
    |k.values| == |cols| && forall i | 0 <= i < |cols| :: InColumn(cols[i], k.values[i])
  }

  lemma {:induction false} BeforeTransitive(
    lib: Lib, cols: seq<Column>, desc: seq<bool>, a: SortKey, b: SortKey, c: SortKey, i: nat)
    requires i <= |desc| == |cols| && InColumns(cols, a) && InColumns(cols, b) && InColumns(cols, c)
    requires BeforeFrom(lib, desc, a, b, i) && BeforeFrom(lib, desc, b, c, i)
    ensures BeforeFrom(lib, desc, a, c, i)
    decreases |desc| - i
  {
    hide GenericCmp;
    if i < |desc| {
      ColumnOrder(lib, cols[i], a.values[i], b.values[i], c.values[i]);
      ColumnOrder(lib, cols[i], c.values[i], b.values[i], a.values[i]);
      ColumnOrder(lib, cols[i], b.values[i], c.values[i], a.values[i]);
      ColumnOrder(lib, cols[i], b.values[i], a.values[i], c.values[i]);
      ColumnOrder(lib, cols[i], a.values[i], c.values[i], b.values[i]);
      var ab := GenericCmp(lib, ValueAt(a, i), ValueAt(b, i));
      var bc := GenericCmp(lib, ValueAt(b, i), ValueAt(c, i));
      if ab == 0 && bc == 0 {
        BeforeTransitive(lib, cols, desc, a, b, c, i + 1);
      }
    }
  }

  lemma {:induction false} BeforeOneWay(
    lib: Lib, cols: seq<Column>, desc: seq<bool>, a: SortKey, b: SortKey, i: nat)
    requires i <= |desc| == |cols| && InColumns(cols, a) && InColumns(cols, b)
    ensures a.id != b.id ==> (BeforeFrom(lib, desc, a, b, i) <==> !BeforeFrom(lib, desc, b, a, i))
    ensures a == b ==> !BeforeFrom(lib, desc, a, b, i)
    decreases |desc| - i
  {
    hide GenericCmp;
    if i < |desc| {
      ColumnOrder(lib, cols[i], a.values[i], b.values[i], a.values[i]);
      ColumnOrder(lib, cols[i], b.values[i], a.values[i], b.values[i]);
      BeforeOneWay(lib, cols, desc, a, b, i + 1);
    }
  }

  /** On typed columns: the first column on which the values are ordered at all decides. */
  lemma TypedRowsCompare(lib: Lib, cols: seq<Column>, desc: seq<bool>, a: SortKey, b: SortKey, i: nat)
    requires i <= |desc| == |cols| && InColumns(cols, a) && InColumns(cols, b)
    requires forall j | 0 <= j < i :: !ColumnLess(cols[j], a.values[j], b.values[j]) && !ColumnLess(cols[j], b.values[j], a.values[j])
    ensures i < |desc| && (ColumnLess(cols[i], a.values[i], b.values[i]) || ColumnLess(cols[i], b.values[i], a.values[i])) ==>
              (Before(lib, desc, a, b) <==>
                 if desc[i] then ColumnLess(cols[i], b.values[i], a.values[i]) else ColumnLess(cols[i], a.values[i], b.values[i]))
    ensures i == |desc| ==> (Before(lib, desc, a, b) <==> if desc != [] && desc[0] then a.id > b.id else a.id < b.id)
  {
    hide GenericCmp, ColumnLess, BeforeFrom;
    forall j | 0 <= j < |cols|
      ensures GenericCmp(lib, a.values[j], b.values[j]) < 0 <==> ColumnLess(cols[j], a.values[j], b.values[j])
      ensures GenericCmp(lib, a.values[j], b.values[j]) > 0 <==> ColumnLess(cols[j], b.values[j], a.values[j])
    {
      ColumnCompares(lib, cols[j], a.values[j], b.values[j]);
    }
    FirstDifferenceDecides(lib, desc, a, b, i);
  }

  /** Rows of typed columns with distinct ids. */
  ghost predicate TypedRows(cols: seq<Column>, ks: seq<SortKey>) {
    && (forall i | 0 <= i < |ks| :: InColumns(cols, ks[i]))
    && (forall i, j | 0 <= i < j < |ks| :: ks[i].id != ks[j].id)
  }

  /** The comparator is a strict total order on such rows, so they have one sorted arrangement. */
  lemma ComparatorIsOrder(lib: Lib, cols: seq<Column>, desc: seq<bool>, ks: seq<SortKey>)
    requires |desc| == |cols| && TypedRows(cols, ks)
    ensures var less := (a, b) => Before(lib, desc, a, b);
            Strict(less, ks) && Total(less, ks)
  {
    hide BeforeFrom;
    var less := (a, b) => Before(lib, desc, a, b);
    forall i | 0 <= i < |ks| ensures !less(ks[i], ks[i]) {
      BeforeOneWay(lib, cols, desc, ks[i], ks[i], 0);
    }
    forall i, j, k | 0 <= i < |ks| && 0 <= j < |ks| && 0 <= k < |ks| && less(ks[i], ks[j]) && less(ks[j], ks[k])
      ensures less(ks[i], ks[k])
    {
      BeforeTransitive(lib, cols, desc, ks[i], ks[j], ks[k], 0);
    }
    forall i, j | 0 <= i < |ks| && 0 <= j < |ks| ensures less(ks[i], ks[j]) || ks[i] == ks[j] || less(ks[j], ks[i]) {
      if i != j {
        BeforeOneWay(lib, cols, desc, ks[i], ks[j], 0);
      }
    }
  }
}
