/**
 Sortable index values and the translation of a range plan into a key interval (db.go).

 An int64 or float index stores its values as sixteen hex digits, so that the engine's byte order is
 the numeric order.  The main result is RangeExact: the interval computed by `indexRangeKeyBounds`
 visits an entry of the index exactly when the decoded value of the entry passes `matchRange`.
 */
module IndexRange {
  import opened Wrappers
  import opened Bytes
  import opened Numerals
  import opened Floats
  import opened Keys

  // ----- int64 values -----

  function EncodeI64Key(v: i64): bytes {
    FixedHex64(FlipTopBit(ToUnsigned(v)))
  }

  function DecodeI64Key(s: bytes): Option<i64> {
    match ParseHex(s)
    case Some(u) => if |s| == 16 then Some(ToSigned(FlipTopBit(u))) else ParseInt(s)
    case None => ParseInt(s)
  }

  lemma I64KeyRoundTrip(v: i64)
    ensures |EncodeI64Key(v)| == 16
    ensures DecodeI64Key(EncodeI64Key(v)) == Some(v)
  {
    FixedHex64IsFixedWidth(FlipTopBit(ToUnsigned(v)));
    ParseFixedHex64(FlipTopBit(ToUnsigned(v)));
  }

  lemma I64KeyOrder(a: i64, b: i64)
    ensures Less(EncodeI64Key(a), EncodeI64Key(b)) <==> a < b
    ensures EncodeI64Key(a) == EncodeI64Key(b) <==> a == b
  {
    FixedHex64Order(FlipTopBit(ToUnsigned(a)), FlipTopBit(ToUnsigned(b)));
  }

  // ----- float64 values, as bit patterns -----

  function EncodeF64Key(u: u64): bytes {
    FixedHex64(F64Code(u))
  }

  /** `^u` for a set sign bit, otherwise the sign bit is set. */
  function F64Code(u: u64): u64 {
    if u >= TWO_63 then TWO_64 - 1 - u else FlipTopBit(u)
  }

  function F64Decode(c: u64): u64 {
    if c >= TWO_63 then FlipTopBit(c) else TWO_64 - 1 - c
  }

  /** Only the keys an index holds are decoded; ParseFloat on other text is not part of the model. */
  function DecodeF64Key(s: bytes): Option<u64> {
    match ParseHex(s)
    case Some(c) => if |s| == 16 then Some(F64Decode(c)) else None
    case None => None
  }

  lemma F64KeyRoundTrip(u: u64)
    ensures |EncodeF64Key(u)| == 16
    ensures DecodeF64Key(EncodeF64Key(u)) == Some(u)
  {
    FixedHex64IsFixedWidth(F64Code(u));
    ParseFixedHex64(F64Code(u));
  }

  lemma F64CodeOrder(a: u64, b: u64)
    ensures F64Code(a) < F64Code(b) <==> FloatValue(a) < FloatValue(b) || (a == NEG_ZERO && b == 0)
  {
    var ma, mb := Magnitude(a), Magnitude(b);
    if ma < mb {
      ScaledMonotone(ma, mb);
    } else if mb < ma {
      ScaledMonotone(mb, ma);
    }
    if ma > 0 {
      ScaledMonotone(0, ma);
    }
    if mb > 0 {
      ScaledMonotone(0, mb);
    }
    assert Scaled(0) == 0;
  }

  /**
   The key order of two float values is their numeric order with a single exception: the key of -0
   sorts before the key of +0 although the two numbers are equal.
   */
  lemma F64KeyOrder(a: u64, b: u64)
    requires !IsNaN(a) && !IsNaN(b)
    ensures (Less(EncodeF64Key(a), EncodeF64Key(b)) <==> FloatValue(a) < FloatValue(b))
       <==> !(a == NEG_ZERO && b == 0)
    ensures EncodeF64Key(a) == EncodeF64Key(b) <==> a == b
  {
    F64CodeOrder(a, b);
    FixedHex64Order(F64Code(a), F64Code(b));
    if a == NEG_ZERO && b == 0 {
      assert FloatValue(a) == 0 == FloatValue(b);
    }
  }

  // ----- comparing stored values (compareIndexKeys) -----

  datatype IndexKind = StringIndex | Int64Index | FloatIndex

  function Sign(less: bool, greater: bool): int {
    if less then -1 else if greater then 1 else 0
  }

  function CompareIndexKeys(kind: IndexKind, a: bytes, b: bytes): int {
    if kind.Int64Index? && DecodeI64Key(a).Some? && DecodeI64Key(b).Some? then
      Sign(DecodeI64Key(a).value < DecodeI64Key(b).value, DecodeI64Key(a).value > DecodeI64Key(b).value)
    else if kind.FloatIndex? && DecodeF64Key(a).Some? && DecodeF64Key(b).Some? then
      var x, y := DecodeF64Key(a).value, DecodeF64Key(b).value;
      var ordered := !IsNaN(x) && !IsNaN(y);
      Sign(ordered && FloatValue(x) < FloatValue(y), ordered && FloatValue(x) > FloatValue(y))
    else
      Sign(Less(a, b), Less(b, a))
  }

  /** The values a numeric index stores, NaN and -0 left out of the float case. */
  ghost predicate NumericValue(kind: IndexKind, s: bytes) {
    (kind.Int64Index? && exists v: i64 :: s == EncodeI64Key(v)) ||
    (kind.FloatIndex? && exists u: u64 :: s == EncodeF64Key(u) && !IsNaN(u) && u != NEG_ZERO)
  }

  /** For stored values, the decoded comparison is the byte order the engine uses. */
  lemma CompareIsByteOrder(kind: IndexKind, a: bytes, b: bytes)
    requires NumericValue(kind, a) && NumericValue(kind, b)
    ensures |a| == |b| == 16
    ensures CompareIndexKeys(kind, a, b) < 0 <==> Less(a, b)
    ensures CompareIndexKeys(kind, a, b) == 0 <==> a == b
    ensures CompareIndexKeys(kind, a, b) > 0 <==> Less(b, a)
  {
    if kind.Int64Index? {
      var v: i64 :| a == EncodeI64Key(v);
      var w: i64 :| b == EncodeI64Key(w);
      I64KeyRoundTrip(v);
      I64KeyRoundTrip(w);
      I64KeyOrder(v, w);
      I64KeyOrder(w, v);
    } else {
      var v: u64 :| a == EncodeF64Key(v) && !IsNaN(v) && v != NEG_ZERO;
      var w: u64 :| b == EncodeF64Key(w) && !IsNaN(w) && w != NEG_ZERO;
      F64KeyRoundTrip(v);
      F64KeyRoundTrip(w);
      F64KeyOrder(v, w);
      F64KeyOrder(w, v);
      LessTotal(a, b);
    }
  }

  // ----- range plans -----

  datatype RangeOp = Gt | Ge | Lt | Le
  {
    predicate Lower() { Gt? || Ge? }

    predicate Inclusive() { Ge? || Le? }

    predicate Holds(cmp: int) {
      match this
      case Gt => cmp > 0
      case Ge => cmp >= 0
      case Lt => cmp < 0
      case Le => cmp <= 0
    }
  }

  /** One bound of a plan: the operator and the normalized value. */
  datatype Bound = Bound(op: RangeOp, value: bytes)

  /** The `matchRange` closure of scanIndexCandidateIDsFunc. */
  predicate MatchRange(kind: IndexKind, first: Bound, second: Option<Bound>, value: bytes) {
    && first.op.Holds(CompareIndexKeys(kind, value, first.value))
    && (second.Some? ==> second.value.op.Holds(CompareIndexKeys(kind, value, second.value.value)))
  }

  function ScanTag(unique: bool): byte {
    if unique then TAG_UIDX else TAG_IDX
  }

  function EntryKey(unique: bool, dbid: i64, value: bytes, id: i64): Key {
    if unique then UIdxKey(dbid, value) else IdxKey(dbid, value, id)
  }

  /** The last bound added on each side wins, as in the `add` closure. */
  function SideBound(lower: bool, first: Bound, second: Option<Bound>): Option<Bound> {
    if second.Some? && second.value.op.Lower() == lower then second
    else if first.op.Lower() == lower then Some(first)
    else None
  }

  function LowerKey(tag: byte, dbid: i64, b: Option<Bound>): Option<bytes> {
    match b
    case None => Some(TagPrefix(tag, dbid))
    case Some(bound) =>
      var prefix := ValuePrefix(tag, dbid, bound.value);
      if bound.op.Inclusive() then Some(prefix) else PrefixEnd(prefix)
  }

  function UpperKey(tag: byte, dbid: i64, b: Option<Bound>): Option<bytes> {
    match b
    case None => PrefixEnd(TagPrefix(tag, dbid))
    case Some(bound) =>
      var prefix := ValuePrefix(tag, dbid, bound.value);
      if bound.op.Inclusive() then PrefixEnd(prefix) else Some(prefix)
  }

  /** `indexRangeKeyBounds`: the two keys, or None for a range found empty. */
  function IndexRangeKeyBounds(unique: bool, dbid: i64, first: Bound, second: Option<Bound>)
    : Option<(Option<bytes>, Option<bytes>)>
  {
    var lower := LowerKey(ScanTag(unique), dbid, SideBound(true, first, second));
    var upper := UpperKey(ScanTag(unique), dbid, SideBound(false, first, second));
    if lower.Some? && upper.Some? && Less(upper.value, lower.value) then None else Some((lower, upper))
  }

  /** The raw key `k` is visited by the ordered scan of the plan. */
  predicate RangeScanVisits(unique: bool, dbid: i64, first: Bound, second: Option<Bound>, k: bytes) {
    match IndexRangeKeyBounds(unique, dbid, first, second)
    case None => false
    case Some((lower, upper)) =>
      && (lower.Some? && upper.Some? ==> Less(lower.value, upper.value))
      && (lower.Some? ==> !Less(k, lower.value))
      && (upper.Some? ==> Less(k, upper.value))
  }

  /** Where an entry lies relative to the prefix of another value of the same width. */
  lemma EntryAgainstValue(tag: byte, dbid: i64, value: bytes, bound: bytes, suffix: bytes)
    requires |value| == |bound|
    ensures
      var k, p := ValuePrefix(tag, dbid, value) + suffix, ValuePrefix(tag, dbid, bound);
      && (Less(k, p) <==> Less(value, bound))
      && (p <= k <==> value == bound)
  {
    var head := ValueHead(tag, dbid, |value|);
    SplitValuePrefix(tag, dbid, value);
    SplitValuePrefix(tag, dbid, bound);
    CommonHead(head, value, bound, suffix);
  }

  /** Everything in a value prefix but the value: it only depends on the length of the value. */
  function ValueHead(tag: byte, dbid: i64, length: nat): bytes {
    TagPrefix(tag, dbid) + BigEndian(length % 0x1_0000_0000, 4)
  }

  lemma SplitValuePrefix(tag: byte, dbid: i64, value: bytes)
    ensures ValuePrefix(tag, dbid, value) == ValueHead(tag, dbid, |value|) + value
  {
    var len := BigEndian(|value| % 0x1_0000_0000, 4);
    assert TagPrefix(tag, dbid) + (len + value) == TagPrefix(tag, dbid) + len + value;
  }

  lemma CommonHead(head: bytes, value: bytes, bound: bytes, suffix: bytes)
    requires |value| == |bound|
    ensures Less(head + value + suffix, head + bound) <==> Less(value, bound)
    ensures head + bound <= head + value + suffix <==> value == bound
  {
    assert head + value + suffix == head + (value + suffix);
    LessCommonPrefix(head, value + suffix, bound);
    LessConcat(value, bound, suffix, []);
    assert bound + [] == bound;
    var k, p := head + value + suffix, head + bound;
    assert k[|head|..|p|] == value && p[|head|..] == bound;
    assert k[..|p|] == head + value;
  }

  lemma PrefixEndExists(p: bytes, i: nat)
    requires i < |p| && p[i] != 255
    ensures PrefixEnd(p).Some?
  {
    if PrefixEnd(p).None? {
      NoEndMeansAllOnes(p);
    }
  }

  /** One bound, seen by the engine: being on its side of the key is satisfying the operator. */
  lemma BoundExact(kind: IndexKind, tag: byte, dbid: i64, b: Bound, value: bytes, suffix: bytes)
    requires tag != 255
    requires NumericValue(kind, value) && NumericValue(kind, b.value)
    ensures
      var k := ValuePrefix(tag, dbid, value) + suffix;
      && LowerKey(tag, dbid, Some(b)).Some? && UpperKey(tag, dbid, Some(b)).Some?
      && (b.op.Holds(CompareIndexKeys(kind, value, b.value)) <==>
           if b.op.Lower() then !Less(k, LowerKey(tag, dbid, Some(b)).value)
                           else Less(k, UpperKey(tag, dbid, Some(b)).value))
  {
    var k, p := ValuePrefix(tag, dbid, value) + suffix, ValuePrefix(tag, dbid, b.value);
    CompareIsByteOrder(kind, value, b.value);
    EntryAgainstValue(tag, dbid, value, b.value, suffix);
    assert p[0] == tag;
    PrefixEndExists(p, 0);
    PrefixUpperBound(p, k);
    LessTotal(value, b.value);
    if Less(value, b.value) && Less(b.value, value) {
      LessTransitive(value, b.value, value);
      LessIrreflexive(value);
    }
    LessIrreflexive(value);
  }

  /** An entry always lies inside the interval of its own index. */
  lemma EntryInPath(tag: byte, dbid: i64, value: bytes, suffix: bytes)
    ensures
      var k := ValuePrefix(tag, dbid, value) + suffix;
      InInterval(k, TagPrefix(tag, dbid), PrefixEnd(TagPrefix(tag, dbid)))
  {
    var k, p := ValuePrefix(tag, dbid, value) + suffix, TagPrefix(tag, dbid);
    assert k[..|p|] == p;
    PrefixIntervalExact(p, k);
  }

  /**
   Range exactness: for a numeric index and every combination of inclusive and exclusive bounds, the
   scan visits an entry exactly when the decoded value passes matchRange.
   */
  lemma RangeExact(kind: IndexKind, unique: bool, dbid: i64, first: Bound, second: Option<Bound>,
                   value: bytes, id: i64)
    requires NumericValue(kind, value) && NumericValue(kind, first.value)
    requires second.Some? ==>
      NumericValue(kind, second.value.value) && second.value.op.Lower() != first.op.Lower()
    ensures RangeScanVisits(unique, dbid, first, second, KeyBytes(EntryKey(unique, dbid, value, id)))
       <==> MatchRange(kind, first, second, value)
  {
    var tag := ScanTag(unique);
    var suffix := if unique then [] else I64Bytes(id);
    var k := KeyBytes(EntryKey(unique, dbid, value, id));
    assert k == ValuePrefix(tag, dbid, value) + suffix;
    hide Less, PrefixEnd, ValuePrefix, KeyBytes, CompareIndexKeys, NumericValue;
    BoundExact(kind, tag, dbid, first, value, suffix);
    if second.Some? {
      BoundExact(kind, tag, dbid, second.value, value, suffix);
    }
    EntryInPath(tag, dbid, value, suffix);
    var lower := LowerKey(tag, dbid, SideBound(true, first, second));
    var upper := UpperKey(tag, dbid, SideBound(false, first, second));
    if lower.Some? && upper.Some? && !Less(k, lower.value) && Less(k, upper.value) {
      NonEmptyInterval(k, lower.value, upper.value);
    }
  }

  lemma NonEmptyInterval(k: bytes, lower: bytes, upper: bytes)
    requires !Less(k, lower) && Less(k, upper)
    ensures Less(lower, upper) && !Less(upper, lower)
  {
    LessTotal(k, lower);
    if k != lower {
      LessTransitive(lower, k, upper);
    }
    if Less(upper, lower) {
      LessTransitive(lower, upper, lower);
      LessIrreflexive(lower);
    }
  }

  /** Nothing but keys of the index itself is ever visited, whatever the bounds are. */
  lemma RangeScanStaysInIndex(unique: bool, dbid: i64, first: Bound, second: Option<Bound>, k: bytes)
    requires second.Some? ==> second.value.op.Lower() != first.op.Lower()
    requires RangeScanVisits(unique, dbid, first, second, k)
    ensures TagPrefix(ScanTag(unique), dbid) <= k
  {
    var tag := ScanTag(unique);
    var path := TagPrefix(tag, dbid);
    var lower := LowerKey(tag, dbid, SideBound(true, first, second));
    var upper := UpperKey(tag, dbid, SideBound(false, first, second));
    assert path[0] == tag;
    PrefixEndExists(path, 0);
    PrefixIntervalExact(path, k);
    if SideBound(true, first, second).Some? {
      var p := ValuePrefix(tag, dbid, SideBound(true, first, second).value.value);
      assert p[0] == tag && p[..|path|] == path;
      PrefixEndExists(p, 0);
      BoundsStayAbove(path, p, k);
      assert !Less(k, path);
    }
    if SideBound(false, first, second).Some? {
      var p := ValuePrefix(tag, dbid, SideBound(false, first, second).value.value);
      assert p[0] == tag && p[..|path|] == path;
      PrefixEndExists(p, 0);
      BoundsStayBelow(path, p, k);
      assert Less(k, PrefixEnd(path).value);
    }
  }

  lemma BoundsStayAbove(path: bytes, p: bytes, k: bytes)
    requires path <= p && PrefixEnd(p).Some?
    requires !Less(k, p) || !Less(k, PrefixEnd(p).value)
    ensures !Less(k, path)
  {
    PrefixUpperBound(p, k);
    if Less(k, path) {
      PrefixNotLess(path, p[|path|..]);
      assert p == path + p[|path|..];
      LessTotal(path, p);
      if path != p {
        LessTransitive(k, path, p);
      }
    }
  }

  lemma BoundsStayBelow(path: bytes, p: bytes, k: bytes)
    requires path <= p && PrefixEnd(p).Some? && PrefixEnd(path).Some?
    requires Less(k, p) || Less(k, PrefixEnd(p).value)
    ensures Less(k, PrefixEnd(path).value)
  {
    PrefixUpperBound(p, k);
    PrefixUpperBound(path, k);
    if !(path <= k) {
      NotPrefixOrder(path, k, p[|path|..]);
      assert p == path + p[|path|..];
    }
  }

  /** Entries of a non-unique numeric index are scanned by value, then by id. */
  lemma IndexEntriesSort(dbid: i64, v1: bytes, id1: i64, v2: bytes, id2: i64)
    requires |v1| == |v2|
    ensures Less(KeyBytes(IdxKey(dbid, v1, id1)), KeyBytes(IdxKey(dbid, v2, id2)))
       <==> Less(v1, v2) || (v1 == v2 && id1 < id2)
  {
    var head := ValueHead(TAG_IDX, dbid, |v1|);
    SplitValuePrefix(TAG_IDX, dbid, v1);
    SplitValuePrefix(TAG_IDX, dbid, v2);
    SortAfterHead(head, v1, I64Bytes(id1), v2, I64Bytes(id2));
    I64BytesOrder(id1, id2);
  }

  lemma SortAfterHead(head: bytes, v1: bytes, s1: bytes, v2: bytes, s2: bytes)
    requires |v1| == |v2|
    ensures Less(head + v1 + s1, head + v2 + s2) <==> Less(v1, v2) || (v1 == v2 && Less(s1, s2))
  {
    assert head + v1 + s1 == head + (v1 + s1) && head + v2 + s2 == head + (v2 + s2);
    LessCommonPrefix(head, v1 + s1, v2 + s2);
    LessConcat(v1, v2, s1, s2);
  }

  /** Entries of a unique numeric index are scanned by value. */
  lemma UniqueEntriesSort(dbid: i64, v1: bytes, v2: bytes)
    requires |v1| == |v2|
    ensures Less(KeyBytes(UIdxKey(dbid, v1)), KeyBytes(UIdxKey(dbid, v2))) <==> Less(v1, v2)
  {
    SplitValuePrefix(TAG_UIDX, dbid, v1);
    SplitValuePrefix(TAG_UIDX, dbid, v2);
    LessCommonPrefix(ValueHead(TAG_UIDX, dbid, |v1|), v1, v2);
  }
}
