/**
 The binary document format (jbl.go): the encoder, the decoder as a function of the buffer and an
 offset, the round trip, and what the decoder guarantees on arbitrary bytes.
 */
module Binn {
  import opened Wrappers
  import opened Bytes
  import opened Numerals
  import opened Document
  import opened Ordering

  const T_NULL: nat := 0x00
  const T_TRUE: nat := 0x01
  const T_FALSE: nat := 0x02
  const T_UINT8: nat := 0x20
  const T_INT8: nat := 0x21
  const T_UINT16: nat := 0x40
  const T_INT16: nat := 0x41
  const T_UINT32: nat := 0x60
  const T_INT32: nat := 0x61
  const T_FLOAT32: nat := 0x62
  const T_UINT64: nat := 0x80
  const T_INT64: nat := 0x81
  const T_FLOAT64: nat := 0x82
  const T_CURRENCY: nat := 0x83
  const T_STRING: nat := 0xa0
  const T_BLOB: nat := 0xc0
  const T_LIST: nat := 0xe0
  const T_MAP: nat := 0xe1
  const T_OBJECT: nat := 0xe2

  const TWO_31: int := 0x8000_0000

  /** The string family: text types 0xa0 to 0xa7 and the five two-byte text types. */
  predicate IsText(typ: nat) {
    0xa0 <= typ <= 0xa7 || 0xb001 <= typ <= 0xb005
  }

  predicate IsBlob(typ: nat) {
    typ == T_BLOB || 0xd001 <= typ <= 0xd004
  }

  predicate IsContainer(typ: nat) {
    typ == T_LIST || typ == T_MAP || typ == T_OBJECT
  }

  // ----- encoding -----

  /** `binnEncodeInt`: the narrowest type that holds the value, unsigned first. */
  function EncodeInt(v: i64): (r: bytes)
    ensures 2 <= |r| <= 9
  {
    if 0 <= v <= 0xff then [T_UINT8] + BigEndian(v, 1)
    else if -0x80 <= v <= 0x7f then [T_INT8] + BigEndian(v + 0x100, 1)
    else if 0 <= v <= 0xffff then [T_UINT16] + BigEndian(v, 2)
    else if -0x8000 <= v <= 0x7fff then [T_INT16] + BigEndian(v + 0x1_0000, 2)
    else if 0 <= v <= 0xffff_ffff then [T_UINT32] + BigEndian(v, 4)
    else if -0x8000_0000 <= v <= 0x7fff_ffff then [T_INT32] + BigEndian(v + 0x1_0000_0000, 4)
    else [T_INT64] + BigEndian(ToUnsigned(v), 8)
  }

  /** The least number of bytes among 1, 2, 4 and 8 that hold the value, with or without a sign. */
  predicate LeastWidth(v: i64, width: nat) {
    && width in {1, 2, 4, 8} && Fits(v, width)
    && forall w | w in {1, 2, 4, 8} && w < width :: !Fits(v, w)
  }

  /** -2^(8w - 1) <= v < 2^(8w), and int64 for the widest. */
  predicate Fits(v: i64, width: nat) {
    width == 8 || -(Pow256(width) / 2) <= v < Pow256(width)
  }

  /** An integer takes a type byte and the least width; narrow types are unsigned exactly for what is not negative. */
  lemma NarrowestInt(v: i64)
    ensures LeastWidth(v, |EncodeInt(v)| - 1)
    ensures EncodeInt(v)[0] in {T_UINT8, T_UINT16, T_UINT32} <==> 0 <= v < Pow256(4)
  {
    Pow256Values();
    hide Pow256, BigEndian;
  }

  function SizedLen(v: nat): (r: nat)
    ensures r == 1 || r == 4
  {
    if v > 127 then 4 else 1
  }

  /** `uint32(v) | 0x80000000` */
  function Marked(v: nat): nat {
    var u := v % 0x1_0000_0000;
    if u < TWO_31 then u + TWO_31 else u
  }

  /** `appendBinnSized(nil, v)` */
  function SizedBytes(v: nat): (r: bytes)
    ensures |r| == SizedLen(v)
  {
    if v > 127 then BigEndian(Marked(v), 4) else [v]
  }

  /** Where the size loop of binnContainer ends; `rest` is everything but the size field. */
  function ContainerSize(rest: nat): nat {
    if rest + 1 <= 127 then rest + 1 else rest + 4
  }

  /** `binnContainer` */
  function Container(typ: byte, count: nat, payload: bytes): bytes {
    var size := ContainerSize(1 + SizedLen(count) + |payload|);
    [typ] + SizedBytes(size) + SizedBytes(count) + payload
  }

  /** The size field of a container is its real length. */
  lemma ContainerLength(typ: byte, count: nat, payload: bytes)
    ensures |Container(typ, count, payload)| == ContainerSize(1 + SizedLen(count) + |payload|)
  {
  }

  /** The loop of binnContainer: it reaches a size that counts its own field. */
  method ComputeContainer(typ: byte, count: nat, payload: bytes) returns (r: bytes)
    ensures r == Container(typ, count, payload)
  {
    var rest := 1 + SizedLen(count) + |payload|;
    var size := 1 + 1 + SizedLen(count) + |payload|;
    while true
      invariant size == rest + 1 || (size == rest + 4 && rest + 1 > 127)
      decreases rest + 4 - size
    {
      var next := 1 + SizedLen(size) + SizedLen(count) + |payload|;
      if next == size {
        break;
      }
      size := next;
    }
    return [typ] + SizedBytes(size) + SizedBytes(count) + payload;
  }

  ghost predicate Least(k: bytes, keys: set<bytes>) {
    k in keys && forall j | j in keys && j != k :: Less(k, j)
  }

  /** A non-empty set of keys has a least one. */
  lemma {:induction false} LeastKeyExists(keys: set<bytes>)
    requires keys != {}
    ensures exists k :: Least(k, keys)
    decreases |keys|
  {
    hide Less;
    var k :| k in keys;
    var rest := keys - {k};
    if rest == {} {
      assert forall j | j in keys && j != k :: j in rest;
      assert Least(k, keys);
    } else {
      LeastKeyExists(rest);
      var m :| Least(m, rest);
      LessTotal(k, m);
      if Less(k, m) {
        forall j | j in keys && j != k ensures Less(k, j) {
          assert j in rest;
          if j != m {
            LessTransitive(k, m, j);
          }
        }
        assert Least(k, keys);
      } else {
        assert Least(m, keys);
      }
    }
  }

  ghost predicate Enumerates(keys: set<bytes>, r: seq<bytes>) {
    (forall k | k in r :: k in keys) && (forall k | k in keys :: k in r) && |r| == |keys| && Sorted(Less, r)
  }

  lemma Prepended(k: bytes, keys: set<bytes>, rest: seq<bytes>)
    requires Least(k, keys) && Enumerates(keys - {k}, rest)
    ensures Enumerates(keys, [k] + rest)
  {
    hide Less;
    var r := [k] + rest;
    forall i, j | 0 <= i < j < |r| ensures Less(r[i], r[j]) {
      assert r[j] == rest[j - 1];
      assert r[j] in rest;
    }
  }

  /** The keys of a map in the order the encoder writes them. */
  ghost function SortedKeys(keys: set<bytes>): (r: seq<bytes>)
    ensures Enumerates(keys, r)
    decreases |keys|
  {
    if keys == {} then [] else
    LeastKeyExists(keys);
    var k :| Least(k, keys);
    Prepended(k, keys, SortedKeys(keys - {k}));
    [k] + SortedKeys(keys - {k})
  }

  /** Byte order is a strict total order, whatever the keys. */
  lemma BytesOrdered(s: seq<bytes>)
    ensures Strict(Less, s) && Total(Less, s)
  {
    hide Less;
    forall i | 0 <= i < |s| ensures !Less(s[i], s[i]) {
      LessIrreflexive(s[i]);
    }
    forall i, j, k | 0 <= i < |s| && 0 <= j < |s| && 0 <= k < |s| && Less(s[i], s[j]) && Less(s[j], s[k])
      ensures Less(s[i], s[k])
    {
      LessTransitive(s[i], s[j], s[k]);
    }
    forall i, j | 0 <= i < |s| && 0 <= j < |s| ensures Less(s[i], s[j]) || s[i] == s[j] || Less(s[j], s[i]) {
      LessTotal(s[i], s[j]);
    }
  }

  /** `binnEncodeValue`; None is an unsupported value or an object key over 255 bytes. */
  ghost function Encode(d: Doc): (r: Option<bytes>)
    ensures r.Some? ==> |r.value| > 0
    decreases d, 1, 0
  {
    match d
    case Null => Some([T_NULL])
    case Bool(b) => Some([if b then T_TRUE else T_FALSE])
    case Int(i) => Some(EncodeInt(i))
    case Float(bits) => Some([T_FLOAT64] + BigEndian(bits, 8))
    case Str(s) => Some(EncodeText(s))
    case Arr(items) =>
      (match EncodeItems(d, 0)
       case None => None
       case Some(payload) => Some(Container(T_LIST, |items|, payload)))
    case Obj(fields) =>
      if exists k :: k in fields && |k| > 255 then None else
      (match EncodeFields(d, SortedKeys(fields.Keys))
       case None => None
       case Some(payload) => Some(Container(T_OBJECT, |fields|, payload)))
    case Foreign(_, _) => None
  }

  /** `appendBinnString(nil, binnString, s)` */
  function EncodeText(s: bytes): (r: bytes)
    ensures |r| == |s| + SizedLen(|s|) + 2
  {
    [T_STRING] + (SizedBytes(|s|) + (s + [0]))
  }

  /** The payload of the elements of an array from index `n` on. */
  ghost function EncodeItems(d: Doc, n: nat): (r: Option<bytes>)
    requires d.Arr? && n <= |d.items|
    ensures r.Some? ==> |r.value| >= |d.items| - n
    decreases d, 0, |d.items| - n
  {
    if n == |d.items| then Some([]) else
    match (Encode(d.items[n]), EncodeItems(d, n + 1))
    case (Some(b), Some(p)) => Some(b + p)
    case _ => None
  }

  /** The payload of the members of an object with the given keys. */
  ghost function EncodeFields(d: Doc, keys: seq<bytes>): (r: Option<bytes>)
    requires d.Obj? && forall i | 0 <= i < |keys| :: keys[i] in d.fields && |keys[i]| <= 255
    ensures r.Some? ==> |r.value| >= |keys|
    decreases d, 0, |keys|
  {
    if keys == [] then Some([]) else
    match (Encode(d.fields[keys[0]]), EncodeFields(d, keys[1..]))
    case (Some(b), Some(p)) => Some([|keys[0]|] + keys[0] + b + p)
    case _ => None
  }

  /** `encodeStoredDocument` */
  ghost function EncodeStored(d: Doc): Option<bytes> {
    if d.Obj? || d.Arr? then Encode(d) else None
  }

  /** Encoding fails exactly on a long key or a foreign leaf, at any depth. */
  lemma {:induction false} EncodeSucceeds(d: Doc)
    ensures Encode(d).Some? <==> Packable(d)
    decreases d, 1, 0
  {
    hide EncodeItems, EncodeFields, SortedKeys, Container;
    match d
    case Arr(items) =>
      ItemsSucceed(d, 0);
    case Obj(fields) =>
      if forall k | k in fields :: |k| <= 255 {
        FieldsSucceed(d, SortedKeys(fields.Keys));
      }
    case _ =>
  }

  lemma {:induction false} ItemsSucceed(d: Doc, n: nat)
    requires d.Arr? && n <= |d.items|
    ensures EncodeItems(d, n).Some? <==> forall i | n <= i < |d.items| :: Packable(d.items[i])
    decreases d, 0, |d.items| - n
  {
    hide Encode, Packable;
    if n < |d.items| {
      EncodeSucceeds(d.items[n]);
      ItemsSucceed(d, n + 1);
    }
  }

  lemma {:induction false} FieldsSucceed(d: Doc, keys: seq<bytes>)
    requires d.Obj? && forall i | 0 <= i < |keys| :: keys[i] in d.fields && |keys[i]| <= 255
    ensures EncodeFields(d, keys).Some? <==> forall k | k in keys :: Packable(d.fields[k])
    decreases d, 0, |keys|
  {
    hide Encode, Packable;
    if keys != [] {
      EncodeSucceeds(d.fields[keys[0]]);
      FieldsSucceed(d, keys[1..]);
      assert keys == [keys[0]] + keys[1..];
    }
  }

  lemma NextItem(d: Doc, n: nat, b: bytes, p: bytes, r: bytes)
    requires d.Arr? && n < |d.items| && Encode(d.items[n]) == Some(b) && EncodeItems(d, n + 1) == Some(p) && r == b + p
    ensures EncodeItems(d, n) == Some(r)
  {
    hide Encode;
  }

  lemma NextField(d: Doc, k: bytes, rest: seq<bytes>, b: bytes, p: bytes, r: bytes)
    requires d.Obj? && k in d.fields && |k| <= 255 && Encode(d.fields[k]) == Some(b)
    requires forall i | 0 <= i < |rest| :: rest[i] in d.fields && |rest[i]| <= 255
    requires EncodeFields(d, rest) == Some(p) && r == [|k|] + k + b + p
    ensures EncodeFields(d, [k] + rest) == Some(r)
  {
    hide Encode;
    var keys := [k] + rest;
    assert keys[0] == k && keys[1..] == rest;
  }

  lemma SmallContainer(typ: byte, count: nat, payload: bytes, r: bytes)
    requires count < 100 && |payload| < 100 && r == [typ, 3 + |payload|, count] + payload
    ensures Container(typ, count, payload) == r
  {
  }

  const EXAMPLE_LIST: Doc := Arr([Null, Bool(true), Str([0x78]), Int(-1)])
  const EXAMPLE_LIST_BYTES: bytes := [0xe0, 0x0b, 0x04, 0x00, 0x01, 0xa0, 0x01, 0x78, 0x00, 0x21, 0xff]

  /** The bytes of [null, true, "x", -1]: a list of eleven bytes and four elements; a text ends in a zero byte. */
  lemma ExampleList()
    ensures Encode(EXAMPLE_LIST) == Some(EXAMPLE_LIST_BYTES)
  {
    ExampleLeaves();
    NoMoreItems(EXAMPLE_LIST);
    hide Encode, EncodeItems, Container;
    NextItem(EXAMPLE_LIST, 3, [0x21, 0xff], [], [0x21, 0xff]);
    NextItem(EXAMPLE_LIST, 2, [0xa0, 0x01, 0x78, 0x00], [0x21, 0xff], EXAMPLE_LIST_BYTES[5..]);
    NextItem(EXAMPLE_LIST, 1, [0x01], EXAMPLE_LIST_BYTES[5..], EXAMPLE_LIST_BYTES[4..]);
    NextItem(EXAMPLE_LIST, 0, [0x00], EXAMPLE_LIST_BYTES[4..], EXAMPLE_LIST_BYTES[3..]);
    SmallContainer(T_LIST, 4, EXAMPLE_LIST_BYTES[3..], EXAMPLE_LIST_BYTES);
    ListOf(EXAMPLE_LIST, EXAMPLE_LIST_BYTES[3..]);
  }

  lemma ExampleLeaves()
    ensures Encode(Null) == Some([0x00]) && Encode(Bool(true)) == Some([0x01])
    ensures Encode(Str([0x78])) == Some([0xa0, 0x01, 0x78, 0x00])
    ensures Encode(Int(-1)) == Some([0x21, 0xff]) && Encode(Int(1)) == Some([0x20, 0x01])
  {
    hide BigEndian, EncodeItems, EncodeFields, SortedKeys;
    OneByte(0xff);
    OneByte(1);
    assert EncodeInt(-1) == [0x21, 0xff] && EncodeInt(1) == [0x20, 0x01];
    assert EncodeText([0x78]) == [0xa0, 0x01, 0x78, 0x00];
  }

  lemma NoMoreItems(d: Doc)
    requires d.Arr?
    ensures EncodeItems(d, |d.items|) == Some([])
  {
  }

  lemma ListOf(d: Doc, payload: bytes)
    requires d.Arr? && EncodeItems(d, 0) == Some(payload)
    ensures Encode(d) == Some(Container(T_LIST, |d.items|, payload))
  {
    hide Container, EncodeItems;
  }

  lemma OneByte(n: byte)
    ensures BigEndian(n, 1) == [n]
  {
    assert BigEndian(n / 256, 0) == [];
  }

  const EXAMPLE_OBJECT: Doc := Obj(map[[0x62, 0x63] := EXAMPLE_LIST, [0x61] := Int(1)])

  /** The bytes of {"bc": [null, true, "x", -1], "a": 1}: an object of 21 bytes, its members in byte order of their keys. */
  lemma ExampleObject()
    ensures Encode(EXAMPLE_OBJECT)
         == Some([0xe2, 0x15, 0x02, 0x01, 0x61, 0x20, 0x01, 0x02, 0x62, 0x63] + EXAMPLE_LIST_BYTES)
  {
    var a, bc: bytes := [0x61], [0x62, 0x63];
    var payload := [0x01, 0x61, 0x20, 0x01, 0x02, 0x62, 0x63] + EXAMPLE_LIST_BYTES;
    ExampleFields(a, bc);
    ExampleMembers(a, bc);
    hide SortedKeys, EncodeFields, Container, Encode;
    ObjectOf(EXAMPLE_OBJECT, payload);
    SmallContainer(T_OBJECT, 2, payload,
                   [0xe2, 0x15, 0x02, 0x01, 0x61, 0x20, 0x01, 0x02, 0x62, 0x63] + EXAMPLE_LIST_BYTES);
  }

  lemma ExampleMembers(a: bytes, bc: bytes)
    requires a == [0x61] && bc == [0x62, 0x63]
    ensures |EXAMPLE_OBJECT.fields| == 2 && SortedKeys(EXAMPLE_OBJECT.fields.Keys) == [a, bc]
    ensures forall k | k in EXAMPLE_OBJECT.fields :: |k| <= 255
  {
    var keys := EXAMPLE_OBJECT.fields.Keys;
    assert keys == {a, bc};
    ExampleKeys(a, bc, SortedKeys(keys));
  }

  lemma ObjectOf(d: Doc, payload: bytes)
    requires d.Obj? && (forall k | k in d.fields :: |k| <= 255) && EncodeFields(d, SortedKeys(d.fields.Keys)) == Some(payload)
    ensures Encode(d) == Some(Container(T_OBJECT, |d.fields|, payload))
  {
    hide Container, SortedKeys, EncodeFields;
  }

  lemma ExampleFields(a: bytes, bc: bytes)
    requires a == [0x61] && bc == [0x62, 0x63]
    ensures EncodeFields(EXAMPLE_OBJECT, [a, bc]) == Some([0x01, 0x61, 0x20, 0x01, 0x02, 0x62, 0x63] + EXAMPLE_LIST_BYTES)
  {
    ExampleList();
    ExampleLeaves();
    hide Encode, EncodeFields;
    TwoFields(EXAMPLE_OBJECT, a, bc, [0x20, 0x01], EXAMPLE_LIST_BYTES,
              [0x01, 0x61, 0x20, 0x01, 0x02, 0x62, 0x63] + EXAMPLE_LIST_BYTES);
  }

  lemma TwoFields(d: Doc, j: bytes, k: bytes, x: bytes, y: bytes, r: bytes)
    requires d.Obj? && j in d.fields && k in d.fields && |j| <= 255 && |k| <= 255
    requires Encode(d.fields[j]) == Some(x) && Encode(d.fields[k]) == Some(y)
    requires r == [|j|] + j + x + ([|k|] + k + y)
    ensures EncodeFields(d, [j, k]) == Some(r)
  {
    hide Encode;
    assert EncodeFields(d, []) == Some([]);
    hide EncodeFields;
    var p := [|k|] + k + y;
    NextField(d, k, [], y, [], p);
    assert [k] + [] == [k] && [j] + [k] == [j, k];
    NextField(d, j, [k], x, p, r);
  }

  lemma ExampleKeys(a: bytes, bc: bytes, r: seq<bytes>)
    requires a == [0x61] && bc == [0x62, 0x63] && Enumerates({a, bc}, r)
    ensures r == [a, bc]
  {
    assert !Less(bc, a);
    assert |{a, bc}| == 2;
    assert r[0] in r && r[1] in r && Less(r[0], r[1]);
    LessIrreflexive(a);
    LessIrreflexive(bc);
  }

  // ----- decoding -----

  /** A value and the offset after it. */
  type Read<T> = Option<(T, nat)>

  function ReadUint(buf: bytes, off: nat, width: nat): (r: Read<nat>)
    requires off <= |buf|
    ensures r.Some? ==> r.value.1 == off + width <= |buf| && r.value.0 < Pow256(width)
  {
    if |buf| - off < width then None else
    FromBigEndianBound(buf[off..off + width]);
    Some((FromBigEndian(buf[off..off + width]), off + width))
  }

  function ReadBytes(buf: bytes, off: nat, n: nat): (r: Read<bytes>)
    requires off <= |buf|
    ensures r.Some? ==> r.value.1 == off + n <= |buf| && |r.value.0| == n
  {
    if |buf| - off < n then None else Some((buf[off..off + n], off + n))
  }

  /** `sized`: one byte, or four with the top bit set. */
  function ReadSized(buf: bytes, off: nat): (r: Read<nat>)
    requires off <= |buf|
    ensures r.Some? ==> off < r.value.1 <= |buf| && r.value.0 < TWO_31
  {
    if off >= |buf| then None
    else if buf[off] < 0x80 then Some((buf[off], off + 1))
    else if |buf| - (off + 1) < 3 then None
    else
      FromBigEndianBound(buf[off..off + 4]);
      Pow256Values();
      Some((FromBigEndian(buf[off..off + 4]) % TWO_31, off + 4))
  }

  /** `readType`: a second byte follows when bit 4 is set. */
  function ReadType(buf: bytes, off: nat): (r: Read<nat>)
    requires off <= |buf|
    ensures r.Some? ==> off < r.value.1 <= |buf|
  {
    if off >= |buf| then None
    else if (buf[off] / 16) % 2 == 0 then Some((buf[off], off + 1))
    else if off + 1 >= |buf| then None
    else
      var high: nat := buf[off];
      Some((high * 256 + buf[off + 1], off + 2))
  }

  datatype Header = Header(size: nat, count: nat, end: nat, body: nat)

  function TypeLen(typ: nat): nat {
    if typ > 0xff then 2 else 1
  }

  /** `containerAfterType`: the end is computed from the minimal width of the two fields. */
  function ReadHeader(buf: bytes, off: nat, typ: nat): (r: Option<Header>)
    requires off <= |buf|
    ensures r.Some? ==> off < r.value.body <= r.value.end <= |buf|
  {
    match ReadSized(buf, off)
    case None => None
    case Some((size, off1)) =>
      match ReadSized(buf, off1)
      case None => None
      case Some((count, body)) =>
        var end: int := body + size - (TypeLen(typ) + SizedLen(size) + SizedLen(count));
        if size < 3 || end < body || end > |buf| || !IsContainer(typ) then None
        else Some(Header(size, count, end, body))
  }

  function Signed(u: nat, width: nat): int {
    if 2 * u < Pow256(width) then u else u - Pow256(width)
  }

  /** The result of an integer read. */
  function IntLeaf(r: Read<nat>, width: nat, signed: bool): (out: Read<Doc>)
    requires 1 <= width <= 8 && (r.Some? ==> r.value.0 < Pow256(width))
    ensures r.None? <==> out.None?
    ensures r.Some? ==> out.value.1 == r.value.1
  {
    match r
    case None => None
    case Some((u, off)) =>
      var v := if signed then Signed(u, width) else u;
      Some((if MIN_I64 <= v <= MAX_I64 then Int(v) else Foreign(T_UINT64, BigEndian(u, 8)), off))
  }

  /** A leaf after its type. */
  function DecodeLeaf(buf: bytes, off: nat, typ: nat): (r: Read<Doc>)
    requires off <= |buf| && !IsContainer(typ)
    ensures r.Some? ==> off <= r.value.1 <= |buf|
  {
    if typ == T_NULL then Some((Null, off))
    else if typ == T_TRUE then Some((Bool(true), off))
    else if typ == T_FALSE then Some((Bool(false), off))
    else if typ == T_UINT8 then IntLeaf(ReadUint(buf, off, 1), 1, false)
    else if typ == T_INT8 then IntLeaf(ReadUint(buf, off, 1), 1, true)
    else if typ == T_UINT16 then IntLeaf(ReadUint(buf, off, 2), 2, false)
    else if typ == T_INT16 then IntLeaf(ReadUint(buf, off, 2), 2, true)
    else if typ == T_UINT32 then IntLeaf(ReadUint(buf, off, 4), 4, false)
    else if typ == T_INT32 then IntLeaf(ReadUint(buf, off, 4), 4, true)
    else if typ == T_UINT64 then IntLeaf(ReadUint(buf, off, 8), 8, false)
    else if typ == T_INT64 || typ == T_CURRENCY then IntLeaf(ReadUint(buf, off, 8), 8, true)
    else if typ == T_FLOAT32 then
      (match ReadBytes(buf, off, 4) case None => None case Some((b, end)) => Some((Foreign(typ, b), end)))
    else if typ == T_FLOAT64 then
      (match ReadUint(buf, off, 8) case None => None case Some((u, end)) => Pow256Values(); Some((AsRead(u), end)))
    else if IsText(typ) then DecodeText(buf, off)
    else if IsBlob(typ) then
      (match ReadUint(buf, off, 4)
       case None => None
       case Some((n, off1)) =>
         match ReadBytes(buf, off1, n) case None => None case Some((b, end)) => Some((Foreign(typ, b), end)))
    else None
  }

  /** `string`: sized, and closed by a zero byte. */
  function DecodeText(buf: bytes, off: nat): (r: Read<Doc>)
    requires off <= |buf|
    ensures r.Some? ==> off < r.value.1 <= |buf|
  {
    match ReadSized(buf, off)
    case None => None
    case Some((n, off1)) =>
      match ReadBytes(buf, off1, n)
      case None => None
      case Some((s, off2)) => if off2 < |buf| && buf[off2] == 0 then Some((Str(s), off2 + 1)) else None
  }

  /**
   `value`.  On arbitrary bytes it halts, never reads outside the buffer, and its offset only grows.
   */
  function Decode(buf: bytes, off: nat): (r: Read<Doc>)
    requires off <= |buf|
    ensures r.Some? ==> off < r.value.1 <= |buf|
    decreases |buf| - off, 0
  {
    match ReadType(buf, off)
    case None => None
    case Some((typ, off1)) =>
      if !IsContainer(typ) then DecodeLeaf(buf, off1, typ) else
      match ReadHeader(buf, off1, typ)
      case None => None
      case Some(h) =>
        if typ == T_LIST then
          (match DecodeItems(buf, h.body, h.count)
           case None => None
           case Some((items, end)) => if end == h.end then Some((Arr(items), end)) else None)
        else
          match DecodeFields(buf, h.body, h.count, typ)
          case None => None
          case Some((fields, end)) => if end == h.end then Some((Obj(fields), end)) else None
  }

  function DecodeItems(buf: bytes, off: nat, count: nat): (r: Read<seq<Doc>>)
    requires off <= |buf|
    ensures r.Some? ==> off + count <= r.value.1 <= |buf| && |r.value.0| == count
    decreases |buf| - off, 1
  {
    if count == 0 then Some(([], off)) else
    match Decode(buf, off)
    case None => None
    case Some((d, off1)) =>
      match DecodeItems(buf, off1, count - 1)
      case None => None
      case Some((ds, end)) => Some(([d] + ds, end))
  }

  /** The key of one member: length-prefixed text in an object, a signed 32-bit number in a map. */
  function ReadKey(buf: bytes, off: nat, typ: nat): (r: Read<bytes>)
    requires off <= |buf|
    ensures r.Some? ==> off < r.value.1 <= |buf|
  {
    if typ == T_OBJECT then
      if off >= |buf| then None else ReadBytes(buf, off + 1, buf[off])
    else
      match ReadUint(buf, off, 4)
      case None => None
      case Some((u, off1)) => Some((FormatInt(Signed(u, 4)), off1))
  }

  /** A later member with the same key wins. */
  function DecodeFields(buf: bytes, off: nat, count: nat, typ: nat): (r: Read<map<bytes, Doc>>)
    requires off <= |buf|
    ensures r.Some? ==> off + count <= r.value.1 <= |buf|
    decreases |buf| - off, 1
  {
    if count == 0 then Some((map[], off)) else
    match ReadKey(buf, off, typ)
    case None => None
    case Some((key, off1)) =>
      match Decode(buf, off1)
      case None => None
      case Some((d, off2)) =>
        match DecodeFields(buf, off2, count - 1, typ)
        case None => None
        case Some((fields, end)) => Some((map[key := d] + fields, end))
  }

  /** Of two members with one key the later one counts. */
  lemma LaterMemberWins(buf: bytes, off: nat, count: nat, typ: nat)
    requires off <= |buf| && count > 0 && DecodeFields(buf, off, count, typ).Some?
    ensures ReadKey(buf, off, typ).Some? && Decode(buf, ReadKey(buf, off, typ).value.1).Some?
    ensures var (key, off1) := ReadKey(buf, off, typ).value;
            var (d, off2) := Decode(buf, off1).value;
            var rest := DecodeFields(buf, off2, count - 1, typ);
            && rest.Some? && key in DecodeFields(buf, off, count, typ).value.0
            && DecodeFields(buf, off, count, typ).value.0[key]
                 == if key in rest.value.0 then rest.value.0[key] else d
  {
    hide ReadKey, Decode;
  }

  // ----- bytes at an offset -----

  /** The buffer holds `b` at the offset. */
  predicate At(buf: bytes, off: nat, b: bytes) {
    off + |b| <= |buf| && buf[off..off + |b|] == b
  }

  lemma AtSplit(buf: bytes, off: nat, x: bytes, y: bytes)
    requires At(buf, off, x + y)
    ensures At(buf, off, x) && At(buf, off + |x|, y)
  {
    var b := buf[off..off + |x + y|];
    assert buf[off..off + |x|] == b[..|x|];
    assert buf[off + |x|..off + |x| + |y|] == b[|x|..];
  }

  lemma AtByte(buf: bytes, off: nat, b: byte)
    requires At(buf, off, [b])
    ensures off < |buf| && buf[off] == b
  {
    assert buf[off] == buf[off..off + 1][0];
  }

  lemma AtBytes(buf: bytes, off: nat, b: bytes)
    requires At(buf, off, b)
    ensures off <= |buf| && ReadBytes(buf, off, |b|) == Some((b, off + |b|))
  {
  }

  lemma ReadUintBack(buf: bytes, off: nat, n: nat, width: nat)
    requires At(buf, off, BigEndian(n, width)) && n < Pow256(width)
    ensures ReadUint(buf, off, width) == Some((n, off + width))
  {
    BigEndianRoundTrip(n, width);
  }

  lemma ReadSizedBack(buf: bytes, off: nat, v: nat)
    requires At(buf, off, SizedBytes(v)) && v < TWO_31
    ensures ReadSized(buf, off) == Some((v, off + SizedLen(v)))
  {
    if v <= 127 {
      AtByte(buf, off, v);
    } else {
      Pow256Values();
      var b := BigEndian(v + TWO_31, 4);
      assert buf[off..off + 4] == b;
      BigEndianRoundTrip(v + TWO_31, 4);
      TopByte(v);
      assert buf[off] == b[0];
    }
  }

  lemma TopByte(v: nat)
    requires v < TWO_31
    ensures BigEndian(v + TWO_31, 4)[0] >= 0x80
  {
    var n := v + TWO_31;
    assert BigEndian(n, 4) == BigEndian(n / 256, 3) + [n % 256];
    assert BigEndian(n / 256, 3) == BigEndian(n / 256 / 256, 2) + [n / 256 % 256];
    assert BigEndian(n / 256 / 256, 2) == BigEndian(n / 256 / 256 / 256, 1) + [n / 256 / 256 % 256];
    assert BigEndian(n / 256 / 256 / 256, 1) == [] + [n / 256 / 256 / 256 % 256];
    assert n / 256 / 256 / 256 == n / 0x100_0000;
  }

  // ----- the round trip -----

  /** Every int64 survives the choice of width. */
  lemma IntBack(buf: bytes, off: nat, v: i64)
    requires At(buf, off, EncodeInt(v))
    ensures Decode(buf, off) == Some((Int(v), off + |EncodeInt(v)|))
  {
    hide At, ReadUint, ReadType, BigEndian, Pow256;
    Pow256Values();
    if 0 <= v <= 0xff {
      IntPayload(buf, off, T_UINT8, v, 1);
    } else if -0x80 <= v <= 0x7f {
      IntPayload(buf, off, T_INT8, v + 0x100, 1);
    } else if 0 <= v <= 0xffff {
      IntPayload(buf, off, T_UINT16, v, 2);
    } else if -0x8000 <= v <= 0x7fff {
      IntPayload(buf, off, T_INT16, v + 0x1_0000, 2);
    } else if 0 <= v <= 0xffff_ffff {
      IntPayload(buf, off, T_UINT32, v, 4);
    } else if -0x8000_0000 <= v <= 0x7fff_ffff {
      IntPayload(buf, off, T_INT32, v + 0x1_0000_0000, 4);
    } else {
      IntPayload(buf, off, T_INT64, ToUnsigned(v), 8);
    }
  }

  /** The integer types, their widths, and whether they have a sign. */
  predicate IntForm(typ: nat, width: nat, signed: bool) {
    if signed then (typ, width) in {(T_INT8, 1), (T_INT16, 2), (T_INT32, 4), (T_INT64, 8), (T_CURRENCY, 8)}
    else (typ, width) in {(T_UINT8, 1), (T_UINT16, 2), (T_UINT32, 4), (T_UINT64, 8)}
  }

  /** The numbers that have the form, in two's complement if it is signed. */
  predicate InForm(v: int, width: nat, signed: bool) {
    if signed then 0 - Pow256(width) <= 2 * v < Pow256(width) else 0 <= v < Pow256(width)
  }

  /** A number is read from every form that holds it, not only from the narrowest; above the int64 range it stays apart. */
  lemma EveryFormReads(buf: bytes, off: nat, typ: byte, width: nat, signed: bool, v: int)
    requires IntForm(typ, width, signed) && InForm(v, width, signed)
    requires At(buf, off, [typ] + BigEndian(if v < 0 then v + Pow256(width) else v, width))
    ensures off <= |buf|
    ensures Decode(buf, off)
         == Some((if v <= MAX_I64 then Int(v) else Foreign(T_UINT64, BigEndian(v, 8)), off + 1 + width))
  {
    hide At, ReadUint, ReadType, BigEndian, Pow256, DecodeItems, DecodeFields;
    Pow256Values();
    IntPayload(buf, off, typ, if v < 0 then v + Pow256(width) else v, width);
  }

  lemma IntPayload(buf: bytes, off: nat, typ: byte, n: nat, width: nat)
    requires At(buf, off, [typ] + BigEndian(n, width)) && n < Pow256(width)
    requires typ / 16 % 2 == 0
    ensures off < |buf|
    ensures ReadType(buf, off) == Some((typ, off + 1)) && ReadUint(buf, off + 1, width) == Some((n, off + 1 + width))
  {
    AtSplit(buf, off, [typ], BigEndian(n, width));
    AtByte(buf, off, typ);
    ReadUintBack(buf, off + 1, n, width);
  }

  lemma TextBack(buf: bytes, off: nat, s: bytes)
    requires At(buf, off, EncodeText(s)) && |s| < TWO_31
    ensures Decode(buf, off) == Some((Str(s), off + |EncodeText(s)|))
  {
    hide At, ReadSized, SizedBytes, BigEndian, FromBigEndian;
    AtSplit(buf, off, [T_STRING], SizedBytes(|s|) + (s + [0]));
    AtByte(buf, off, T_STRING);
    AtSplit(buf, off + 1, SizedBytes(|s|), s + [0]);
    ReadSizedBack(buf, off + 1, |s|);
    var start := off + 1 + SizedLen(|s|);
    AtSplit(buf, start, s, [0]);
    AtByte(buf, start + |s|, 0);
    AtBytes(buf, start, s);
    assert ReadBytes(buf, start, |s|) == Some((s, start + |s|));
  }

  /** The bytes of a type: one, or two when the first has bit 4 set. */
  predicate TypeTag(tag: bytes, typ: nat) {
    if |tag| == 1 then typ == tag[0] && tag[0] / 16 % 2 == 0
    else |tag| == 2 && tag[0] / 16 % 2 == 1 && typ - tag[1] == tag[0] as int * 256
  }

  lemma TypeReads(buf: bytes, off: nat, tag: bytes, typ: nat, rest: bytes)
    requires TypeTag(tag, typ) && At(buf, off, tag + rest)
    ensures off + |tag| <= |buf| && ReadType(buf, off) == Some((typ, off + |tag|)) && At(buf, off + |tag|, rest)
  {
    AtSplit(buf, off, tag, rest);
    assert buf[off..off + |tag|][0] == tag[0];
    assert |tag| == 2 ==> buf[off..off + |tag|][1] == tag[1];
  }

  /** A text is read from every text type, dates and markup included, not only from the one that is written. */
  lemma EveryTextReads(buf: bytes, off: nat, tag: bytes, typ: nat, s: bytes)
    requires TypeTag(tag, typ) && IsText(typ) && |s| < TWO_31
    requires At(buf, off, tag + (SizedBytes(|s|) + (s + [0])))
    ensures off <= |buf| && Decode(buf, off) == Some((Str(s), off + |tag| + SizedLen(|s|) + |s| + 1))
  {
    hide At, ReadSized, SizedBytes, BigEndian, FromBigEndian, ReadType, TypeTag, DecodeItems, DecodeFields;
    TypeReads(buf, off, tag, typ, SizedBytes(|s|) + (s + [0]));
    var from := off + |tag|;
    AtSplit(buf, from, SizedBytes(|s|), s + [0]);
    ReadSizedBack(buf, from, |s|);
    var start := from + SizedLen(|s|);
    AtSplit(buf, start, s, [0]);
    AtByte(buf, start + |s|, 0);
    AtBytes(buf, start, s);
    assert ReadBytes(buf, start, |s|) == Some((s, start + |s|));
  }

  /** A blob of any type is kept apart, under its type. */
  lemma BlobReads(buf: bytes, off: nat, tag: bytes, typ: nat, b: bytes)
    requires TypeTag(tag, typ) && IsBlob(typ) && |b| < Pow256(4)
    requires At(buf, off, tag + (BigEndian(|b|, 4) + b))
    ensures off <= |buf| && Decode(buf, off) == Some((Foreign(typ, b), off + |tag| + 4 + |b|))
  {
    hide At, BigEndian, FromBigEndian, ReadType, TypeTag, ReadUint, Pow256, DecodeItems, DecodeFields;
    TypeReads(buf, off, tag, typ, BigEndian(|b|, 4) + b);
    var from := off + |tag|;
    AtSplit(buf, from, BigEndian(|b|, 4), b);
    ReadUintBack(buf, from, |b|, 4);
    AtBytes(buf, from + 4, b);
  }

  /** A 32-bit float is kept apart, bit by bit. */
  lemma Float32Reads(buf: bytes, off: nat, b: bytes)
    requires |b| == 4 && At(buf, off, [T_FLOAT32] + b)
    ensures off <= |buf| && Decode(buf, off) == Some((Foreign(T_FLOAT32, b), off + 5))
  {
    hide At, ReadType, ReadUint, DecodeItems, DecodeFields;
    TypeReads(buf, off, [T_FLOAT32], T_FLOAT32, b);
    AtBytes(buf, off + 1, b);
  }

  /** The key of a map is the numeral of a signed 32-bit number. */
  lemma MapKeyReads(buf: bytes, off: nat, v: int)
    requires InForm(v, 4, true) && At(buf, off, BigEndian(if v < 0 then v + Pow256(4) else v, 4))
    ensures off <= |buf| && ReadKey(buf, off, T_MAP) == Some((FormatInt(v), off + 4))
  {
    hide At, BigEndian, ReadUint, Pow256, FormatInt;
    Pow256Values();
    ReadUintBack(buf, off, if v < 0 then v + Pow256(4) else v, 4);
    AtEnds(buf, off, BigEndian(if v < 0 then v + Pow256(4) else v, 4));
  }

  /** The header that binnContainer writes reads back, and its end is the real end. */
  lemma HeaderBack(buf: bytes, off: nat, typ: byte, count: nat, payload: bytes)
    requires IsContainer(typ) && At(buf, off, Container(typ, count, payload))
    requires |Container(typ, count, payload)| < TWO_31 && count <= |payload|
    ensures off < |buf| && ReadType(buf, off) == Some((typ, off + 1))
    ensures ReadHeader(buf, off + 1, typ).Some?
    ensures var h := ReadHeader(buf, off + 1, typ).value;
            h.count == count && At(buf, h.body, payload)
            && h.end == h.body + |payload| == off + |Container(typ, count, payload)|
  {
    hide At, ReadSized, SizedBytes, FromBigEndian, BigEndian;
    var size := ContainerSize(1 + SizedLen(count) + |payload|);
    ContainerLength(typ, count, payload);
    var sizeBytes, countBytes := SizedBytes(size), SizedBytes(count);
    assert Container(typ, count, payload) == [typ] + (sizeBytes + (countBytes + payload));
    AtSplit(buf, off, [typ], sizeBytes + (countBytes + payload));
    AtByte(buf, off, typ);
    AtSplit(buf, off + 1, sizeBytes, countBytes + payload);
    ReadSizedBack(buf, off + 1, size);
    var off1 := off + 1 + SizedLen(size);
    AtSplit(buf, off1, countBytes, payload);
    ReadSizedBack(buf, off1, count);
  }

  /** Decoding undoes encoding up to integral floats, wherever in a buffer the bytes stand. */
  lemma {:induction false} DecodeBack(buf: bytes, off: nat, d: Doc)
    requires Encode(d).Some? && |Encode(d).value| < TWO_31 && At(buf, off, Encode(d).value)
    ensures Decode(buf, off) == Some((Reread(d), off + |Encode(d).value|))
    decreases d, 2, 0
  {
    hide Encode, At, Decode, Reread;
    match d
    case Arr(_) => ListBack(buf, off, d);
    case Obj(_) => ObjectBack(buf, off, d);
    case _ => LeafBack(buf, off, d);
  }

  lemma {:induction false} ListBack(buf: bytes, off: nat, d: Doc)
    requires d.Arr? && Encode(d).Some? && |Encode(d).value| < TWO_31 && At(buf, off, Encode(d).value)
    ensures Decode(buf, off) == Some((Reread(d), off + |Encode(d).value|))
    decreases d, 1, 0
  {
    hide Encode, At, Decode, EncodeItems, Container, DecodeItems, ReadType, ReadHeader, Reread;
    ListParts(d);
    HeaderBack(buf, off, T_LIST, |d.items|, EncodeItems(d, 0).value);
    var h := ReadHeader(buf, off + 1, T_LIST).value;
    ItemsBack(buf, h.body, d, 0);
    var items := Reread(d).items;
    assert items[0..] == items;
    ListDecodes(buf, off, h, items);
  }

  lemma {:induction false} ObjectBack(buf: bytes, off: nat, d: Doc)
    requires d.Obj? && Encode(d).Some? && |Encode(d).value| < TWO_31 && At(buf, off, Encode(d).value)
    ensures Decode(buf, off) == Some((Reread(d), off + |Encode(d).value|))
    decreases d, 1, 0
  {
    hide Encode, At, Decode, Container, DecodeFields, ReadType, ReadHeader, Reread, ObjectPayload;
    ObjectEncoding(d);
    HeaderBack(buf, off, T_OBJECT, |d.fields|, ObjectPayload(d));
    var h := ReadHeader(buf, off + 1, T_OBJECT).value;
    MembersBack(buf, h.body, d);
    ObjectDecodes(buf, off, h, Reread(d).fields);
  }

  /** The payload of an object: its members by sorted key. */
  ghost function ObjectPayload(d: Doc): bytes
    requires d.Obj? && Encode(d).Some?
  {
    ObjectParts(d);
    EncodeFields(d, SortedKeys(d.fields.Keys)).value
  }

  lemma ObjectEncoding(d: Doc)
    requires d.Obj? && Encode(d).Some?
    ensures Encode(d).value == Container(T_OBJECT, |d.fields|, ObjectPayload(d))
    ensures |d.fields| <= |ObjectPayload(d)| < |Encode(d).value|
  {
    hide Encode, EncodeFields, Container, SortedKeys;
    ObjectParts(d);
  }

  lemma {:induction false} MembersBack(buf: bytes, off: nat, d: Doc)
    requires d.Obj? && Encode(d).Some? && |ObjectPayload(d)| < TWO_31 && At(buf, off, ObjectPayload(d))
    ensures off <= |buf|
    ensures DecodeFields(buf, off, |d.fields|, T_OBJECT) == Some((Reread(d).fields, off + |ObjectPayload(d)|))
    decreases d, 0, |d.fields| + 1
  {
    hide Encode, At, EncodeFields, DecodeFields, SortedKeys, Picked, Enumerates, Reread;
    ObjectParts(d);
    AtEnds(buf, off, ObjectPayload(d));
    var keys := SortedKeys(d.fields.Keys);
    FieldsBack(buf, off, d, keys);
    PickedAll(Reread(d).fields, keys);
  }

  lemma AtEnds(buf: bytes, off: nat, b: bytes)
    requires At(buf, off, b)
    ensures off + |b| <= |buf|
  {
  }

  lemma LeafBack(buf: bytes, off: nat, d: Doc)
    requires !d.Arr? && !d.Obj?
    requires Encode(d).Some? && |Encode(d).value| < TWO_31 && At(buf, off, Encode(d).value)
    ensures Decode(buf, off) == Some((Reread(d), off + |Encode(d).value|))
  {
    hide Decode, At, EncodeInt, EncodeText;
    match d
    case Null => TagBack(buf, off, d);
    case Bool(_) => TagBack(buf, off, d);
    case Int(i) => IntBack(buf, off, i);
    case Float(bits) => FloatBack(buf, off, bits);
    case Str(s) => TextBack(buf, off, s);
    case Foreign(_, _) =>
  }

  lemma TagBack(buf: bytes, off: nat, d: Doc)
    requires (d.Null? || d.Bool?) && At(buf, off, Encode(d).value)
    ensures Decode(buf, off) == Some((d, off + 1))
  {
    AtByte(buf, off, Encode(d).value[0]);
  }

  lemma FloatBack(buf: bytes, off: nat, bits: u64)
    requires At(buf, off, [T_FLOAT64] + BigEndian(bits, 8))
    ensures Decode(buf, off) == Some((AsRead(bits), off + 9))
  {
    hide At, ReadUint, ReadType, BigEndian, Pow256, AsRead;
    Pow256Values();
    IntPayload(buf, off, T_FLOAT64, bits, 8);
  }

  lemma ListParts(d: Doc)
    requires d.Arr? && Encode(d).Some?
    ensures EncodeItems(d, 0).Some?
    ensures Encode(d).value == Container(T_LIST, |d.items|, EncodeItems(d, 0).value)
    ensures |EncodeItems(d, 0).value| < |Encode(d).value|
  {
    hide EncodeItems, SizedBytes;
  }

  lemma ObjectParts(d: Doc)
    requires d.Obj? && Encode(d).Some?
    ensures forall k | k in d.fields :: |k| <= 255
    ensures var keys := SortedKeys(d.fields.Keys);
            && |keys| == |d.fields| && (forall i | 0 <= i < |keys| :: keys[i] in d.fields && |keys[i]| <= 255)
            && EncodeFields(d, keys).Some?
            && Encode(d).value == Container(T_OBJECT, |d.fields|, EncodeFields(d, keys).value)
            && |EncodeFields(d, keys).value| < |Encode(d).value|
  {
    hide EncodeFields, SizedBytes, SortedKeys;
    assert |d.fields.Keys| == |d.fields|;
  }

  lemma ListDecodes(buf: bytes, off: nat, h: Header, items: seq<Doc>)
    requires off < |buf| && ReadType(buf, off) == Some((T_LIST, off + 1))
    requires ReadHeader(buf, off + 1, T_LIST) == Some(h)
    requires DecodeItems(buf, h.body, h.count) == Some((items, h.end))
    ensures Decode(buf, off) == Some((Arr(items), h.end))
  {
    hide ReadHeader, DecodeItems, DecodeFields, ReadType, DecodeLeaf;
  }

  lemma ObjectDecodes(buf: bytes, off: nat, h: Header, fields: map<bytes, Doc>)
    requires off < |buf| && ReadType(buf, off) == Some((T_OBJECT, off + 1))
    requires ReadHeader(buf, off + 1, T_OBJECT) == Some(h)
    requires DecodeFields(buf, h.body, h.count, T_OBJECT) == Some((fields, h.end))
    ensures Decode(buf, off) == Some((Obj(fields), h.end))
  {
    hide ReadHeader, DecodeItems, DecodeFields, ReadType, DecodeLeaf;
  }

  lemma {:induction false} ItemsBack(buf: bytes, off: nat, d: Doc, n: nat)
    requires d.Arr? && n <= |d.items| && EncodeItems(d, n).Some?
    requires |EncodeItems(d, n).value| < TWO_31 && At(buf, off, EncodeItems(d, n).value)
    ensures DecodeItems(buf, off, |d.items| - n) == Some((Reread(d).items[n..], off + |EncodeItems(d, n).value|))
    decreases d, 0, |d.items| - n
  {
    hide At, Encode, Decode, ReadType, ReadHeader, DecodeLeaf, Reread;
    var items := Reread(d).items;
    if n < |d.items| {
      var b, p := Encode(d.items[n]).value, EncodeItems(d, n + 1).value;
      AtSplit(buf, off, b, p);
      DecodeBack(buf, off, d.items[n]);
      ItemsBack(buf, off + |b|, d, n + 1);
      assert items[n..] == [items[n]] + items[n + 1..];
    }
  }

  /** The members with the given keys. */
  ghost function Picked(fields: map<bytes, Doc>, keys: seq<bytes>): (r: map<bytes, Doc>)
    requires forall i | 0 <= i < |keys| :: keys[i] in fields
    ensures keys == [] ==> r == map[]
  {
    map k | k in keys :: fields[k]
  }

  lemma PickedStep(fields: map<bytes, Doc>, keys: seq<bytes>)
    requires keys != [] && forall i | 0 <= i < |keys| :: keys[i] in fields
    ensures map[keys[0] := fields[keys[0]]] + Picked(fields, keys[1..]) == Picked(fields, keys)
  {
    assert keys == [keys[0]] + keys[1..];
  }

  lemma PickedAll(fields: map<bytes, Doc>, keys: seq<bytes>)
    requires Enumerates(fields.Keys, keys)
    ensures Picked(fields, keys) == fields
  {
  }

  lemma NoFields(buf: bytes, off: nat, b: bytes)
    requires At(buf, off, b)
    ensures DecodeFields(buf, off, 0, T_OBJECT) == Some((map[], off))
  {
  }

  lemma FieldsStep(buf: bytes, off: nat, key: bytes, off1: nat, d: Doc, off2: nat, rest: map<bytes, Doc>, end: nat,
                   count: nat)
    requires off <= |buf| && ReadKey(buf, off, T_OBJECT) == Some((key, off1))
    requires off1 <= |buf| && Decode(buf, off1) == Some((d, off2))
    requires off2 <= |buf| && DecodeFields(buf, off2, count, T_OBJECT) == Some((rest, end))
    ensures DecodeFields(buf, off, count + 1, T_OBJECT) == Some((map[key := d] + rest, end))
  {
    hide Decode, ReadKey;
  }

  lemma {:induction false} FieldsBack(buf: bytes, off: nat, d: Doc, keys: seq<bytes>)
    requires d.Obj? && forall i | 0 <= i < |keys| :: keys[i] in d.fields && |keys[i]| <= 255
    requires EncodeFields(d, keys).Some?
    requires |EncodeFields(d, keys).value| < TWO_31 && At(buf, off, EncodeFields(d, keys).value)
    ensures DecodeFields(buf, off, |keys|, T_OBJECT)
         == Some((Picked(Reread(d).fields, keys), off + |EncodeFields(d, keys).value|))
    decreases d, 0, |keys|
  {
    hide At, Encode, Decode, ReadType, ReadHeader, DecodeLeaf, DecodeItems, DecodeFields, ReadKey, Picked, ReadBytes, Reread;
    var fields := Reread(d).fields;
    if keys != [] {
      var key, rest := keys[0], keys[1..];
      var b, p := Encode(d.fields[key]).value, EncodeFields(d, rest).value;
      assert EncodeFields(d, keys).value == [|key|] + key + (b + p);
      KeyBack(buf, off, key, b + p);
      AtSplit(buf, off + 1 + |key|, b, p);
      DecodeBack(buf, off + 1 + |key|, d.fields[key]);
      FieldsBack(buf, off + 1 + |key| + |b|, d, rest);
      PickedStep(fields, keys);
      var end := off + 1 + |key| + |b|;
      FieldsStep(buf, off, key, off + 1 + |key|, fields[key], end, Picked(fields, rest), end + |p|, |rest|);
    } else {
      NoFields(buf, off, EncodeFields(d, keys).value);
    }
  }

  lemma KeyBack(buf: bytes, off: nat, key: bytes, rest: bytes)
    requires |key| <= 255 && At(buf, off, [|key|] + key + rest)
    ensures At(buf, off + 1 + |key|, rest)
    ensures ReadKey(buf, off, T_OBJECT) == Some((key, off + 1 + |key|))
  {
    AtSplit(buf, off, [|key|] + key, rest);
    AtSplit(buf, off, [|key|], key);
    AtByte(buf, off, |key|);
  }

  // ----- stored documents -----

  /** `isJBLDocument`: the root is a container whose declared size is the length of the buffer. */
  predicate IsJbl(raw: bytes) {
    |raw| >= 3 &&
    match ReadType(raw, 0)
    case None => false
    case Some((typ, off1)) =>
      match ReadSized(raw, off1)
      case None => false
      case Some((size, off2)) =>
        match ReadSized(raw, off2)
        case None => false
        case Some((_, body)) => IsContainer(typ) && size == |raw| && body <= size
  }

  /** `decodeStoredDocument`, which also renders the document as JSON text. */
  function DecodeStored(raw: bytes): Option<Doc> {
    if !IsJbl(raw) then None else
    match Decode(raw, 0)
    case None => None
    case Some((d, end)) => if end == |raw| && HasText(d) then Some(d) else None
  }

  /**
   What the store refuses to write is exactly what is not storable; a stored document comes back as it
   was if and only if no float in it is an integer below a million (nor without JSON text).
   */
  lemma StoredRoundTrip(d: Doc)
    ensures EncodeStored(d).Some? <==> Storable(d)
    ensures Storable(d) && |EncodeStored(d).value| < TWO_31 ==>
              && IsJbl(EncodeStored(d).value)
              && DecodeStored(EncodeStored(d).value) == (if HasText(d) then Some(Reread(d)) else None)
              && (DecodeStored(EncodeStored(d).value) == Some(d) <==> Stable(d) && HasText(d))
  {
    hide Encode, Decode, Packable, IsJbl, Reread, Stable, HasText;
    EncodeSucceeds(d);
    RereadExactly(d);
    RereadHasText(d);
    if Storable(d) && |Encode(d).value| < TWO_31 {
      var raw := Encode(d).value;
      AtStart(raw);
      DecodeBack(raw, 0, d);
      RootIsJbl(d);
    }
  }

  lemma AtStart(raw: bytes)
    ensures At(raw, 0, raw)
  {
  }

  lemma RootIsJbl(d: Doc)
    requires (d.Arr? || d.Obj?) && Encode(d).Some? && |Encode(d).value| < TWO_31
    ensures IsJbl(Encode(d).value)
  {
    hide Encode, EncodeItems, EncodeFields, IsJbl, Container, SortedKeys;
    if d.Arr? {
      ListParts(d);
      HeaderIsJbl(Encode(d).value, T_LIST, |d.items|, EncodeItems(d, 0).value);
    } else {
      ObjectParts(d);
      HeaderIsJbl(Encode(d).value, T_OBJECT, |d.fields|, EncodeFields(d, SortedKeys(d.fields.Keys)).value);
    }
  }

  lemma HeaderIsJbl(raw: bytes, typ: byte, count: nat, payload: bytes)
    requires IsContainer(typ) && raw == Container(typ, count, payload)
    requires |raw| < TWO_31 && count <= |payload|
    ensures IsJbl(raw)
  {
    hide Decode, ReadSized, SizedBytes, BigEndian, FromBigEndian;
    assert At(raw, 0, raw);
    HeaderBack(raw, 0, typ, count, payload);
    var size := ContainerSize(1 + SizedLen(count) + |payload|);
    ContainerLength(typ, count, payload);
    assert raw == [typ] + (SizedBytes(size) + (SizedBytes(count) + payload));
    AtSplit(raw, 0, [typ], SizedBytes(size) + (SizedBytes(count) + payload));
    AtSplit(raw, 1, SizedBytes(size), SizedBytes(count) + payload);
    ReadSizedBack(raw, 1, size);
  }

  // ----- the decoder on arbitrary bytes -----

  /** The offsets and ends of a decoded value and of everything nested in it. */
  ghost function Spans(buf: bytes, off: nat): set<(nat, nat)>
    requires off <= |buf| && Decode(buf, off).Some?
    decreases |buf| - off, 0
  {
    var (typ, off1) := ReadType(buf, off).value;
    {(off, Decode(buf, off).value.1)} +
    if !IsContainer(typ) then {} else
    var h := ReadHeader(buf, off1, typ).value;
    if typ == T_LIST then ItemSpans(buf, h.body, h.count) else FieldSpans(buf, h.body, h.count, typ)
  }

  ghost function ItemSpans(buf: bytes, off: nat, count: nat): set<(nat, nat)>
    requires off <= |buf| && DecodeItems(buf, off, count).Some?
    decreases |buf| - off, 1
  {
    if count == 0 then {} else
    Spans(buf, off) + ItemSpans(buf, Decode(buf, off).value.1, count - 1)
  }

  ghost function FieldSpans(buf: bytes, off: nat, count: nat, typ: nat): set<(nat, nat)>
    requires off <= |buf| && DecodeFields(buf, off, count, typ).Some?
    decreases |buf| - off, 1
  {
    if count == 0 then {} else
    var start := ReadKey(buf, off, typ).value.1;
    Spans(buf, start) + FieldSpans(buf, Decode(buf, start).value.1, count - 1, typ)
  }

  ghost predicate Within(buf: bytes, spans: set<(nat, nat)>, from: nat, to: nat) {
    forall s | s in spans ::
      from <= s.0 < s.1 <= to <= |buf| && Decode(buf, s.0).Some? && Decode(buf, s.0).value.1 == s.1
  }

  /** Every value nested in an accepted one, at any depth, ends by the end of every value around it. */
  lemma {:induction false} NestedWithin(buf: bytes, off: nat)
    requires off <= |buf| && Decode(buf, off).Some?
    ensures Within(buf, Spans(buf, off), off, Decode(buf, off).value.1)
    decreases |buf| - off, 0
  {
    var (typ, off1) := ReadType(buf, off).value;
    if IsContainer(typ) {
      var h := ReadHeader(buf, off1, typ).value;
      if typ == T_LIST {
        ItemsWithin(buf, h.body, h.count);
      } else {
        FieldsWithin(buf, h.body, h.count, typ);
      }
    }
  }

  lemma {:induction false} ItemsWithin(buf: bytes, off: nat, count: nat)
    requires off <= |buf| && DecodeItems(buf, off, count).Some?
    ensures Within(buf, ItemSpans(buf, off, count), off, DecodeItems(buf, off, count).value.1)
    decreases |buf| - off, 1
  {
    hide Decode, Spans, ReadKey;
    if count > 0 {
      NestedWithin(buf, off);
      ItemsWithin(buf, Decode(buf, off).value.1, count - 1);
    }
  }

  lemma {:induction false} FieldsWithin(buf: bytes, off: nat, count: nat, typ: nat)
    requires off <= |buf| && DecodeFields(buf, off, count, typ).Some?
    ensures Within(buf, FieldSpans(buf, off, count, typ), off, DecodeFields(buf, off, count, typ).value.1)
    decreases |buf| - off, 1
  {
    hide Decode, Spans, ReadKey;
    if count > 0 {
      var start := ReadKey(buf, off, typ).value.1;
      NestedWithin(buf, start);
      FieldsWithin(buf, Decode(buf, start).value.1, count - 1, typ);
    }
  }

  /** The two header fields take as few bytes as their values need. */
  predicate MinimalHeader(buf: bytes, off: nat, typ: nat)
    requires off <= |buf| && ReadHeader(buf, off, typ).Some?
  {
    var h := ReadHeader(buf, off, typ).value;
    h.body == off + SizedLen(h.size) + SizedLen(h.count)
  }

  /**
   A container consumes its declared size exactly when its header is minimal; each field written in
   four bytes where one would do adds three.
   */
  lemma ConsumedIsDeclaredSize(buf: bytes, off: nat)
    requires off <= |buf| && Decode(buf, off).Some?
    requires IsContainer(ReadType(buf, off).value.0)
    ensures var (typ, off1) := ReadType(buf, off).value;
            var h := ReadHeader(buf, off1, typ).value;
            var consumed := Decode(buf, off).value.1 - off;
            && (consumed == h.size <==> MinimalHeader(buf, off1, typ))
            && consumed == h.size + (h.body - off1) - SizedLen(h.size) - SizedLen(h.count)
            && h.size <= consumed
  {
    hide DecodeItems, DecodeFields, DecodeLeaf, FromBigEndian;
    var (typ, off1) := ReadType(buf, off).value;
    var (size, off2) := ReadSized(buf, off1).value;
  }

  /** A stored document is accepted only with a minimal root header. */
  lemma AcceptedRootIsMinimal(raw: bytes)
    requires DecodeStored(raw).Some?
    ensures var (typ, off1) := ReadType(raw, 0).value;
            IsContainer(typ) && ReadHeader(raw, off1, typ).Some? && MinimalHeader(raw, off1, typ)
  {
    ConsumedIsDeclaredSize(raw, 0);
  }

  /** The test for bytes behind the root never fails: the header check has ruled them out. */
  lemma NoTrailingBytes(raw: bytes)
    requires IsJbl(raw) && Decode(raw, 0).Some?
    ensures Decode(raw, 0).value.1 == |raw|
  {
    ConsumedIsDeclaredSize(raw, 0);
  }

  /** An empty list that declares three bytes and takes six: the count is written in four. */
  lemma WideCountOverrun()
    ensures var raw: bytes := [T_LIST, 3, 0x80, 0, 0, 0];
            Decode(raw, 0) == Some((Arr([]), 6)) && ReadHeader(raw, 1, T_LIST).Some?
            && ReadHeader(raw, 1, T_LIST).value.size == 3
  {
    var raw: bytes := [T_LIST, 3, 0x80, 0, 0, 0];
    Pow256Values();
    assert raw[2..6] == BigEndian(TWO_31, 4) by {
      assert BigEndian(TWO_31, 4) == BigEndian(0x80_0000, 3) + [0];
      assert BigEndian(0x80_0000, 3) == BigEndian(0x8000, 2) + [0];
      assert BigEndian(0x8000, 2) == BigEndian(0x80, 1) + [0];
    }
    BigEndianRoundTrip(TWO_31, 4);
    assert ReadSized(raw, 2) == Some((0, 6));
    assert ReadHeader(raw, 1, T_LIST) == Some(Header(3, 0, 6, 6));
  }
}
