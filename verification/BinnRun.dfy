/**
 The binary codec as it runs (jbl.go): the encoder that appends payloads and the decoder that moves
 an offset, each proved equal to the functions of Binn.
 */
module BinnRun {
  import opened Wrappers
  import opened Bytes
  import opened Numerals
  import opened Document
  import opened Ordering
  import opened Binn

  /** The keys of a map, collected in any order and sorted; None when one is too long. */
  method CollectKeys(fields: map<bytes, Doc>) returns (r: Option<seq<bytes>>)
    ensures r.None? <==> exists k :: k in fields && |k| > 255
    ensures r.Some? ==> r.value == SortedKeys(fields.Keys)
  {
    var rest, keys := fields.Keys, [];
    while rest != {}
      invariant rest <= fields.Keys && Sorted(Less, keys) && |keys| + |rest| == |fields.Keys|
      invariant forall k :: k in keys <==> k in fields && k !in rest
      invariant forall k | k in keys :: |k| <= 255
      decreases |rest|
    {
      var k :| k in rest;
      if |k| > 255 {
        return None;
      }
      BytesOrdered(keys + [k]);
      keys := Insert(Less, keys, k);
      rest := rest - {k};
    }
    BytesOrdered(keys);
    SortedUnique(Less, keys, SortedKeys(fields.Keys));
    return Some(keys);
  }

  /** `binnEncodeValue` */
  method ComputeEncode(d: Doc) returns (r: Option<bytes>)
    ensures r == Encode(d)
    decreases d, 2
  {
    match d
    case Null => r := Some([T_NULL]);
    case Bool(b) => r := Some([if b then T_TRUE else T_FALSE]);
    case Int(i) => r := Some(EncodeInt(i));
    case Float(bits) => r := Some([T_FLOAT64] + BigEndian(bits, 8));
    case Str(s) => r := Some(EncodeText(s));
    case Arr(_) => r := EncodeList(d);
    case Obj(_) => r := EncodeObject(d);
    case Foreign(_, _) => r := None;
  }

  method EncodeList(d: Doc) returns (r: Option<bytes>)
    requires d.Arr?
    ensures r == Encode(d)
    decreases d, 0
  {
    var payload: bytes := [];
    var n := 0;
    while n < |d.items|
      invariant n <= |d.items|
      invariant EncodeItems(d, 0) == Prepend(payload, EncodeItems(d, n))
    {
      var b := ComputeEncode(d.items[n]);
      if b.None? {
        return None;
      }
      PrependTwice(payload, b.value, EncodeItems(d, n + 1));
      payload := payload + b.value;
      n := n + 1;
    }
    var c := ComputeContainer(T_LIST, |d.items|, payload);
    return Some(c);
  }

  method EncodeObject(d: Doc) returns (r: Option<bytes>)
    requires d.Obj?
    ensures r == Encode(d)
    decreases d, 1
  {
    hide EncodeFields, SortedKeys, Container, EncodeItems;
    var collected := CollectKeys(d.fields);
    if collected.None? {
      return None;
    }
    var payload := FieldsPayload(d, collected.value);
    if payload.None? {
      return None;
    }
    assert |d.fields.Keys| == |d.fields|;
    var c := ComputeContainer(T_OBJECT, |collected.value|, payload.value);
    return Some(c);
  }

  method FieldsPayload(d: Doc, keys: seq<bytes>) returns (r: Option<bytes>)
    requires d.Obj? && forall i | 0 <= i < |keys| :: keys[i] in d.fields && |keys[i]| <= 255
    ensures r == EncodeFields(d, keys)
    decreases d, 0
  {
    hide Encode, Prepend;
    var payload: bytes := [];
    var n := 0;
    while n < |keys|
      invariant n <= |keys|
      invariant EncodeFields(d, keys) == Prepend(payload, EncodeFields(d, keys[n..]))
    {
      var k := keys[n];
      ghost var rest := EncodeFields(d, keys[n + 1..]);
      assert keys[n..][0] == k && keys[n..][1..] == keys[n + 1..];
      var b := ComputeEncode(d.fields[k]);
      if b.None? {
        PrependNone(payload);
        return None;
      }
      PrependMember(k, b.value, rest);
      PrependTwice(payload, [|k|] + k + b.value, rest);
      payload := payload + ([|k|] + k + b.value);
      n := n + 1;
    }
    return Some(payload);
  }

  lemma PrependNone(p: bytes)
    ensures Prepend(p, None).None?
  {
  }

  /** A payload so far, and what the rest comes to. */
  ghost function Prepend(p: bytes, rest: Option<bytes>): (r: Option<bytes>)
    ensures p == [] ==> r == rest
    ensures rest == Some([]) ==> r == Some(p)
  {
    match rest
    case None => None
    case Some(q) =>
      assert (p == [] ==> p + q == q) && (q == [] ==> p + q == p);
      Some(p + q)
  }

  lemma PrependTwice(p: bytes, b: bytes, rest: Option<bytes>)
    ensures Prepend(p, Prepend(b, rest)) == Prepend(p + b, rest)
  {
    assert rest.Some? ==> p + (b + rest.value) == p + b + rest.value;
  }

  lemma PrependMember(k: bytes, b: bytes, rest: Option<bytes>)
    requires |k| <= 255
    ensures Prepend([|k|] + k + b, rest) == if rest.Some? then Some([|k|] + k + b + rest.value) else None
  {
  }

  /** `binnDecoder`: a buffer and an offset that every reader moves. */
  class Decoder {
    const buf: bytes
    var off: nat

    ghost predicate Valid()
      reads this
    {
      off <= |buf|
    }

    /** A read gave what the function gives, and moved the offset behind it. */
    ghost predicate Agrees<T(!new)>(spec: Read<T>, r: Option<T>)
      reads this
    {
      match spec
      case None => r.None?
      case Some((v, end)) => r == Some(v) && off == end
    }

    constructor (raw: bytes)
      ensures Valid() && buf == raw && off == 0
    {
      buf, off := raw, 0;
    }

    method Byte() returns (r: Option<byte>)
      requires Valid()
      modifies this
      ensures Valid() && old(off) <= off
      ensures r == if old(off) < |buf| then Some(buf[old(off)]) else None
      ensures r.Some? ==> off == old(off) + 1
    {
      if off >= |buf| {
        return None;
      }
      r := Some(buf[off]);
      off := off + 1;
    }

    method Bytes(n: nat) returns (r: Option<bytes>)
      requires Valid()
      modifies this
      ensures Valid() && old(off) <= off
      ensures Agrees(ReadBytes(buf, old(off), n), r)
    {
      if |buf| - off < n {
        return None;
      }
      r := Some(buf[off..off + n]);
      off := off + n;
    }

    /** `u16`, `u32` and `u64` */
    method Uint(width: nat) returns (r: Option<nat>)
      requires Valid()
      modifies this
      ensures Valid() && old(off) <= off
      ensures Agrees(ReadUint(buf, old(off), width), r)
    {
      if |buf| - off < width {
        return None;
      }
      r := Some(FromBigEndian(buf[off..off + width]));
      off := off + width;
    }

    method Sized() returns (r: Option<nat>)
      requires Valid()
      modifies this
      ensures Valid() && old(off) <= off
      ensures Agrees(ReadSized(buf, old(off)), r)
    {
      var b := Byte();
      if b.None? {
        return None;
      }
      if b.value < 0x80 {
        return Some(b.value);
      }
      if |buf| - off < 3 {
        return None;
      }
      var b0: nat, b1: nat, b2: nat, b3: nat := b.value, buf[off], buf[off + 1], buf[off + 2];
      FourBytes(buf, off - 1);
      off := off + 3;
      return Some((((b0 * 256 + b1) * 256 + b2) * 256 + b3) % TWO_31);
    }

    method Type() returns (r: Option<nat>)
      requires Valid()
      modifies this
      ensures Valid() && old(off) <= off
      ensures Agrees(ReadType(buf, old(off)), r)
    {
      var b := Byte();
      if b.None? {
        return None;
      }
      if (b.value / 16) % 2 == 0 {
        return Some(b.value);
      }
      var next := Byte();
      if next.None? {
        return None;
      }
      var high: nat := b.value;
      return Some(high * 256 + next.value);
    }

    /** `containerAfterType` */
    method ContainerHeader(typ: nat) returns (r: Option<Header>)
      requires Valid()
      modifies this
      ensures Valid() && old(off) <= off
      ensures r == ReadHeader(buf, old(off), typ)
      ensures r.Some? ==> off == r.value.body
    {
      var size := Sized();
      if size.None? {
        return None;
      }
      var count := Sized();
      if count.None? {
        return None;
      }
      var end: int := off + size.value - (TypeLen(typ) + SizedLen(size.value) + SizedLen(count.value));
      if size.value < 3 || end < off || end > |buf| || !IsContainer(typ) {
        return None;
      }
      return Some(Header(size.value, count.value, end, off));
    }

    method Text() returns (r: Option<Doc>)
      requires Valid()
      modifies this
      ensures Valid() && old(off) <= off
      ensures Agrees(DecodeText(buf, old(off)), r)
    {
      var n := Sized();
      if n.None? {
        return None;
      }
      var s := Bytes(n.value);
      if s.None? {
        return None;
      }
      var zero := Byte();
      if zero.None? || zero.value != 0 {
        return None;
      }
      return Some(Str(s.value));
    }

    method Integer(width: nat, signed: bool) returns (r: Option<Doc>)
      requires Valid() && 1 <= width <= 8
      modifies this
      ensures Valid() && old(off) <= off
      ensures Agrees(IntLeaf(ReadUint(buf, old(off), width), width, signed), r)
    {
      var u := Uint(width);
      if u.None? {
        return None;
      }
      return Some(IntLeaf(Some((u.value, off)), width, signed).value.0);
    }

    method Blob(typ: nat) returns (r: Option<Doc>)
      requires Valid() && IsBlob(typ)
      modifies this
      ensures Valid() && old(off) <= off
      ensures Agrees(DecodeLeaf(buf, old(off), typ), r)
    {
      var n := Uint(4);
      if n.None? {
        return None;
      }
      var b := Bytes(n.value);
      if b.None? {
        return None;
      }
      return Some(Foreign(typ, b.value));
    }

    method Leaf(typ: nat) returns (r: Option<Doc>)
      requires Valid() && !IsContainer(typ)
      modifies this
      ensures Valid() && old(off) <= off
      ensures Agrees(DecodeLeaf(buf, old(off), typ), r)
    {
      hide FromBigEndian;
      if typ == T_NULL {
        r := Some(Null);
      } else if typ == T_TRUE {
        r := Some(Doc.Bool(true));
      } else if typ == T_FALSE {
        r := Some(Doc.Bool(false));
      } else if typ == T_UINT8 || typ == T_INT8 {
        r := Integer(1, typ == T_INT8);
      } else if typ == T_UINT16 || typ == T_INT16 {
        r := Integer(2, typ == T_INT16);
      } else if typ == T_UINT32 || typ == T_INT32 {
        r := Integer(4, typ == T_INT32);
      } else if typ == T_UINT64 || typ == T_INT64 || typ == T_CURRENCY {
        r := Integer(8, typ != T_UINT64);
      } else if typ == T_FLOAT32 {
        var b := Bytes(4);
        r := if b.None? then None else Some(Foreign(typ, b.value));
      } else if typ == T_FLOAT64 {
        Pow256Values();
        var u := Uint(8);
        r := if u.None? then None else Some(AsRead(u.value));
      } else if IsText(typ) {
        r := Text();
      } else if IsBlob(typ) {
        r := Blob(typ);
      } else {
        r := None;
      }
    }

    /** `value` */
    method Value() returns (r: Option<Doc>)
      requires Valid()
      modifies this
      ensures Valid() && old(off) <= off
      ensures Agrees(Decode(buf, old(off)), r)
      decreases |buf| - off, 1
    {
      hide ReadType, ReadHeader, DecodeLeaf, DecodeItems, DecodeFields;
      var typ := Type();
      if typ.None? {
        return None;
      }
      if !IsContainer(typ.value) {
        r := Leaf(typ.value);
        return;
      }
      var h := ContainerHeader(typ.value);
      if h.None? {
        return None;
      }
      if typ.value == T_LIST {
        var items := Items(h.value.count);
        return if items.None? || off != h.value.end then None else Some(Arr(items.value));
      }
      var fields := Fields(h.value.count, typ.value);
      return if fields.None? || off != h.value.end then None else Some(Obj(fields.value));
    }

    method Items(count: nat) returns (r: Option<seq<Doc>>)
      requires Valid()
      modifies this
      ensures Valid() && old(off) <= off
      ensures Agrees(DecodeItems(buf, old(off), count), r)
      decreases |buf| - off, 2
    {
      hide Decode;
      var start := off;
      var out := [];
      var i := 0;
      while i < count
        invariant Valid() && start <= off && i <= count
        invariant DecodeItems(buf, start, count) == After(out, DecodeItems(buf, off, count - i))
        invariant i > 0 ==> off > start
      {
        var from := off;
        var v := Value();
        if v.None? {
          return None;
        }
        AfterStep(out, v.value, DecodeItems(buf, off, count - i - 1));
        out := out + [v.value];
        i := i + 1;
      }
      return Some(out);
    }

    method Fields(count: nat, typ: nat) returns (r: Option<map<bytes, Doc>>)
      requires Valid()
      modifies this
      ensures Valid() && old(off) <= off
      ensures Agrees(DecodeFields(buf, old(off), count, typ), r)
      decreases |buf| - off, 2
    {
      hide Decode, ReadKey;
      var start := off;
      var out := map[];
      var i := 0;
      while i < count
        invariant Valid() && start <= off && i <= count
        invariant DecodeFields(buf, start, count, typ) == Under(out, DecodeFields(buf, off, count - i, typ))
      {
        var key := MemberKey(typ);
        if key.None? {
          return None;
        }
        var v := Value();
        if v.None? {
          return None;
        }
        UnderStep(out, key.value, v.value, DecodeFields(buf, off, count - i - 1, typ));
        out := out[key.value := v.value];
        i := i + 1;
      }
      return Some(out);
    }

    method MemberKey(typ: nat) returns (r: Option<bytes>)
      requires Valid()
      modifies this
      ensures Valid() && old(off) <= off
      ensures Agrees(ReadKey(buf, old(off), typ), r)
    {
      if typ == T_OBJECT {
        var n := Byte();
        if n.None? {
          return None;
        }
        r := Bytes(n.value);
      } else {
        var u := Uint(4);
        return if u.None? then None else Some(FormatInt(Signed(u.value, 4)));
      }
    }
  }

  /** The elements so far, and what the rest of a list comes to. */
  ghost function After(out: seq<Doc>, rest: Read<seq<Doc>>): (r: Read<seq<Doc>>)
    ensures out == [] ==> r == rest
    ensures rest.Some? && rest.value.0 == [] ==> r == Some((out, rest.value.1))
  {
    match rest
    case None => None
    case Some((ds, end)) =>
      assert (out == [] ==> out + ds == ds) && (ds == [] ==> out + ds == out);
      Some((out + ds, end))
  }

  lemma AfterStep(out: seq<Doc>, d: Doc, rest: Read<seq<Doc>>)
    ensures After(out, After([d], rest)) == After(out + [d], rest)
  {
    assert rest.Some? ==> out + ([d] + rest.value.0) == out + [d] + rest.value.0;
  }

  /** The members so far, and what the rest of an object comes to: the rest wins. */
  ghost function Under(out: map<bytes, Doc>, rest: Read<map<bytes, Doc>>): (r: Read<map<bytes, Doc>>)
    ensures out == map[] ==> r == rest
    ensures rest.Some? && rest.value.0 == map[] ==> r == Some((out, rest.value.1))
  {
    match rest
    case None => None
    case Some((m, end)) =>
      assert (out == map[] ==> out + m == m) && (m == map[] ==> out + m == out);
      Some((out + m, end))
  }

  lemma UnderStep(out: map<bytes, Doc>, key: bytes, d: Doc, rest: Read<map<bytes, Doc>>)
    ensures Under(out, Under(map[key := d], rest)) == Under(out[key := d], rest)
  {
    assert rest.Some? ==> out + (map[key := d] + rest.value.0) == out[key := d] + rest.value.0;
  }

  lemma FourBytes(buf: bytes, off: nat)
    requires off + 4 <= |buf|
    ensures var b0: nat, b1: nat, b2: nat, b3: nat := buf[off], buf[off + 1], buf[off + 2], buf[off + 3];
            FromBigEndian(buf[off..off + 4]) == ((b0 * 256 + b1) * 256 + b2) * 256 + b3
  {
    var b := buf[off..off + 4];
    assert b[..3][..2] == b[..2] && b[..2][..1] == b[..1] && b[..1][..0] == [];
    assert FromBigEndian(b[..1]) == b[0];
    assert FromBigEndian(b[..2]) == 256 * FromBigEndian(b[..1]) + b[1];
    assert FromBigEndian(b[..3]) == 256 * FromBigEndian(b[..2]) + b[2];
  }

  /** `isJBLDocument`, which reads the header with a decoder of its own */
  method CheckJbl(raw: bytes) returns (ok: bool)
    ensures ok == IsJbl(raw)
  {
    if |raw| < 3 {
      return false;
    }
    var d := new Decoder(raw);
    var typ := d.Type();
    if typ.None? {
      return false;
    }
    var size := d.Sized();
    if size.None? {
      return false;
    }
    var count := d.Sized();
    if count.None? {
      return false;
    }
    return size.value >= d.off && size.value <= |raw| && IsContainer(typ.value) && size.value == |raw|;
  }

  /** `decodeStoredDocument`; the last test is marshalJSON's */
  method ReadStored(raw: bytes) returns (r: Option<Doc>)
    ensures r == DecodeStored(raw)
  {
    hide Decode, IsJbl;
    var ok := CheckJbl(raw);
    if !ok {
      return None;
    }
    var dec := new Decoder(raw);
    var v := dec.Value();
    if v.None? || dec.off != |raw| || !HasText(v.value) {
      return None;
    }
    return v;
  }
}
