/**
 The key space of the storage engine (storage.go).

 A key is a tag byte, a sign-flipped big-endian dbid and, depending on the tag, a document id or an
 index value.  Everything the database relies on about keys is proved here on the byte strings: keys
 of different entities never coincide, decoding undoes encoding, document keys sort by id, and the
 interval [p, prefixEnd(p)) holds exactly the keys that start with p.
 */
module Keys {
  import opened Wrappers
  import opened Bytes

  const TAG_DOC: byte := 0x10
  const TAG_SEQ: byte := 0x11
  const TAG_IDX: byte := 0x20
  const TAG_UIDX: byte := 0x21

  /** "meta/state" */
  const META_KEY: bytes := [0x6d, 0x65, 0x74, 0x61, 0x2f, 0x73, 0x74, 0x61, 0x74, 0x65]

  /** The entity a stored key stands for. */
  datatype Key =
    | MetaKey
    | SeqKey(dbid: i64)
    | DocKey(dbid: i64, id: i64)
    | IdxKey(dbid: i64, value: bytes, id: i64)
    | UIdxKey(dbid: i64, value: bytes)

  // ----- builders -----

  function I64Bytes(v: i64): (r: bytes)
    ensures |r| == 8
  {
    BigEndian(FlipTopBit(ToUnsigned(v)), 8)
  }

  /** `appendSegment(nil, s)`: the length as a uint32 (so it wraps), then the bytes. */
  function SegmentBytes(s: bytes): (r: bytes)
    ensures |r| == 4 + |s|
  {
    BigEndian(|s| % 0x1_0000_0000, 4) + s
  }

  function TagPrefix(tag: byte, dbid: i64): (r: bytes)
    ensures |r| == 9
  {
    [tag] + I64Bytes(dbid)
  }

  function ValuePrefix(tag: byte, dbid: i64, value: bytes): bytes {
    TagPrefix(tag, dbid) + SegmentBytes(value)
  }

  function KeyBytes(k: Key): bytes {
    match k
    case MetaKey => META_KEY
    case SeqKey(dbid) => TagPrefix(TAG_SEQ, dbid)
    case DocKey(dbid, id) => TagPrefix(TAG_DOC, dbid) + I64Bytes(id)
    case IdxKey(dbid, value, id) => ValuePrefix(TAG_IDX, dbid, value) + I64Bytes(id)
    case UIdxKey(dbid, value) => ValuePrefix(TAG_UIDX, dbid, value)
  }

  /** Index values fit the four-byte length field. */
  predicate Encodable(k: Key) {
    match k
    case IdxKey(_, value, _) => |value| < 0x1_0000_0000
    case UIdxKey(_, value) => |value| < 0x1_0000_0000
    case _ => true
  }

  // ----- readers: each returns the value and the advanced offset -----

  function ReadI64(src: bytes, off: nat): Option<(i64, nat)>
    requires off <= |src|
  {
    if |src| - off < 8 then None else
    FromBigEndianBound(src[off..off + 8]);
    Pow256Values();
    Some((ToSigned(FlipTopBit(FromBigEndian(src[off..off + 8]))), off + 8))
  }

  function ReadSegment(src: bytes, off: nat): (r: Option<(bytes, nat)>)
    requires off <= |src|
    ensures r.Some? ==> r.value.1 <= |src|
  {
    if |src| - off < 4 then None else
    var n := FromBigEndian(src[off..off + 4]);
    if |src| - (off + 4) < n then None else
    Some((src[off + 4..off + 4 + n], off + 4 + n))
  }

  function DecodeDocKey(key: bytes): Option<Key> {
    if |key| == 0 || key[0] != TAG_DOC then None else
    match ReadI64(key, 1)
    case None => None
    case Some((dbid, off)) =>
      match ReadI64(key, off)
      case None => None
      case Some((id, end)) => if end == |key| then Some(DocKey(dbid, id)) else None
  }

  function DecodeIndexKey(key: bytes): Option<Key> {
    if |key| == 0 || key[0] != TAG_IDX then None else
    match ReadI64(key, 1)
    case None => None
    case Some((dbid, off)) =>
      match ReadSegment(key, off)
      case None => None
      case Some((value, off2)) =>
        match ReadI64(key, off2)
        case None => None
        case Some((id, end)) => if end == |key| then Some(IdxKey(dbid, value, id)) else None
  }

  function DecodeUniqueIndexKey(key: bytes): Option<Key> {
    if |key| == 0 || key[0] != TAG_UIDX then None else
    match ReadI64(key, 1)
    case None => None
    case Some((dbid, off)) =>
      match ReadSegment(key, off)
      case None => None
      case Some((value, end)) => if end == |key| then Some(UIdxKey(dbid, value)) else None
  }

  // ----- round trips -----

  lemma ReadI64Back(pre: bytes, v: i64, post: bytes)
    ensures ReadI64(pre + I64Bytes(v) + post, |pre|) == Some((v, |pre| + 8))
  {
    var src := pre + I64Bytes(v) + post;
    assert src[|pre|..|pre| + 8] == I64Bytes(v);
    Pow256Values();
    BigEndianRoundTrip(FlipTopBit(ToUnsigned(v)), 8);
  }

  lemma ReadSegmentBack(pre: bytes, s: bytes, post: bytes)
    requires |s| < 0x1_0000_0000
    ensures ReadSegment(pre + SegmentBytes(s) + post, |pre|) == Some((s, |pre| + 4 + |s|))
  {
    var src := pre + SegmentBytes(s) + post;
    assert src[|pre|..|pre| + 4] == BigEndian(|s|, 4);
    assert src[|pre| + 4..|pre| + 4 + |s|] == s;
    Pow256Values();
    BigEndianRoundTrip(|s|, 4);
  }

  /** Every decoder returns exactly the key that was encoded, and refuses the other kinds. */
  lemma DecodeEncoded(k: Key)
    requires Encodable(k)
    ensures DecodeDocKey(KeyBytes(k)) == if k.DocKey? then Some(k) else None
    ensures DecodeIndexKey(KeyBytes(k)) == if k.IdxKey? then Some(k) else None
    ensures DecodeUniqueIndexKey(KeyBytes(k)) == if k.UIdxKey? then Some(k) else None
  {
    var b := KeyBytes(k);
    match k
    case MetaKey =>
    case SeqKey(dbid) =>
    case DocKey(dbid, id) =>
      assert b == [TAG_DOC] + I64Bytes(dbid) + I64Bytes(id);
      ReadI64Back([TAG_DOC], dbid, I64Bytes(id));
      assert b == TagPrefix(TAG_DOC, dbid) + I64Bytes(id) + [];
      ReadI64Back(TagPrefix(TAG_DOC, dbid), id, []);
    case IdxKey(dbid, value, id) =>
      assert b == [TAG_IDX] + I64Bytes(dbid) + (SegmentBytes(value) + I64Bytes(id));
      ReadI64Back([TAG_IDX], dbid, SegmentBytes(value) + I64Bytes(id));
      ReadSegmentBack(TagPrefix(TAG_IDX, dbid), value, I64Bytes(id));
      assert b == ValuePrefix(TAG_IDX, dbid, value) + I64Bytes(id) + [];
      ReadI64Back(ValuePrefix(TAG_IDX, dbid, value), id, []);
    case UIdxKey(dbid, value) =>
      assert b == [TAG_UIDX] + I64Bytes(dbid) + SegmentBytes(value);
      ReadI64Back([TAG_UIDX], dbid, SegmentBytes(value));
      assert b == TagPrefix(TAG_UIDX, dbid) + SegmentBytes(value) + [];
      ReadSegmentBack(TagPrefix(TAG_UIDX, dbid), value, []);
  }

  lemma I64BytesOrder(a: i64, b: i64)
    ensures Less(I64Bytes(a), I64Bytes(b)) <==> a < b
    ensures I64Bytes(a) == I64Bytes(b) <==> a == b
  {
    Pow256Values();
    BigEndianRoundTrip(FlipTopBit(ToUnsigned(a)), 8);
    BigEndianRoundTrip(FlipTopBit(ToUnsigned(b)), 8);
    BigEndianOrder(I64Bytes(a), I64Bytes(b));
  }

  /** Two entities never share a stored key. */
  lemma KeyBytesInjective(a: Key, b: Key)
    requires Encodable(a) && Encodable(b)
    requires KeyBytes(a) == KeyBytes(b)
    ensures a == b
  {
    DecodeEncoded(a);
    DecodeEncoded(b);
    if a.SeqKey? {
      assert KeyBytes(a)[0] == TAG_SEQ;
      assert b.SeqKey?;
      assert KeyBytes(a)[1..] == I64Bytes(a.dbid) && KeyBytes(b)[1..] == I64Bytes(b.dbid);
      I64BytesOrder(a.dbid, b.dbid);
    } else if a.MetaKey? {
      assert KeyBytes(b)[0] == 0x6d;
    }
  }

  /** Documents of a collection are scanned in ascending id order. */
  lemma DocKeysSortById(dbid: i64, id1: i64, id2: i64)
    ensures Less(KeyBytes(DocKey(dbid, id1)), KeyBytes(DocKey(dbid, id2))) <==> id1 < id2
  {
    LessCommonPrefix(TagPrefix(TAG_DOC, dbid), I64Bytes(id1), I64Bytes(id2));
    I64BytesOrder(id1, id2);
  }

  // ----- prefix intervals -----

  /** The smallest string above every extension of `prefix`, or None when there is none. */
  function PrefixEnd(prefix: bytes): Option<bytes> {
    if |prefix| == 0 then None
    else
      var n := |prefix| - 1;
      if prefix[n] != 255 then Some(prefix[..n] + [prefix[n] + 1]) else PrefixEnd(prefix[..n])
  }

  /** storage.go's loop: copy, increment the last byte that is not 0xff, cut after it. */
  method ComputePrefixEnd(prefix: bytes) returns (r: Option<bytes>)
    ensures r == PrefixEnd(prefix)
  {
    var end := new byte[|prefix|](i requires 0 <= i < |prefix| => prefix[i]);
    var i := |prefix|;
    assert prefix[..i] == prefix;
    while i > 0
      invariant 0 <= i <= |prefix|
      invariant end[..] == prefix
      invariant PrefixEnd(prefix[..i]) == PrefixEnd(prefix)
    {
      i := i - 1;
      assert prefix[..i + 1][..i] == prefix[..i];
      assert end[i] == end[..][i];
      if end[i] != 255 {
        end[i] := end[i] + 1;
        assert end[..i + 1] == prefix[..i] + [prefix[i] + 1];
        return Some(end[..i + 1]);
      }
    }
    return None;
  }

  /** `lower <= k < upper`, an absent upper bound being infinite: what an iterator visits. */
  predicate InInterval(k: bytes, lower: bytes, upper: Option<bytes>) {
    !Less(k, lower) && (upper.Some? ==> Less(k, upper.value))
  }

  /** [p, prefixEnd(p)) is exactly the set of strings starting with p. */
  lemma {:induction false} PrefixIntervalExact(p: bytes, k: bytes)
    ensures InInterval(k, p, PrefixEnd(p)) <==> p <= k
  {
    PrefixUpperBound(p, k);
    if p <= k {
      PrefixNotLess(p, k[|p|..]);
      assert k == p + k[|p|..];
    } else if PrefixEnd(p).None? && !Less(k, p) {
      NoEndMeansAllOnes(p);
      AllOnesLowerBound(p, k);
    }
  }

  lemma PrefixNotLess(p: bytes, s: bytes)
    ensures !Less(p + s, p)
  {
    LessCommonPrefix(p, s, []);
    assert p + [] == p;
  }

  /** Below PrefixEnd(p) means below p or an extension of p. */
  lemma {:induction false} PrefixUpperBound(p: bytes, k: bytes)
    ensures (PrefixEnd(p).Some? ==> Less(k, PrefixEnd(p).value)) <==> Less(k, p) || p <= k || PrefixEnd(p).None?
  {
    if |p| > 0 {
      var n := |p| - 1;
      var init := p[..n];
      assert p == init + [p[n]];
      if p[n] == 255 {
        PrefixUpperBound(init, k);
        if init <= k {
          var rest := k[n..];
          assert k == init + rest;
          LessCommonPrefix(init, rest, [p[n]]);
          assert |rest| > 0 && rest[0] == 255 ==> p <= k;
        } else {
          NotPrefixOrder(init, k, [p[n]]);
        }
      } else {
        var up := init + [p[n] + 1];
        if init <= k {
          var rest := k[n..];
          assert k == init + rest;
          LessCommonPrefix(init, rest, [p[n]]);
          LessCommonPrefix(init, rest, [p[n] + 1]);
          assert Less(rest, [p[n] + 1]) <==> |rest| == 0 || rest[0] <= p[n];
          assert Less(rest, [p[n]]) <==> |rest| == 0 || rest[0] < p[n];
        } else {
          NotPrefixOrder(init, k, [p[n]]);
          NotPrefixOrder(init, k, [p[n] + 1]);
        }
      }
    }
  }

  lemma {:induction false} NoEndMeansAllOnes(p: bytes)
    requires PrefixEnd(p).None?
    ensures forall i | 0 <= i < |p| :: p[i] == 255
  {
    if |p| > 0 {
      NoEndMeansAllOnes(p[..|p| - 1]);
      assert p == p[..|p| - 1] + [p[|p| - 1]];
    }
  }

  /** Nothing but extensions lies above a string of 0xff bytes. */
  lemma {:induction false} AllOnesLowerBound(p: bytes, k: bytes)
    requires forall i | 0 <= i < |p| :: p[i] == 255
    requires !Less(k, p)
    ensures p <= k
  {
    if |p| > 0 {
      AllOnesLowerBound(p[1..], k[1..]);
      assert p == [p[0]] + p[1..] && k == [k[0]] + k[1..];
    }
  }

  /** A string that does not extend `p` compares with every extension of `p` as it does with `p`. */
  lemma {:induction false} NotPrefixOrder(p: bytes, k: bytes, s: bytes)
    requires !(p <= k)
    ensures Less(k, p + s) <==> Less(k, p)
  {
    if |k| > 0 && k[0] == p[0] {
      assert p == [p[0]] + p[1..] && k == [k[0]] + k[1..];
      NotPrefixOrder(p[1..], k[1..], s);
      assert (p + s)[1..] == p[1..] + s;
    }
  }
}
