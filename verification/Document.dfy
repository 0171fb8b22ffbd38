/** The document type shared by the codec, the pointer operations, the store and the queries. */
module Document {
  import opened Wrappers
  import opened Bytes
  import opened Floats

  /**
   A JSON value after parsing.  A number is an int64 or a 64-bit float pattern, never text; strings
   and object keys are Go strings, that is, bytes.  Foreign stands for what only the binary decoder
   can produce (blobs, float32, integers above the int64 range): a type code and its payload.
   */
  datatype Doc =
    | Null
    | Bool(b: bool)
    | Int(i: i64)
    | Float(bits: u64)
    | Str(s: bytes)
    | Arr(items: seq<Doc>)
    | Obj(fields: map<bytes, Doc>)
    | Foreign(typ: nat, payload: bytes)

  /** Object keys fit the one-byte length of the binary form, and nothing foreign occurs. */
  predicate Packable(d: Doc) {
    match d
    case Arr(items) => forall i | 0 <= i < |items| :: Packable(items[i])
    case Obj(fields) => forall k | k in fields :: |k| <= 255 && Packable(fields[k])
    case Foreign(_, _) => false
    case _ => true
  }

  /** What a commit can write: an object or array whose keys fit (jbl.go's encodeStoredDocument). */
  predicate Storable(d: Doc) {
    (d.Obj? || d.Arr?) && Packable(d)
  }

  // ----- what the codec returns -----

  /** A float as the decoder returns it: its shortest text, which may be the numeral of an integer. */
  function AsRead(u: u64): Doc {
    match SmallInteger(u)
    case Some(n) => Int(n)
    case None => Float(u)
  }

  /** The document a stored one is read back as. */
  function Reread(d: Doc): (r: Doc)
    ensures d.Arr? <==> r.Arr?
    ensures d.Obj? <==> r.Obj?
    ensures d.Arr? ==> |r.items| == |d.items| && forall i | 0 <= i < |d.items| :: r.items[i] == Reread(d.items[i])
    ensures d.Obj? ==> r.fields.Keys == d.fields.Keys && forall k | k in d.fields :: r.fields[k] == Reread(d.fields[k])
  {
    match d
    case Float(u) => AsRead(u)
    case Arr(items) => Arr(seq(|items|, i requires 0 <= i < |items| => Reread(items[i])))
    case Obj(fields) => Obj(map k | k in fields :: Reread(fields[k]))
    case _ => d
  }

  /** A float is read as an integer if and only if it is that integer, which lies below a million. */
  lemma AsReadExactly(u: u64, n: i64)
    ensures AsRead(u) == Int(n) <==> -MILLION < n < MILLION && FloatValue(u) == n * Pow2(1074)
    ensures (forall m :: AsRead(u) != Int(m)) ==> AsRead(u) == Float(u)
  {
    hide SmallInteger, FloatValue, Pow2;
    SmallIntegerExact(u, n);
    if SmallInteger(u).Some? {
      assert AsRead(u) == Int(SmallInteger(u).value);
    }
  }

  /** Every float at any depth satisfies `p`. */
  predicate AllFloats(d: Doc, p: u64 -> bool) {
    match d
    case Float(u) => p(u)
    case Arr(items) => forall i | 0 <= i < |items| :: AllFloats(items[i], p)
    case Obj(fields) => forall k | k in fields :: AllFloats(fields[k], p)
    case _ => true
  }

  /** No float is an integer below a million: the documents that come back as they were written. */
  predicate Stable(d: Doc) {
    AllFloats(d, (u: u64) => SmallInteger(u).None?)
  }

  /** The type code of a 32-bit float. */
  const FLOAT32_TYPE: nat := 0x62

  /** The exponent field of a 32-bit pattern is not all ones. */
  predicate IsFinite32(payload: bytes) {
    FromBigEndian(payload) % 0x8000_0000 < 255 * 0x80_0000
  }

  /** What marshalJSON renders: JSON has no text for NaN and the infinities, of either width. */
  predicate HasText(d: Doc) {
    match d
    case Float(u) => IsFinite(u)
    case Foreign(typ, payload) => typ == FLOAT32_TYPE ==> IsFinite32(payload)
    case Arr(items) => forall i | 0 <= i < |items| :: HasText(items[i])
    case Obj(fields) => forall k | k in fields :: HasText(fields[k])
    case _ => true
  }

  /** A document comes back unchanged if and only if no float in it is an integer below a million. */
  lemma {:induction false} RereadExactly(d: Doc)
    ensures Reread(d) == d <==> Stable(d)
  {
    match d
    case Float(u) =>
    case Arr(items) =>
      forall i | 0 <= i < |items| ensures Reread(items[i]) == items[i] <==> Stable(items[i]) {
        RereadExactly(items[i]);
      }
      assert Reread(d) == d <==> Reread(d).items == items;
    case Obj(fields) =>
      forall k | k in fields ensures Reread(fields[k]) == fields[k] <==> Stable(fields[k]) {
        RereadExactly(fields[k]);
      }
      assert Reread(d) == d <==> Reread(d).fields == fields;
    case _ =>
  }

  /** What was read back once comes back unchanged. */
  lemma {:induction false} RereadIsStable(d: Doc)
    ensures Stable(Reread(d))
  {
    match d
    case Float(u) =>
    case Arr(items) =>
      forall i | 0 <= i < |items| ensures Stable(Reread(items[i])) {
        RereadIsStable(items[i]);
      }
    case Obj(fields) =>
      forall k | k in fields ensures Stable(Reread(fields[k])) {
        RereadIsStable(fields[k]);
      }
    case _ =>
  }

  lemma {:induction false} RereadHasText(d: Doc)
    ensures HasText(Reread(d)) <==> HasText(d)
  {
    match d
    case Float(u) =>
    case Arr(items) =>
      forall i | 0 <= i < |items| ensures HasText(Reread(items[i])) <==> HasText(items[i]) {
        RereadHasText(items[i]);
      }
      var r := Reread(d);
      assert forall i | 0 <= i < |items| :: HasText(r.items[i]) <==> HasText(items[i]);
    case Obj(fields) =>
      forall k | k in fields ensures HasText(Reread(fields[k])) <==> HasText(fields[k]) {
        RereadHasText(fields[k]);
      }
      var r := Reread(d);
      assert forall k | k in fields :: HasText(r.fields[k]) <==> HasText(fields[k]);
    case _ =>
  }

  /** The pattern of 1.0. */
  const FLOAT_ONE: u64 := 0x3ff0_0000_0000_0000

  /** {"a": 1.0} is read back as {"a": 1}. */
  lemma OneReadsAsInteger(key: bytes)
    ensures SmallInteger(FLOAT_ONE) == Some(1)
    ensures !Stable(Obj(map[key := Float(FLOAT_ONE)]))
    ensures Reread(Obj(map[key := Float(FLOAT_ONE)])) == Obj(map[key := Int(1)])
  {
    hide Pow2;
    assert Magnitude(FLOAT_ONE) / TWO_52 == 1023 && Magnitude(FLOAT_ONE) % TWO_52 == 0;
    Pow2Of52();
    var d := Obj(map[key := Float(FLOAT_ONE)]);
    assert AsRead(FLOAT_ONE) == Int(1);
    assert Reread(d).fields == map[key := Int(1)];
    assert !AllFloats(d.fields[key], (u: u64) => SmallInteger(u).None?);
  }
}
