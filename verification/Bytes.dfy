/**
 Byte strings, their lexicographic order, and fixed-width big-endian numbers.

 The storage engine orders keys by `bytes.Compare`; Go strings are byte strings too, so
 the same order is the order of strings.
 */
module Bytes {

  type byte = b: int | 0 <= b < 256

  type bytes = seq<byte>

  const TWO_63: int := 0x8000_0000_0000_0000
  const TWO_64: int := 0x1_0000_0000_0000_0000
  const MAX_I64: int := TWO_63 - 1
  const MIN_I64: int := -TWO_63

  type i64 = v: int | -0x8000_0000_0000_0000 <= v < 0x8000_0000_0000_0000

  type u64 = v: int | 0 <= v < 0x1_0000_0000_0000_0000

  // ----- lexicographic order -----

  /** `bytes.Compare(a, b) < 0` */
  predicate Less(a: bytes, b: bytes) {
    |b| > 0 && (|a| == 0 || a[0] < b[0] || (a[0] == b[0] && Less(a[1..], b[1..])))
  }

  lemma {:induction false} LessIrreflexive(a: bytes)
    ensures !Less(a, a)
  {
    if |a| > 0 {
      LessIrreflexive(a[1..]);
    }
  }

  lemma {:induction false} LessTransitive(a: bytes, b: bytes, c: bytes)
    requires Less(a, b) && Less(b, c)
    ensures Less(a, c)
  {
    if |a| > 0 && a[0] == b[0] && b[0] == c[0] {
      LessTransitive(a[1..], b[1..], c[1..]);
    }
  }

  lemma {:induction false} LessTotal(a: bytes, b: bytes)
    ensures Less(a, b) || a == b || Less(b, a)
  {
    if |a| > 0 && |b| > 0 && a[0] == b[0] {
      LessTotal(a[1..], b[1..]);
      assert a == [a[0]] + a[1..] && b == [b[0]] + b[1..];
    }
  }

  /** Equal-length heads decide the order; equal heads defer to the tails. */
  lemma {:induction false} LessConcat(x: bytes, y: bytes, s: bytes, t: bytes)
    requires |x| == |y|
    ensures Less(x + s, y + t) <==> Less(x, y) || (x == y && Less(s, t))
  {
    if |x| == 0 {
      assert x + s == s && y + t == t;
    } else {
      LessConcat(x[1..], y[1..], s, t);
      assert (x + s)[1..] == x[1..] + s && (y + t)[1..] == y[1..] + t;
      assert x == [x[0]] + x[1..] && y == [y[0]] + y[1..];
    }
  }

  /** A string is below its extensions, and a common prefix can be dropped. */
  lemma LessCommonPrefix(p: bytes, s: bytes, t: bytes)
    ensures Less(p + s, p + t) <==> Less(s, t)
  {
    LessIrreflexive(p);
    LessConcat(p, p, s, t);
  }

  // ----- big-endian numbers -----

  function Pow256(n: nat): (r: nat)
    ensures r > 0
  {
    if n == 0 then 1 else 256 * Pow256(n - 1)
  }

  lemma Pow256Values()
    ensures Pow256(1) == 0x100 && Pow256(2) == 0x1_0000 && Pow256(3) == 0x100_0000
    ensures Pow256(4) == 0x1_0000_0000
    ensures Pow256(8) == TWO_64
  {
    assert Pow256(4) == 256 * Pow256(3);
    assert Pow256(8) == 256 * Pow256(7) == 65536 * Pow256(6) == 16777216 * Pow256(5);
  }

  /** `binary.BigEndian.PutUintN`: the low `width` bytes of `n`, most significant first. */
  function BigEndian(n: nat, width: nat): (r: bytes)
    ensures |r| == width
  {
    if width == 0 then [] else BigEndian(n / 256, width - 1) + [n % 256]
  }

  /** `binary.BigEndian.UintN` */
  function FromBigEndian(b: bytes): nat {
    if |b| == 0 then 0 else 256 * FromBigEndian(b[..|b| - 1]) + b[|b| - 1]
  }

  lemma {:induction false} FromBigEndianBound(b: bytes)
    ensures FromBigEndian(b) < Pow256(|b|)
  {
    if |b| > 0 {
      FromBigEndianBound(b[..|b| - 1]);
    }
  }

  lemma QuotientBound(n: nat, p: nat)
    requires n < 256 * p
    ensures n / 256 < p
  {
  }

  lemma {:induction false} BigEndianRoundTrip(n: nat, width: nat)
    requires n < Pow256(width)
    ensures FromBigEndian(BigEndian(n, width)) == n
  {
    if width > 0 {
      var r := BigEndian(n, width);
      assert r[..width - 1] == BigEndian(n / 256, width - 1) && r[width - 1] == n % 256;
      QuotientBound(n, Pow256(width - 1));
      BigEndianRoundTrip(n / 256, width - 1);
    }
  }

  lemma {:induction false} FromBigEndianRoundTrip(b: bytes)
    ensures BigEndian(FromBigEndian(b), |b|) == b
  {
    if |b| > 0 {
      var init, last := b[..|b| - 1], b[|b| - 1];
      FromBigEndianRoundTrip(init);
      assert FromBigEndian(b) / 256 == FromBigEndian(init) && FromBigEndian(b) % 256 == last;
      assert b == init + [last];
    }
  }

  /** For strings of one length, byte order is numeric order. */
  lemma {:induction false} BigEndianOrder(x: bytes, y: bytes)
    requires |x| == |y|
    ensures Less(x, y) <==> FromBigEndian(x) < FromBigEndian(y)
    ensures x == y <==> FromBigEndian(x) == FromBigEndian(y)
  {
    if |x| > 0 {
      var xi, yi := x[..|x| - 1], y[..|y| - 1];
      var xl, yl := x[|x| - 1], y[|y| - 1];
      BigEndianOrder(xi, yi);
      LessConcat(xi, yi, [xl], [yl]);
      assert x == xi + [xl] && y == yi + [yl];
    }
  }

  // ----- two's complement and the sign flip -----

  /** `uint64(v)` for an int64 `v` */
  function ToUnsigned(v: i64): u64 {
    if v < 0 then v + TWO_64 else v
  }

  /** `int64(u)` for a uint64 `u` */
  function ToSigned(u: u64): i64 {
    if u < TWO_63 then u else u - TWO_64
  }

  /** `u ^ 0x8000000000000000` */
  function FlipTopBit(u: u64): u64 {
    if u < TWO_63 then u + TWO_63 else u - TWO_63
  }
}
