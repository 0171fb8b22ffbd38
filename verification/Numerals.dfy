/**
 The numerals of Go's strconv that the database depends on: hexadecimal and decimal, both ways.
 */
module Numerals {
  import opened Wrappers
  import opened Bytes

  const ZERO: byte := 0x30
  const MINUS: byte := 0x2d
  const PLUS: byte := 0x2b

  // ----- hexadecimal -----

  function HexDigit(d: nat): byte
    requires d < 16
  {
    if d < 10 then 0x30 + d else 0x57 + d
  }

  /** The digit value, upper case accepted, as `strconv.ParseUint(s, 16, 64)` does. */
  function HexValue(b: byte): (r: Option<nat>)
    ensures r.Some? ==> r.value < 16
  {
    if 0x30 <= b <= 0x39 then Some(b - 0x30)
    else if 0x61 <= b <= 0x66 then Some(b - 0x57)
    else if 0x41 <= b <= 0x46 then Some(b - 0x37)
    else None
  }

  /** `strconv.FormatUint(v, 16)` */
  function FormatHex(v: nat): (r: bytes)
    ensures |r| >= 1
  {
    if v < 16 then [HexDigit(v)] else FormatHex(v / 16) + [HexDigit(v % 16)]
  }

  function ParseHexDigits(s: bytes): Option<nat> {
    if |s| == 0 then Some(0) else
    match ParseHexDigits(s[..|s| - 1])
    case None => None
    case Some(n) =>
      match HexValue(s[|s| - 1])
      case None => None
      case Some(d) => Some(16 * n + d)
  }

  /** `strconv.ParseUint(s, 16, 64)` */
  function ParseHex(s: bytes): (r: Option<u64>) {
    match ParseHexDigits(s)
    case None => None
    case Some(n) => if |s| > 0 && n < TWO_64 then Some(n) else None
  }

  /** Exactly `width` digits, most significant first. */
  function HexDigits(v: nat, width: nat): (r: bytes)
    ensures |r| == width
  {
    if width == 0 then [] else HexDigits(v / 16, width - 1) + [HexDigit(v % 16)]
  }

  function Zeros(n: nat): (r: bytes)
    ensures |r| == n
  {
    seq(n, i => ZERO)
  }

  /** db.go's fixedHex64: format, then pad on the left to sixteen digits. */
  function FixedHex64(v: u64): bytes {
    var s := FormatHex(v);
    if |s| >= 16 then s else Zeros(16 - |s|) + s
  }

  function Pow16(n: nat): (r: nat)
    ensures r > 0
  {
    if n == 0 then 1 else 16 * Pow16(n - 1)
  }

  lemma Pow16Of16()
    ensures Pow16(16) == TWO_64
  {
    assert Pow16(4) == 0x1_0000;
    assert Pow16(8) == 0x1_0000 * Pow16(4);
    assert Pow16(12) == 0x1_0000 * Pow16(8);
    assert Pow16(16) == 0x1_0000 * Pow16(12);
  }

  lemma {:induction false} HexDigitsOfZero(width: nat)
    ensures HexDigits(0, width) == Zeros(width)
  {
    if width > 0 {
      HexDigitsOfZero(width - 1);
    }
  }

  lemma {:induction false} PaddedFormatHex(v: nat, width: nat)
    requires v < Pow16(width) && width > 0
    ensures |FormatHex(v)| <= width
    ensures Zeros(width - |FormatHex(v)|) + FormatHex(v) == HexDigits(v, width)
  {
    if v < 16 {
      HexDigitsOfZero(width - 1);
    } else {
      PaddedFormatHex(v / 16, width - 1);
      var f := FormatHex(v / 16);
      assert Zeros(width - 1 - |f|) + f + [HexDigit(v % 16)]
          == Zeros(width - 1 - |f|) + (f + [HexDigit(v % 16)]);
    }
  }

  lemma FixedHex64IsFixedWidth(v: u64)
    ensures FixedHex64(v) == HexDigits(v, 16)
    ensures |FixedHex64(v)| == 16
  {
    Pow16Of16();
    PaddedFormatHex(v, 16);
    if |FormatHex(v)| == 16 {
      assert Zeros(0) + FormatHex(v) == FormatHex(v);
    }
  }

  lemma {:induction false} ParseHexDigitsBack(v: nat, width: nat)
    requires v < Pow16(width)
    ensures ParseHexDigits(HexDigits(v, width)) == Some(v)
  {
    if width > 0 {
      var s := HexDigits(v, width);
      assert s[..width - 1] == HexDigits(v / 16, width - 1);
      ParseHexDigitsBack(v / 16, width - 1);
    }
  }

  lemma ParseFixedHex64(v: u64)
    ensures ParseHex(FixedHex64(v)) == Some(v)
  {
    Pow16Of16();
    FixedHex64IsFixedWidth(v);
    ParseHexDigitsBack(v, 16);
  }

  /** Fixed-width hexadecimal is order preserving. */
  lemma {:induction false} HexDigitsOrder(a: nat, b: nat, width: nat)
    requires a < Pow16(width) && b < Pow16(width)
    ensures Less(HexDigits(a, width), HexDigits(b, width)) <==> a < b
    ensures HexDigits(a, width) == HexDigits(b, width) <==> a == b
  {
    if width > 0 {
      HexDigitsOrder(a / 16, b / 16, width - 1);
      LessConcat(HexDigits(a / 16, width - 1), HexDigits(b / 16, width - 1),
                 [HexDigit(a % 16)], [HexDigit(b % 16)]);
      var x, y := HexDigits(a, width), HexDigits(b, width);
      assert x[..width - 1] == HexDigits(a / 16, width - 1) && y[..width - 1] == HexDigits(b / 16, width - 1);
      assert x[width - 1] == HexDigit(a % 16) && y[width - 1] == HexDigit(b % 16);
    }
  }

  lemma FixedHex64Order(a: u64, b: u64)
    ensures Less(FixedHex64(a), FixedHex64(b)) <==> a < b
    ensures FixedHex64(a) == FixedHex64(b) <==> a == b
  {
    Pow16Of16();
    FixedHex64IsFixedWidth(a);
    FixedHex64IsFixedWidth(b);
    HexDigitsOrder(a, b, 16);
  }

  // ----- decimal -----

  /** `strconv.FormatUint(v, 10)` */
  function FormatNat(v: nat): (r: bytes)
    ensures |r| >= 1
    ensures forall i | 0 <= i < |r| :: 0x30 <= r[i] <= 0x39
  {
    if v < 10 then [0x30 + v] else FormatNat(v / 10) + [0x30 + v % 10]
  }

  /** `strconv.FormatInt(v, 10)` */
  function FormatInt(v: int): bytes {
    if v < 0 then [MINUS] + FormatNat(-v) else FormatNat(v)
  }

  function ParseDigits(s: bytes): Option<nat> {
    if |s| == 0 then Some(0) else
    match ParseDigits(s[..|s| - 1])
    case None => None
    case Some(n) =>
      var d := s[|s| - 1];
      if 0x30 <= d <= 0x39 then Some(10 * n + (d - 0x30)) else None
  }

  /** `strconv.ParseInt(s, 10, 64)`, also Atoi: an optional sign, at least one digit, in range. */
  function ParseInt(s: bytes): Option<i64> {
    var signed := |s| > 0 && (s[0] == MINUS || s[0] == PLUS);
    var digits := if signed then s[1..] else s;
    if |digits| == 0 then None else
    match ParseDigits(digits)
    case None => None
    case Some(n) => InRange(if signed && s[0] == MINUS then 0 - n else n)
  }

  function InRange(v: int): Option<i64> {
    if MIN_I64 <= v <= MAX_I64 then Some(v) else None
  }

  lemma {:induction false} ParseDigitsBack(v: nat)
    ensures ParseDigits(FormatNat(v)) == Some(v)
  {
    var s := FormatNat(v);
    if v < 10 {
      assert s[..0] == [];
    } else {
      assert s[..|s| - 1] == FormatNat(v / 10);
      ParseDigitsBack(v / 10);
    }
  }

  lemma ParseIntBack(v: int)
    requires MIN_I64 <= v <= MAX_I64
    ensures ParseInt(FormatInt(v)) == Some(v)
  {
    hide ParseDigits, FormatNat;
    if v < 0 {
      ParseDigitsBack(-v);
      assert FormatInt(v)[1..] == FormatNat(-v);
    } else {
      ParseDigitsBack(v);
      assert 0x30 <= FormatNat(v)[0];
    }
  }

  // ----- the byte order of decimal numerals -----

  function Pow10(n: nat): (r: nat)
    ensures r > 0
  {
    if n == 0 then 1 else 10 * Pow10(n - 1)
  }

  /** Appending to the longer text does not change the order. */
  lemma {:induction false} LessAppend(x: bytes, y: bytes, z: bytes)
    ensures |x| > |y| ==> (Less(x + z, y) <==> Less(x, y))
    ensures |x| < |y| ==> (Less(x, y + z) <==> Less(x, y))
  {
    if |x| > 0 && |y| > 0 {
      LessAppend(x[1..], y[1..], z);
      assert (x + z)[1..] == x[1..] + z && (y + z)[1..] == y[1..] + z;
    }
  }

  /** Numerals of one length are ordered as their numbers. */
  lemma {:induction false} EqualLengthOrder(a: nat, b: nat)
    requires |FormatNat(a)| == |FormatNat(b)|
    ensures Less(FormatNat(a), FormatNat(b)) <==> a < b
    ensures FormatNat(a) == FormatNat(b) <==> a == b
  {
    if a >= 10 && b >= 10 {
      EqualLengthOrder(a / 10, b / 10);
      LessConcat(FormatNat(a / 10), FormatNat(b / 10), [0x30 + a % 10], [0x30 + b % 10]);
      assert FormatNat(a)[|FormatNat(a)| - 1] == 0x30 + a % 10 && FormatNat(b)[|FormatNat(b)| - 1] == 0x30 + b % 10;
      assert FormatNat(a)[..|FormatNat(a)| - 1] == FormatNat(a / 10) && FormatNat(b)[..|FormatNat(b)| - 1] == FormatNat(b / 10);
    } else if a < 10 && b < 10 {
      assert FormatNat(a)[0] == 0x30 + a && FormatNat(b)[0] == 0x30 + b;
    }
  }

  /** The first number, its numeral padded with zeros to the length of the other, does not exceed the other. */
  predicate NumeralBelow(a: nat, b: nat) {
    var m, n := |FormatNat(a)|, |FormatNat(b)|;
    if m <= n then a * Pow10(n - m) <= b && a != b else a < b * Pow10(m - n)
  }

  /** The byte order of numerals in terms of the numbers. */
  lemma {:induction false} NumeralOrder(a: nat, b: nat)
    ensures Less(FormatNat(a), FormatNat(b)) <==> NumeralBelow(a, b)
    decreases a + b
  {
    var x, y := FormatNat(a), FormatNat(b);
    if |x| == |y| {
      EqualLengthOrder(a, b);
      assert a * Pow10(0) == a;
    } else if |x| < |y| {
      ShorterFirst(a, b);
    } else {
      LongerFirst(a, b);
    }
  }

  lemma {:induction false} ShorterFirst(a: nat, b: nat)
    requires |FormatNat(a)| < |FormatNat(b)|
    ensures Less(FormatNat(a), FormatNat(b)) <==> a * Pow10(|FormatNat(b)| - |FormatNat(a)|) <= b && a != b
    decreases b
  {
    var x, y, c := FormatNat(a), FormatNat(b), b / 10;
    var z := FormatNat(c);
    var k := |z| - |x|;
    assert y == z + [0x30 + b % 10];
    assert a * Pow10(k + 1) == 10 * (a * Pow10(k)) by {
      Regrouped(a, Pow10(k));
    }
    if |x| == |z| {
      EqualLengthOrder(a, c);
      LessConcat(x, z, [], [0x30 + b % 10]);
      assert x + [] == x;
      assert a * Pow10(0) == a;
    } else {
      LessAppend(x, z, [0x30 + b % 10]);
      ShorterFirst(a, c);
    }
  }

  lemma {:induction false} LongerFirst(a: nat, b: nat)
    requires |FormatNat(a)| > |FormatNat(b)|
    ensures Less(FormatNat(a), FormatNat(b)) <==> a < b * Pow10(|FormatNat(a)| - |FormatNat(b)|)
    decreases a
  {
    var x, y, c := FormatNat(a), FormatNat(b), a / 10;
    var z := FormatNat(c);
    var k := |z| - |y|;
    assert x == z + [0x30 + a % 10];
    assert b * Pow10(k + 1) == 10 * (b * Pow10(k)) by {
      Regrouped(b, Pow10(k));
    }
    if |z| == |y| {
      EqualLengthOrder(c, b);
      LessConcat(z, y, [0x30 + a % 10], []);
      assert y + [] == y;
      assert b * Pow10(0) == b;
    } else {
      LessAppend(z, y, [0x30 + a % 10]);
      LongerFirst(c, b);
    }
  }

  lemma Regrouped(a: int, p: int)
    ensures a * (10 * p) == 10 * (a * p)
  {
  }
}
