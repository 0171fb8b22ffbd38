/** 64-bit floats as bit patterns: the numbers they denote, and which of them are integers below a million. */
module Floats {
  import opened Wrappers
  import opened Bytes

  const TWO_52: int := 0x10_0000_0000_0000
  const NEG_ZERO: u64 := 0x8000_0000_0000_0000

  function Pow2(n: nat): (r: nat)
    ensures r > 0
  {
    if n == 0 then 1 else 2 * Pow2(n - 1)
  }

  function Magnitude(u: u64): (m: nat)
    ensures m < TWO_63
  {
    if u < TWO_63 then u else u - TWO_63
  }

  /** An exponent field of all ones with a non-zero fraction. */
  predicate IsNaN(u: u64) {
    Magnitude(u) > 2047 * TWO_52
  }

  /**
   The magnitude a pattern denotes, in units of 2^-1074: the fraction for a subnormal, otherwise
   (2^52 + fraction) shifted by the exponent.  Infinity comes out above every finite number.
   */
  function Scaled(m: nat): (r: nat) {
    var e, frac := m / TWO_52, m % TWO_52;
    if e == 0 then frac else (TWO_52 + frac) * Pow2(e - 1)
  }

  /** The number a pattern that is not NaN denotes, in units of 2^-1074. */
  function FloatValue(u: u64): int {
    if u < TWO_63 then Scaled(Magnitude(u)) else 0 - Scaled(Magnitude(u))
  }

  lemma {:induction false} Pow2Monotone(a: nat, b: nat)
    requires a < b
    ensures 2 * Pow2(a) <= Pow2(b)
  {
    if a + 1 < b {
      Pow2Monotone(a, b - 1);
    }
  }

  /** Magnitudes are ordered as their bit patterns. */
  lemma ScaledMonotone(m1: nat, m2: nat)
    requires m1 < m2
    ensures Scaled(m1) < Scaled(m2)
  {
    var e1, f1, e2, f2 := m1 / TWO_52, m1 % TWO_52, m2 / TWO_52, m2 % TWO_52;
    assert e1 < e2 || (e1 == e2 && f1 < f2);
    if e1 == e2 {
      if e1 > 0 {
        ProductMonotone(TWO_52 + f1, TWO_52 + f2, Pow2(e1 - 1));
      }
    } else {
      // Scaled(m1) < 2^52 * 2^(e2 - 1) <= Scaled(m2)
      ProductAtLeast(TWO_52, TWO_52 + f2, Pow2(e2 - 1));
      if e1 == 0 {
        ProductAtLeast(TWO_52, TWO_52, Pow2(e2 - 1));
        ProductOne(TWO_52, Pow2(e2 - 1));
      } else {
        ProductMonotone(TWO_52 + f1, 2 * TWO_52, Pow2(e1 - 1));
        Pow2Monotone(e1 - 1, e2 - 1);
        ProductAtLeast(2 * Pow2(e1 - 1), Pow2(e2 - 1), TWO_52);
        Rearrange(TWO_52, Pow2(e1 - 1));
      }
    }
  }

  lemma ProductMonotone(a: int, b: int, c: int)
    requires a < b && c > 0
    ensures a * c < b * c
  {
  }

  lemma ProductAtLeast(a: int, b: int, c: int)
    requires a <= b && c > 0
    ensures a * c <= b * c
  {
  }

  lemma ProductOne(a: int, c: int)
    requires a >= 0 && c >= 1
    ensures a <= a * c
  {
  }

  lemma Rearrange(a: int, c: int)
    ensures (2 * a) * c == (2 * c) * a
  {
  }

  lemma {:induction false} Pow2Add(a: nat, b: nat)
    ensures Pow2(a + b) == Pow2(a) * Pow2(b)
  {
    if a > 0 {
      Pow2Add(a - 1, b);
      Regroup(Pow2(a - 1), Pow2(b));
    }
  }

  lemma Regroup(x: int, y: int)
    ensures (2 * x) * y == 2 * (x * y)
  {
  }

  // ----- integers -----

  /** Neither NaN nor an infinity. */
  predicate IsFinite(u: u64) {
    Magnitude(u) < 2047 * TWO_52
  }

  const MILLION: int := 1_000_000

  /**
   The integer a pattern denotes if it lies below a million in magnitude: the numbers that `FormatFloat`
   with format 'g' and the shortest precision writes without point and exponent.
   */
  function SmallInteger(u: u64): (r: Option<int>)
    ensures r.Some? ==> -MILLION < r.value < MILLION
  {
    var m := Magnitude(u);
    var e, frac := m / TWO_52, m % TWO_52;
    if m == 0 then Some(0)
    else if e < 1023 || e > 1042 then None
    else
      var q := Pow2(1075 - e);
      var n := (TWO_52 + frac) / q;
      if (TWO_52 + frac) % q != 0 || n >= MILLION then None
      else Some(if u < TWO_63 then n else -n)
  }

  lemma Pow2Of52()
    ensures Pow2(52) == TWO_52
  {
    assert Pow2(13) == 8192;
    Pow2Add(13, 13);
    Pow2Add(26, 26);
  }

  /** A magnitude below 1.0 that is not zero lies strictly between zero and the unit. */
  lemma BelowOne(m: nat, k: nat)
    requires 0 < m < 1023 * TWO_52 && k == 1074
    ensures 0 < Scaled(m) < Pow2(k)
  {
    hide Pow2, Scaled;
    ScaledMonotone(0, m);
    ScaledMonotone(m, 1023 * TWO_52);
    ScaledOne(k);
    ScaledZero();
  }

  lemma ScaledZero()
    ensures Scaled(0) == 0
  {
  }

  /** The pattern of 1.0 denotes the unit. */
  lemma ScaledOne(k: nat)
    requires k == 1074
    ensures Scaled(1023 * TWO_52) == Pow2(k)
  {
    hide Pow2;
    var m := 1023 * TWO_52;
    assert m / TWO_52 == 1023 && m % TWO_52 == 0;
    Pow2Of52();
    Pow2Add(52, 1022);
  }

  /** A magnitude of 2^20 or more is a million units or more. */
  lemma AboveMillion(m: nat, k: nat)
    requires m >= 1043 * TWO_52 && k == 1074
    ensures Scaled(m) >= MILLION * Pow2(k)
  {
    hide Pow2, Scaled;
    var b := 1043 * TWO_52;
    if m > b {
      ScaledMonotone(b, m);
    }
    ScaledTwo20(k);
    ProductAtLeast(MILLION, 0x10_0000, Pow2(k));
  }

  lemma ScaledTwo20(k: nat)
    requires k == 1074
    ensures Scaled(1043 * TWO_52) == 0x10_0000 * Pow2(k)
  {
    hide Pow2;
    var m := 1043 * TWO_52;
    assert m / TWO_52 == 1043 && m % TWO_52 == 0;
    Pow2Of52();
    Pow2Of20();
    Pow2Add(52, 1042);
    Pow2Add(20, k);
  }

  lemma Pow2Of20()
    ensures Pow2(20) == 0x10_0000
  {
    assert Pow2(10) == 1024;
    Pow2Add(10, 10);
  }

  /** In between, being a multiple of the unit is having no bits below it. */
  lemma MultipleOfUnit(m: nat, n: int, k: nat)
    requires 1023 * TWO_52 <= m < 1043 * TWO_52 && k == 1074
    ensures var e, frac := m / TWO_52, m % TWO_52;
            1 <= 1075 - e && (Scaled(m) == n * Pow2(k) <==> TWO_52 + frac == n * Pow2(1075 - e))
  {
    hide Pow2;
    var e, frac := m / TWO_52, m % TWO_52;
    assert 1023 <= e <= 1042;
    var p, q := Pow2(e - 1), Pow2(1075 - e);
    Pow2Add(1075 - e, e - 1);
    assert Pow2(k) == q * p;
    CancelFactor(TWO_52 + frac, n, q, p);
  }

  lemma CancelFactor(x: int, n: int, q: int, p: int)
    requires p > 0
    ensures x * p == n * (q * p) <==> x == n * q
  {
    assert n * (q * p) == (n * q) * p;
    if x < n * q {
      ProductMonotone(x, n * q, p);
    } else if x > n * q {
      ProductMonotone(n * q, x, p);
    }
  }

  lemma QuotientIs(x: int, n: int, q: int)
    requires q > 0
    ensures x == n * q <==> x % q == 0 && x / q == n
  {
    if x == n * q {
      DivisionUnique(x, n, q);
    }
  }

  lemma DivisionUnique(x: int, n: int, q: int)
    requires q > 0 && x == n * q
    ensures x / q == n && x % q == 0
  {
    var d, r := x / q, x % q;
    assert x == d * q + r && 0 <= r < q;
    if d < n {
      ProductAtLeast(d + 1, n, q);
    } else if d > n {
      ProductAtLeast(n + 1, d, q);
    }
  }

  /** FloatValue counts in units of 2^-1074, so an integer n is n * 2^1074 units. */
  lemma SmallIntegerExact(u: u64, n: int)
    ensures SmallInteger(u) == Some(n) <==> -MILLION < n < MILLION && FloatValue(u) == n * Pow2(1074)
  {
    hide Pow2, SmallInteger, FloatValue;
    SmallIntegerUnits(u, n, 1074);
  }

  lemma SmallIntegerUnits(u: u64, n: int, k: nat)
    requires k == 1074
    ensures SmallInteger(u) == Some(n) <==> -MILLION < n < MILLION && FloatValue(u) == n * Pow2(k)
  {
    hide Pow2, Scaled;
    var m := Magnitude(u);
    var unit := Pow2(k);
    var a := if u < TWO_63 then n else -n;
    NegateProduct(n, unit);
    assert FloatValue(u) == n * unit <==> Scaled(m) == a * unit;
    if m == 0 {
      ScaledZero();
      ZeroFactor(a, unit);
    } else if m < 1023 * TWO_52 {
      BelowOne(m, k);
      NotBetween(Scaled(m), a, unit);
      assert m / TWO_52 < 1023;
    } else if m >= 1043 * TWO_52 {
      AboveMillion(m, k);
      if a < MILLION {
        ProductMonotone(a, MILLION, unit);
      }
      assert m / TWO_52 > 1042;
    } else {
      var e, frac := m / TWO_52, m % TWO_52;
      MultipleOfUnit(m, a, k);
      QuotientIs(TWO_52 + frac, a, Pow2(1075 - e));
      PositiveQuotient(TWO_52 + frac, Pow2(1075 - e));
    }
  }

  lemma NegateProduct(n: int, unit: int)
    ensures (-n) * unit == -(n * unit)
  {
  }

  lemma ZeroFactor(a: int, unit: int)
    requires unit > 0
    ensures a * unit == 0 <==> a == 0
  {
    if a > 0 {
      ProductMonotone(0, a, unit);
    } else if a < 0 {
      ProductMonotone(a, 0, unit);
    }
  }

  lemma NotBetween(x: int, a: int, unit: int)
    requires 0 < x < unit
    ensures x != a * unit
  {
    if a >= 1 {
      ProductAtLeast(1, a, unit);
    } else {
      ProductAtLeast(a, 0, unit);
    }
  }

  lemma PositiveQuotient(x: int, q: int)
    requires x >= 0 && q > 0
    ensures x / q >= 0
  {
  }

  // ----- converting integers -----

  /** The position of the highest bit. */
  function Log2(a: nat): (r: nat)
    requires a > 0
    ensures Pow2(r) <= a < Pow2(r + 1)
  {
    if a == 1 then 0 else 1 + Log2(a / 2)
  }

  lemma {:induction false} Pow2Weakly(a: nat, b: nat)
    requires a <= b
    ensures Pow2(a) <= Pow2(b)
  {
    if a < b {
      Pow2Monotone(a, b);
    }
  }

  lemma Log2Is(a: nat, l: nat)
    requires a > 0 && Pow2(l) <= a < Pow2(l + 1)
    ensures Log2(a) == l
  {
    hide Pow2;
    if Log2(a) < l {
      Pow2Weakly(Log2(a) + 1, l);
    } else if Log2(a) > l {
      Pow2Weakly(l + 1, Log2(a));
    }
  }

  lemma Log2Monotone(a: nat, b: nat)
    requires 0 < a <= b
    ensures Log2(a) <= Log2(b)
  {
    hide Pow2;
    if Log2(a) > Log2(b) {
      Pow2Weakly(Log2(b) + 1, Log2(a));
    }
  }

  /** Division rounded to the nearest integer, ties to the even one. */
  function RoundEven(a: nat, q: nat): nat
    requires q > 0
  {
    RoundedUp(a / q, a % q, q)
  }

  /** The quotient, or the next integer if the remainder calls for it. */
  function RoundedUp(d: nat, r: nat, q: nat): nat {
    if 2 * r > q || (2 * r == q && d % 2 == 1) then d + 1 else d
  }

  /** The 53 bits that a float keeps of a positive integer; 2^53 stands for the next power of two. */
  function Mantissa(a: nat): nat
    requires a > 0
  {
    if Log2(a) <= 52 then a * Pow2(52 - Log2(a)) else RoundEven(a, Pow2(Log2(a) - 52))
  }

  lemma MantissaBounds(a: nat)
    requires a > 0
    ensures TWO_52 <= Mantissa(a) <= 2 * TWO_52
  {
    hide Pow2;
    var l := Log2(a);
    Pow2Of52();
    if l <= 52 {
      Pow2Add(l, 52 - l);
      Pow2Add(l + 1, 52 - l);
      Pow2Of53();
      ProductAtLeast(Pow2(l), a, Pow2(52 - l));
      ProductAtLeast(a, Pow2(l + 1), Pow2(52 - l));
    } else {
      var q := Pow2(l - 52);
      Pow2Add(52, l - 52);
      Pow2Add(53, l - 52);
      Pow2Of53();
      QuotientBetween(a, q, TWO_52, 2 * TWO_52);
    }
  }

  lemma Pow2Of53()
    ensures Pow2(53) == 2 * TWO_52
  {
    hide Pow2;
    Pow2Of52();
    Pow2Add(52, 1);
    Pow2Of1();
  }

  lemma Pow2Of1()
    ensures Pow2(1) == 2
  {
  }

  lemma QuotientBetween(a: nat, q: nat, low: nat, high: nat)
    requires q > 0 && low * q <= a < high * q
    ensures low <= a / q < high
  {
    var d, r := a / q, a % q;
    assert a == d * q + r && 0 <= r < q;
    if d < low {
      ProductAtLeast(d + 1, low, q);
    } else if d >= high {
      ProductAtLeast(high, d, q);
    }
  }

  /** The pattern of a positive integer, rounded to 53 bits. */
  function FromNat(a: nat): nat
    requires a > 0
  {
    (Log2(a) + 1022) * TWO_52 + Mantissa(a)
  }

  lemma FromNatBounds(a: nat)
    requires 0 < a <= TWO_63
    ensures 0 < FromNat(a) < 2047 * TWO_52
  {
    hide Pow2;
    MantissaBounds(a);
    Pow2Of64();
    if Log2(a) > 63 {
      Pow2Weakly(64, Log2(a));
    }
  }

  lemma Pow2Of64()
    ensures Pow2(64) == TWO_64
  {
    hide Pow2;
    Pow2Of52();
    Pow2Of12();
    Pow2Add(52, 12);
  }

  lemma Pow2Of12()
    ensures Pow2(12) == 4096
  {
  }

  function Abs(i: int): nat {
    if i < 0 then 0 - i else i
  }

  /** `float64(i)` for an int64: the nearest float, ties to even. */
  function FromInt(i: i64): (u: u64)
    ensures !IsNaN(u) && u != NEG_ZERO
  {
    if i == 0 then 0
    else if i > 0 then
      FromNatBounds(i);
      FromNat(i)
    else
      FromNatBounds(Abs(i));
      FromNat(Abs(i)) + TWO_63
  }

  /** The integer a positive integer is rounded to. */
  function Near(a: nat): nat {
    if a == 0 || Log2(a) <= 52 then a else Mantissa(a) * Pow2(Log2(a) - 52)
  }

  lemma ScaledFromNat(a: nat, k: nat)
    requires a > 0 && k == 1074
    ensures Scaled(FromNat(a)) == Near(a) * Pow2(k)
  {
    hide Pow2;
    var l, m := Log2(a), Mantissa(a);
    MantissaBounds(a);
    ScaledOfParts(l, m);
    if l <= 52 {
      Pow2Add(52 - l, l + 1022);
      Associate(a, Pow2(52 - l), Pow2(l + 1022));
    } else {
      Pow2Add(l - 52, k);
      Associate(m, Pow2(l - 52), Pow2(k));
    }
  }

  lemma Associate(x: int, y: int, z: int)
    ensures (x * y) * z == x * (y * z)
  {
  }

  lemma ScaledOfParts(l: nat, m: nat)
    requires TWO_52 <= m <= 2 * TWO_52
    ensures Scaled((l + 1022) * TWO_52 + m) == m * Pow2(l + 1022)
  {
    hide Pow2;
    var u := (l + 1022) * TWO_52 + m;
    if m < 2 * TWO_52 {
      assert u == (l + 1023) * TWO_52 + (m - TWO_52);
      assert u / TWO_52 == l + 1023 && u % TWO_52 == m - TWO_52;
    } else {
      assert u == (l + 1024) * TWO_52;
      assert u / TWO_52 == l + 1024 && u % TWO_52 == 0;
      Pow2Add(1, l + 1022);
      Pow2Of1();
      Rearrange(TWO_52, Pow2(l + 1022));
    }
  }

  function NearInt(i: int): int {
    if i < 0 then 0 - Near(Abs(i)) else Near(Abs(i))
  }

  /** The number a converted integer denotes. */
  lemma FromIntValue(i: i64, k: nat)
    requires k == 1074
    ensures FloatValue(FromInt(i)) == NearInt(i) * Pow2(k)
  {
    hide Pow2, Scaled, Near;
    if i == 0 {
      ScaledZero();
      NearZero();
    } else {
      var a := Abs(i);
      FromNatBounds(a);
      ScaledFromNat(a, k);
      NegateProduct(Near(a), Pow2(k));
    }
  }

  lemma NearZero()
    ensures Near(0) == 0
  {
  }

  /** Two converted integers compare as the integers they are rounded to. */
  lemma FromIntCompares(i: i64, j: i64)
    ensures FloatValue(FromInt(i)) < FloatValue(FromInt(j)) <==> NearInt(i) < NearInt(j)
    ensures FloatValue(FromInt(i)) == FloatValue(FromInt(j)) <==> NearInt(i) == NearInt(j)
  {
    hide Pow2, FloatValue, FromInt, NearInt;
    UnitsCompare(i, j, 1074);
  }

  lemma UnitsCompare(i: i64, j: i64, k: nat)
    requires k == 1074
    ensures FloatValue(FromInt(i)) < FloatValue(FromInt(j)) <==> NearInt(i) < NearInt(j)
    ensures FloatValue(FromInt(i)) == FloatValue(FromInt(j)) <==> NearInt(i) == NearInt(j)
  {
    hide Pow2, FloatValue, FromInt, NearInt;
    FromIntValue(i, k);
    FromIntValue(j, k);
    var x, y := NearInt(i), NearInt(j);
    if x < y {
      ProductMonotone(x, y, Pow2(k));
    } else if y < x {
      ProductMonotone(y, x, Pow2(k));
    }
  }

  lemma RoundEvenMonotone(a: nat, b: nat, q: nat)
    requires q > 0 && a <= b
    ensures RoundEven(a, q) <= RoundEven(b, q)
  {
    DivisionMonotone(a, b, q);
    PartsMonotone(a / q, a % q, b / q, b % q, q);
  }

  lemma PartsMonotone(d: nat, r: nat, e: nat, t: nat, q: nat)
    requires d < e || (d == e && r <= t)
    ensures RoundedUp(d, r, q) <= RoundedUp(e, t, q)
  {
  }

  lemma DivisionMonotone(a: nat, b: nat, q: nat)
    requires q > 0 && a <= b
    ensures a / q < b / q || (a / q == b / q && a % q <= b % q)
  {
    var d, e := a / q, b / q;
    assert a == d * q + a % q && b == e * q + b % q;
    if d > e {
      ProductAtLeast(e + 1, d, q);
    }
  }

  lemma NearBounds(a: nat)
    requires a > 0
    ensures Pow2(Log2(a)) <= Near(a) <= Pow2(Log2(a) + 1)
  {
    hide Pow2, Mantissa, Log2;
    var l := Log2(a);
    if l > 52 {
      MantissaBounds(a);
      Pow2Of52();
      Pow2Of53();
      Pow2Add(52, l - 52);
      Pow2Add(53, l - 52);
      ProductAtLeast(TWO_52, Mantissa(a), Pow2(l - 52));
      ProductAtLeast(Mantissa(a), 2 * TWO_52, Pow2(l - 52));
    }
  }

  /** Rounding keeps the order, weakly. */
  lemma NearMonotone(a: nat, b: nat)
    requires a <= b
    ensures Near(a) <= Near(b)
  {
    hide Pow2, Log2, RoundEven;
    if a > 0 {
      Log2Monotone(a, b);
      NearBounds(a);
      NearBounds(b);
      var l := Log2(a);
      if l < Log2(b) {
        Pow2Weakly(l + 1, Log2(b));
      } else if l > 52 {
        RoundEvenMonotone(a, b, Pow2(l - 52));
        ProductAtLeast(Mantissa(a), Mantissa(b), Pow2(l - 52));
      }
    }
  }

  lemma NearIntMonotone(i: int, j: int)
    requires i <= j
    ensures NearInt(i) <= NearInt(j)
  {
    hide Near;
    NearZero();
    if i >= 0 {
      NearMonotone(i, j);
    } else if j < 0 {
      NearMonotone(-j, -i);
    }
  }

  const TWO_53: int := 0x20_0000_0000_0000

  /** Integers below 2^53 in magnitude are converted exactly, all others stay at least that far away from zero. */
  lemma NearExactly(a: nat)
    ensures if a < TWO_53 then Near(a) == a else Near(a) >= TWO_53
  {
    hide Pow2, Mantissa;
    Pow2Of53();
    if a > 0 && a < TWO_53 {
      if Log2(a) > 52 {
        Pow2Weakly(53, Log2(a));
      }
    } else if a > 0 {
      NearBounds(a);
      if Log2(a) < 53 {
        Pow2Weakly(Log2(a) + 1, 53);
      }
      Pow2Weakly(53, Log2(a));
    }
  }

  /** No other int64 is converted to the float of an integer below 2^53 in magnitude, and the order is kept. */
  lemma SafeIntegerCompares(i: i64, j: i64)
    requires -TWO_53 < j < TWO_53
    ensures NearInt(i) < NearInt(j) <==> i < j
    ensures NearInt(i) == NearInt(j) <==> i == j
  {
    hide Near;
    NearExactly(Abs(i));
    NearExactly(Abs(j));
  }

  /** 2^53 and 2^53 + 1 are converted to the same float. */
  lemma UnsafeIntegersShare()
    ensures FromInt(TWO_53) == FromInt(TWO_53 + 1)
  {
    hide Pow2;
    Pow2Of53();
    Pow2Of52();
    Pow2Of1();
    Pow2Add(53, 1);
    Log2Is(TWO_53, 53);
    Log2Is(TWO_53 + 1, 53);
    assert RoundEven(TWO_53, 2) == TWO_52 && RoundEven(TWO_53 + 1, 2) == TWO_52;
  }
}
