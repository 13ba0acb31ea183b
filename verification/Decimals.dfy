/**
 Arbitrary-precision decimals (unscaled * 10^-scale, like java.math.BigDecimal) and the tests that keep integers
 outside +-(2^53 - 1) off the wire. Java strips trailing zeros first, .NET truncates; both are proved to reject
 exactly the integer-valued decimals outside that range.
 */
module Decimals {

  datatype Decimal = Decimal(unscaled: int, scale: int)

  const MAX_SAFE_INTEGER := 9_007_199_254_740_991

  function Abs(n: int): nat {
    if n < 0 then -n else n
  }

  function Pow10(n: nat): (p: nat)
    ensures p >= 1
  {
    if n == 0 then 1 else 10 * Pow10(n - 1)
  }

  /** The decimal denotes an integer. */
  predicate IsInteger(d: Decimal) {
    d.scale <= 0 || Abs(d.unscaled) % Pow10(d.scale) == 0
  }

  /** The magnitude of an integer-valued decimal. */
  function IntegerMagnitude(d: Decimal): nat
    requires IsInteger(d)
  {
    if d.scale <= 0 then Abs(d.unscaled) * Pow10(-d.scale) else Abs(d.unscaled) / Pow10(d.scale)
  }

  /** What every SDK must reject: an integer that a double cannot hold exactly. */
  predicate UnsafeInteger(d: Decimal) {
    IsInteger(d) && IntegerMagnitude(d) > MAX_SAFE_INTEGER
  }

  // --- Java ----------------------------------------------------------------------------------------------------

  /** BigDecimal.stripTrailingZeros. */
  function StripTrailingZeros(d: Decimal): (r: Decimal)
    ensures r.scale > 0 ==> Abs(r.unscaled) % 10 != 0
    decreases Abs(d.unscaled)
  {
    if d.unscaled == 0 then Decimal(0, 0)
    else if d.unscaled % 10 == 0 then StripTrailingZeros(Decimal(d.unscaled / 10, d.scale - 1))
    else d
  }

  predicate JavaRejects(d: Decimal) {
    var stripped := StripTrailingZeros(d);
    stripped.scale <= 0 && Abs(stripped.unscaled) * Pow10(-stripped.scale) > MAX_SAFE_INTEGER
  }

  // --- .NET ----------------------------------------------------------------------------------------------------

  /** System.Decimal keeps 0..28 digits after the point; Truncate drops them, towards zero. */
  function Truncate(d: Decimal): Decimal
    requires 0 <= d.scale
  {
    var whole := Abs(d.unscaled) / Pow10(d.scale);
    Decimal(if d.unscaled < 0 then -whole else whole, 0)
  }

  /** Equality of value: both are brought to the larger scale. */
  predicate SameValue(a: Decimal, b: Decimal)
    requires 0 <= a.scale && 0 <= b.scale
  {
    a.unscaled * Pow10(b.scale) == b.unscaled * Pow10(a.scale)
  }

  predicate DotnetRejects(d: Decimal)
    requires 0 <= d.scale
  {
    SameValue(Truncate(d), d) && Abs(d.unscaled) > MAX_SAFE_INTEGER * Pow10(d.scale)
  }

  // --- Both reject exactly the unsafe integers -----------------------------------------------------------------

  lemma Tenth(n: int)
    requires n % 10 == 0
    ensures Abs(n) == 10 * Abs(n / 10)
  {
  }

  /** Dropping one trailing zero changes neither integrality nor magnitude. */
  lemma DropZero(d: Decimal)
    requires d.unscaled % 10 == 0
    ensures var e := Decimal(d.unscaled / 10, d.scale - 1);
      IsInteger(e) == IsInteger(d) && (IsInteger(d) ==> IntegerMagnitude(e) == IntegerMagnitude(d))
  {
    Tenth(d.unscaled);
    if d.scale > 0 {
      DropFractionZero(d, Abs(d.unscaled / 10));
    } else {
      DropIntegerZero(d, Abs(d.unscaled / 10));
    }
  }

  lemma DropFractionZero(d: Decimal, v: nat)
    requires d.scale > 0 && Abs(d.unscaled) == 10 * v == 10 * Abs(d.unscaled / 10)
    ensures var e := Decimal(d.unscaled / 10, d.scale - 1);
      IsInteger(e) == IsInteger(d) && (IsInteger(d) ==> IntegerMagnitude(e) == IntegerMagnitude(d))
  {
    ScaleBoth(v, Pow10(d.scale - 1));
  }

  lemma DropIntegerZero(d: Decimal, v: nat)
    requires d.scale <= 0 && Abs(d.unscaled) == 10 * v == 10 * Abs(d.unscaled / 10)
    ensures IntegerMagnitude(Decimal(d.unscaled / 10, d.scale - 1)) == IntegerMagnitude(d)
  {
    var p := Pow10(-d.scale);
    assert Pow10(-d.scale + 1) == 10 * p;
    assert v * (10 * p) == (10 * v) * p;
  }

  lemma ScaleBoth(v: nat, p: nat)
    requires p > 0
    ensures (10 * v) / (10 * p) == v / p && (10 * v) % (10 * p) == 10 * (v % p)
  {
    var q, r := v / p, v % p;
    assert v == q * p + r;
    assert 10 * v == q * (10 * p) + 10 * r;
    DivModUnique(10 * v, 10 * p, q, 10 * r);
  }

  lemma DivModUnique(n: nat, m: nat, q: nat, r: nat)
    requires m > 0 && r < m && n == q * m + r
    ensures n / m == q && n % m == r
  {
    SameQuotient(m, n / m, n % m, q, r);
  }

  lemma SameQuotient(m: nat, q: nat, r: nat, q': nat, r': nat)
    requires r < m && r' < m && q * m + r == q' * m + r'
    ensures q == q' && r == r'
  {
    assert (q - q') * m == q * m - q' * m && (q' - q) * m == q' * m - q * m;
    if q < q' {
      Product(q' - q, m);
    } else if q' < q {
      Product(q - q', m);
    }
  }

  lemma Product(k: nat, m: nat)
    requires k > 0
    ensures k * m >= m
  {
  }

  lemma {:induction false} StripKeepsInteger(d: Decimal)
    ensures var s := StripTrailingZeros(d);
      IsInteger(s) == IsInteger(d) && (IsInteger(d) ==> IntegerMagnitude(s) == IntegerMagnitude(d))
    decreases Abs(d.unscaled)
  {
    if d.unscaled == 0 {
      if d.scale > 0 {
        DivModUnique(0, Pow10(d.scale), 0, 0);
      }
    } else if d.unscaled % 10 == 0 {
      DropZero(d);
      StripKeepsInteger(Decimal(d.unscaled / 10, d.scale - 1));
    }
  }

  lemma PowerOfTenDivides(n: nat, k: nat)
    requires k > 0 && n % Pow10(k) == 0
    ensures n % 10 == 0
  {
    var m, p := n / Pow10(k), Pow10(k - 1);
    assert n == m * (10 * p) == 10 * (m * p);
  }

  lemma JavaRejectsUnsafeIntegers(d: Decimal)
    ensures JavaRejects(d) <==> UnsafeInteger(d)
  {
    var s := StripTrailingZeros(d);
    StripKeepsInteger(d);
    if s.scale > 0 && IsInteger(s) {
      PowerOfTenDivides(Abs(s.unscaled), s.scale);
      assert false;
    }
  }

  /** A product with the same factor compares as the other factors do. */
  lemma CompareProducts(a: nat, b: nat, p: nat)
    requires p > 0
    ensures a * p > b * p <==> a > b
  {
    if a > b {
      Product(a - b, p);
      assert a * p == b * p + (a - b) * p;
    } else {
      assert b * p == a * p + (b - a) * p;
    }
  }

  /** Multiplying the quotient again gives the number exactly when there was no rest. */
  lemma NoRestIff(n: nat, p: nat)
    requires p > 0
    ensures (n / p) * p == n <==> n % p == 0
  {
    assert n == (n / p) * p + n % p;
  }

  lemma Negated(q: int, p: int)
    ensures (0 - q) * p == 0 - q * p
  {
  }

  /** Truncating changes nothing exactly when the decimal is an integer. */
  lemma TruncateKeepsIff(d: Decimal)
    requires 0 <= d.scale
    ensures SameValue(Truncate(d), d) <==> Abs(d.unscaled) % Pow10(d.scale) == 0
  {
    NoRestIff(Abs(d.unscaled), Pow10(d.scale));
    Negated(Abs(d.unscaled) / Pow10(d.scale), Pow10(d.scale));
    SameValueOfInteger(Truncate(d), d);
  }

  lemma SameValueOfInteger(a: Decimal, b: Decimal)
    requires a.scale == 0 <= b.scale
    ensures SameValue(a, b) <==> a.unscaled * Pow10(b.scale) == b.unscaled
  {
    assert Pow10(a.scale) == 1;
  }

  lemma DotnetRejectsUnsafeIntegers(d: Decimal)
    requires 0 <= d.scale
    ensures DotnetRejects(d) <==> UnsafeInteger(d)
  {
    var u, p := Abs(d.unscaled), Pow10(d.scale);
    TruncateKeepsIff(d);
    if u % p == 0 {
      assert u == (u / p) * p;
      CompareProducts(u / p, MAX_SAFE_INTEGER, p);
    }
    if d.scale == 0 {
      assert p == 1 && u % 1 == 0 && u / 1 == u;
    }
  }

  /** The two tests agree on every decimal .NET can represent. */
  lemma JavaAndDotnetAgree(d: Decimal)
    requires 0 <= d.scale <= 28
    ensures JavaRejects(d) <==> DotnetRejects(d)
  {
    JavaRejectsUnsafeIntegers(d);
    DotnetRejectsUnsafeIntegers(d);
  }

  // --- Beyond the safe integers --------------------------------------------------------------------------------

  lemma {:induction false} Pow10Monotone(m: nat, n: nat)
    requires m <= n
    ensures Pow10(m) <= Pow10(n)
  {
    if m < n {
      Pow10Monotone(m, n - 1);
    }
  }

  lemma SafeIsBelow()
    ensures MAX_SAFE_INTEGER < Pow10(16)
  {
    assert Pow10(4) == 10_000;
    assert Pow10(8) == 10_000 * Pow10(4);
    assert Pow10(12) == 10_000 * Pow10(8);
    assert Pow10(16) == 10_000 * Pow10(12);
  }

  lemma ProductAtLeast(a: nat, b: nat)
    requires a > 0 && b > 0
    ensures a * b >= a && a * b >= b
  {
    assert a * b == a + a * (b - 1) && a * b == b + (a - 1) * b;
  }

  /** stripTrailingZeros throws when a scale leaves 32 bits on the way. */
  predicate StripOverflows(d: Decimal)
    decreases Abs(d.unscaled)
  {
    d.unscaled != 0 && d.unscaled % 10 == 0
    && (d.scale <= -0x8000_0000 || StripOverflows(Decimal(d.unscaled / 10, d.scale - 1)))
  }

  /** It does so for unsafe integers only, which are refused in any case. */
  lemma {:induction false} StripOverflowIsUnsafe(d: Decimal)
    requires StripOverflows(d)
    ensures UnsafeInteger(d)
    decreases Abs(d.unscaled)
  {
    if d.scale <= -0x8000_0000 {
      SafeIsBelow();
      Pow10Monotone(16, -d.scale);
      ProductAtLeast(Abs(d.unscaled), Pow10(-d.scale));
    } else {
      DropZero(d);
      StripOverflowIsUnsafe(Decimal(d.unscaled / 10, d.scale - 1));
    }
  }

  function Pow2(n: nat): nat {
    if n == 0 then 1 else 2 * Pow2(n - 1)
  }

  /** The largest integer below which a double holds every integer. */
  lemma MaxSafeInteger()
    ensures MAX_SAFE_INTEGER == Pow2(53) - 1
  {
    assert Pow2(10) == 1024;
    assert Pow2(20) == 1024 * Pow2(10);
    assert Pow2(30) == 1024 * Pow2(20);
    assert Pow2(40) == 1024 * Pow2(30);
    assert Pow2(50) == 1024 * Pow2(40);
  }
}
