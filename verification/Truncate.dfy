/** Float-to-integer truncation (crates/core/src/value.rs). A float is NaN, an infinity, or a
    significand times a power of two; the two formats bound significand and exponent. */
module Truncation {
  import opened Prelude

  // ---------- powers of two ----------

  function IntPow2(n: nat): (p: int)
    ensures p >= 1
  {
    if n == 0 then 1 else 2 * IntPow2(n - 1)
  }

  lemma {:induction false} IntPow2Plus(a: nat, b: nat)
    ensures IntPow2(a + b) == IntPow2(a) * IntPow2(b)
  {
    if b > 0 {
      IntPow2Plus(a, b - 1);
    }
  }

  lemma SmallPowers()
    ensures IntPow2(8) == 256 && IntPow2(11) == 2048 && IntPow2(24) == 16777216
    ensures IntPow2(31) == 2147483648 && IntPow2(32) == 4294967296 && IntPow2(40) == 1099511627776
    ensures IntPow2(53) == 9007199254740992
    ensures IntPow2(63) == 9223372036854775808 && IntPow2(64) == 18446744073709551616
  {
    assert IntPow2(4) == 16;
    IntPow2Plus(4, 4);
    IntPow2Plus(8, 3);
    IntPow2Plus(8, 8);
    IntPow2Plus(16, 8);
    IntPow2Plus(16, 15);
    IntPow2Plus(11, 4);
    IntPow2Plus(16, 16);
    IntPow2Plus(32, 8);
    IntPow2Plus(40, 11);
    IntPow2Plus(51, 2);
    IntPow2Plus(32, 31);
    IntPow2Plus(32, 32);
  }

  // ---------- floats ----------

  datatype Format = F32 | F64
  {
    function Precision(): nat { if F32? then 24 else 53 }
    function MinExponent(): int { if F32? then -149 else -1074 }
    function MaxExponent(): int { if F32? then 104 else 971 }
  }

  datatype Float = NaN | Infinite(negative: bool) | Finite(significand: int, exponent: int)
  {
    /** `this` is a value of the format. */
    ghost predicate In(f: Format) {
      Finite? ==>
        && -IntPow2(f.Precision()) < significand < IntPow2(f.Precision())
        && f.MinExponent() <= exponent <= f.MaxExponent()
    }

    function Value(): real
      requires Finite?
    {
      if exponent >= 0 then (significand * IntPow2(exponent)) as real
      else significand as real / IntPow2(-exponent) as real
    }

    predicate AtMost(bound: real) {
      match this
      case NaN => false
      case Infinite(negative) => negative
      case Finite(_, _) => Value() <= bound
    }

    predicate AtLeast(bound: real) {
      match this
      case NaN => false
      case Infinite(negative) => !negative
      case Finite(_, _) => Value() >= bound
    }
  }

  /** What a significand and an exponent mean: one exponent more doubles the value, none leaves it. */
  lemma ValueDoubles(m: int, e: int)
    ensures Finite(m, 0).Value() == m as real
    ensures Finite(m, e + 1).Value() == 2.0 * Finite(m, e).Value()
  {
    if e < 0 {
      HalvingTwice(m as real, IntPow2(-e - 1) as real);
    }
  }

  lemma HalvingTwice(m: real, d: real)
    requires d > 0.0
    ensures m / d == 2.0 * (m / (2.0 * d))
  {
  }

  function TowardZero(r: real): int {
    if r >= 0.0 then r.Floor else -((-r).Floor)
  }

  // ---------- the eight conversions ----------

  datatype IntType = I32 | U32 | I64 | U64
  {
    function Min(): int {
      match this
      case I32 => -2147483648
      case I64 => -9223372036854775808
      case _ => 0
    }

    function Max(): int {
      match this
      case I32 => 2147483647
      case U32 => 4294967295
      case I64 => 9223372036854775807
      case U64 => 18446744073709551615
    }
  }

  /** The literals of the trapping guards. */
  function RMin(f: Format, t: IntType): real {
    match (f, t)
    case (F32, I32) => -2147483904.0
    case (F64, I32) => -2147483649.0
    case (F32, I64) => -9223373136366403584.0
    case (F64, I64) => -9223372036854777856.0
    case (_, _) => -1.0
  }

  function RMax(t: IntType): real {
    match t
    case I32 => 2147483648.0
    case U32 => 4294967296.0
    case I64 => 9223372036854775808.0
    case U64 => 18446744073709551616.0
  }

  /** Rust's `as`: truncates, saturates, and sends NaN to zero. */
  function Cast(t: IntType, x: Float): int {
    match x
    case NaN => 0
    case Infinite(negative) => if negative then t.Min() else t.Max()
    case Finite(_, _) => Clamp(t, TowardZero(x.Value()))
  }

  function Clamp(t: IntType, n: int): int {
    if n < t.Min() then t.Min() else if n > t.Max() then t.Max() else n
  }

  datatype TrapCode = BadConversionToInteger | IntegerOverflow

  function TryTruncateInto(f: Format, t: IntType, x: Float): Result<int, TrapCode> {
    if x.NaN? then Err(BadConversionToInteger)
    else if x.AtMost(RMin(f, t)) || x.AtLeast(RMax(t)) then Err(IntegerOverflow)
    else Ok(Cast(t, x))
  }

  function TruncateSaturateInto(t: IntType, x: Float): int {
    if x.NaN? then 0
    else if x.Infinite? && !x.negative then t.Max()
    else if x.Infinite? && x.negative then t.Min()
    else Cast(t, x)
  }

  /** The width of an integer type in bits. */
  function Bits(t: IntType): nat {
    if t.I32? || t.U32? then 32 else 64
  }

  /** The bounds are those of two's complement or unsigned integers of the width. */
  lemma IntegerRanges(t: IntType)
    ensures t.Max() - t.Min() + 1 == IntPow2(Bits(t))
    ensures t.Min() == if t.I32? || t.I64? then -IntPow2(Bits(t) - 1) else 0
  {
    SmallPowers();
  }

  /** The literals of the guards are values of their formats, so writing them down rounds nothing. */
  lemma LiteralsAreExact(f: Format, t: IntType) returns (lo: Float, hi: Float)
    ensures lo.Finite? && lo.In(f) && lo.Value() == RMin(f, t)
    ensures hi.Finite? && hi.In(f) && hi.Value() == RMax(t)
  {
    lo := LowerLiteral(f, t);
    hi := UpperLiteral(f, t);
  }

  lemma UpperLiteral(f: Format, t: IntType) returns (hi: Float)
    ensures hi.Finite? && hi.In(f) && hi.Value() == RMax(t)
  {
    SmallPowers();
    hi := Finite(1, match t case I32 => 31 case U32 => 32 case I64 => 63 case U64 => 64);
  }

  lemma LowerLiteral(f: Format, t: IntType) returns (lo: Float)
    ensures lo.Finite? && lo.In(f) && lo.Value() == RMin(f, t)
  {
    SmallPowers();
    lo := match (f, t)
          case (F32, I32) => Finite(-8388609, 8)
          case (F64, I32) => Finite(-2147483649, 0)
          case (F32, I64) => Finite(-8388609, 40)
          case (F64, I64) => Finite(-4503599627370497, 11)
          case (_, _) => Finite(-1, 0);
  }

  /** The formats are those of IEEE 754: significands of 24 and 53 bits, magnitudes below 2^128 and 2^1024,
      normal values from 2^-126 and 2^-1022. */
  lemma FormatsAreStandard()
    ensures F32.Precision() == 24 && F64.Precision() == 53
    ensures F32.Precision() + F32.MaxExponent() == 128 && F64.Precision() + F64.MaxExponent() == 1024
    ensures F32.Precision() - 1 + F32.MinExponent() == -126 && F64.Precision() - 1 + F64.MinExponent() == -1022
  {
  }

  // ---------- exactness ----------

  lemma TruncationBounds(r: real, n: int)
    ensures n <= 0 ==> (TowardZero(r) >= n <==> r > n as real - 1.0)
    ensures n >= 0 ==> (TowardZero(r) <= n <==> r < n as real + 1.0)
  {
  }

  lemma {:induction false} IntPow2Monotone(a: nat, b: nat)
    requires a <= b
    ensures IntPow2(a) <= IntPow2(b)
    decreases b
  {
    if a < b {
      IntPow2Monotone(a, b - 1);
    }
  }

  lemma DividingShrinks(m: real, d: real)
    requires d >= 1.0 && m < 0.0
    ensures m / d >= m
  {
    var q := m / d;
    assert q * d == m;
    if q < m {
      assert q * d <= q;
    }
  }

  lemma Scale(a: int, b: int, g: int)
    requires a <= b && g > 0
    ensures a * g <= b * g
  {
  }

  lemma ProductBound(m: int, a: int, b: int, d: int)
    requires -a < m && 0 < b <= d && 0 < a
    ensures m * b >= -(a * d)
  {
    Scale(-a, m, b);
    Scale(b, d, a);
  }

  /** A small exponent cannot reach below -2^k. */
  lemma SmallExponentsAreBounded(m: int, e: nat, p: nat, k: nat)
    requires p <= k && e <= k - p && -IntPow2(p) < m
    ensures m * IntPow2(e) >= -IntPow2(k)
  {
    var a, b, d := IntPow2(p), IntPow2(e), IntPow2(k - p);
    assert b <= d by {
      IntPow2Monotone(e, k - p);
    }
    assert IntPow2(k) == a * d by {
      IntPow2Plus(p, k - p);
    }
    ProductBound(m, a, b, d);
  }

  /** A negative one even less. */
  lemma FractionsAreBounded(m: int, e: nat, p: nat, k: nat)
    requires p <= k && -IntPow2(p) < m
    ensures m as real / IntPow2(e) as real >= -IntPow2(k) as real
  {
    IntPow2Monotone(p, k);
    if m < 0 {
      DividingShrinks(m as real, IntPow2(e) as real);
    } else {
      assert m as real / IntPow2(e) as real >= 0.0;
    }
  }

  /** No float of precision p lies strictly between -2^k and the next multiple of the spacing below it. */
  lemma NoFloatInTheGap(x: Float, p: nat, k: nat)
    requires x.Finite? && -IntPow2(p) < x.significand && 0 < p <= k
    requires x.Value() < -IntPow2(k) as real
    ensures x.Value() <= (-IntPow2(k) - IntPow2(k - p + 1)) as real
  {
    var q := k - p + 1;
    if x.exponent < 0 {
      FractionsAreBounded(x.significand, -x.exponent, p, k);
      assert false;
    }
    if x.exponent < q {
      SmallExponentsAreBounded(x.significand, x.exponent, p, k);
      assert false;
    }
    var j, c, g := x.significand * IntPow2(x.exponent - q), -IntPow2(k - q), IntPow2(q);
    assert x.significand * IntPow2(x.exponent) == j * g by {
      IntPow2Plus(q, x.exponent - q);
      Regroup(x.significand, g, IntPow2(x.exponent - q));
    }
    assert -IntPow2(k) == c * g by {
      IntPow2Plus(q, k - q);
    }
    MultiplesAreApart(j, c, g);
  }

  lemma Regroup(m: int, g: int, n: int)
    ensures m * (g * n) == m * n * g
  {
  }

  lemma MultiplesAreApart(j: int, c: int, g: int)
    requires g > 0 && j * g < c * g
    ensures j * g <= c * g - g
  {
    if j >= c {
      Scale(c, j, g);
      assert false;
    }
    Scale(j, c - 1, g);
  }

  /** The lower literal cuts exactly where truncation leaves the integer type. */
  lemma LowerGuardIsExact(f: Format, t: IntType, x: Float)
    requires x.Finite? && x.In(f)
    ensures x.Value() > RMin(f, t) <==> TowardZero(x.Value()) >= t.Min()
  {
    TruncationBounds(x.Value(), t.Min());
    SmallPowers();
    if t.I64? || (f.F32? && t.I32?) {
      var k := if t.I32? then 31 else 63;
      assert t.Min() == -IntPow2(k);
      if x.Value() < t.Min() as real {
        NoFloatInTheGap(x, f.Precision(), k);
      }
    }
  }

  /** EXACT TRUNCATION, for all eight conversions and every float of the format: the trapping form
      succeeds exactly when the truncated value fits and then returns it; NaN is a bad conversion. */
  lemma TryTruncateIsExact(f: Format, t: IntType, x: Float)
    requires x.In(f)
    ensures TryTruncateInto(f, t, x) ==
            match x
            case NaN => Err(BadConversionToInteger)
            case Infinite(_) => Err(IntegerOverflow)
            case Finite(_, _) =>
              var n := TowardZero(x.Value());
              if t.Min() <= n <= t.Max() then Ok(n) else Err(IntegerOverflow)
  {
    if x.Finite? {
      LowerGuardIsExact(f, t, x);
      TruncationBounds(x.Value(), t.Max());
    }
  }

  /** The saturating form agrees with the trapping one where that succeeds, gives the nearest bound
      on overflow and zero on NaN. */
  lemma SaturatingAgreesWithTrapping(f: Format, t: IntType, x: Float)
    requires x.In(f)
    ensures t.Min() <= TruncateSaturateInto(t, x) <= t.Max()
    ensures match TryTruncateInto(f, t, x)
            case Ok(n) => TruncateSaturateInto(t, x) == n
            case Err(BadConversionToInteger) => TruncateSaturateInto(t, x) == 0
            case Err(IntegerOverflow) =>
              TruncateSaturateInto(t, x) == if x.AtMost(0.0) then t.Min() else t.Max()
  {
    TryTruncateIsExact(f, t, x);
  }
}
