/** The 128-bit instructions of the Wasm `wide-arithmetic` proposal (crates/core/src/wasm.rs). */
module WideArithmetic {

  type I64 = n: int | -0x8000_0000_0000_0000 <= n < 0x8000_0000_0000_0000
  type I128 = n: int |
    -0x8000_0000_0000_0000_0000_0000_0000_0000 <= n < 0x8000_0000_0000_0000_0000_0000_0000_0000

  const B: int := 0x1_0000_0000_0000_0000

  /** `as u64` of an `i64`. */
  function Unsigned(n: I64): (u: int)
    ensures 0 <= u < 0x1_0000_0000_0000_0000
  {
    if n < 0 then n + 0x1_0000_0000_0000_0000 else n
  }

  /** `as i64`: the representative of `n` mod 2^64 in the signed range. */
  function Signed64(n: int): I64 {
    (n + 0x8000_0000_0000_0000) % 0x1_0000_0000_0000_0000 - 0x8000_0000_0000_0000
  }

  /** `as i128`, and the result of a wrapping operation on `i128`. */
  function Signed128(n: int): I128 {
    (n + 0x8000_0000_0000_0000_0000_0000_0000_0000) % 0x1_0000_0000_0000_0000_0000_0000_0000_0000
    - 0x8000_0000_0000_0000_0000_0000_0000_0000
  }

  /** `(hi << 64) | lo`: the shift clears the low bits, so the disjunction is a sum. */
  function Combine128(lo: I64, hi: I64): (r: int) {
    var shifted := Unsigned(hi) * 0x1_0000_0000_0000_0000;
    var wrapped := if shifted < 0x8000_0000_0000_0000_0000_0000_0000_0000 then shifted
                   else shifted - 0x1_0000_0000_0000_0000_0000_0000_0000_0000;
    wrapped + Unsigned(lo)
  }

  /** The arithmetic shift and the truncating cast. */
  function Split128(value: int): (I64, I64) {
    (Signed64(value), Signed64(value / 0x1_0000_0000_0000_0000))
  }

  function Add128(lhsLo: I64, lhsHi: I64, rhsLo: I64, rhsHi: I64): (I64, I64) {
    Split128(Signed128(Combine128(lhsLo, lhsHi) + Combine128(rhsLo, rhsHi)))
  }

  function Sub128(lhsLo: I64, lhsHi: I64, rhsLo: I64, rhsHi: I64): (I64, I64) {
    Split128(Signed128(Combine128(lhsLo, lhsHi) - Combine128(rhsLo, rhsHi)))
  }

  function MulWideS(lhs: I64, rhs: I64): (I64, I64) {
    Split128(Signed128(lhs * rhs))
  }

  /** The unsigned product wraps at 2^128 before it is reinterpreted. */
  function MulWideU(lhs: I64, rhs: I64): (I64, I64) {
    Split128(Signed128(Unsigned(lhs) * Unsigned(rhs) % 0x1_0000_0000_0000_0000_0000_0000_0000_0000))
  }

  // ---------- wrapping ----------

  lemma SignedShift(n: int, k: int)
    ensures Signed64(n + k * 0x1_0000_0000_0000_0000) == Signed64(n)
  {
  }

  lemma SignedOfUnsigned(n: I64, u: int)
    ensures Signed64(Unsigned(n)) == n && Signed64(n) == n
    ensures 0 <= u < 0x1_0000_0000_0000_0000 ==> Unsigned(Signed64(u)) == u
  {
  }

  lemma WrapsByMultiples(n: int) returns (k: int)
    ensures n == Signed128(n) + k * 0x1_0000_0000_0000_0000_0000_0000_0000_0000
  {
    k := (n + 0x8000_0000_0000_0000_0000_0000_0000_0000) / 0x1_0000_0000_0000_0000_0000_0000_0000_0000;
  }

  lemma PlainSplit(high: int, low: int)
    requires 0 <= low < 0x1_0000_0000_0000_0000
    ensures Split128(high * 0x1_0000_0000_0000_0000 + low) == (Signed64(low), Signed64(high))
  {
    SignedShift(low, high);
  }

  /** Splitting a wrapped value splits the value: limb by limb, each mod 2^64. */
  lemma WrappedSplit(high: int, low: int)
    requires 0 <= low < 0x1_0000_0000_0000_0000
    ensures Split128(Signed128(high * 0x1_0000_0000_0000_0000 + low)) == (Signed64(low), Signed64(high))
  {
    var k := WrapsByMultiples(high * 0x1_0000_0000_0000_0000 + low);
    PlainSplit(high - k * 0x1_0000_0000_0000_0000, low);
    SignedShift(high - k * 0x1_0000_0000_0000_0000, k);
  }

  // ---------- splitting and combining ----------

  lemma CombineIsTheSignedPair(lo: I64, hi: I64)
    ensures Combine128(lo, hi) == hi * 0x1_0000_0000_0000_0000 + Unsigned(lo)
  {
  }

  lemma SplitInvertsCombine(lo: I64, hi: I64)
    ensures Split128(Combine128(lo, hi)) == (lo, hi)
  {
    CombineIsTheSignedPair(lo, hi);
    PlainSplit(hi, Unsigned(lo));
    SignedOfUnsigned(lo, 0);
  }

  lemma CombineInvertsSplit(value: I128)
    ensures var (lo, hi) := Split128(value); Combine128(lo, hi) == value
  {
    var (lo, hi) := Split128(value);
    CombineIsTheSignedPair(lo, hi);
  }

  // ---------- addition and subtraction ----------

  /** Limb addition with carry. */
  lemma AdditionCarries(lhsLo: I64, lhsHi: I64, rhsLo: I64, rhsHi: I64)
    ensures var low := Unsigned(lhsLo) + Unsigned(rhsLo);
            var carry := if low >= B then 1 else 0;
            Add128(lhsLo, lhsHi, rhsLo, rhsHi) == (Signed64(low - carry * B), Signed64(lhsHi + rhsHi + carry))
  {
    var low := Unsigned(lhsLo) + Unsigned(rhsLo);
    var carry := if low >= B then 1 else 0;
    assert Combine128(lhsLo, lhsHi) + Combine128(rhsLo, rhsHi)
        == (lhsHi + rhsHi + carry) * 0x1_0000_0000_0000_0000 + (low - carry * B) by {
      CombineIsTheSignedPair(lhsLo, lhsHi);
      CombineIsTheSignedPair(rhsLo, rhsHi);
    }
    WrappedSplit(lhsHi + rhsHi + carry, low - carry * B);
  }

  lemma DifferenceSplits(a: int, b: int, high: int, low: int)
    requires a - b == high * 0x1_0000_0000_0000_0000 + low && 0 <= low < 0x1_0000_0000_0000_0000
    ensures Split128(Signed128(a - b)) == (Signed64(low), Signed64(high))
  {
    WrappedSplit(high, low);
  }

  /** Limb subtraction with borrow. */
  lemma SubtractionBorrows(lhsLo: I64, lhsHi: I64, rhsLo: I64, rhsHi: I64)
    ensures var low := Unsigned(lhsLo) - Unsigned(rhsLo);
            var borrow := if low < 0 then 1 else 0;
            Sub128(lhsLo, lhsHi, rhsLo, rhsHi) == (Signed64(low + borrow * B), Signed64(lhsHi - rhsHi - borrow))
  {
    var low := Unsigned(lhsLo) - Unsigned(rhsLo);
    var borrow := if low < 0 then 1 else 0;
    assert Combine128(lhsLo, lhsHi) - Combine128(rhsLo, rhsHi)
        == (lhsHi - rhsHi - borrow) * 0x1_0000_0000_0000_0000 + (low + borrow * B) by {
      CombineIsTheSignedPair(lhsLo, lhsHi);
      CombineIsTheSignedPair(rhsLo, rhsHi);
    }
    DifferenceSplits(Combine128(lhsLo, lhsHi), Combine128(rhsLo, rhsHi), lhsHi - rhsHi - borrow, low + borrow * B);
  }

  /** Any multiple of 2^128 away from a pair, wrapping leads back to it. */
  lemma WrappingIsUndone(lo: I64, hi: I64, value: int, k: int)
    requires value == Combine128(lo, hi) - k * 0x1_0000_0000_0000_0000_0000_0000_0000_0000
    ensures Split128(Signed128(value)) == (lo, hi)
  {
    assert value == (hi - k * B) * 0x1_0000_0000_0000_0000 + Unsigned(lo) by {
      CombineIsTheSignedPair(lo, hi);
    }
    WrappedSplit(hi - k * B, Unsigned(lo));
    SignedShift(hi, -k);
    SignedOfUnsigned(lo, 0);
    SignedOfUnsigned(hi, 0);
  }

  /** The halves of a sum are a multiple of 2^128 away from it. */
  lemma HalvesOfSum(lhsLo: I64, lhsHi: I64, rhsLo: I64, rhsHi: I64) returns (k: int)
    ensures var (lo, hi) := Add128(lhsLo, lhsHi, rhsLo, rhsHi);
            Combine128(lo, hi) == Combine128(lhsLo, lhsHi) + Combine128(rhsLo, rhsHi)
                                  - k * 0x1_0000_0000_0000_0000_0000_0000_0000_0000
  {
    var sum := Combine128(lhsLo, lhsHi) + Combine128(rhsLo, rhsHi);
    k := WrapsByMultiples(sum);
    CombineInvertsSplit(Signed128(sum));
  }

  lemma HalvesOfDifference(lhsLo: I64, lhsHi: I64, rhsLo: I64, rhsHi: I64) returns (k: int)
    ensures var (lo, hi) := Sub128(lhsLo, lhsHi, rhsLo, rhsHi);
            Combine128(lo, hi) == Combine128(lhsLo, lhsHi) - Combine128(rhsLo, rhsHi)
                                  - k * 0x1_0000_0000_0000_0000_0000_0000_0000_0000
  {
    var difference := Combine128(lhsLo, lhsHi) - Combine128(rhsLo, rhsHi);
    k := WrapsByMultiples(difference);
    CombineInvertsSplit(Signed128(difference));
  }

  /** Subtraction undoes addition, wrapping included. */
  lemma SubtractionUndoesAddition(lhsLo: I64, lhsHi: I64, rhsLo: I64, rhsHi: I64)
    ensures var (lo, hi) := Add128(lhsLo, lhsHi, rhsLo, rhsHi);
            Sub128(lo, hi, rhsLo, rhsHi) == (lhsLo, lhsHi)
  {
    var k := HalvesOfSum(lhsLo, lhsHi, rhsLo, rhsHi);
    var (lo, hi) := Add128(lhsLo, lhsHi, rhsLo, rhsHi);
    WrappingIsUndone(lhsLo, lhsHi, Combine128(lo, hi) - Combine128(rhsLo, rhsHi), k);
  }

  /** And addition undoes subtraction. */
  lemma AdditionUndoesSubtraction(lhsLo: I64, lhsHi: I64, rhsLo: I64, rhsHi: I64)
    ensures var (lo, hi) := Sub128(lhsLo, lhsHi, rhsLo, rhsHi);
            Add128(lo, hi, rhsLo, rhsHi) == (lhsLo, lhsHi)
  {
    var k := HalvesOfDifference(lhsLo, lhsHi, rhsLo, rhsHi);
    var (lo, hi) := Sub128(lhsLo, lhsHi, rhsLo, rhsHi);
    WrappingIsUndone(lhsLo, lhsHi, Combine128(lo, hi) + Combine128(rhsLo, rhsHi), k);
  }

  // ---------- multiplication ----------

  lemma ProductBounds(a: int, b: int, m: int)
    requires 0 <= m && -m <= a <= m && -m <= b <= m
    ensures -(m * m) <= a * b <= m * m
  {
    var x, y := if a < 0 then -a else a, if b < 0 then -b else b;
    MulLeft(x, y, m);
    MulLeft(m, x, m);
    assert a * b == if (a < 0) == (b < 0) then x * y else -(x * y);
  }

  /** The signed product never wraps: the two halves are the exact 128-bit product. */
  lemma SignedProductIsExact(lhs: I64, rhs: I64)
    ensures var (lo, hi) := MulWideS(lhs, rhs); hi * B + Unsigned(lo) == lhs * rhs
  {
    ProductBounds(lhs, rhs, 0x8000_0000_0000_0000);
    HalvesAreTheValue(lhs * rhs);
  }

  lemma HalvesAreTheValue(value: I128)
    ensures Signed128(value) == value
    ensures var (lo, hi) := Split128(value); hi * B + Unsigned(lo) == value
  {
    var (lo, hi) := Split128(value);
    CombineIsTheSignedPair(lo, hi);
    CombineInvertsSplit(value);
  }

  /** Neither does the unsigned one. */
  lemma UnsignedProductIsExact(lhs: I64, rhs: I64)
    ensures var (lo, hi) := MulWideU(lhs, rhs);
            Unsigned(hi) * B + Unsigned(lo) == Unsigned(lhs) * Unsigned(rhs)
  {
    UnsignedProductBounds(Unsigned(lhs), Unsigned(rhs));
    UnsignedHalvesAreTheValue(Unsigned(lhs) * Unsigned(rhs));
  }

  lemma UnsignedProductBounds(a: int, b: int)
    requires 0 <= a < B && 0 <= b < B
    ensures 0 <= a * b < B * B
  {
    MulLeft(a, b, B - 1);
    MulLeft(B - 1, a, B - 1);
  }

  lemma MulLeft(a: int, b: int, c: int)
    requires 0 <= a && 0 <= b <= c
    ensures 0 <= a * b <= a * c
  {
  }

  lemma UnsignedHalvesAreTheValue(value: int)
    requires 0 <= value < 0x1_0000_0000_0000_0000_0000_0000_0000_0000
    ensures value % 0x1_0000_0000_0000_0000_0000_0000_0000_0000 == value
    ensures var (lo, hi) := Split128(Signed128(value)); Unsigned(hi) * B + Unsigned(lo) == value
  {
    var high, low := value / 0x1_0000_0000_0000_0000, value % 0x1_0000_0000_0000_0000;
    WrappedSplit(high, low);
    SignedOfUnsigned(0, high);
    SignedOfUnsigned(0, low);
  }

  /** The low halves agree, and the high halves differ by the textbook correction. */
  lemma SignedAndUnsignedProductsAgree(lhs: I64, rhs: I64)
    ensures var (loS, hiS) := MulWideS(lhs, rhs);
            var (loU, hiU) := MulWideU(lhs, rhs);
            && loS == loU
            && hiU == Signed64(hiS + (if lhs < 0 then rhs else 0) + (if rhs < 0 then lhs else 0))
  {
    var (loS, hiS) := MulWideS(lhs, rhs);
    var (loU, hiU) := MulWideU(lhs, rhs);
    var both := if lhs < 0 && rhs < 0 then 1 else 0;
    var correction := (if lhs < 0 then rhs else 0) + (if rhs < 0 then lhs else 0);
    assert hiS * B + Unsigned(loS) == lhs * rhs by {
      SignedProductIsExact(lhs, rhs);
    }
    assert Unsigned(hiU) * B + Unsigned(loU) == lhs * rhs + (correction + both * B) * B by {
      UnsignedProductIsExact(lhs, rhs);
      UnsignedProduct(lhs, rhs);
    }
    PlacesAgree(Unsigned(hiU), Unsigned(loU), hiS + correction + both * B, Unsigned(loS));
    SignedOfUnsigned(loS, 0);
    SignedOfUnsigned(loU, 0);
    SignedOfUnsigned(hiU, 0);
    SignedShift(hiS + correction, both);
  }

  lemma UnsignedProduct(lhs: I64, rhs: I64)
    ensures var both := if lhs < 0 && rhs < 0 then 1 else 0;
            var correction := (if lhs < 0 then rhs else 0) + (if rhs < 0 then lhs else 0);
            Unsigned(lhs) * Unsigned(rhs) == lhs * rhs + (correction + both * B) * B
  {
    assert Unsigned(lhs) == if lhs < 0 then lhs + B else lhs;
    assert Unsigned(rhs) == if rhs < 0 then rhs + B else rhs;
    assert (lhs + B) * (rhs + B) == lhs * rhs + (lhs + rhs + B) * B;
    assert (lhs + B) * rhs == lhs * rhs + rhs * B;
    assert lhs * (rhs + B) == lhs * rhs + lhs * B;
  }

  lemma PlacesAgree(h1: int, l1: int, h2: int, l2: int)
    requires 0 <= l1 < B && 0 <= l2 < B && h1 * B + l1 == h2 * B + l2
    ensures h1 == h2 && l1 == l2
  {
  }
}
