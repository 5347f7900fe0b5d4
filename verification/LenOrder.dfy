/** The order of interned strings: by length first, then bytewise
    (crates/collections/src/string_interner/detail.rs, `LenOrderStr`). */
module LenOrders {
  import opened Prelude

  type Str = seq<Byte>

  datatype Ordering = Less | Equal | Greater
  {
    function Reversed(): Ordering {
      match this
      case Less => Greater
      case Equal => Equal
      case Greater => Less
    }
  }

  function CompareNat(a: nat, b: nat): Ordering {
    if a < b then Less else if a == b then Equal else Greater
  }

  /** The comparison of byte slices: lexicographic, a proper prefix is less. */
  function CompareSlices(a: Str, b: Str): Ordering {
    if a == [] then (if b == [] then Equal else Less)
    else if b == [] then Greater
    else if a[0] != b[0] then CompareNat(a[0], b[0])
    else CompareSlices(a[1..], b[1..])
  }

  function Compare(a: Str, b: Str): Ordering {
    if |a| != |b| then CompareNat(|a|, |b|) else CompareSlices(a, b)
  }

  /** The implementation: short strings take a hand-written loop, long ones the slice comparison. */
  method Cmp(lhs: Str, rhs: Str) returns (o: Ordering)
    ensures o == Compare(lhs, rhs)
  {
    o := CompareNat(|lhs|, |rhs|);
    if o != Equal {
      return;
    }
    if |lhs| >= 8 {
      return CompareSlices(lhs, rhs);
    }
    for i := 0 to |lhs|
      invariant CompareSlices(lhs, rhs) == CompareSlices(lhs[i..], rhs[i..])
    {
      var c := CompareNat(lhs[i], rhs[i]);
      assert lhs[i..][1..] == lhs[i + 1..] && rhs[i..][1..] == rhs[i + 1..];
      if c != Equal {
        return c;
      }
    }
    return Equal;
  }

  lemma {:induction false} SlicesAreTotallyOrdered(a: Str, b: Str, c: Str)
    ensures CompareSlices(a, b) == Equal <==> a == b
    ensures CompareSlices(b, a) == CompareSlices(a, b).Reversed()
    ensures CompareSlices(a, b) == Less && CompareSlices(b, c) == Less ==> CompareSlices(a, c) == Less
    decreases |a|
  {
    if a != [] && b != [] {
      assert a == [a[0]] + a[1..] && b == [b[0]] + b[1..];
      SlicesAreTotallyOrdered(a[1..], b[1..], if c == [] then [] else c[1..]);
    }
  }

  /** The order is total, and only identical strings are equal in it. */
  lemma CompareIsATotalOrder(a: Str, b: Str, c: Str)
    ensures Compare(a, b) == Equal <==> a == b
    ensures Compare(b, a) == Compare(a, b).Reversed()
    ensures Compare(a, b) == Less && Compare(b, c) == Less ==> Compare(a, c) == Less
  {
    SlicesAreTotallyOrdered(a, b, c);
  }

  /** Which order it is: shorter strings come first, and strings of one length are decided by the first byte
      in which they differ. */
  lemma OrderIsByLengthThenBytes(a: Str, b: Str, i: nat)
    ensures |a| < |b| ==> Compare(a, b) == Less
    ensures |a| == |b| && i < |a| && a[..i] == b[..i] && a[i] < b[i] ==> Compare(a, b) == Less
  {
    if |a| == |b| && i < |a| && a[..i] == b[..i] && a[i] < b[i] {
      FirstDifferenceDecides(a, b, i);
    }
  }

  lemma {:induction false} FirstDifferenceDecides(a: Str, b: Str, i: nat)
    requires i < |a| && i < |b| && a[..i] == b[..i] && a[i] < b[i]
    ensures CompareSlices(a, b) == Less
    decreases i
  {
    if i > 0 {
      assert a[..i][0] == b[..i][0];
      assert a[1..][..i - 1] == a[..i][1..] && b[1..][..i - 1] == b[..i][1..];
      FirstDifferenceDecides(a[1..], b[1..], i - 1);
    }
  }
}
