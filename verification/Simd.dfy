/** Lanes of `v128` and the fused load-and-widen instructions (crates/core/src/simd.rs).
    A vector is its sixteen bytes in little-endian order. */
module Simd {
  import opened Prelude
  import opened MemoryAccess

  type V128 = v: seq<Byte> | |v| == 16 witness seq(16, i => 0)

  /** The lane widths in bytes. */
  predicate LaneWidth(w: nat) {
    w == 1 || w == 2 || w == 4 || w == 8
  }

  /** `from_v128`: lane i of a byte sequence viewed in w-byte lanes. */
  function Lane(b: seq<Byte>, w: nat, i: nat): nat
    requires w * i + w <= |b|
  {
    FromLe(b[w * i..w * i + w])
  }

  function LanesOf(b: seq<Byte>, w: nat, count: nat): (lanes: seq<nat>)
    requires w * count <= |b|
    ensures |lanes| == count
    ensures forall i :: 0 <= i < count ==> w * i + w <= |b| && lanes[i] == Lane(b, w, i)
  {
    LaneFits(w, count);
    seq(count, i requires 0 <= i < count => Lane(b, w, i))
  }

  lemma LaneFits(w: nat, count: nat)
    ensures forall i :: 0 <= i < count ==> w * i + w <= w * count
  {
    forall i | 0 <= i < count
      ensures w * i + w <= w * count
    {
      assert w * (i + 1) <= w * count;
    }
  }

  /** `into_v128`: the bytes of the lanes one after the other. */
  function Bytes(w: nat, lanes: seq<nat>): (b: seq<Byte>)
    ensures |b| == w * |lanes|
  {
    if lanes == [] then []
    else
      assert w * |lanes| == w * (|lanes| - 1) + w;
      Bytes(w, lanes[..|lanes| - 1]) + LeBytes(w, lanes[|lanes| - 1])
  }

  lemma LanesOfPrefix(b: seq<Byte>, w: nat, last: nat)
    requires w * (last + 1) <= |b|
    ensures w * (last + 1) == w * last + w && LanesOf(b, w, last + 1) == LanesOf(b, w, last) + [Lane(b, w, last)]
  {
    assert w * (last + 1) == w * last + w;
  }

  lemma BytesOfAppended(w: nat, lanes: seq<nat>, x: nat)
    ensures Bytes(w, lanes + [x]) == Bytes(w, lanes) + LeBytes(w, x)
  {
    assert (lanes + [x])[..|lanes|] == lanes;
  }

  lemma BytesOfTheLast(b: seq<Byte>, at: nat, w: nat)
    requires at + w <= |b|
    ensures b[..at] + LeBytes(w, FromLe(b[at..at + w])) == b[..at + w]
  {
    ValueOfBytes(b[at..at + w]);
  }

  /** Viewing bytes as lanes and back is the identity. */
  lemma {:induction false} BytesOfLanes(b: seq<Byte>, w: nat, count: nat)
    requires w * count <= |b|
    ensures Bytes(w, LanesOf(b, w, count)) == b[..w * count]
    decreases count
  {
    if count > 0 {
      var last := count - 1;
      var at := w * last;
      assert w * count == at + w by {
        LanesOfPrefix(b, w, last);
      }
      assert Bytes(w, LanesOf(b, w, count)) == Bytes(w, LanesOf(b, w, last)) + LeBytes(w, Lane(b, w, last)) by {
        LanesOfPrefix(b, w, last);
        BytesOfAppended(w, LanesOf(b, w, last), Lane(b, w, last));
      }
      assert Bytes(w, LanesOf(b, w, last)) == b[..at] by {
        BytesOfLanes(b, w, last);
      }
      assert b[..at] + LeBytes(w, Lane(b, w, last)) == b[..at + w] by {
        BytesOfTheLast(b, at, w);
      }
    }
  }

  lemma LanesOfExtended(b: seq<Byte>, c: seq<Byte>, w: nat, count: nat)
    requires w * count <= |b|
    ensures w * count <= |b + c| && LanesOf(b + c, w, count) == LanesOf(b, w, count)
  {
    var now, was := LanesOf(b + c, w, count), LanesOf(b, w, count);
    forall i | 0 <= i < count
      ensures now[i] == was[i]
    {
      LaneOfExtended(b, c, w * i, w);
    }
  }

  lemma LaneOfExtended(b: seq<Byte>, c: seq<Byte>, at: nat, w: nat)
    requires at + w <= |b|
    ensures (b + c)[at..at + w] == b[at..at + w]
  {
  }

  lemma LaneOfAppended(b: seq<Byte>, w: nat, i: nat, x: nat)
    requires |b| == w * i && x < Pow256(w)
    ensures w * i + w <= |b + LeBytes(w, x)| && Lane(b + LeBytes(w, x), w, i) == x
  {
    assert (b + LeBytes(w, x))[|b|..|b| + w] == LeBytes(w, x);
    BytesOfValue(w, x);
  }

  /** Laying out lanes and viewing them again is the identity too, on values that fit their lanes. */
  lemma {:induction false} LanesOfBytes(w: nat, lanes: seq<nat>)
    requires forall i :: 0 <= i < |lanes| ==> lanes[i] < Pow256(w)
    ensures LanesOf(Bytes(w, lanes), w, |lanes|) == lanes
    decreases |lanes|
  {
    if lanes != [] {
      var last := |lanes| - 1;
      var front, x := lanes[..last], lanes[last];
      assert lanes == front + [x];
      LanesOfBytes(w, front);
      BytesOfAppended(w, front, x);
      LanesOfExtended(Bytes(w, front), LeBytes(w, x), w, last);
      LaneOfAppended(Bytes(w, front), w, last, x);
      LanesOfPrefix(Bytes(w, lanes), w, last);
    }
  }

  function Lanes(v: V128, w: nat): seq<nat>
    requires LaneWidth(w)
  {
    LanesOf(v, w, 16 / w)
  }

  function FromLanes(w: nat, lanes: seq<nat>): V128
    requires LaneWidth(w) && |lanes| == 16 / w
  {
    Bytes(w, lanes)
  }

  function Splat(w: nat, value: nat): V128
    requires LaneWidth(w)
  {
    FromLanes(w, seq(16 / w, i => value))
  }

  function ExtractLane(v: V128, w: nat, i: nat): nat
    requires LaneWidth(w) && i < 16 / w
  {
    Lanes(v, w)[i]
  }

  function ReplaceLane(v: V128, w: nat, i: nat, item: nat): V128
    requires LaneWidth(w) && i < 16 / w
  {
    FromLanes(w, Lanes(v, w)[i := item])
  }

  // ---------- the instructions ----------

  /** `v128.load64_zero`. */
  function Load64Zero(memory: seq<Byte>, ptr: U64, offset: U64): Result<V128, TrapCode> {
    match Load(memory, ptr, offset, 8)
    case Ok(bits) => Ok(ReplaceLane(Splat(8, 0), 8, 0, bits))
    case Err(trap) => Err(trap)
  }

  /** `extend_low`: widens the low half of the n-byte lanes. */
  function ExtendLow(v: V128, n: nat, signed: bool): V128
    requires n == 1 || n == 2 || n == 4
  {
    FromLanes(2 * n, seq(8 / n, i requires 0 <= i < 8 / n => Extended(n, 2 * n, signed, Lanes(v, n)[i])))
  }

  /** `widen_nxm`: splits the 64 bits into n-byte items and widens each. */
  function Widen(bits: nat, n: nat, signed: bool): V128
    requires n == 1 || n == 2 || n == 4
  {
    var bytes := LeBytes(8, bits);
    FromLanes(2 * n, seq(8 / n, i requires 0 <= i < 8 / n => Extended(n, 2 * n, signed, Lane(bytes, n, i))))
  }

  /** `v128.load8x8`, `load16x4` and `load32x2`, signed or not. */
  function LoadWiden(memory: seq<Byte>, ptr: U64, offset: U64, n: nat, signed: bool): Result<V128, TrapCode>
    requires n == 1 || n == 2 || n == 4
  {
    match Load(memory, ptr, offset, 8)
    case Ok(bits) => Ok(Widen(bits, n, signed))
    case Err(trap) => Err(trap)
  }

  function LoadLane(memory: seq<Byte>, ptr: U64, offset: U64, x: V128, w: nat, i: nat): Result<V128, TrapCode>
    requires LaneWidth(w) && i < 16 / w
  {
    match Load(memory, ptr, offset, w)
    case Ok(value) => Ok(ReplaceLane(x, w, i, value))
    case Err(trap) => Err(trap)
  }

  method StoreLane(memory: array<Byte>, ptr: U64, offset: U64, value: V128, w: nat, i: nat)
    returns (r: Result<Unit, TrapCode>)
    requires LaneWidth(w) && i < 16 / w && memory.Length < TWO_64
    modifies memory
    ensures match Stored(old(memory[..]), ptr, offset, LeBytes(w, ExtractLane(value, w, i)))
            case Some(after) => r == Ok(Unit) && memory[..] == after
            case None => r == Err(MemoryOutOfBounds) && memory[..] == old(memory[..])
  {
    r := Store(memory, ptr, offset, w, ExtractLane(value, w, i));
  }

  // ---------- laws ----------

  lemma LanesInvert(v: V128, w: nat)
    requires LaneWidth(w)
    ensures FromLanes(w, Lanes(v, w)) == v
  {
    BytesOfLanes(v, w, 16 / w);
    assert v[..16] == v;
  }

  /** Lane i of a vector is its bytes from w * i on. */
  lemma LaneIsItsBytes(v: V128, w: nat, i: nat)
    requires LaneWidth(w) && i < 16 / w
    ensures w * i + w <= 16 && LeBytes(w, ExtractLane(v, w, i)) == v[w * i..w * i + w]
    ensures ExtractLane(v, w, i) < Pow256(w)
  {
    ValueOfBytes(v[w * i..w * i + w]);
    FromLeBound(v[w * i..w * i + w]);
  }

  /** Replacing a lane sets that lane and no other. */
  lemma ReplacingALane(v: V128, w: nat, i: nat, item: nat)
    requires LaneWidth(w) && i < 16 / w && item < Pow256(w)
    ensures forall j :: 0 <= j < 16 / w ==>
              ExtractLane(ReplaceLane(v, w, i, item), w, j) == if j == i then item else ExtractLane(v, w, j)
  {
    forall j | 0 <= j < 16 / w
      ensures Lanes(v, w)[j] < Pow256(w)
    {
      LaneIsItsBytes(v, w, j);
    }
    LanesOfBytes(w, Lanes(v, w)[i := item]);
  }

  /** A lane load sets its lane to the value in memory and keeps the others. */
  lemma LoadLaneSetsOneLane(memory: seq<Byte>, ptr: U64, offset: U64, x: V128, w: nat, i: nat)
    requires LaneWidth(w) && i < 16 / w && |memory| < TWO_64
    ensures LoadLane(memory, ptr, offset, x, w, i).Ok? <==> ptr + offset + w <= |memory|
    ensures ptr + offset + w <= |memory| ==>
              var v := LoadLane(memory, ptr, offset, x, w, i).value;
              && LeBytes(w, ExtractLane(v, w, i)) == memory[ptr + offset..ptr + offset + w]
              && forall j :: 0 <= j < 16 / w && j != i ==> ExtractLane(v, w, j) == ExtractLane(x, w, j)
  {
    if ptr + offset + w <= |memory| {
      var bytes := memory[ptr + offset..ptr + offset + w];
      var v := ReplaceLane(x, w, i, FromLe(bytes));
      assert LoadLane(memory, ptr, offset, x, w, i) == Ok(v);
      FromLeBound(bytes);
      ReplacingALane(x, w, i, FromLe(bytes));
      assert LeBytes(w, FromLe(bytes)) == bytes by {
        ValueOfBytes(bytes);
      }
    }
  }

  /** `load64_zero`: the eight bytes in memory, then zeros. */
  lemma Load64ZeroIs(memory: seq<Byte>, ptr: U64, offset: U64)
    requires |memory| < TWO_64
    ensures Load64Zero(memory, ptr, offset) ==
            if ptr + offset + 8 <= |memory| then Ok(memory[ptr + offset..ptr + offset + 8] + seq(8, i => 0))
            else Err(MemoryOutOfBounds)
  {
    if ptr + offset + 8 <= |memory| {
      var bits := FromLe(memory[ptr + offset..ptr + offset + 8]);
      LowLaneBytes(Splat(8, 0), bits);
      ValueOfBytes(memory[ptr + offset..ptr + offset + 8]);
      HighZeros();
    }
  }

  lemma ZeroBytes(n: nat)
    ensures LeBytes(n, 0) == seq(n, i => 0)
  {
  }

  lemma HighZeros()
    ensures Splat(8, 0)[8..] == seq(8, i => 0)
  {
    assert seq(2, i => 0) == [0, 0];
    TwoLanes(8, 0, 0);
    ZeroBytes(8);
  }

  /** `extend_low`: lane i of the result is the extension of lane i of the narrow view. */
  lemma ExtendLowIs(v: V128, n: nat, signed: bool, i: nat)
    requires (n == 1 || n == 2 || n == 4) && i < 8 / n
    ensures ExtractLane(ExtendLow(v, n, signed), 2 * n, i) == Extended(n, 2 * n, signed, ExtractLane(v, n, i))
  {
    var lanes := seq(8 / n, i requires 0 <= i < 8 / n => Extended(n, 2 * n, signed, Lanes(v, n)[i]));
    assert 16 / (2 * n) == 8 / n;
    assert Lanes(FromLanes(2 * n, lanes), 2 * n) == lanes by {
      LanesComeBack(2 * n, lanes);
    }
    assert ExtendLow(v, n, signed) == FromLanes(2 * n, lanes);
  }

  lemma LanesComeBack(w: nat, lanes: seq<nat>)
    requires LaneWidth(w) && |lanes| == 16 / w && forall i :: 0 <= i < |lanes| ==> lanes[i] < Pow256(w)
    ensures Lanes(FromLanes(w, lanes), w) == lanes
  {
    LanesOfBytes(w, lanes);
  }

  /** Replacing the low 64-bit lane replaces the low eight bytes. */
  lemma LowLaneBytes(z: V128, bits: nat)
    ensures ReplaceLane(z, 8, 0, bits) == LeBytes(8, bits) + z[8..]
  {
    var high := FromLe(z[8..16]);
    assert Lanes(z, 8)[0 := bits] == [bits, high];
    TwoLanes(8, bits, high);
    ValueOfBytes(z[8..16]);
    assert z[8..16] == z[8..];
  }

  lemma TwoLanes(w: nat, a: nat, b: nat)
    ensures Bytes(w, [a, b]) == LeBytes(w, a) + LeBytes(w, b)
  {
    assert [a, b][..1] == [a];
    assert [a][..0] == [];
    assert Bytes(w, [a]) == Bytes(w, []) + LeBytes(w, a);
  }

  /** FUSED LOADS: each load-and-widen is the matching `extend_low` of `load64_zero`, with the same traps. */
  lemma FusedLoadIsExtendedLoad(memory: seq<Byte>, ptr: U64, offset: U64, n: nat, signed: bool)
    requires n == 1 || n == 2 || n == 4
    ensures LoadWiden(memory, ptr, offset, n, signed) ==
            match Load64Zero(memory, ptr, offset)
            case Ok(v) => Ok(ExtendLow(v, n, signed))
            case Err(trap) => Err(trap)
  {
    var loaded := Load(memory, ptr, offset, 8);
    if loaded.Ok? {
      WideningIsExtendingLow(Splat(8, 0), loaded.value, n, signed);
    }
  }

  /** Only the low eight bytes matter, so this holds whatever the high half is. */
  lemma WideningIsExtendingLow(z: V128, bits: nat, n: nat, signed: bool)
    requires n == 1 || n == 2 || n == 4
    ensures Widen(bits, n, signed) == ExtendLow(ReplaceLane(z, 8, 0, bits), n, signed)
  {
    LowLaneBytes(z, bits);
    SameLowLanes(LeBytes(8, bits), z[8..], n);
    var bytes, v := LeBytes(8, bits), ReplaceLane(z, 8, 0, bits);
    assert seq(8 / n, i requires 0 <= i < 8 / n => Extended(n, 2 * n, signed, Lane(bytes, n, i))) ==
           seq(8 / n, i requires 0 <= i < 8 / n => Extended(n, 2 * n, signed, Lanes(v, n)[i]));
  }

  lemma SameLowLanes(low: seq<Byte>, high: seq<Byte>, n: nat)
    requires |low| == 8 && |high| == 8 && (n == 1 || n == 2 || n == 4)
    ensures forall i :: 0 <= i < 8 / n ==> n * i + n <= 8 && Lanes(low + high, n)[i] == Lane(low, n, i)
  {
    forall i | 0 <= i < 8 / n
      ensures n * i + n <= 8 && Lanes(low + high, n)[i] == Lane(low, n, i)
    {
      assert (low + high)[n * i..n * i + n] == low[n * i..n * i + n];
    }
  }

  /** Loading back a stored lane restores the vector. */
  lemma LaneRoundTrip(memory: seq<Byte>, ptr: U64, offset: U64, v: V128, w: nat, i: nat)
    requires LaneWidth(w) && i < 16 / w
    requires |memory| < TWO_64 && ptr + offset + w <= |memory|
    ensures var after := Stored(memory, ptr, offset, LeBytes(w, ExtractLane(v, w, i))).value;
            LoadLane(after, ptr, offset, v, w, i) == Ok(v)
  {
    var item := ExtractLane(v, w, i);
    FromLeBound(v[w * i..w * i + w]);
    LoadAfterStore(memory, ptr, offset, w, item);
    LanesInvert(v, w);
    assert Lanes(v, w)[i := item] == Lanes(v, w);
  }
}
