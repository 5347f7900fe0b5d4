/** Loads and stores of little-endian values (crates/core/src/memory/access.rs).
    A value of n bytes is its bit pattern, a number below 256^n. */
module MemoryAccess {
  import opened Prelude
  import opened Arithmetic

  datatype TrapCode = MemoryOutOfBounds

  // ---------- little-endian bytes ----------

  function Pow256(n: nat): (p: nat)
    ensures p >= 1
  {
    if n == 0 then 1 else 256 * Pow256(n - 1)
  }

  /** `to_le_bytes` of the low n bytes of v. */
  function LeBytes(n: nat, v: nat): (b: seq<Byte>)
    ensures |b| == n
  {
    if n == 0 then [] else [v % 256] + LeBytes(n - 1, v / 256)
  }

  /** `from_le_bytes`. */
  function FromLe(b: seq<Byte>): nat {
    if b == [] then 0 else b[0] + 256 * FromLe(b[1..])
  }

  lemma {:induction false} FromLeBound(b: seq<Byte>)
    ensures FromLe(b) < Pow256(|b|)
  {
    if b != [] {
      FromLeBound(b[1..]);
    }
  }

  lemma {:induction false} BytesOfValue(n: nat, v: nat)
    requires v < Pow256(n)
    ensures FromLe(LeBytes(n, v)) == v
  {
    if n > 0 {
      BytesOfValue(n - 1, v / 256);
      assert LeBytes(n, v)[1..] == LeBytes(n - 1, v / 256);
    }
  }

  lemma {:induction false} ValueOfBytes(b: seq<Byte>)
    ensures LeBytes(|b|, FromLe(b)) == b
  {
    if b != [] {
      ValueOfBytes(b[1..]);
      assert b == [b[0]] + b[1..];
      assert FromLe(b) % 256 == b[0] && FromLe(b) / 256 == FromLe(b[1..]);
    }
  }

  /** Bytes beyond the n-th do not matter: storing wraps. */
  lemma {:induction false} LowBytes(n: nat, v: nat)
    ensures LeBytes(n, v % Pow256(n)) == LeBytes(n, v)
  {
    if n > 0 {
      var p := Pow256(n - 1);
      LowBytes(n - 1, v / 256);
      SplitModulus(v, p);
    }
  }

  lemma SplitModulus(v: nat, p: nat)
    requires p >= 1
    ensures (v % (256 * p)) % 256 == v % 256
    ensures (v % (256 * p)) / 256 == (v / 256) % p
  {
    var q, r := v / (256 * p), v % (256 * p);
    assert v == 256 * (q * p) + r;
    assert v / 256 == q * p + r / 256;
    UniqueRemainder(v / 256, p, q, r / 256);
  }

  /** The powers an access needs. */
  lemma PowersOf256()
    ensures Pow256(0) == 1 && Pow256(1) == 0x100 && Pow256(2) == 0x1_0000 && Pow256(4) == 0x1_0000_0000
    ensures Pow256(8) == 0x1_0000_0000_0000_0000
  {
    assert Pow256(3) == 256 * Pow256(2);
    assert Pow256(5) == 256 * Pow256(4) && Pow256(6) == 256 * Pow256(5) && Pow256(7) == 256 * Pow256(6);
  }

  /** LITTLE-ENDIAN: byte i has the weight 256^i. */
  lemma {:induction false} ByteWeights(n: nat, v: nat, i: nat)
    requires i < n
    ensures LeBytes(n, v)[i] == v / Pow256(i) % 256
    decreases n
  {
    if i > 0 {
      ByteWeights(n - 1, v / 256, i - 1);
      DividingTwice(v, Pow256(i - 1));
    }
  }

  lemma DividingTwice(v: nat, p: nat)
    requires p > 0
    ensures v / 256 / p == v / (256 * p)
  {
    var q, r, low := v / 256 / p, v / 256 % p, v % 256;
    assert v / 256 == q * p + r;
    assert v == (q * p + r) * 256 + low;
    assert v == q * (256 * p) + (r * 256 + low);
    UniqueRemainder(v, 256 * p, q, r * 256 + low);
  }

  // ---------- addresses ----------

  function EffectiveAddress(ptr: U64, offset: U64): Result<U64, TrapCode> {
    if ptr + offset < TWO_64 then Ok(ptr + offset) else Err(MemoryOutOfBounds)
  }

  /** `memory.get(address..)` and then `get(..n)`. */
  predicate Accessible(length: nat, address: nat, n: nat) {
    address <= length && n <= length - address
  }

  function LoadAt(memory: seq<Byte>, address: U64, n: nat): Result<nat, TrapCode> {
    if Accessible(|memory|, address, n) then Ok(FromLe(memory[address..address + n])) else Err(MemoryOutOfBounds)
  }

  function Load(memory: seq<Byte>, ptr: U64, offset: U64, n: nat): Result<nat, TrapCode> {
    match EffectiveAddress(ptr, offset)
    case Ok(address) => LoadAt(memory, address, n)
    case Err(trap) => Err(trap)
  }

  ghost function Stored(memory: seq<Byte>, ptr: U64, offset: U64, bytes: seq<Byte>): Option<seq<Byte>> {
    if ptr + offset + |bytes| <= |memory| then
      Some(memory[..ptr + offset] + bytes + memory[ptr + offset + |bytes|..])
    else None
  }

  /** Writes the n bytes of `value`, or traps and writes nothing. */
  method Store(memory: array<Byte>, ptr: U64, offset: U64, n: nat, value: nat) returns (r: Result<Unit, TrapCode>)
    requires memory.Length < TWO_64
    modifies memory
    ensures match Stored(old(memory[..]), ptr, offset, LeBytes(n, value))
            case Some(after) => r == Ok(Unit) && memory[..] == after
            case None => r == Err(MemoryOutOfBounds) && memory[..] == old(memory[..])
  {
    var address := EffectiveAddress(ptr, offset);
    if address.Err? {
      return Err(address.error);
    }
    r := StoreAt(memory, address.value, LeBytes(n, value));
  }

  method StoreAt(memory: array<Byte>, address: U64, bytes: seq<Byte>) returns (r: Result<Unit, TrapCode>)
    modifies memory
    ensures if address + |bytes| <= memory.Length
            then r == Ok(Unit)
                 && memory[..] == old(memory[..address]) + bytes + old(memory[address + |bytes|..])
            else r == Err(MemoryOutOfBounds) && memory[..] == old(memory[..])
  {
    if !Accessible(memory.Length, address, |bytes|) {
      return Err(MemoryOutOfBounds);
    }
    forall i | 0 <= i < |bytes| {
      memory[address + i] := bytes[i];
    }
    return Ok(Unit);
  }

  // ---------- laws ----------

  /** A load succeeds exactly when the whole access is in bounds, as mathematical integers. */
  lemma LoadSucceedsExactly(memory: seq<Byte>, ptr: U64, offset: U64, n: nat)
    requires |memory| < TWO_64
    ensures Load(memory, ptr, offset, n).Ok? <==> ptr + offset + n <= |memory|
  {
  }

  /** A load after a store at the same address returns the stored value. */
  lemma LoadAfterStore(memory: seq<Byte>, ptr: U64, offset: U64, n: nat, value: nat)
    requires |memory| < TWO_64 && ptr + offset + n <= |memory|
    requires value < Pow256(n)
    ensures var after := Stored(memory, ptr, offset, LeBytes(n, value)).value;
            |after| == |memory| && Load(after, ptr, offset, n) == Ok(value)
  {
    var bytes, a := LeBytes(n, value), ptr + offset;
    var after := memory[..a] + bytes + memory[a + n..];
    assert after[a..a + n] == bytes;
    BytesOfValue(n, value);
  }

  /** An access of any width that is disjoint from a store sees no difference, traps included. */
  lemma DisjointLoadAfterStore(
    memory: seq<Byte>, ptr: U64, offset: U64, bytes: seq<Byte>, ptr': U64, offset': U64, n: nat)
    requires |memory| < TWO_64 && ptr + offset + |bytes| <= |memory|
    requires ptr' + offset' + n <= ptr + offset || ptr + offset + |bytes| <= ptr' + offset'
    ensures Load(Stored(memory, ptr, offset, bytes).value, ptr', offset', n) == Load(memory, ptr', offset', n)
  {
    var a, b := ptr + offset, ptr' + offset';
    var after := memory[..a] + bytes + memory[a + |bytes|..];
    if b + n <= |memory| {
      assert after[b..b + n] == memory[b..b + n];
    }
  }

  // ---------- narrow stores and extending loads ----------

  /** The value of the n-byte pattern u as a signed number. */
  function AsSigned(n: nat, u: nat): int {
    if 2 * u >= Pow256(n) then u - Pow256(n) else u
  }

  /** The w-byte pattern of a signed number. */
  function Pattern(w: nat, value: int): nat {
    value % Pow256(w)
  }

  /** `extend_into`: by sign or by zeros. */
  function Extended(n: nat, w: nat, signed: bool, u: nat): nat {
    Pattern(w, if signed then AsSigned(n, u) else u)
  }

  function LoadExtend(memory: seq<Byte>, ptr: U64, offset: U64, n: nat, w: nat, signed: bool): Result<nat, TrapCode> {
    match Load(memory, ptr, offset, n)
    case Ok(u) => Ok(Extended(n, w, signed, u))
    case Err(trap) => Err(trap)
  }

  /** TWO'S COMPLEMENT: the signed value of a pattern is the one number congruent to it in the signed range. */
  lemma SignedValueIs(n: nat, u: nat, s: int)
    requires 0 < n && u < Pow256(n)
    ensures 0 <= 2 * AsSigned(n, u) + Pow256(n) < 2 * Pow256(n)
    ensures (AsSigned(n, u) - u) % Pow256(n) == 0
    ensures 0 <= 2 * s + Pow256(n) < 2 * Pow256(n) && (s - u) % Pow256(n) == 0 ==> s == AsSigned(n, u)
  {
    CongruentInRange(Pow256(n), u, s);
    CongruentInRange(Pow256(n), u, AsSigned(n, u));
  }

  lemma CongruentInRange(p: int, u: int, s: int)
    requires 0 <= u < p
    ensures s == u || s == u - p ==> (s - u) % p == 0
    ensures -p <= 2 * s < p && (s - u) % p == 0 ==> s == if 2 * u >= p then u - p else u
  {
    RemainderOfNegative(-p, p);
    var k := (s - u) / p;
    if (s - u) % p == 0 {
      MultipleBounds(k, p, s - u);
    }
  }

  lemma MultipleBounds(k: int, p: int, x: int)
    requires 0 < p && x == k * p
    ensures k >= 1 ==> x >= p
    ensures k <= -2 ==> x <= -2 * p
    ensures k == -1 ==> x == -p
    ensures k == 0 ==> x == 0
  {
  }

  /** A signed extension fills with ones or zeros, by the top bit: the wide pattern has the narrow one below. */
  lemma SignExtensionFills(n: nat, w: nat, u: nat)
    requires 0 < n <= w && u < Pow256(n)
    ensures Extended(n, w, true, u) == if 2 * u >= Pow256(n) then Pow256(w) - Pow256(n) + u else u
  {
    Pow256Monotone(n, w);
    Extension(Pow256(n), Pow256(w), u);
  }

  /** `i32.load8_s` of the byte 255. */
  lemma LoadingMinusOne()
    ensures LoadExtend([255], 0, 0, 1, 4, true) == Ok(0xFFFF_FFFF)
    ensures LoadExtend([255], 0, 0, 1, 4, false) == Ok(255)
  {
    PowersOf256();
    assert [255][0..1] == [255] && [255 as Byte][1..] == [];
    assert FromLe([255]) == 255;
    SignExtensionFills(1, 4, 255);
    ExtensionKeepsTheValue(1, 4, 255);
  }

  /** `store_wrap` of n bytes followed by the extending load is the extension of the low bits. */
  lemma ExtendingLoadAfterWrappingStore(
    memory: seq<Byte>, ptr: U64, offset: U64, n: nat, w: nat, signed: bool, value: nat)
    requires |memory| < TWO_64 && ptr + offset + n <= |memory|
    ensures var after := Stored(memory, ptr, offset, LeBytes(n, value)).value;
            LoadExtend(after, ptr, offset, n, w, signed) == Ok(Extended(n, w, signed, value % Pow256(n)))
  {
    LowBytes(n, value);
    LoadAfterStore(memory, ptr, offset, n, value % Pow256(n));
  }

  /** Extension keeps the number: read back at the wide width it is the same one. */
  lemma ExtensionKeepsTheValue(n: nat, w: nat, u: nat)
    requires 0 < n <= w && u < Pow256(n)
    ensures AsSigned(w, Extended(n, w, true, u)) == AsSigned(n, u)
    ensures Extended(n, w, false, u) == u
  {
    Pow256Monotone(n, w);
    Extension(Pow256(n), Pow256(w), u);
  }

  lemma Extension(narrow: nat, wide: nat, u: nat)
    requires u < narrow <= wide
    ensures u % wide == u
    ensures 2 * u >= narrow ==> (u - narrow) % wide == u - narrow + wide && 2 * (u - narrow + wide) >= wide
  {
    UniqueRemainder(u, wide, 0, u);
    if 2 * u >= narrow {
      RemainderOfNegative(u - narrow, wide);
    }
  }

  lemma {:induction false} Pow256Monotone(n: nat, w: nat)
    requires n <= w
    ensures Pow256(n) <= Pow256(w)
    decreases w
  {
    if n < w {
      Pow256Monotone(n, w - 1);
    }
  }
}
