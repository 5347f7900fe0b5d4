/** `Memory::data_size` documents a multiple of 64 KiB (crates/core/src/memory/mod.rs). With custom page
    sizes that depends on the type of the memory; this is exactly how. */
module DataSizes {
  import opened Prelude
  import opened Fuels
  import opened Limiters
  import opened MemoryTypes
  import opened ByteBuffers
  import opened Memories
  import opened Stores

  /** Memory `i` of the state after a run. */
  ghost function Reached(policy: Policy, fuel: FuelState, ops: seq<Op>, i: nat): Option<MemoryState>
    requires fuel.Valid()
  {
    var s := Run(Initial(policy, fuel), ops);
    if i < |s.memories| then Some(s.memories[i]) else None
  }

  /** Every memory of the type has a multiple of 64 KiB, whatever run leads to it. */
  ghost predicate AlwaysAsDocumented(ty: MemoryType) {
    forall policy: Policy, fuel: FuelState, ops: seq<Op>, i: nat :: fuel.Valid() ==>
      var m := Reached(policy, fuel, ops, i);
      m.Some? && m.value.ty == ty ==> |m.value.buffer.bytes| % TWO_16 == 0
  }

  /** What a caller can see of the type: default pages, or a size that is right and cannot change. */
  ghost predicate DocumentedType(ty: MemoryType)
    requires ty.Valid()
  {
    ty.pageSizeLog2 == DEFAULT_PAGE_SIZE_LOG2 || (ty.minimum == ty.Capacity() && ty.minimum % TWO_16 == 0)
  }

  // ---------- two short runs under a limiter that allows everything ----------

  function Permissive(): Policy {
    Policy((log, request) => Allow, (log, failure) => false)
  }

  const Unmetered: FuelState := FuelState(0, false, 1)

  lemma OneCreation(ty: MemoryType)
    requires ty.Valid() && ty.minimum * ty.PageSize() < TWO_64
    ensures var s := Run(Initial(Permissive(), Unmetered), [NewMemory(ty, Heap(true))]);
            && s.memories == [MemoryState(ty, BufferState(Zeros(ty.minimum * ty.PageSize()), None))]
            && s.limiter.policy == Permissive()
  {
    var start, op := Initial(Permissive(), Unmetered), NewMemory(ty, Heap(true));
    assert [op][..0] == [] && Run(start, []) == start;
  }

  lemma CreationAndGrowth(ty: MemoryType)
    requires ty.Valid() && ty.pageSizeLog2 == 0 && ty.minimum < ty.Capacity()
    ensures var s := Run(Initial(Permissive(), Unmetered), [NewMemory(ty, Heap(true)), GrowMemory(0, 1, false, true)]);
            |s.memories| == 1 && s.memories[0].ty == ty && |s.memories[0].buffer.bytes| == ty.minimum + 1
  {
    OneCreation(ty);
    var create, grow := NewMemory(ty, Heap(true)), GrowMemory(0, 1, false, true);
    assert [create, grow][..1] == [create];
    var s := Run(Initial(Permissive(), Unmetered), [create]);
    GrowContract(s.memories[0], 1, None, Some(s.limiter), true);
  }

  /** One page of one byte is not a multiple of 64 KiB. */
  lemma OneByteMemory()
    ensures var ty := MemoryType(1, None, 0, I32);
            && ty.Valid()
            && var m := Reached(Permissive(), Unmetered, [NewMemory(ty, Heap(true))], 0);
               m.Some? && m.value.ty == ty && |m.value.buffer.bytes| == 1
  {
    OneCreation(MemoryType(1, None, 0, I32));
  }

  /** A memory of the type whose maximum in bytes overflows can be created; growing it panics. */
  lemma OverflowingMaximumIsReachable()
    ensures var ty := MemoryType(0, Some(TWO_48), DEFAULT_PAGE_SIZE_LOG2, I64);
            && ty.Valid() && ty.MaximumOverflows()
            && var m := Reached(Permissive(), Unmetered, [NewMemory(ty, Heap(true))], 0);
               m.Some? && m.value.ty == ty
  {
    OneCreation(MemoryType(0, Some(TWO_48), DEFAULT_PAGE_SIZE_LOG2, I64));
  }

  /** THE DOCUMENTATION HOLDS of a type exactly when its pages are the default ones, or its size is
      fixed at a multiple of 64 KiB. */
  lemma DocumentationIsRightExactly(ty: MemoryType)
    requires ty.Valid()
    ensures AlwaysAsDocumented(ty) <==> DocumentedType(ty)
  {
    if DocumentedType(ty) {
      DocumentedTypesStaySo(ty);
    } else if ty.minimum % TWO_16 != 0 {
      OneCreation(ty);
      assert Reached(Permissive(), Unmetered, [NewMemory(ty, Heap(true))], 0).Some?;
    } else {
      CreationAndGrowth(ty);
      assert Reached(Permissive(), Unmetered, [NewMemory(ty, Heap(true)), GrowMemory(0, 1, false, true)], 0).Some?;
    }
  }

  lemma DocumentedTypesStaySo(ty: MemoryType)
    requires ty.Valid() && DocumentedType(ty)
    ensures AlwaysAsDocumented(ty)
  {
    forall policy: Policy, fuel: FuelState, ops: seq<Op>, i: nat | fuel.Valid()
      ensures var m := Reached(policy, fuel, ops, i);
              m.Some? && m.value.ty == ty ==> |m.value.buffer.bytes| % TWO_16 == 0
    {
      var m := Reached(policy, fuel, ops, i);
      if m.Some? && m.value.ty == ty {
        SizesOfDocumentedTypes(m.value);
      }
    }
  }

  lemma SizesOfDocumentedTypes(m: MemoryState)
    requires m.Valid() && DocumentedType(m.ty)
    ensures |m.buffer.bytes| % TWO_16 == 0
  {
  }
}
