/** Memory types, their validation and import subtyping (crates/core/src/memory/ty.rs). */
module MemoryTypes {
  import opened Prelude
  import opened Errors

  datatype IndexType = I32 | I64
  {
    function MaxSize(): nat {
      match this
      case I32 => TWO_32
      case I64 => TWO_64
    }
  }

  const DEFAULT_PAGE_SIZE_LOG2: nat := 16

  datatype MemoryType = MemoryType(
    minimum: U64,
    maximum: Option<U64>,
    pageSizeLog2: Byte,
    indexType: IndexType)
  {
    /** `1 << page_size_log2`; only the two admitted exponents give a page size. */
    function PageSize(): (size: nat)
      requires pageSizeLog2 == 0 || pageSizeLog2 == DEFAULT_PAGE_SIZE_LOG2
    {
      if pageSizeLog2 == 0 then 1 else TWO_16
    }

    /** The largest number of pages the index type can address. */
    function AbsoluteMax(): nat
      requires pageSizeLog2 == 0 || pageSizeLog2 == DEFAULT_PAGE_SIZE_LOG2
    {
      indexType.MaxSize() / PageSize()
    }

    function MinimumByteSize(): Option<nat>
      requires pageSizeLog2 == 0 || pageSizeLog2 == DEFAULT_PAGE_SIZE_LOG2
    {
      if minimum > AbsoluteMax() then None else Some(minimum * PageSize())
    }

    /** `MemoryTypeBuilder::build`: the checks of `validate` in their order. */
    function Build(): Result<MemoryType, MemoryError> {
      if pageSizeLog2 != 0 && pageSizeLog2 != DEFAULT_PAGE_SIZE_LOG2 then Err(InvalidMemoryType)
      else if MinimumByteSize().None? then Err(InvalidMemoryType)
      else match maximum
        case None => Ok(this)
        case Some(max) =>
          if max > AbsoluteMax() then Err(InvalidMemoryType)
          else if minimum > max then Err(InvalidMemoryType)
          else Ok(this)
    }

    ghost predicate Valid() {
      Build().Ok?
    }

    /** The most pages a memory of this type can ever hold on a 64-bit host. */
    ghost function Capacity(): (pages: nat)
      requires Valid()
    {
      var addressable := Min(AbsoluteMax(), (TWO_64 - 1) / PageSize());
      if maximum.None? then addressable else Min(maximum.value, addressable)
    }

    /** The one admitted type whose maximum, in bytes, does not fit a `u64`. */
    predicate MaximumOverflows() {
      indexType.I64? && pageSizeLog2 == DEFAULT_PAGE_SIZE_LOG2 && maximum == Some(TWO_48)
    }

    predicate IsSubtypeOf(other: MemoryType)
      requires pageSizeLog2 == 0 || pageSizeLog2 == DEFAULT_PAGE_SIZE_LOG2
      requires other.pageSizeLog2 == 0 || other.pageSizeLog2 == DEFAULT_PAGE_SIZE_LOG2
    {
      if indexType != other.indexType then false
      else if PageSize() != other.PageSize() then false
      else if minimum < other.minimum then false
      else match (maximum, other.maximum)
        case (_, None) => true
        case (Some(max), Some(otherMax)) => max <= otherMax
        case (None, Some(_)) => false
    }
  }

  /** Validation accepts exactly the types with a supported page size
      and minimum <= maximum <= absolute maximum. */
  lemma BuildAcceptsExactlyTheBoundedTypes(t: MemoryType)
    ensures t.Build().Ok? <==>
            && (t.pageSizeLog2 == 0 || t.pageSizeLog2 == 16)
            && var page := if t.pageSizeLog2 == 0 then 1 else 65536;
               var bytes := if t.indexType == I32 then 0x1_0000_0000 else 0x1_0000_0000_0000_0000;
               && t.minimum * page <= bytes
               && (t.maximum.Some? ==> t.minimum <= t.maximum.value && t.maximum.value * page <= bytes)
    ensures t.Build().Ok? ==> t.Build().value == t
  {
  }

  /** `max_size_in_bytes` overflows for exactly one admitted family of types. */
  lemma MaximumOverflowsExactly(t: MemoryType)
    requires t.Valid()
    ensures t.MaximumOverflows() <==> t.maximum.Some? && t.maximum.value * t.PageSize() >= TWO_64
  {
  }

  /** A size in pages that a memory of the type may have. */
  ghost predicate Admits(t: MemoryType, pages: nat) {
    t.minimum <= pages && (t.maximum.Some? ==> pages <= t.maximum.value)
  }

  /** SUBTYPING IS INCLUSION: of memories that agree in index type and page size, exactly those are subtypes
      whose admitted sizes are all admitted by the other. */
  lemma SubtypingIsInclusion(a: MemoryType, b: MemoryType)
    requires a.Valid() && b.Valid()
    ensures a.IsSubtypeOf(b) <==>
            && a.indexType == b.indexType && a.pageSizeLog2 == b.pageSizeLog2
            && forall pages: nat :: Admits(a, pages) ==> Admits(b, pages)
  {
    assert Admits(a, a.minimum);
    if a.maximum.Some? {
      assert Admits(a, a.maximum.value);
    } else if b.maximum.Some? {
      assert Admits(a, a.minimum + b.maximum.value + 1);
    }
  }

  lemma SubtypingIsAPartialOrder(a: MemoryType, b: MemoryType, c: MemoryType)
    requires a.Valid() && b.Valid() && c.Valid()
    ensures a.IsSubtypeOf(a)
    ensures a.IsSubtypeOf(b) && b.IsSubtypeOf(a) ==> a == b
    ensures a.IsSubtypeOf(b) && b.IsSubtypeOf(c) ==> a.IsSubtypeOf(c)
  {
  }
}
