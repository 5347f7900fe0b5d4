/** Table types and import subtyping (crates/core/src/table/ty.rs). */
module TableTypes {
  import opened Prelude
  import opened MemoryTypes

  datatype RefType = FuncRef | ExternRef

  datatype TableType = TableType(element: RefType, min: U64, max: Option<U64>, indexType: IndexType)
  {
    /** The assertions of `TableType::new_impl`: outside them the constructor panics. */
    predicate Valid() {
      && min <= indexType.MaxSize()
      && (max.Some? ==> min <= max.value <= indexType.MaxSize())
    }

    predicate IsSubtypeOf(other: TableType) {
      if indexType != other.indexType then false
      else if element != other.element then false
      else if min < other.min then false
      else match (max, other.max)
        case (_, None) => true
        case (Some(m), Some(otherMax)) => m <= otherMax
        case (None, Some(_)) => false
    }
  }

  /** The constructor accepts exactly minimum <= maximum <= 2^32 or 2^64, depending on the index type. */
  lemma ConstructorAcceptsExactly(t: TableType)
    ensures t.Valid() <==>
            var most := if t.indexType == I32 then 0x1_0000_0000 else 0x1_0000_0000_0000_0000;
            t.min <= most && (t.max.Some? ==> t.min <= t.max.value <= most)
  {
  }

  /** A number of elements that a table of the type may have. */
  ghost predicate Admits(t: TableType, size: nat) {
    t.min <= size && (t.max.Some? ==> size <= t.max.value)
  }

  /** SUBTYPING IS INCLUSION, as for memories. */
  lemma SubtypingIsInclusion(a: TableType, b: TableType)
    requires a.Valid() && b.Valid()
    ensures a.IsSubtypeOf(b) <==>
            && a.indexType == b.indexType && a.element == b.element
            && forall size: nat :: Admits(a, size) ==> Admits(b, size)
  {
    assert Admits(a, a.min);
    if a.max.Some? {
      assert Admits(a, a.max.value);
    } else if b.max.Some? {
      assert Admits(a, a.min + b.max.value + 1);
    }
  }

  lemma SubtypingIsAPartialOrder(a: TableType, b: TableType, c: TableType)
    ensures a.IsSubtypeOf(a)
    ensures a.IsSubtypeOf(b) && b.IsSubtypeOf(a) ==> a == b
    ensures a.IsSubtypeOf(b) && b.IsSubtypeOf(c) ==> a.IsSubtypeOf(c)
  {
  }
}
