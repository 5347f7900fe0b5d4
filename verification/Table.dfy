/** Tables (crates/core/src/table/mod.rs). */
module Tables {
  import opened Prelude
  import opened Errors
  import opened Fuels
  import opened Limiters
  import opened MemoryTypes
  import opened TableTypes

  /** The 32 bits of a reference; four bytes each for the fuel costs. */
  type RawRef = U32

  const RAW_REF_BYTES: nat := 4

  datatype TypedRef = TypedRef(raw: RawRef, ty: RefType)

  datatype ElementSegment = ElementSegment(ty: RefType, items: seq<RawRef>)

  function Repeat(r: RawRef, n: nat): (s: seq<RawRef>)
    ensures |s| == n && forall i :: 0 <= i < n ==> s[i] == r
  {
    seq(n, i => r)
  }

  /** `s` with the elements from `at` on replaced by `part`. */
  function Splice(s: seq<RawRef>, at: nat, part: seq<RawRef>): (r: seq<RawRef>)
    requires at + |part| <= |s|
    ensures |r| == |s|
  {
    s[..at] + part + s[at + |part|..]
  }

  /** `now` holds the part from `at` on and what `was` held everywhere else. */
  ghost predicate Overlaid(now: seq<RawRef>, was: seq<RawRef>, at: nat, part: seq<RawRef>) {
    && |now| == |was| && at + |part| <= |was|
    && forall i {:trigger now[i]} :: 0 <= i < |now| ==>
         now[i] == if at <= i < at + |part| then part[i - at] else was[i]
  }

  lemma SpliceOverlays(s: seq<RawRef>, at: nat, part: seq<RawRef>)
    requires at + |part| <= |s|
    ensures Overlaid(Splice(s, at, part), s, at, part)
  {
  }

  /** The value of a table. */
  datatype TableState = TableState(ty: TableType, elements: seq<RawRef>)
  {
    /** What every reachable table satisfies. */
    predicate Valid() {
      && ty.Valid()
      && |elements| < TWO_64
      && ty.min <= |elements| <= ty.indexType.MaxSize()
      && (ty.max.Some? ==> |elements| <= ty.max.value)
    }

    function DynamicType(): (t: TableType)
      requires Valid()
      ensures t.Valid()
    {
      ty.(min := |elements|)
    }
  }

  datatype NewOutcome = NewOutcome(result: Result<TableState, TableError>, limiter: Option<LimiterState>)

  datatype OpOutcome<+T> = OpOutcome(
    result: Result<T, TableError>,
    table: TableState,
    fuel: Option<FuelState>,
    limiter: Option<LimiterState>)

  /** The error a caller sees when the limiter was told of `error`. */
  function Escalated(trap: bool, error: TableError): TableError {
    if trap then TableLimiterDenied else error
  }

  function Created(ty: TableType, init: TypedRef, limiter: Option<LimiterState>, granted: bool): NewOutcome {
    if ty.element != init.ty then NewOutcome(Err(ElementTypeMismatch), limiter)
    else
      var (decision, asked) := Consulted(limiter, Request(TableKind, 0, ty.min, ty.max));
      if decision != Allow then NewOutcome(Err(TableLimiterDenied), asked)
      else if granted then NewOutcome(Ok(TableState(ty, Repeat(init.raw, ty.min))), asked)
      else
        var (trap, told) := Reported(asked, TableFailure(TableOutOfSystemMemory));
        NewOutcome(Err(Escalated(trap, TableOutOfSystemMemory)), told)
  }

  /** Growing a table by `delta` elements. Unlike a memory, a table asks the limiter
      before it looks at its own maximum, so that failure is one it must report back. */
  function Grown(
    t: TableState, delta: U64, init: RawRef,
    fuel: Option<FuelState>, limiter: Option<LimiterState>, granted: bool): OpOutcome<U64>
    requires t.Valid()
    requires fuel.Some? ==> fuel.value.Valid()
  {
    var size := |t.elements|;
    if delta == 0 then OpOutcome(Ok(size), t, fuel, limiter)
    else if size + delta >= t.ty.indexType.MaxSize() then OpOutcome(Err(GrowOutOfBounds), t, fuel, limiter)
    else
      var (decision, asked) := Consulted(limiter, Request(TableKind, size, size + delta, t.ty.max));
      match decision
      case Deny => OpOutcome(Err(GrowOutOfBounds), t, fuel, asked)
      case Trap => OpOutcome(Err(TableLimiterDenied), t, fuel, asked)
      case Allow => Committed(t, delta, init, fuel, asked, granted)
  }

  /** The part of a growth after its approval. */
  function Committed(
    t: TableState, delta: U64, init: RawRef,
    fuel: Option<FuelState>, limiter: Option<LimiterState>, granted: bool): OpOutcome<U64>
    requires t.Valid()
    requires fuel.Some? ==> fuel.value.Valid()
  {
    var size := |t.elements|;
    if t.ty.max.Some? && size + delta > t.ty.max.value then
      var (trap, told) := Reported(limiter, TableFailure(GrowOutOfBounds));
      OpOutcome(Err(Escalated(trap, GrowOutOfBounds)), t, fuel, told)
    else
      match Charged(fuel, delta, RAW_REF_BYTES)
      case Err(cost) =>
        var (trap, told) := Reported(limiter, TableFailure(TableOutOfFuel(cost)));
        OpOutcome(Err(Escalated(trap, TableOutOfFuel(cost))), t, fuel, told)
      case Ok(paid) =>
        if granted then
          OpOutcome(Ok(size), t.(elements := t.elements + Repeat(init, delta)), paid, limiter)
        else
          var (trap, told) := Reported(limiter, TableFailure(TableOutOfSystemMemory));
          OpOutcome(Err(Escalated(trap, TableOutOfSystemMemory)), t, paid, told)
  }

  /** The common shape of `init`, `copy`, `copy_within` and `fill`: bounds, then fuel, then the write. */
  function Overwritten(
    t: TableState, at: U64, part: Option<seq<RawRef>>, outOfBounds: TableError,
    cost: U64, fuel: Option<FuelState>): (Result<Option<FuelState>, TableError>, TableState)
    requires fuel.Some? ==> fuel.value.Valid()
  {
    if part.None? || at + |part.value| > |t.elements| then (Err(outOfBounds), t)
    else
      match Charged(fuel, cost, RAW_REF_BYTES)
      case Err(missing) => (Err(TableOutOfFuel(missing)), t)
      case Ok(left) => (Ok(left), t.(elements := Splice(t.elements, at, part.value)))
  }

  /** `s[from..from + len]` if it is in bounds. */
  function Slice(s: seq<RawRef>, from: nat, len: nat): Option<seq<RawRef>> {
    if from + len <= |s| then Some(s[from..from + len]) else None
  }

  class Table {
    const ty: TableType
    var elements: seq<RawRef>

    ghost predicate Valid()
      reads this
    {
      View().Valid()
    }

    ghost function View(): TableState
      reads this
    {
      TableState(ty, elements)
    }

    constructor (ty: TableType, elements: seq<RawRef>)
      ensures View() == TableState(ty, elements)
    {
      this.ty, this.elements := ty, elements;
    }

    static method New(ty: TableType, init: TypedRef, limiter: Limiter?, granted: bool)
      returns (r: Result<Table, TableError>)
      requires ty.Valid()
      modifies limiter
      ensures var spec := Created(ty, init, old(LimiterView(limiter)), granted);
              && LimiterView(limiter) == spec.limiter
              && match spec.result
                 case Ok(state) => r.Ok? && fresh(r.value) && r.value.Valid() && r.value.View() == state
                 case Err(error) => r == Err(error)
    {
      if ty.element != init.ty {
        return Err(ElementTypeMismatch);
      }
      var decision := Consult(limiter, Request(TableKind, 0, ty.min, ty.max));
      if decision != Allow {
        return Err(TableLimiterDenied);
      }
      if !granted {
        var trap := Report(limiter, TableFailure(TableOutOfSystemMemory));
        return Err(Escalated(trap, TableOutOfSystemMemory));
      }
      var t := new Table(ty, Repeat(init.raw, ty.min));
      return Ok(t);
    }

    /** `TableType::new_impl` never panics on the dynamic type. */
    method DynamicTy() returns (t: TableType)
      requires Valid()
      ensures t == View().DynamicType() && t.Valid()
      ensures t.min == |elements| && t == ty.(min := t.min)
    {
      t := TableType(ty.element, |elements|, ty.max, ty.indexType);
    }

    method GrowRaw(delta: U64, init: RawRef, fuel: Fuel?, limiter: Limiter?, granted: bool)
      returns (r: Result<U64, TableError>)
      requires Valid()
      requires fuel != null ==> fuel.Valid()
      modifies this, fuel, limiter
      ensures Valid()
      ensures OpOutcome(r, View(), FuelView(fuel), LimiterView(limiter)) ==
              Grown(old(View()), delta, init, old(FuelView(fuel)), old(LimiterView(limiter)), granted)
    {
      if delta == 0 {
        return Ok(|elements|);
      }
      if |elements| + delta >= TWO_64 {
        return Err(GrowOutOfBounds);
      }
      var desired: U64 := |elements| + delta;
      if desired >= ty.indexType.MaxSize() {
        return Err(GrowOutOfBounds);
      }
      var decision := Consult(limiter, Request(TableKind, |elements|, desired, ty.max));
      match decision
      case Deny => r := Err(GrowOutOfBounds);
      case Trap => r := Err(TableLimiterDenied);
      case Allow => r := Commit(delta, init, fuel, limiter, granted);
    }

    method Commit(delta: U64, init: RawRef, fuel: Fuel?, limiter: Limiter?, granted: bool)
      returns (r: Result<U64, TableError>)
      requires Valid() && |elements| + delta < ty.indexType.MaxSize()
      requires fuel != null ==> fuel.Valid()
      modifies this, fuel, limiter
      ensures Valid()
      ensures OpOutcome(r, View(), FuelView(fuel), LimiterView(limiter)) ==
              Committed(old(View()), delta, init, old(FuelView(fuel)), old(LimiterView(limiter)), granted)
    {
      if ty.max.Some? && |elements| + delta > ty.max.value {
        var trap := Report(limiter, TableFailure(GrowOutOfBounds));
        return Err(Escalated(trap, GrowOutOfBounds));
      }
      if fuel != null {
        var paid := fuel.ConsumeForCopy(delta, RAW_REF_BYTES);
        if paid.Err? && paid.error.OutOfFuel? {
          var trap := Report(limiter, TableFailure(TableOutOfFuel(paid.error.requiredFuel)));
          return Err(Escalated(trap, TableOutOfFuel(paid.error.requiredFuel)));
        }
      }
      if !granted {
        var trap := Report(limiter, TableFailure(TableOutOfSystemMemory));
        return Err(Escalated(trap, TableOutOfSystemMemory));
      }
      var before := |elements|;
      elements := elements + Repeat(init, delta);
      return Ok(before);
    }

    method SetRaw(index: U64, value: RawRef) returns (r: Result<Unit, TableError>)
      modifies this
      ensures r == if index < old(|elements|) then Ok(Unit) else Err(SetOutOfBounds)
      ensures elements == if r.Ok? then old(elements)[index := value] else old(elements)
    {
      if index >= |elements| {
        return Err(SetOutOfBounds);
      }
      elements := elements[index := value];
      return Ok(Unit);
    }

    method FillRaw(dst: U64, val: RawRef, len: U64, fuel: Fuel?) returns (r: Result<Unit, TableError>)
      requires Valid()
      requires fuel != null ==> fuel.Valid()
      modifies this, fuel
      ensures Valid()
      ensures var part := Some(Repeat(val, len));
              var (s, t) := Overwritten(old(View()), dst, part, FillOutOfBounds, len, old(FuelView(fuel)));
              Written(r, View(), FuelView(fuel), s, t, old(FuelView(fuel)))
      ensures r.Ok? ==> Overlaid(elements, old(elements), dst, Repeat(val, len))
      ensures r.Err? ==> elements == old(elements)
    {
      if dst > |elements| || len > |elements[dst..]| {
        return Err(FillOutOfBounds);
      }
      var charged := Charge(fuel, len, RAW_REF_BYTES);
      if charged.Err? {
        return Err(TableOutOfFuel(charged.error));
      }
      var part := Repeat(val, len);
      assert Overlaid(Splice(elements, dst, part), elements, dst, part) by {
        SpliceOverlays(elements, dst, part);
      }
      elements := Splice(elements, dst, part);
      return Ok(Unit);
    }

    /** A zero-length `init` is checked but not charged: its cost is zero either way. */
    method Init(element: ElementSegment, dst: U64, src: U32, len: U32, fuel: Fuel?)
      returns (r: Result<Unit, TableError>)
      requires Valid()
      requires fuel != null ==> fuel.Valid()
      modifies this, fuel
      ensures Valid()
      ensures ty.element != element.ty ==>
                r == Err(ElementTypeMismatch) && View() == old(View()) && FuelView(fuel) == old(FuelView(fuel))
      ensures ty.element == element.ty ==>
                var part := Slice(element.items, src, len);
                var (s, t) := Overwritten(old(View()), dst, part, InitOutOfBounds, len, old(FuelView(fuel)));
                Written(r, View(), FuelView(fuel), s, t, old(FuelView(fuel)))
      ensures r.Ok? ==> src + len <= |element.items|
      ensures r.Ok? ==> Overlaid(elements, old(elements), dst, element.items[src..src + len])
      ensures r.Err? ==> elements == old(elements)
    {
      if ty.element != element.ty {
        return Err(ElementTypeMismatch);
      }
      if dst > |elements| || len > |elements[dst..]| {
        return Err(InitOutOfBounds);
      }
      if src > |element.items| || len > |element.items[src..]| {
        return Err(InitOutOfBounds);
      }
      if len == 0 {
        assert Splice(elements, dst, element.items[src..src + len]) == elements;
        FreeOfCharge(FuelView(fuel));
        return Ok(Unit);
      }
      var charged := Charge(fuel, len, RAW_REF_BYTES);
      if charged.Err? {
        return Err(TableOutOfFuel(charged.error));
      }
      var part := element.items[src..src + len];
      assert Overlaid(Splice(elements, dst, part), elements, dst, part) by {
        SpliceOverlays(elements, dst, part);
      }
      elements := Splice(elements, dst, part);
      return Ok(Unit);
    }

    static method Copy(dstTable: Table, dst: U64, srcTable: Table, src: U64, len: U64, fuel: Fuel?)
      returns (r: Result<Unit, TableError>)
      requires dstTable.Valid() && srcTable.Valid() && dstTable != srcTable
      requires fuel != null ==> fuel.Valid()
      modifies dstTable, fuel
      ensures dstTable.Valid()
      ensures dstTable.ty.element != srcTable.ty.element ==>
                && r == Err(ElementTypeMismatch)
                && dstTable.View() == old(dstTable.View())
                && FuelView(fuel) == old(FuelView(fuel))
      ensures dstTable.ty.element == srcTable.ty.element ==>
                var part := Slice(srcTable.elements, src, len);
                var (s, t) := Overwritten(old(dstTable.View()), dst, part, CopyOutOfBounds, len, old(FuelView(fuel)));
                Written(r, dstTable.View(), FuelView(fuel), s, t, old(FuelView(fuel)))
      ensures r.Ok? ==> src + len <= |srcTable.elements|
      ensures r.Ok? ==> Overlaid(dstTable.elements, old(dstTable.elements), dst, srcTable.elements[src..src + len])
      ensures r.Err? ==> dstTable.elements == old(dstTable.elements)
    {
      if dstTable.ty.element != srcTable.ty.element {
        return Err(ElementTypeMismatch);
      }
      if dst > |dstTable.elements| || len > |dstTable.elements[dst..]| {
        return Err(CopyOutOfBounds);
      }
      if src > |srcTable.elements| || len > |srcTable.elements[src..]| {
        return Err(CopyOutOfBounds);
      }
      var charged := Charge(fuel, len, RAW_REF_BYTES);
      if charged.Err? {
        return Err(TableOutOfFuel(charged.error));
      }
      var part := srcTable.elements[src..src + len];
      assert Overlaid(Splice(dstTable.elements, dst, part), dstTable.elements, dst, part) by {
        SpliceOverlays(dstTable.elements, dst, part);
      }
      dstTable.elements := Splice(dstTable.elements, dst, part);
      return Ok(Unit);
    }

    /** Copies within one table, as if its old contents were a second table. */
    method CopyWithin(dst: U64, src: U64, len: U64, fuel: Fuel?) returns (r: Result<Unit, TableError>)
      requires Valid()
      requires fuel != null ==> fuel.Valid()
      modifies this, fuel
      ensures Valid()
      ensures var part := Slice(old(elements), src, len);
              var (s, t) := Overwritten(old(View()), dst, part, CopyOutOfBounds, len, old(FuelView(fuel)));
              Written(r, View(), FuelView(fuel), s, t, old(FuelView(fuel)))
      ensures r.Ok? ==> src + len <= |old(elements)|
      ensures r.Ok? ==> Overlaid(elements, old(elements), dst, old(elements)[src..src + len])
      ensures r.Err? ==> elements == old(elements)
    {
      var maxOffset := if dst >= src then dst else src;
      assert maxOffset + len <= |elements| <==> dst + len <= |elements| && src + len <= |elements|;
      if maxOffset + len >= TWO_64 || maxOffset + len > |elements| {
        return Err(CopyOutOfBounds);
      }
      var charged := Charge(fuel, len, RAW_REF_BYTES);
      if charged.Err? {
        return Err(TableOutOfFuel(charged.error));
      }
      var part := elements[src..src + len];
      assert Overlaid(Splice(elements, dst, part), elements, dst, part) by {
        SpliceOverlays(elements, dst, part);
      }
      elements := Splice(elements, dst, part);
      return Ok(Unit);
    }
  }

  /** The state a call leaves is the one its specification names; an error leaves the fuel alone. */
  ghost predicate Written(
    r: Result<Unit, TableError>, now: TableState, fuelNow: Option<FuelState>,
    spec: Result<Option<FuelState>, TableError>, table: TableState, fuelBefore: Option<FuelState>)
  {
    && now == table
    && match spec
       case Ok(left) => r.Ok? && fuelNow == left
       case Err(error) => r == Err(error) && fuelNow == fuelBefore
  }

  lemma FreeOfCharge(fuel: Option<FuelState>)
    requires fuel.Some? ==> fuel.value.Valid()
    ensures Charged(fuel, 0, RAW_REF_BYTES) == Ok(fuel)
  {
    if fuel.Some? {
      CopyCostIsWholeUnits(fuel.value, 0, RAW_REF_BYTES);
    }
  }

  /** Creation succeeds exactly when the element types match, the limiter approves and the allocator grants;
      then the table is its minimum of copies of the initial reference. */
  lemma CreateContract(ty: TableType, init: TypedRef, limiter: Option<LimiterState>, granted: bool)
    requires ty.Valid()
    ensures var out := Created(ty, init, limiter, granted);
            var q := Request(TableKind, 0, ty.min, ty.max);
            && (out.result.Ok? <==>
                  && ty.element == init.ty
                  && (limiter.Some? ==> limiter.value.policy.growing(limiter.value.log, q) == Allow)
                  && granted)
            && (out.result.Ok? ==>
                  && out.result.value.Valid() && out.result.value.ty == ty
                  && |out.result.value.elements| == ty.min
                  && (forall i :: 0 <= i < ty.min ==> out.result.value.elements[i] == init.raw)
                  && (limiter.None? ==> out.limiter == None)
                  && (limiter.Some? ==> Answered(limiter.value, out.limiter, q, Allow)))
  {
  }

  /** What a failed creation says and to whom: a type mismatch without asking the limiter; its refusal; or,
      after an approval, that there is no memory, which the limiter is told once and may turn into a trap. */
  lemma CreateErrors(ty: TableType, init: TypedRef, limiter: Option<LimiterState>, granted: bool)
    requires ty.Valid()
    ensures var out := Created(ty, init, limiter, granted);
            out.result.Err? ==>
              var error := out.result.error;
              if ty.element != init.ty then error == ElementTypeMismatch && out.limiter == limiter
              else
                var q, cause := Request(TableKind, 0, ty.min, ty.max), TableOutOfSystemMemory;
                match limiter
                case None => error == cause && out.limiter == None
                case Some(l) =>
                  var decision := l.policy.growing(l.log, q);
                  if decision != Allow then error == TableLimiterDenied && Answered(l, out.limiter, q, decision)
                  else if l.policy.growFailed(l.log + [Growing(q, Allow)], TableFailure(cause))
                  then error == TableLimiterDenied && ToldOnce(l, out.limiter, q, TableFailure(cause), true)
                  else error == cause && ToldOnce(l, out.limiter, q, TableFailure(cause), false)
  {
  }

  /** What a failed growth says and to whom; see `Memories.GrowErrors`. */
  lemma GrowErrors(
    t: TableState, delta: U64, init: RawRef, fuel: Option<FuelState>, limiter: Option<LimiterState>, granted: bool)
    requires t.Valid() && delta != 0
    requires fuel.Some? ==> fuel.value.Valid()
    ensures var out := Grown(t, delta, init, fuel, limiter, granted);
            var size := |t.elements|;
            out.result.Err? ==>
              var error := out.result.error;
              if size + delta >= t.ty.indexType.MaxSize() then error == GrowOutOfBounds && out.limiter == limiter
              else
                var q, cause := Request(TableKind, size, size + delta, t.ty.max), GrowFailure(t, delta, fuel);
                match limiter
                case None => error == cause && out.limiter == None
                case Some(l) =>
                  match l.policy.growing(l.log, q)
                  case Deny => error == GrowOutOfBounds && Answered(l, out.limiter, q, Deny)
                  case Trap => error == TableLimiterDenied && Answered(l, out.limiter, q, Trap)
                  case Allow =>
                    if l.policy.growFailed(l.log + [Growing(q, Allow)], TableFailure(cause))
                    then error == TableLimiterDenied && ToldOnce(l, out.limiter, q, TableFailure(cause), true)
                    else error == cause && ToldOnce(l, out.limiter, q, TableFailure(cause), false)
  {
    ChargingTakesWholeUnits(fuel, delta, 4);
  }

  /** Whether the counter is metered and lacks the units of `n` references, of four bytes each. */
  predicate LacksFuel(fuel: Option<FuelState>, n: nat)
    requires fuel.Some? ==> fuel.value.Valid()
  {
    fuel.Some? && fuel.value.enabled && fuel.value.remaining < Min(n * 4, TWO_64 - 1) / fuel.value.bytesPerFuel
  }

  /** Why an approved growth fails: the table's own maximum, else the fuel, else the system allocator. */
  function GrowFailure(t: TableState, delta: U64, fuel: Option<FuelState>): TableError
    requires fuel.Some? ==> fuel.value.Valid()
  {
    if t.ty.max.Some? && |t.elements| + delta > t.ty.max.value then GrowOutOfBounds
    else if LacksFuel(fuel, delta) then
      DivisionBounds(Min(delta * 4, TWO_64 - 1), fuel.value.bytesPerFuel);
      TableOutOfFuel(Min(delta * 4, TWO_64 - 1) / fuel.value.bytesPerFuel)
    else TableOutOfSystemMemory
  }

  /** The fuel is paid for `n` references of four bytes; an unmetered counter pays nothing. */
  ghost predicate PaidFor(before: Option<FuelState>, after: Option<FuelState>, n: nat)
    requires before.Some? ==> before.value.Valid()
  {
    if before.None? || !before.value.enabled then after == before
    else
      && after.Some? && after.value == before.value.(remaining := after.value.remaining)
      && after.value.remaining + Min(n * 4, TWO_64 - 1) / before.value.bytesPerFuel == before.value.remaining
  }

  /** What growing a table means to a caller: it succeeds exactly when every gate opens, then it
      appends `delta` copies of `init`, returns the old size and costs the whole fuel units of the
      new references; a failure keeps the table, and keeps the fuel unless the allocator refused. */
  lemma GrowContract(
    t: TableState, delta: U64, init: RawRef, fuel: Option<FuelState>, limiter: Option<LimiterState>, granted: bool)
    requires t.Valid() && delta != 0
    requires fuel.Some? ==> fuel.value.Valid()
    ensures var out := Grown(t, delta, init, fuel, limiter, granted);
            var size := |t.elements|;
            var inBounds := size + delta < t.ty.indexType.MaxSize();
            && (out.result.Ok? <==>
                  && inBounds
                  && (limiter.Some? ==> limiter.value.Ask(Request(TableKind, size, size + delta, t.ty.max)).Allow?)
                  && (t.ty.max.Some? ==> size + delta <= t.ty.max.value)
                  && !LacksFuel(fuel, delta)
                  && granted)
            && (out.result.Ok? ==>
                  && out.result.value == size
                  && out.table == t.(elements := t.elements + Repeat(init, delta))
                  && PaidFor(fuel, out.fuel, delta)
                  && out.table.Valid())
            && (out.result.Err? ==> out.table == t)
            && (out.result.Err? && out.fuel != fuel ==> inBounds && !LacksFuel(fuel, delta) && !granted)
  {
    ChargingTakesWholeUnits(fuel, delta, 4);
  }
}
