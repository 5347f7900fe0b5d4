/** Whole runs: any number of memories and tables, created, grown and written in any order
    under one limiter and one fuel counter. */
module Stores {
  import opened Prelude
  import opened Errors
  import opened Fuels
  import opened Limiters
  import opened MemoryTypes
  import opened Memories
  import opened TableTypes
  import T = Tables
  import opened TableSemantics

  datatype Store = Store(
    memories: seq<MemoryState>,
    tables: seq<T.TableState>,
    fuel: FuelState,
    limiter: LimiterState)
  {
    ghost predicate Valid() {
      && fuel.Valid()
      && (forall i :: 0 <= i < |memories| ==> memories[i].Valid())
      && (forall i :: 0 <= i < |tables| ==> tables[i].Valid())
    }

    /** The sizes of all live objects of a kind: bytes of memories, elements of tables. */
    ghost function Sizes(kind: Kind): (sizes: seq<nat>)
      ensures |sizes| == if kind.MemoryKind? then |memories| else |tables|
    {
      match kind
      case MemoryKind => seq(|memories|, i requires 0 <= i < |memories| => |memories[i].buffer.bytes|)
      case TableKind => seq(|tables|, i requires 0 <= i < |tables| => |tables[i].elements|)
    }
  }

  function Initial(policy: Policy, fuel: FuelState): Store {
    Store([], [], fuel, LimiterState(policy, []))
  }

  datatype Op =
    | NewMemory(memoryType: MemoryType, backing: Backing)
    | GrowMemory(index: nat, amount: U64, metered: bool, granted: bool)
    | WriteMemory(index: nat, offset: U64, bytes: seq<Byte>)
    | NewTable(tableType: TableType, init: T.TypedRef, granted: bool)
    | GrowTable(index: nat, amount: U64, fill: T.RawRef, metered: bool, granted: bool)
    | SetTable(index: nat, offset: U64, value: T.RawRef)
    | BulkTable(index: nat, bulk: BulkOp, metered: bool)
    | SetFuel(amount: U64)
  {
    /** A call that can be made: of validated types, on objects that exist, and not the one
        `grow` whose maximum in bytes overflows. */
    ghost predicate Enabled(s: Store) {
      match this
      case NewMemory(ty, _) => ty.Valid()
      case GrowMemory(i, n, _, _) => i < |s.memories| && (n != 0 ==> !s.memories[i].ty.MaximumOverflows())
      case WriteMemory(i, _, _) => i < |s.memories|
      case NewTable(ty, _, _) => ty.Valid()
      case GrowTable(i, _, _, _, _) => i < |s.tables|
      case SetTable(i, _, _) => i < |s.tables|
      case BulkTable(i, _, _) => i < |s.tables|
      case SetFuel(_) => true
    }

    /** Which kind of object the call concerns, and which one (a new object gets the next number). */
    function Kind(): Kind {
      if NewTable? || GrowTable? || SetTable? || BulkTable? then TableKind else MemoryKind
    }

    function Object(s: Store): nat {
      match this
      case NewMemory(_, _) => |s.memories|
      case NewTable(_, _, _) => |s.tables|
      case SetFuel(_) => 0
      case _ => index
    }
  }

  ghost function Step(s: Store, op: Op): (s': Store)
    requires s.Valid()
    ensures s'.Valid()
  {
    if !op.Enabled(s) then s
    else match op
      case NewMemory(ty, backing) => CreateMemory(s, ty, backing)
      case GrowMemory(i, n, metered, granted) => DoGrowMemory(s, i, n, metered, granted)
      case WriteMemory(i, offset, bytes) =>
        s.(memories := s.memories[i := Written(s.memories[i], offset, bytes).1])
      case NewTable(ty, init, granted) => CreateTable(s, ty, init, granted)
      case GrowTable(i, n, fill, metered, granted) => DoGrowTable(s, i, n, fill, metered, granted)
      case SetTable(i, at, value) =>
        var t := s.tables[i];
        if at < |t.elements| then s.(tables := s.tables[i := t.(elements := t.elements[at := value])]) else s
      case BulkTable(i, bulk, metered) => DoBulk(s, i, bulk, metered)
      case SetFuel(n) => if s.fuel.enabled then s.(fuel := s.fuel.(remaining := n)) else s
  }

  ghost function CreateMemory(s: Store, ty: MemoryType, backing: Backing): (s': Store)
    requires s.Valid() && ty.Valid()
    ensures s'.Valid()
  {
    WholePages(ty, ty.minimum);
    PagesFit(ty, ty.minimum);
    var out := Created(ty, Some(s.limiter), backing);
    var s := s.(limiter := out.limiter.value);
    if out.result.Ok? then s.(memories := s.memories + [out.result.value]) else s
  }

  ghost function DoGrowMemory(s: Store, i: nat, n: U64, metered: bool, granted: bool): (s': Store)
    requires s.Valid() && i < |s.memories| && (n != 0 ==> !s.memories[i].ty.MaximumOverflows())
    ensures s'.Valid()
  {
    var fuel := if metered then Some(s.fuel) else None;
    GrowthKeepsValidity(s.memories[i], n, fuel, Some(s.limiter), granted);
    var out := Grown(s.memories[i], n, fuel, Some(s.limiter), granted);
    Store(s.memories[i := out.memory], s.tables, if metered then out.fuel.value else s.fuel, out.limiter.value)
  }

  ghost function CreateTable(s: Store, ty: TableType, init: T.TypedRef, granted: bool): (s': Store)
    requires s.Valid() && ty.Valid()
    ensures s'.Valid()
  {
    var out := T.Created(ty, init, Some(s.limiter), granted);
    var s := s.(limiter := out.limiter.value);
    if out.result.Ok? then s.(tables := s.tables + [out.result.value]) else s
  }

  ghost function DoGrowTable(s: Store, i: nat, n: U64, fill: T.RawRef, metered: bool, granted: bool): (s': Store)
    requires s.Valid() && i < |s.tables|
    ensures s'.Valid()
  {
    var fuel := if metered then Some(s.fuel) else None;
    var out := T.Grown(s.tables[i], n, fill, fuel, Some(s.limiter), granted);
    Store(s.memories, s.tables[i := out.table], if metered then out.fuel.value else s.fuel, out.limiter.value)
  }

  ghost function DoBulk(s: Store, i: nat, bulk: BulkOp, metered: bool): (s': Store)
    requires s.Valid() && i < |s.tables|
    ensures s'.Valid()
  {
    var (r, after) := bulk.Run(s.tables[i], if metered then Some(s.fuel) else None, CopyOutOfBounds);
    s.(tables := s.tables[i := after],
       fuel := if r.Ok? && metered then r.value.value else s.fuel)
  }

  /** The state after any sequence of calls. */
  ghost function Run(s: Store, ops: seq<Op>): (s': Store)
    requires s.Valid()
    ensures s'.Valid()
    decreases |ops|
  {
    if ops == [] then s else Step(Run(s, ops[..|ops| - 1]), ops[|ops| - 1])
  }

  // ---------- the calls take effect ----------

  /** A write that fits overlays its bytes, a set element is set, metered fuel is what it is set to. */
  lemma WritesTakeEffect(s: Store, op: Op)
    requires s.Valid() && op.Enabled(s)
    ensures var s' := Step(s, op);
            match op
            case WriteMemory(i, offset, bytes) =>
              var was, now := s.memories[i].buffer.bytes, s'.memories[i].buffer.bytes;
              if offset + |bytes| <= |was| then Overlaid(now, was, offset, bytes) else now == was
            case SetTable(i, at, value) =>
              var was, now := s.tables[i].elements, s'.tables[i].elements;
              |now| == |was| && forall k :: 0 <= k < |was| ==> now[k] == if k == at then value else was[k]
            case SetFuel(n) => s'.fuel == s.fuel.(remaining := if s.fuel.enabled then n else s.fuel.remaining)
            case _ => true
  {
  }

  /** A bulk operation that does not trap and is paid for executes its instruction. */
  lemma BulkTakesEffect(s: Store, i: nat, bulk: BulkOp, metered: bool)
    requires s.Valid() && i < |s.tables|
    ensures var s' := Step(s, BulkTable(i, bulk, metered));
            var spec, lacks := bulk.Spec(s.tables[i].elements), metered && T.LacksFuel(Some(s.fuel), bulk.len);
            && s'.tables[i].elements == (if spec.Some? && !lacks then spec.value else s.tables[i].elements)
            && (spec.Some? && !lacks && metered ==> T.PaidFor(Some(s.fuel), Some(s'.fuel), bulk.len))
            && (spec.None? || lacks || !metered ==> s'.fuel == s.fuel)
  {
    BulkOperationsRefineTheInstructions(bulk, s.tables[i], if metered then Some(s.fuel) else None, CopyOutOfBounds);
  }

  /** Creating and growing leave what the specification of the object says, for the object, the limiter
      and, if the call is metered, the fuel. */
  lemma GrowthTakesEffect(s: Store, op: Op)
    requires s.Valid() && op.Enabled(s)
    ensures var s', l := Step(s, op), Some(s.limiter);
            match op
            case NewMemory(ty, backing) =>
              var out := Created(ty, l, backing);
              && Some(s'.limiter) == out.limiter && s'.fuel == s.fuel
              && s'.memories == s.memories + if out.result.Ok? then [out.result.value] else []
            case NewTable(ty, init, granted) =>
              var out := T.Created(ty, init, l, granted);
              && Some(s'.limiter) == out.limiter && s'.fuel == s.fuel
              && s'.tables == s.tables + if out.result.Ok? then [out.result.value] else []
            case GrowMemory(i, n, metered, granted) =>
              var out := Grown(s.memories[i], n, if metered then Some(s.fuel) else None, l, granted);
              && Some(s'.limiter) == out.limiter && s'.memories == s.memories[i := out.memory]
              && s'.fuel == if metered then out.fuel.value else s.fuel
            case GrowTable(i, n, fill, metered, granted) =>
              var out := T.Grown(s.tables[i], n, fill, if metered then Some(s.fuel) else None, l, granted);
              && Some(s'.limiter) == out.limiter && s'.tables == s.tables[i := out.table]
              && s'.fuel == if metered then out.fuel.value else s.fuel
            case _ => s'.limiter == s.limiter
  {
    match op
    case GrowMemory(i, n, metered, granted) =>
      GrowthKeepsValidity(s.memories[i], n, if metered then Some(s.fuel) else None, Some(s.limiter), granted);
    case _ =>
  }
}
