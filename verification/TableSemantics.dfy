/** The element-by-element table instructions of section 4.4.6 (Table Instructions) of the
    WebAssembly Core Specification 2.0, and the proof that the bulk operations compute them. */
module TableSemantics {
  import opened Prelude
  import opened Errors
  import opened Fuels
  import opened TableTypes
  import opened Tables

  /** `table.copy x x`: trap on either range, then one element at a time,
      upwards when the destination is not above the source and downwards otherwise. */
  function SpecCopyWithin(e: seq<RawRef>, d: nat, s: nat, n: nat): Option<seq<RawRef>>
    decreases n
  {
    if s + n > |e| || d + n > |e| then None
    else if n == 0 then Some(e)
    else if d <= s then SpecCopyWithin(e[d := e[s]], d + 1, s + 1, n - 1)
    else SpecCopyWithin(e[d + n - 1 := e[s + n - 1]], d, s, n - 1)
  }

  /** `table.copy x y` with x != y: the direction is chosen in the same way. */
  function SpecCopyBetween(e: seq<RawRef>, src: seq<RawRef>, d: nat, s: nat, n: nat): Option<seq<RawRef>>
    decreases n
  {
    if s + n > |src| || d + n > |e| then None
    else if n == 0 then Some(e)
    else if d <= s then SpecCopyBetween(e[d := src[s]], src, d + 1, s + 1, n - 1)
    else SpecCopyBetween(e[d + n - 1 := src[s + n - 1]], src, d, s, n - 1)
  }

  /** `table.init x y`, upwards. */
  function SpecInit(e: seq<RawRef>, src: seq<RawRef>, d: nat, s: nat, n: nat): Option<seq<RawRef>>
    decreases n
  {
    if s + n > |src| || d + n > |e| then None
    else if n == 0 then Some(e)
    else SpecInit(e[d := src[s]], src, d + 1, s + 1, n - 1)
  }

  /** `table.fill x`. */
  function SpecFill(e: seq<RawRef>, d: nat, v: RawRef, n: nat): Option<seq<RawRef>>
    decreases n
  {
    if d + n > |e| then None
    else if n == 0 then Some(e)
    else SpecFill(e[d := v], d + 1, v, n - 1)
  }

  lemma EmptySplice(e: seq<RawRef>, d: nat, part: seq<RawRef>)
    requires d <= |e| && part == []
    ensures Splice(e, d, part) == e
  {
  }

  lemma LowestElementFirst(e: seq<RawRef>, d: nat, s: nat, n: nat)
    requires 0 < n && s + n <= |e| && d <= s
    ensures var f := e[d := e[s]];
            Splice(f, d + 1, f[s + 1..s + 1 + (n - 1)]) == Splice(e, d, e[s..s + n])
  {
    var f := e[d := e[s]];
    var part := f[s + 1..s + 1 + (n - 1)];
    assert part == e[s + 1..s + n];
  }

  lemma HighestElementFirst(e: seq<RawRef>, d: nat, s: nat, n: nat)
    requires 0 < n && d + n <= |e| && s < d
    ensures var f := e[d + n - 1 := e[s + n - 1]];
            Splice(f, d, f[s..s + (n - 1)]) == Splice(e, d, e[s..s + n])
  {
    var f := e[d + n - 1 := e[s + n - 1]];
    var part := f[s..s + (n - 1)];
    assert part == e[s..s + n - 1];
  }

  lemma {:induction false} CopyingUpwards(e: seq<RawRef>, d: nat, s: nat, n: nat)
    requires s + n <= |e| && d <= s
    ensures SpecCopyWithin(e, d, s, n) == Some(Splice(e, d, e[s..s + n]))
    decreases n
  {
    if n == 0 {
      EmptySplice(e, d, e[s..s + n]);
    } else {
      CopyingUpwards(e[d := e[s]], d + 1, s + 1, n - 1);
      LowestElementFirst(e, d, s, n);
    }
  }

  lemma {:induction false} CopyingDownwards(e: seq<RawRef>, d: nat, s: nat, n: nat)
    requires d + n <= |e| && s < d
    ensures SpecCopyWithin(e, d, s, n) == Some(Splice(e, d, e[s..s + n]))
    decreases n
  {
    if n == 0 {
      EmptySplice(e, d, e[s..s + n]);
    } else {
      CopyingDownwards(e[d + n - 1 := e[s + n - 1]], d, s, n - 1);
      HighestElementFirst(e, d, s, n);
    }
  }

  lemma {:induction false} CopyingBetweenTables(e: seq<RawRef>, src: seq<RawRef>, d: nat, s: nat, n: nat)
    requires s + n <= |src| && d + n <= |e|
    ensures SpecCopyBetween(e, src, d, s, n) == Some(Splice(e, d, src[s..s + n]))
    decreases n
  {
    if n == 0 {
      EmptySplice(e, d, src[s..s + n]);
    } else if d <= s {
      var f := e[d := src[s]];
      CopyingBetweenTables(f, src, d + 1, s + 1, n - 1);
      assert Splice(f, d + 1, src[s + 1..s + n]) == Splice(e, d, src[s..s + n]);
    } else {
      var f := e[d + n - 1 := src[s + n - 1]];
      CopyingBetweenTables(f, src, d, s, n - 1);
      assert Splice(f, d, src[s..s + n - 1]) == Splice(e, d, src[s..s + n]);
    }
  }

  lemma {:induction false} SequentialInitIsSplice(e: seq<RawRef>, src: seq<RawRef>, d: nat, s: nat, n: nat)
    requires s + n <= |src| && d + n <= |e|
    ensures SpecInit(e, src, d, s, n) == Some(Splice(e, d, src[s..s + n]))
    decreases n
  {
    if n == 0 {
      EmptySplice(e, d, src[s..s + n]);
    } else {
      var f := e[d := src[s]];
      SequentialInitIsSplice(f, src, d + 1, s + 1, n - 1);
      assert Splice(f, d + 1, src[s + 1..s + n]) == Splice(e, d, src[s..s + n]);
    }
  }

  lemma {:induction false} SequentialFillIsSplice(e: seq<RawRef>, d: nat, v: RawRef, n: nat)
    requires d + n <= |e|
    ensures SpecFill(e, d, v, n) == Some(Splice(e, d, Repeat(v, n)))
    decreases n
  {
    if n == 0 {
      EmptySplice(e, d, Repeat(v, n));
    } else {
      var f := e[d := v];
      SequentialFillIsSplice(f, d + 1, v, n - 1);
      assert Splice(f, d + 1, Repeat(v, n - 1)) == Splice(e, d, Repeat(v, n));
    }
  }

  /** The instruction a bulk operation stands for. */
  datatype BulkOp =
    | CopyWithin(dst: U64, src: U64, len: U64)
    | CopyBetween(source: seq<RawRef>, dst: U64, src: U64, len: U64)
    | Init(source: seq<RawRef>, dst: U64, src: U64, len: U64)
    | Fill(dst: U64, value: RawRef, len: U64)
  {
    function Spec(e: seq<RawRef>): Option<seq<RawRef>> {
      match this
      case CopyWithin(d, s, n) => SpecCopyWithin(e, d, s, n)
      case CopyBetween(source, d, s, n) => SpecCopyBetween(e, source, d, s, n)
      case Init(source, d, s, n) => SpecInit(e, source, d, s, n)
      case Fill(d, v, n) => SpecFill(e, d, v, n)
    }

    /** The references the implementation writes at `dst`, if their source is in bounds. */
    function Part(e: seq<RawRef>): Option<seq<RawRef>> {
      match this
      case CopyWithin(_, s, n) => Slice(e, s, n)
      case CopyBetween(source, _, s, n) => Slice(source, s, n)
      case Init(source, _, s, n) => Slice(source, s, n)
      case Fill(_, v, n) => Some(Repeat(v, n))
    }

    /** What the implementation does with the table (`Tables.Table` is proved against it). */
    function Run(t: TableState, fuel: Option<FuelState>, bounds: TableError)
      : (Result<Option<FuelState>, TableError>, TableState)
      requires fuel.Some? ==> fuel.value.Valid()
    {
      Overwritten(t, dst, Part(t.elements), bounds, len, fuel)
    }
  }

  /** One splice computes the whole element-by-element execution, and traps with it. */
  lemma SplicingIsExecuting(op: BulkOp, e: seq<RawRef>)
    ensures op.Spec(e) ==
            if op.Part(e).Some? && op.dst + op.len <= |e|
            then Some(Splice(e, op.dst, op.Part(e).value)) else None
  {
    if op.Part(e).Some? && op.dst + op.len <= |e| {
      match op
      case CopyWithin(d, s, n) =>
        if d <= s {
          CopyingUpwards(e, d, s, n);
        } else {
          CopyingDownwards(e, d, s, n);
        }
      case CopyBetween(source, d, s, n) => CopyingBetweenTables(e, source, d, s, n);
      case Init(source, d, s, n) => SequentialInitIsSplice(e, source, d, s, n);
      case Fill(d, v, n) => SequentialFillIsSplice(e, d, v, n);
    }
  }

  /** Every bulk operation traps exactly where the instruction does, runs out of fuel only where it
      does not trap, computes the instruction's table when it succeeds, and is failure-atomic. */
  lemma BulkOperationsRefineTheInstructions(op: BulkOp, t: TableState, fuel: Option<FuelState>, bounds: TableError)
    requires fuel.Some? ==> fuel.value.Valid()
    requires !bounds.TableOutOfFuel?
    ensures var (r, after) := op.Run(t, fuel, bounds);
            var spec := op.Spec(t.elements);
            && (spec.None? <==> r == Err(bounds))
            && (spec.Some? ==> (r.Err? <==> LacksFuel(fuel, op.len)))
            && (spec.Some? && r.Err? ==>
                  && r.error.TableOutOfFuel?
                  && r.error.requiredFuel as int == Min(op.len * 4, TWO_64 - 1) / fuel.value.bytesPerFuel)
            && (r.Ok? ==> spec == Some(after.elements) && after.ty == t.ty && PaidFor(fuel, r.value, op.len))
            && (r.Err? ==> after == t)
  {
    SplicingIsExecuting(op, t.elements);
    ChargingTakesWholeUnits(fuel, op.len, 4);
  }
}
