/** What a limiter is asked about memories, over whole runs. The documentation of the limiter guarantees
    multiples of 64 KiB (crates/core/src/limiter.rs); with custom page sizes that depends on the type. */
module LimiterRequests {
  import opened Prelude
  import opened Fuels
  import opened Limiters
  import opened MemoryTypes
  import opened Memories
  import opened Stores
  import opened StoreProtocol
  import opened DataSizes

  /** The type of the memory a call creates or grows. */
  ghost function TypeOf(s: Store, op: Op): Option<MemoryType> {
    match op
    case NewMemory(ty, _) => Some(ty)
    case GrowMemory(i, _, _, _) => if i < |s.memories| then Some(s.memories[i].ty) else None
    case _ => None
  }

  /** The request a call puts to the limiter, if it does. */
  ghost function Asks(s: Store, op: Op): Option<Request>
    requires s.Valid()
  {
    StepConverses(s, op);
    var said := Step(s, op).limiter.log[|s.limiter.log|..];
    if said != [] && said[0].Growing? then Some(said[0].request) else None
  }

  ghost predicate Multiple(q: Request, unit: nat)
    requires unit > 0
  {
    q.current % unit == 0 && q.desired % unit == 0
  }

  lemma CreationAsks(s: Store, ty: MemoryType, backing: Backing)
    requires s.Valid() && ty.Valid()
    ensures Asks(s, NewMemory(ty, backing)) ==
            if ty.minimum * ty.PageSize() < TWO_64 then Some(CreateRequest(ty)) else None
  {
    var l, l' := s.limiter, Step(s, NewMemory(ty, backing)).limiter;
    if ty.minimum * ty.PageSize() < TWO_64 {
      var q := CreateRequest(ty);
      assert l'.log[|l.log|] == Growing(q, l.Ask(q));
    }
  }

  lemma GrowthAsks(s: Store, i: nat, n: U64, metered: bool, granted: bool)
    requires s.Valid() && i < |s.memories| && (n != 0 ==> !s.memories[i].ty.MaximumOverflows())
    ensures var m := s.memories[i];
            Asks(s, GrowMemory(i, n, metered, granted)) ==
            if n != 0 && m.Pages() + n <= m.ty.Capacity() then Some(GrowRequest(m, n)) else None
  {
    var m, l, l' := s.memories[i], s.limiter, Step(s, GrowMemory(i, n, metered, granted)).limiter;
    if n != 0 && m.Pages() + n <= m.ty.Capacity() {
      var q := GrowRequest(m, n);
      assert l'.log[|l.log|] == Growing(q, l.Ask(q));
    }
  }

  /** Every memory request is in whole pages of the memory it is about. */
  lemma RequestsAreWholePages(s: Store, op: Op)
    requires s.Valid() && TypeOf(s, op).Some? && Asks(s, op).Some?
    ensures TypeOf(s, op).value.Valid() && Multiple(Asks(s, op).value, TypeOf(s, op).value.PageSize())
  {
    match op {
      case NewMemory(ty, backing) =>
        if ty.Valid() {
          CreationAsks(s, ty, backing);
          WholePages(ty, ty.minimum);
        }
      case GrowMemory(i, n, metered, granted) =>
        if op.Enabled(s) {
          GrowthAsks(s, i, n, metered, granted);
          WholePages(s.memories[i].ty, s.memories[i].Pages() + n);
        }
    }
  }

  // ---------- the log of a run ----------

  /** Entry `j` of the log is what call `k` of the run asked, about a memory of type `ty`. */
  ghost predicate AskedBy(start: Store, ops: seq<Op>, k: nat, q: Request, ty: MemoryType)
    requires start.Valid()
  {
    && k < |ops| && ty.Valid() && Multiple(q, ty.PageSize())
    && TypeOf(Run(start, ops[..k]), ops[k]) == Some(ty)
    && Asks(Run(start, ops[..k]), ops[k]) == Some(q)
  }

  /** Every memory request in the log of a run was made by one of its calls, in whole pages of the memory
      that call created or grew. */
  lemma {:induction false} LoggedRequestsAreWholePages(policy: Policy, fuel: FuelState, ops: seq<Op>, j: nat)
    returns (k: nat, ty: MemoryType)
    requires fuel.Valid() && j < |Run(Initial(policy, fuel), ops).limiter.log|
    requires var e := Run(Initial(policy, fuel), ops).limiter.log[j]; e.Growing? && e.request.kind == MemoryKind
    ensures AskedBy(Initial(policy, fuel), ops, k, Run(Initial(policy, fuel), ops).limiter.log[j].request, ty)
    decreases |ops|
  {
    var start, last := Initial(policy, fuel), |ops| - 1;
    var s := Run(start, ops[..last]);
    StepConverses(s, ops[last]);
    if j < |s.limiter.log| {
      k, ty := LoggedRequestsAreWholePages(policy, fuel, ops[..last], j);
      assert ops[..last][..k] == ops[..k];
    } else {
      k := last;
      LastRequest(s, ops[last], j);
      ty := TypeOf(s, ops[last]).value;
      RequestsAreWholePages(s, ops[last]);
    }
  }

  lemma LastRequest(s: Store, op: Op, j: nat)
    requires s.Valid() && |s.limiter.log| <= j < |Step(s, op).limiter.log|
    requires Step(s, op).limiter.log[j].Growing? && Step(s, op).limiter.log[j].request.kind == MemoryKind
    ensures TypeOf(s, op).Some? && Asks(s, op) == Some(Step(s, op).limiter.log[j].request)
  {
    if TypeOf(s, op).None? && op.Kind() == MemoryKind {
      OtherCallsSayNothing(s, op);
    }
    StepConverses(s, op);
    FirstIsTheOnlyRequest(s.limiter, Step(s, op).limiter, op.Kind(), SizeAt(s, op.Kind(), op.Object(s)),
                          SizeAt(Step(s, op), op.Kind(), op.Object(s)), j);
  }

  lemma OtherCallsSayNothing(s: Store, op: Op)
    requires s.Valid() && TypeOf(s, op).None? && op.Kind() == MemoryKind
    ensures Step(s, op).limiter == s.limiter
  {
  }

  lemma FirstIsTheOnlyRequest(l: LimiterState, l': LimiterState, kind: Kind, before: nat, after: nat, j: nat)
    requires Conversation(l, l', kind, before, after) && |l.log| <= j < |l'.log| && l'.log[j].Growing?
    ensures j == |l.log| && l'.log[j].request.kind == kind
  {
    var said := l'.log[|l.log|..];
    assert said[j - |l.log|] == l'.log[j];
  }

  // ---------- the documented multiple ----------

  /** Every request about a memory of the type is in multiples of 64 KiB, at any point of any run. */
  ghost predicate AlwaysAskedAsDocumented(ty: MemoryType) {
    forall policy: Policy, fuel: FuelState, ops: seq<Op>, op: Op :: fuel.Valid() ==>
      var s := Run(Initial(policy, fuel), ops);
      TypeOf(s, op) == Some(ty) && Asks(s, op).Some? ==> Multiple(Asks(s, op).value, TWO_16)
  }

  /** Creating a memory of one one-byte page asks the limiter for one byte. */
  lemma OneByteIsAskedFor()
    ensures var ty := MemoryType(1, None, 0, I32);
            Asks(Initial(Permissive(), Unmetered), NewMemory(ty, Heap(true))) == Some(Request(MemoryKind, 0, 1, None))
  {
    CreationAsks(Initial(Permissive(), Unmetered), MemoryType(1, None, 0, I32), Heap(true));
  }

  /** THE GUARANTEE HOLDS of exactly the types whose sizes are as documented. */
  lemma GuaranteeHoldsExactly(ty: MemoryType)
    requires ty.Valid()
    ensures AlwaysAskedAsDocumented(ty) <==> DocumentedType(ty)
  {
    if DocumentedType(ty) {
      DocumentedTypesAskSo(ty);
    } else {
      UndocumentedTypesDoNot(ty);
    }
  }

  lemma DocumentedTypesAskSo(ty: MemoryType)
    requires ty.Valid() && DocumentedType(ty)
    ensures AlwaysAskedAsDocumented(ty)
  {
    forall policy: Policy, fuel: FuelState, ops: seq<Op>, op: Op | fuel.Valid()
      ensures var s := Run(Initial(policy, fuel), ops);
              TypeOf(s, op) == Some(ty) && Asks(s, op).Some? ==> Multiple(Asks(s, op).value, TWO_16)
    {
      var s := Run(Initial(policy, fuel), ops);
      if TypeOf(s, op) == Some(ty) && Asks(s, op).Some? {
        DocumentedRequest(s, op, ty);
      }
    }
  }

  lemma DocumentedRequest(s: Store, op: Op, ty: MemoryType)
    requires s.Valid() && ty.Valid() && DocumentedType(ty) && TypeOf(s, op) == Some(ty) && Asks(s, op).Some?
    ensures Multiple(Asks(s, op).value, TWO_16)
  {
    if ty.pageSizeLog2 == DEFAULT_PAGE_SIZE_LOG2 {
      RequestsAreWholePages(s, op);
    } else {
      match op {
        case NewMemory(_, backing) => CreationAsks(s, ty, backing);
        case GrowMemory(i, n, metered, granted) => GrowthAsks(s, i, n, metered, granted);
      }
    }
  }

  lemma UndocumentedTypesDoNot(ty: MemoryType)
    requires ty.Valid() && !DocumentedType(ty)
    ensures !AlwaysAskedAsDocumented(ty)
  {
    var start, create := Initial(Permissive(), Unmetered), NewMemory(ty, Heap(true));
    if ty.minimum % TWO_16 != 0 {
      CreationAsks(start, ty, Heap(true));
      NotAlways(ty, [], create);
    } else {
      OneCreation(ty);
      GrowthAsks(Run(start, [create]), 0, 1, false, true);
      NotAlways(ty, [create], GrowMemory(0, 1, false, true));
    }
  }

  lemma NotAlways(ty: MemoryType, ops: seq<Op>, op: Op)
    requires var s := Run(Initial(Permissive(), Unmetered), ops);
             TypeOf(s, op) == Some(ty) && Asks(s, op).Some? && !Multiple(Asks(s, op).value, TWO_16)
    ensures !AlwaysAskedAsDocumented(ty)
  {
  }
}
