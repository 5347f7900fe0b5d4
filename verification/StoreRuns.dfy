/** What holds after every run, for every limiter, allocator and order of calls. */
module StoreRuns {
  import opened Prelude
  import opened Errors
  import opened Fuels
  import opened Limiters
  import opened MemoryTypes
  import opened Memories
  import TT = TableTypes
  import T = Tables
  import opened TableSemantics
  import opened Stores
  import opened StoreProtocol

  // ---------- conservation ----------

  ghost function Sum(sizes: seq<nat>): nat {
    if sizes == [] then 0 else Sum(sizes[..|sizes| - 1]) + sizes[|sizes| - 1]
  }

  /** The account of a limiter that adds what it approves and takes back what is reported failed. */
  datatype Account = Account(total: int, last: int)

  ghost function Booked(log: seq<Event>, kind: Kind): Account {
    if log == [] then Account(0, 0)
    else
      var a := Booked(log[..|log| - 1], kind);
      var e := log[|log| - 1];
      if Approved(e, kind) then
        var delta := e.request.desired - e.request.current;
        Account(a.total + delta, delta)
      else if e.GrowFailed? && e.failure.Kind() == kind then Account(a.total - a.last, 0)
      else a
  }

  lemma BookedOne(log: seq<Event>, e: Event, kind: Kind)
    ensures Booked(log + [e], kind) ==
            var a := Booked(log, kind);
            if Approved(e, kind) then
              Account(a.total + e.request.desired - e.request.current, e.request.desired - e.request.current)
            else if e.GrowFailed? && e.failure.Kind() == kind then Account(a.total - a.last, 0)
            else a
  {
    assert (log + [e])[..|log|] == log;
  }

  /** A conversation moves the account of its kind by exactly the change of size, and no other account. */
  lemma ConversationBalances(l: LimiterState, l': LimiterState, kind: Kind, before: nat, after: nat, k: Kind)
    requires Conversation(l, l', kind, before, after)
    ensures Booked(l'.log, k).total == Booked(l.log, k).total + if k == kind then after - before else 0
  {
    var said := l'.log[|l.log|..];
    assert l'.log == l.log + said;
    if |said| >= 1 {
      BookedOne(l.log, said[0], k);
      if |said| == 2 {
        BookedOne(l.log + [said[0]], said[1], k);
        assert l'.log == l.log + [said[0]] + [said[1]];
      } else {
        assert said == [said[0]];
      }
    } else {
      assert l'.log == l.log;
    }
  }

  lemma {:induction false} SumOfUpdate(sizes: seq<nat>, i: nat, n: nat)
    requires i < |sizes|
    ensures Sum(sizes[i := n]) == Sum(sizes) - sizes[i] + n
    decreases |sizes|
  {
    var last := |sizes| - 1;
    if i == last {
      assert sizes[i := n][..last] == sizes[..last];
    } else {
      assert sizes[i := n][..last] == sizes[..last][i := n];
      SumOfUpdate(sizes[..last], i, n);
    }
  }

  lemma SumOfResize(s: Store, s': Store, kind: Kind, i: nat, k: Kind)
    requires OnlyOneResized(s, s', kind, i)
    ensures Sum(s'.Sizes(k)) == Sum(s.Sizes(k)) + if k == kind then SizeAt(s', kind, i) - SizeAt(s, kind, i) else 0
  {
    var before, after := s.Sizes(k), s'.Sizes(k);
    forall j | 0 <= j < |before| && (k != kind || j != i)
      ensures after[j] == before[j]
    {
      assert SizeAt(s', k, j) == SizeAt(s, k, j);
    }
    if |after| > |before| {
      assert after[..|before|] == before;
    } else if k == kind && i < |before| {
      assert after == before[i := after[i]];
      SumOfUpdate(before, i, after[i]);
    } else {
      assert after == before;
    }
  }

  /** CONSERVATION: after every run, under every limiter, the approved minus the failed growth
      is the total live size, of memories and of tables. */
  lemma {:induction false} Conservation(policy: Policy, fuel: FuelState, ops: seq<Op>, kind: Kind)
    requires fuel.Valid()
    ensures var s := Run(Initial(policy, fuel), ops);
            Booked(s.limiter.log, kind).total == Sum(s.Sizes(kind))
    decreases |ops|
  {
    if ops != [] {
      var s := Run(Initial(policy, fuel), ops[..|ops| - 1]);
      var op := ops[|ops| - 1];
      Conservation(policy, fuel, ops[..|ops| - 1], kind);
      StepConverses(s, op);
      var s' := Step(s, op);
      var i := op.Object(s);
      ConversationBalances(s.limiter, s'.limiter, op.Kind(), SizeAt(s, op.Kind(), i), SizeAt(s', op.Kind(), i), kind);
      SumOfResize(s, s', op.Kind(), i, kind);
    }
  }

  /** Every failure report directly follows an approval of its kind: none comes unasked,
      and no approval is reported twice. */
  ghost predicate Bracketed(log: seq<Event>) {
    forall j :: 0 <= j < |log| && log[j].GrowFailed? ==> 0 < j && Approved(log[j - 1], log[j].failure.Kind())
  }

  lemma {:induction false} ReportsFollowApprovals(policy: Policy, fuel: FuelState, ops: seq<Op>)
    requires fuel.Valid()
    ensures Bracketed(Run(Initial(policy, fuel), ops).limiter.log)
    decreases |ops|
  {
    if ops != [] {
      var s := Run(Initial(policy, fuel), ops[..|ops| - 1]);
      var op := ops[|ops| - 1];
      ReportsFollowApprovals(policy, fuel, ops[..|ops| - 1]);
      StepConverses(s, op);
      ConversationKeepsBrackets(s.limiter, Step(s, op).limiter, op.Kind(),
                                SizeAt(s, op.Kind(), op.Object(s)), SizeAt(Step(s, op), op.Kind(), op.Object(s)));
    }
  }

  lemma ConversationKeepsBrackets(l: LimiterState, l': LimiterState, kind: Kind, before: nat, after: nat)
    requires Conversation(l, l', kind, before, after) && Bracketed(l.log)
    ensures Bracketed(l'.log)
  {
    var said := l'.log[|l.log|..];
    assert l'.log == l.log + said;
    forall j | 0 <= j < |l'.log| && l'.log[j].GrowFailed?
      ensures 0 < j && Approved(l'.log[j - 1], l'.log[j].failure.Kind())
    {
      if j >= |l.log| {
        assert l'.log[j] == said[j - |l.log|];
        assert l'.log[j - 1] == said[0];
      }
    }
  }

  // ---------- limits ----------

  ghost predicate WithinLimits(s: Store, limits: StoreLimits) {
    && (limits.memorySize.Some? ==>
          forall i :: 0 <= i < |s.memories| ==> |s.memories[i].buffer.bytes| <= limits.memorySize.value)
    && (limits.tableElements.Some? ==>
          forall i :: 0 <= i < |s.tables| ==> |s.tables[i].elements| <= limits.tableElements.value)
  }

  ghost predicate SizesWithin(s: Store, limits: StoreLimits) {
    forall k: Kind, i: nat :: limits.LimitOf(k).Some? ==> SizeAt(s, k, i) <= limits.LimitOf(k).value
  }

  lemma SizesWithinAreLimits(s: Store, limits: StoreLimits)
    requires SizesWithin(s, limits)
    ensures WithinLimits(s, limits)
  {
    forall i | 0 <= i < |s.memories| && limits.memorySize.Some?
      ensures |s.memories[i].buffer.bytes| <= limits.memorySize.value
    {
      assert SizeAt(s, MemoryKind, i) <= limits.LimitOf(MemoryKind).value;
    }
    forall i | 0 <= i < |s.tables| && limits.tableElements.Some?
      ensures |s.tables[i].elements| <= limits.tableElements.value
    {
      assert SizeAt(s, TableKind, i) <= limits.LimitOf(TableKind).value;
    }
  }

  /** Under `StoreLimits` no memory and no table ever exceeds its limit. */
  lemma StoreLimitsHold(limits: StoreLimits, fuel: FuelState, ops: seq<Op>)
    requires fuel.Valid()
    ensures WithinLimits(Run(Initial(limits.AsPolicy(), fuel), ops), limits)
  {
    SizesStayWithin(limits, fuel, ops);
    SizesWithinAreLimits(Run(Initial(limits.AsPolicy(), fuel), ops), limits);
  }

  lemma {:induction false} SizesStayWithin(limits: StoreLimits, fuel: FuelState, ops: seq<Op>)
    requires fuel.Valid()
    ensures var s := Run(Initial(limits.AsPolicy(), fuel), ops);
            s.limiter.policy == limits.AsPolicy() && SizesWithin(s, limits)
    decreases |ops|
  {
    if ops != [] {
      var s := Run(Initial(limits.AsPolicy(), fuel), ops[..|ops| - 1]);
      var op := ops[|ops| - 1];
      SizesStayWithin(limits, fuel, ops[..|ops| - 1]);
      StepConverses(s, op);
      var s' := Step(s, op);
      forall k: Kind, i: nat | limits.LimitOf(k).Some?
        ensures SizeAt(s', k, i) <= limits.LimitOf(k).value
      {
        if k == op.Kind() && i == op.Object(s) {
          ApprovedSizeIsWithinLimit(s.limiter, s'.limiter, limits, k, SizeAt(s, k, i), SizeAt(s', k, i));
        } else {
          assert SizeAt(s', k, i) == SizeAt(s, k, i);
        }
      }
    }
  }

  lemma ApprovedSizeIsWithinLimit(
    l: LimiterState, l': LimiterState, limits: StoreLimits, kind: Kind, before: nat, after: nat)
    requires Conversation(l, l', kind, before, after)
    requires l.policy == limits.AsPolicy()
    requires limits.LimitOf(kind).Some? && before <= limits.LimitOf(kind).value
    ensures after <= limits.LimitOf(kind).value
  {
    var said := l'.log[|l.log|..];
    if |said| == 1 && said[0].decision == Allow {
      assert l.Ask(said[0].request) == limits.Decide(said[0].request);
    }
  }

  /** Under `StoreLimits` a growth of a memory that fails after its approval is reported as denied exactly
      when the limits say to trap, and as what went wrong otherwise. */
  lemma StoreLimitsTrapOnFailure(
    limits: StoreLimits, log: seq<Event>, m: MemoryState, n: U64, fuel: Option<FuelState>, granted: bool)
    requires m.Valid() && n != 0 && !m.ty.MaximumOverflows() && m.Pages() + n <= m.ty.Capacity()
    requires fuel.Some? ==> fuel.value.Valid()
    requires limits.memorySize.Some? ==> (m.Pages() + n) * m.ty.PageSize() <= limits.memorySize.value
    ensures var out := Grown(m, n, fuel, Some(LimiterState(limits.AsPolicy(), log)), granted);
            out.result.Err? ==>
              out.result.error == if limits.trapOnGrowFailure then MemoryLimiterDenied else GrowFailure(m, n, fuel)
  {
    AddedBytes(m, n);
    assert limits.AsPolicy().growing(log, GrowRequest(m, n)) == limits.Decide(GrowRequest(m, n));
    GrowErrors(m, n, fuel, Some(LimiterState(limits.AsPolicy(), log)), granted);
  }

  // ---------- monotonicity ----------

  /** Objects stay, keep their types, never shrink, and their dynamic types only become subtypes. */
  ghost predicate Later(s: Store, s': Store)
    requires s.Valid() && s'.Valid()
  {
    && |s.memories| <= |s'.memories|
    && |s.tables| <= |s'.tables|
    && (forall i :: 0 <= i < |s.memories| ==>
          && s'.memories[i].ty == s.memories[i].ty
          && |s.memories[i].buffer.bytes| <= |s'.memories[i].buffer.bytes|)
    && (forall i :: 0 <= i < |s.tables| ==>
          && s'.tables[i].ty == s.tables[i].ty
          && |s.tables[i].elements| <= |s'.tables[i].elements|)
  }

  lemma StepIsLater(s: Store, op: Op)
    requires s.Valid()
    ensures Later(s, Step(s, op))
  {
    if op.Enabled(s) {
      match op
      case GrowMemory(i, n, metered, granted) => MemoryGrowthIsLater(s, i, n, metered, granted);
      case GrowTable(i, n, fill, metered, granted) => TableGrowthIsLater(s, i, n, fill, metered, granted);
      case BulkTable(i, bulk, metered) => BulkIsLater(s, i, bulk, metered);
      case _ => PlainStepIsLater(s, op);
    }
  }

  lemma PlainStepIsLater(s: Store, op: Op)
    requires s.Valid() && op.Enabled(s)
    requires !op.GrowMemory? && !op.GrowTable? && !op.BulkTable?
    ensures Later(s, Step(s, op))
  {
  }

  lemma BulkIsLater(s: Store, i: nat, bulk: BulkOp, metered: bool)
    requires s.Valid() && i < |s.tables|
    ensures Later(s, DoBulk(s, i, bulk, metered))
  {
  }

  lemma TableGrowthIsLater(s: Store, i: nat, n: U64, fill: T.RawRef, metered: bool, granted: bool)
    requires s.Valid() && i < |s.tables|
    ensures Later(s, DoGrowTable(s, i, n, fill, metered, granted))
  {
  }

  lemma MemoryGrowthIsLater(s: Store, i: nat, n: U64, metered: bool, granted: bool)
    requires s.Valid() && i < |s.memories| && (n != 0 ==> !s.memories[i].ty.MaximumOverflows())
    ensures Later(s, DoGrowMemory(s, i, n, metered, granted))
  {
    MemoryNeverShrinks(s.memories[i], n, if metered then Some(s.fuel) else None, s.limiter, granted);
  }

  lemma MemoryNeverShrinks(m: MemoryState, n: U64, fuel: Option<FuelState>, l: LimiterState, granted: bool)
    requires m.Valid() && (n != 0 ==> !m.ty.MaximumOverflows())
    requires fuel.Some? ==> fuel.value.Valid()
    ensures var m' := Grown(m, n, fuel, Some(l), granted).memory;
            m'.ty == m.ty && |m.buffer.bytes| <= |m'.buffer.bytes|
  {
    if m.Pages() + n <= m.ty.Capacity() {
      AddedBytes(m, n);
    }
  }

  lemma {:induction false} RunIsLater(s: Store, ops: seq<Op>)
    requires s.Valid()
    ensures Later(s, Run(s, ops))
    decreases |ops|
  {
    if ops != [] {
      RunIsLater(s, ops[..|ops| - 1]);
      StepIsLater(Run(s, ops[..|ops| - 1]), ops[|ops| - 1]);
    }
  }

  /** Whatever import type a memory was compatible with at some point of a run, it stays compatible
      with: each later dynamic type is valid, a subtype of the declared type, of the earlier dynamic
      type, and of every type the earlier one was accepted for. */
  lemma AcceptedMemoriesStayAcceptable(s: Store, ops: seq<Op>, i: nat, wanted: MemoryType)
    requires s.Valid() && i < |s.memories| && wanted.Valid()
    ensures i < |Run(s, ops).memories|
    ensures NarrowedMemory(s.memories[i], Run(s, ops).memories[i], wanted)
  {
    RunIsLater(s, ops);
    DynamicTypesOnlyNarrow(s.memories[i], Run(s, ops).memories[i], wanted);
  }

  ghost predicate NarrowedMemory(m: MemoryState, m': MemoryState, wanted: MemoryType)
    requires m.Valid() && m'.Valid() && wanted.Valid()
  {
    var now, later := m.DynamicType(), m'.DynamicType();
    && now.Valid() && later.Valid()
    && later.minimum * later.PageSize() == |m'.buffer.bytes|
    && later.IsSubtypeOf(m.ty)
    && later.IsSubtypeOf(now)
    && (now.IsSubtypeOf(wanted) ==> later.IsSubtypeOf(wanted))
  }

  lemma DynamicTypesOnlyNarrow(m: MemoryState, m': MemoryState, wanted: MemoryType)
    requires m.Valid() && m'.Valid() && wanted.Valid()
    requires m'.ty == m.ty && |m.buffer.bytes| <= |m'.buffer.bytes|
    ensures NarrowedMemory(m, m', wanted)
  {
    PagesFit(m.ty, m.Pages());
    PagesFit(m.ty, m'.Pages());
    DynamicMinimumIsSize(m');
  }

  lemma DynamicMinimumIsSize(m: MemoryState)
    requires m.Valid()
    ensures var t := m.DynamicType(); t.minimum * t.PageSize() == |m.buffer.bytes|
  {
    PagesFit(m.ty, m.Pages());
    WholePages(m.ty, m.Pages());
  }

  lemma AcceptedTablesStayAcceptable(s: Store, ops: seq<Op>, i: nat, wanted: TT.TableType)
    requires s.Valid() && i < |s.tables|
    ensures var s' := Run(s, ops);
            && i < |s'.tables|
            && var now, later := s.tables[i].DynamicType(), s'.tables[i].DynamicType();
               && later.Valid() && later.min == |s'.tables[i].elements|
               && later.IsSubtypeOf(s.tables[i].ty)
               && later.IsSubtypeOf(now)
               && (now.IsSubtypeOf(wanted) ==> later.IsSubtypeOf(wanted))
  {
    RunIsLater(s, ops);
  }

  // ---------- reachable sizes ----------

  /** Whole pages, between minimum and maximum, within what the index type and a `u64` can address. */
  ghost predicate SoundSize(m: MemoryState) {
    var length := |m.buffer.bytes|;
    && m.ty.Valid()
    && length % m.ty.PageSize() == 0
    && m.ty.minimum * m.ty.PageSize() <= length
    && (m.ty.maximum.Some? ==> length <= m.ty.maximum.value * m.ty.PageSize())
    && length <= m.ty.AbsoluteMax() * m.ty.PageSize()
    && length < TWO_64
    && (m.buffer.room.Some? ==> length <= m.buffer.room.value)
  }

  lemma ValidMemoriesAreSound(m: MemoryState)
    requires m.Valid()
    ensures SoundSize(m)
  {
    PagesFit(m.ty, m.Pages());
    WholePages(m.ty, m.Pages());
  }

  lemma ReachableMemoriesAreSound(policy: Policy, fuel: FuelState, ops: seq<Op>, i: nat)
    requires fuel.Valid()
    requires i < |Run(Initial(policy, fuel), ops).memories|
    ensures SoundSize(Run(Initial(policy, fuel), ops).memories[i])
  {
    ValidMemoriesAreSound(Run(Initial(policy, fuel), ops).memories[i]);
  }
}
