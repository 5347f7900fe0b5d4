/** The limiter protocol over whole runs: every approval is answered by exactly one of a growth
    or a failure report, and what a limiter can add up from its calls is what is really live. */
module StoreProtocol {
  import opened Prelude
  import opened Errors
  import opened Fuels
  import opened Limiters
  import opened MemoryTypes
  import opened Memories
  import opened TableTypes
  import T = Tables
  import opened Stores

  ghost predicate Approved(e: Event, kind: Kind) {
    e.Growing? && e.decision == Allow && e.request.kind == kind
  }

  /** What one call may say to the limiter while an object goes from size `before` to size `after`:
      nothing; a refused request; an approved request for exactly this change; or an approved request
      followed by exactly one failure report. Only the third changes the size. */
  ghost predicate Conversation(l: LimiterState, l': LimiterState, kind: Kind, before: nat, after: nat) {
    && l'.policy == l.policy
    && l.log <= l'.log
    && var said := l'.log[|l.log|..];
       && |said| <= 2
       && (said == [] ==> after == before)
       && (|said| == 1 ==>
             && said[0].Growing?
             && said[0].decision == l.Ask(said[0].request)
             && said[0].request.kind == kind
             && said[0].request.current == before
             && if said[0].decision == Allow then said[0].request.desired == after else after == before)
       && (|said| == 2 ==>
             && Approved(said[0], kind)
             && l.Ask(said[0].request) == Allow
             && said[0].request.current == before
             && said[1].GrowFailed?
             && said[1].failure.Kind() == kind
             && after == before)
  }

  ghost function SizeAt(s: Store, kind: Kind, i: nat): nat {
    if i < |s.Sizes(kind)| then s.Sizes(kind)[i] else 0
  }

  lemma Quiet(l: LimiterState, kind: Kind, n: nat)
    ensures Conversation(l, l, kind, n, n)
  {
    assert l.log[|l.log|..] == [];
  }

  lemma Asking(l: LimiterState, q: Request, after: nat)
    requires if l.Ask(q) == Allow then q.desired == after else after == q.current
    ensures Conversation(l, l.Asked(q), q.kind, q.current, after)
  {
    assert l.Asked(q).log[|l.log|..] == [Growing(q, l.Ask(q))];
  }

  lemma AskingAndReporting(l: LimiterState, q: Request, f: Failure)
    requires l.Ask(q) == Allow && f.Kind() == q.kind
    ensures Conversation(l, l.Asked(q).Told(f), q.kind, q.current, q.current)
  {
    assert l.Asked(q).Told(f).log[|l.log|..] ==
           [Growing(q, Allow), GrowFailed(f, l.Asked(q).TrapsOn(f))];
  }

  lemma CreatingAMemoryConverses(ty: MemoryType, l: LimiterState, backing: Backing)
    requires ty.Valid()
    ensures var out := Created(ty, Some(l), backing);
            && out.limiter.Some?
            && Conversation(l, out.limiter.value, MemoryKind, 0,
                            if out.result.Ok? then |out.result.value.buffer.bytes| else 0)
  {
    var size := ty.minimum * ty.PageSize();
    if size >= TWO_64 {
      Quiet(l, MemoryKind, 0);
    } else {
      var q := CreateRequest(ty);
      if l.Ask(q) == Allow && backing.MakeBuffer(size).Err? {
        AskingAndReporting(l, q, MemoryFailure(backing.MakeBuffer(size).error));
      } else {
        Asking(l, q, if l.Ask(q) == Allow then size else 0);
      }
    }
  }

  lemma GrowingAMemoryConverses(m: MemoryState, n: U64, fuel: Option<FuelState>, l: LimiterState, granted: bool)
    requires m.Valid() && (n != 0 ==> !m.ty.MaximumOverflows())
    requires fuel.Some? ==> fuel.value.Valid()
    ensures var out := Grown(m, n, fuel, Some(l), granted);
            && out.limiter.Some?
            && Conversation(l, out.limiter.value, MemoryKind, |m.buffer.bytes|, |out.memory.buffer.bytes|)
  {
    if n == 0 || m.Pages() + n > m.ty.Capacity() {
      Quiet(l, MemoryKind, |m.buffer.bytes|);
    } else {
      var q := GrowRequest(m, n);
      if l.Ask(q) == Allow {
        CommittingAMemoryConverses(m, n, fuel, l, q, granted);
      } else {
        Asking(l, q, q.current);
      }
    }
  }

  lemma CommittingAMemoryConverses(
    m: MemoryState, n: U64, fuel: Option<FuelState>, l: LimiterState, q: Request, granted: bool)
    requires m.Valid() && m.Pages() + n <= m.ty.Capacity()
    requires fuel.Some? ==> fuel.value.Valid()
    requires l.Ask(q) == Allow && q.kind == MemoryKind
    requires q.current == |m.buffer.bytes| && q.desired == (m.Pages() + n) * m.ty.PageSize()
    ensures var out := Committed(m, n, fuel, Some(l.Asked(q)), granted);
            && out.limiter.Some?
            && Conversation(l, out.limiter.value, MemoryKind, |m.buffer.bytes|, |out.memory.buffer.bytes|)
  {
    AddedBytes(m, n);
    var charged := Charged(fuel, n * m.ty.PageSize(), 1);
    var grown := m.buffer.Grown(q.desired, granted);
    if charged.Err? {
      AskingAndReporting(l, q, MemoryFailure(MemoryOutOfFuel(charged.error)));
    } else if grown.Err? {
      AskingAndReporting(l, q, MemoryFailure(grown.error));
    } else {
      Asking(l, q, q.desired);
    }
  }

  lemma CreatingATableConverses(ty: TableType, init: T.TypedRef, l: LimiterState, granted: bool)
    ensures var out := T.Created(ty, init, Some(l), granted);
            && out.limiter.Some?
            && Conversation(l, out.limiter.value, TableKind, 0,
                            if out.result.Ok? then |out.result.value.elements| else 0)
  {
    var q := Request(TableKind, 0, ty.min, ty.max);
    if ty.element != init.ty {
      Quiet(l, TableKind, 0);
    } else if l.Ask(q) == Allow && !granted {
      AskingAndReporting(l, q, TableFailure(TableOutOfSystemMemory));
    } else {
      Asking(l, q, if l.Ask(q) == Allow then ty.min else 0);
    }
  }

  lemma GrowingATableConverses(
    t: T.TableState, n: U64, fill: T.RawRef, fuel: Option<FuelState>, l: LimiterState, granted: bool)
    requires t.Valid()
    requires fuel.Some? ==> fuel.value.Valid()
    ensures var out := T.Grown(t, n, fill, fuel, Some(l), granted);
            && out.limiter.Some?
            && Conversation(l, out.limiter.value, TableKind, |t.elements|, |out.table.elements|)
  {
    var size := |t.elements|;
    if n == 0 || size + n >= t.ty.indexType.MaxSize() {
      Quiet(l, TableKind, size);
    } else {
      var q := Request(TableKind, size, size + n, t.ty.max);
      if l.Ask(q) == Allow {
        assert T.Grown(t, n, fill, fuel, Some(l), granted)
            == T.Committed(t, n, fill, fuel, Some(l.Asked(q)), granted);
        CommittingATableConverses(t, n, fill, fuel, l, q, granted);
      } else {
        Asking(l, q, size);
      }
    }
  }

  lemma CommittingATableConverses(
    t: T.TableState, n: U64, fill: T.RawRef, fuel: Option<FuelState>, l: LimiterState, q: Request, granted: bool)
    requires t.Valid()
    requires fuel.Some? ==> fuel.value.Valid()
    requires l.Ask(q) == Allow && q.kind == TableKind
    requires q.current == |t.elements| && q.desired == |t.elements| + n
    ensures var out := T.Committed(t, n, fill, fuel, Some(l.Asked(q)), granted);
            && out.limiter.Some?
            && Conversation(l, out.limiter.value, TableKind, |t.elements|, |out.table.elements|)
  {
    var charged := Charged(fuel, n, T.RAW_REF_BYTES);
    if t.ty.max.Some? && q.desired > t.ty.max.value {
      AskingAndReporting(l, q, TableFailure(GrowOutOfBounds));
    } else if charged.Err? {
      AskingAndReporting(l, q, TableFailure(TableOutOfFuel(charged.error)));
    } else if !granted {
      AskingAndReporting(l, q, TableFailure(TableOutOfSystemMemory));
    } else {
      Asking(l, q, q.desired);
    }
  }

  ghost predicate OnlyOneResized(s: Store, s': Store, kind: Kind, i: nat) {
    && (forall k: Kind, j: nat :: k != kind || j != i ==> SizeAt(s', k, j) == SizeAt(s, k, j))
    && (forall k: Kind :: |s.Sizes(k)| <= |s'.Sizes(k)| <= |s.Sizes(k)| + 1)
    && (forall k: Kind :: |s'.Sizes(k)| > |s.Sizes(k)| ==> k == kind && i == |s.Sizes(k)|)
  }

  ghost predicate Converses(s: Store, s': Store, kind: Kind, i: nat) {
    && Conversation(s.limiter, s'.limiter, kind, SizeAt(s, kind, i), SizeAt(s', kind, i))
    && OnlyOneResized(s, s', kind, i)
  }

  lemma MemoryCreationConverses(s: Store, ty: MemoryType, backing: Backing)
    requires s.Valid() && ty.Valid()
    ensures Converses(s, CreateMemory(s, ty, backing), MemoryKind, |s.memories|)
  {
    CreatingAMemoryConverses(ty, s.limiter, backing);
  }

  lemma TableCreationConverses(s: Store, ty: TableType, init: T.TypedRef, granted: bool)
    requires s.Valid() && ty.Valid()
    ensures Converses(s, CreateTable(s, ty, init, granted), TableKind, |s.tables|)
  {
    CreatingATableConverses(ty, init, s.limiter, granted);
  }

  lemma MemoryGrowthConverses(s: Store, i: nat, n: U64, metered: bool, granted: bool)
    requires s.Valid() && i < |s.memories| && (n != 0 ==> !s.memories[i].ty.MaximumOverflows())
    ensures Converses(s, DoGrowMemory(s, i, n, metered, granted), MemoryKind, i)
  {
    GrowingAMemoryConverses(s.memories[i], n, if metered then Some(s.fuel) else None, s.limiter, granted);
  }

  lemma TableGrowthConverses(s: Store, i: nat, n: U64, fill: T.RawRef, metered: bool, granted: bool)
    requires s.Valid() && i < |s.tables|
    ensures Converses(s, DoGrowTable(s, i, n, fill, metered, granted), TableKind, i)
  {
    GrowingATableConverses(s.tables[i], n, fill, if metered then Some(s.fuel) else None, s.limiter, granted);
  }

  /** The other calls neither talk to the limiter nor resize anything. */
  lemma WritingIsQuiet(s: Store, op: Op)
    requires s.Valid()
    requires !op.NewMemory? && !op.NewTable? && !op.GrowMemory? && !op.GrowTable?
    ensures Converses(s, Step(s, op), op.Kind(), op.Object(s))
  {
    Quiet(s.limiter, op.Kind(), SizeAt(s, op.Kind(), op.Object(s)));
    SameSizes(s, Step(s, op));
  }

  lemma SameSizes(s: Store, s': Store)
    requires |s.memories| == |s'.memories| && |s.tables| == |s'.tables|
    requires forall i :: 0 <= i < |s.memories| ==> |s.memories[i].buffer.bytes| == |s'.memories[i].buffer.bytes|
    requires forall i :: 0 <= i < |s.tables| ==> |s.tables[i].elements| == |s'.tables[i].elements|
    ensures forall k: Kind :: s.Sizes(k) == s'.Sizes(k)
  {
  }

  /** Every call converses with the limiter about the one object it concerns, and no other object
      changes its size. */
  lemma StepConverses(s: Store, op: Op)
    requires s.Valid()
    ensures Converses(s, Step(s, op), op.Kind(), op.Object(s))
  {
    if !op.Enabled(s) {
      Quiet(s.limiter, op.Kind(), SizeAt(s, op.Kind(), op.Object(s)));
    } else {
      match op
      case NewMemory(ty, backing) => MemoryCreationConverses(s, ty, backing);
      case NewTable(ty, init, granted) => TableCreationConverses(s, ty, init, granted);
      case GrowMemory(i, n, metered, granted) => MemoryGrowthConverses(s, i, n, metered, granted);
      case GrowTable(i, n, fill, metered, granted) => TableGrowthConverses(s, i, n, fill, metered, granted);
      case _ => WritingIsQuiet(s, op);
    }
  }
}
