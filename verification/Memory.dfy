/** Linear memories (crates/core/src/memory/mod.rs). */
module Memories {
  import opened Prelude
  import opened Errors
  import opened Fuels
  import opened Limiters
  import opened MemoryTypes
  import opened ByteBuffers

  /** The value of a linear memory. */
  datatype MemoryState = MemoryState(ty: MemoryType, buffer: BufferState)
  {
    /** What every reachable memory satisfies: whole pages, between minimum and capacity. */
    ghost predicate Valid() {
      && ty.Valid()
      && buffer.Valid()
      && |buffer.bytes| % ty.PageSize() == 0
      && ty.minimum <= Pages() <= ty.Capacity()
    }

    ghost function Pages(): nat
      requires ty.Valid()
    {
      |buffer.bytes| / ty.PageSize()
    }

    /** The type of the memory at its present size. */
    ghost function DynamicType(): (t: MemoryType)
      requires Valid()
    {
      ty.(minimum := Pages())
    }
  }

  /** Where the bytes of a new memory live. */
  datatype Backing = Heap(granted: bool) | Static(room: nat)
  {
    function MakeBuffer(size: nat): Result<BufferState, MemoryError> {
      match this
      case Heap(granted) =>
        if granted then Ok(BufferState(Zeros(size), None)) else Err(OutOfSystemMemory)
      case Static(room) =>
        if size <= room then Ok(BufferState(Zeros(size), Some(room))) else Err(InvalidStaticBufferSize)
    }
  }

  datatype NewOutcome = NewOutcome(result: Result<MemoryState, MemoryError>, limiter: Option<LimiterState>)

  /** The error a caller sees when the limiter was told of `error`. */
  function Escalated(trap: bool, error: MemoryError): MemoryError {
    if trap then MemoryLimiterDenied else error
  }

  /** What the limiter is asked on creation: the maximum in bytes saturates. */
  function CreateRequest(ty: MemoryType): Request
    requires ty.Valid() && ty.minimum * ty.PageSize() < TWO_64
  {
    Request(MemoryKind, 0, ty.minimum * ty.PageSize(),
            if ty.maximum.None? then None else Some(Min(ty.maximum.value * ty.PageSize(), TWO_64 - 1)))
  }

  /** Creating a memory, as a function of the allocator's and the limiter's answers. */
  ghost function Created(ty: MemoryType, limiter: Option<LimiterState>, backing: Backing)
    : NewOutcome
    requires ty.Valid()
  {
    var size := ty.minimum * ty.PageSize();
    if size >= TWO_64 then NewOutcome(Err(MinimumSizeOverflow), limiter)
    else
      var (decision, asked) := Consulted(limiter, CreateRequest(ty));
      if decision != Allow then NewOutcome(Err(MemoryLimiterDenied), asked)
      else match backing.MakeBuffer(size)
        case Ok(buffer) => NewOutcome(Ok(MemoryState(ty, buffer)), asked)
        case Err(error) =>
          var (trap, told) := Reported(asked, MemoryFailure(error));
          NewOutcome(Err(Escalated(trap, error)), told)
  }

  datatype GrowOutcome = GrowOutcome(
    result: Result<U64, MemoryError>,
    memory: MemoryState,
    fuel: Option<FuelState>,
    limiter: Option<LimiterState>)

  /** What the limiter is asked: sizes and maximum in bytes. */
  ghost function GrowRequest(m: MemoryState, additional: nat): (q: Request)
    requires m.Valid() && !m.ty.MaximumOverflows() && m.Pages() + additional <= m.ty.Capacity()
    ensures q.kind == MemoryKind && q.current == |m.buffer.bytes|
    ensures q.desired - q.current == additional * m.ty.PageSize()
    ensures q.maximum.Some? <==> m.ty.maximum.Some?
    ensures q.maximum.Some? ==>
              && q.desired <= q.maximum.value
              && q.maximum.value / m.ty.PageSize() == m.ty.maximum.value
              && q.maximum.value % m.ty.PageSize() == 0
  {
    AddedPages(m, additional);
    PagesFit(m.ty, m.Pages());
    PagesFit(m.ty, m.Pages() + additional);
    WholePages(m.ty, m.Pages());
    var size := m.ty.PageSize();
    Request(MemoryKind, |m.buffer.bytes|, (m.Pages() + additional) * size,
            if m.ty.maximum.None? then None else Some(m.ty.maximum.value * size))
  }

  lemma AddedPages(m: MemoryState, additional: nat)
    requires m.Valid()
    ensures (m.Pages() + additional) * m.ty.PageSize() == |m.buffer.bytes| + additional * m.ty.PageSize()
    ensures forall max :: m.Pages() + additional <= max ==>
              (m.Pages() + additional) * m.ty.PageSize() <= max * m.ty.PageSize()
  {
  }

  /** Growing a memory by `additional` pages, as a function of every outside answer. */
  ghost function Grown(
    m: MemoryState, additional: U64, fuel: Option<FuelState>, limiter: Option<LimiterState>, granted: bool)
    : GrowOutcome
    requires m.Valid() && (additional != 0 ==> !m.ty.MaximumOverflows())
    requires fuel.Some? ==> fuel.value.Valid()
  {
    if additional == 0 then GrowOutcome(Ok(m.Pages()), m, fuel, limiter)
    else if m.Pages() + additional > m.ty.Capacity() then
      GrowOutcome(Err(OutOfBoundsGrowth), m, fuel, limiter)
    else
      var (decision, asked) := Consulted(limiter, GrowRequest(m, additional));
      match decision
      case Deny => GrowOutcome(Err(OutOfBoundsGrowth), m, fuel, asked)
      case Trap => GrowOutcome(Err(MemoryLimiterDenied), m, fuel, asked)
      case Allow => Committed(m, additional, fuel, asked, granted)
  }

  /** The part of a growth after its approval: pay, then grow the buffer, telling the limiter of a failure. */
  ghost function Committed(
    m: MemoryState, additional: U64, fuel: Option<FuelState>, limiter: Option<LimiterState>, granted: bool)
    : GrowOutcome
    requires m.Valid() && m.Pages() + additional <= m.ty.Capacity()
    requires fuel.Some? ==> fuel.value.Valid()
  {
    AddedPagesFit(m.ty, m.Pages(), additional);
    BufferGrowthKeepsValidity(m, m.Pages() + additional, granted);
    var size := m.ty.PageSize();
    match Charged(fuel, additional * size, 1)
    case Err(cost) =>
      var (trap, told) := Reported(limiter, MemoryFailure(MemoryOutOfFuel(cost)));
      GrowOutcome(Err(Escalated(trap, MemoryOutOfFuel(cost))), m, fuel, told)
    case Ok(paid) =>
      match m.buffer.Grown((m.Pages() + additional) * size, granted)
      case Ok(buffer) => GrowOutcome(Ok(m.Pages()), m.(buffer := buffer), paid, limiter)
      case Err(error) =>
        var (trap, told) := Reported(limiter, MemoryFailure(error));
        GrowOutcome(Err(Escalated(trap, error)), m, paid, told)
  }

  lemma BufferGrowthKeepsValidity(m: MemoryState, pages: nat, granted: bool)
    requires m.Valid() && m.Pages() <= pages <= m.ty.Capacity()
    ensures |m.buffer.bytes| <= pages * m.ty.PageSize()
    ensures var grown := m.buffer.Grown(pages * m.ty.PageSize(), granted);
            grown.Ok? ==> m.(buffer := grown.value).Valid() && m.(buffer := grown.value).Pages() == pages
  {
    WholePages(m.ty, pages);
  }

  /** A size within the capacity is within every bound the source checks, and conversely. */
  lemma PagesFit(ty: MemoryType, pages: nat)
    requires ty.Valid()
    ensures pages <= ty.Capacity() <==>
            && pages <= ty.AbsoluteMax()
            && (ty.maximum.Some? ==> pages <= ty.maximum.value)
            && pages * ty.PageSize() < TWO_64
    ensures ty.maximum.Some? && !ty.MaximumOverflows() ==> ty.maximum.value * ty.PageSize() < TWO_64
  {
    MaximumOverflowsExactly(ty);
  }

  lemma AddedPagesFit(ty: MemoryType, pages: nat, additional: nat)
    requires ty.Valid() && pages + additional <= ty.Capacity()
    ensures pages < TWO_64
    ensures 0 <= additional * ty.PageSize() < TWO_64
  {
    PagesFit(ty, pages + additional);
  }

  lemma GrowthKeepsValidity(
    m: MemoryState, additional: U64, fuel: Option<FuelState>, limiter: Option<LimiterState>, granted: bool)
    requires m.Valid() && (additional != 0 ==> !m.ty.MaximumOverflows())
    requires fuel.Some? ==> fuel.value.Valid()
    ensures var out := Grown(m, additional, fuel, limiter, granted);
            && out.memory.Valid()
            && out.memory.ty == m.ty
            && out.fuel.Some? == fuel.Some?
            && (out.fuel.Some? ==> out.fuel.value.Valid())
            && out.limiter.Some? == limiter.Some?
  {
    if additional != 0 && m.Pages() + additional <= m.ty.Capacity() {
      var (decision, asked) := Consulted(limiter, GrowRequest(m, additional));
      CommitmentKeepsValidity(m, additional, fuel, asked, granted);
    }
  }

  lemma CommitmentKeepsValidity(
    m: MemoryState, additional: U64, fuel: Option<FuelState>, limiter: Option<LimiterState>, granted: bool)
    requires m.Valid() && m.Pages() + additional <= m.ty.Capacity()
    requires fuel.Some? ==> fuel.value.Valid()
    ensures var out := Committed(m, additional, fuel, limiter, granted);
            && out.memory.Valid()
            && out.memory.ty == m.ty
            && out.fuel.Some? == fuel.Some?
            && (out.fuel.Some? ==> out.fuel.value.Valid())
            && out.limiter.Some? == limiter.Some?
  {
    BufferGrowthKeepsValidity(m, m.Pages() + additional, granted);
  }

  lemma NewMemoryIsValid(ty: MemoryType, buffer: BufferState)
    requires ty.Valid() && buffer.Valid() && |buffer.bytes| == ty.minimum * ty.PageSize() < TWO_64
    ensures MemoryState(ty, buffer).Valid()
  {
    WholePages(ty, ty.minimum);
    PagesFit(ty, ty.minimum);
  }

  class Memory {
    const ty: MemoryType
    const bytes: ByteBuffer

    ghost predicate Valid()
      reads this, bytes, bytes.data
    {
      bytes.Valid() && View().Valid()
    }

    ghost function View(): MemoryState
      reads this, bytes, bytes.data
      requires bytes.Valid()
    {
      MemoryState(ty, bytes.View())
    }

    constructor (ty: MemoryType, bytes: ByteBuffer)
      ensures this.ty == ty && this.bytes == bytes
    {
      this.ty, this.bytes := ty, bytes;
    }

    /** `Memory::new` (a heap backing) and `Memory::new_static` (the caller's `buffer`). */
    static method New(ty: MemoryType, limiter: Limiter?, buffer: array?<Byte>, granted: bool)
      returns (r: Result<Memory, MemoryError>)
      requires ty.Valid()
      modifies limiter, buffer
      ensures var backing := if buffer == null then Heap(granted) else Static(buffer.Length);
              var spec := Created(ty, old(LimiterView(limiter)), backing);
              && LimiterView(limiter) == spec.limiter
              && match spec.result
                 case Ok(state) => r.Ok? && fresh(r.value) && r.value.Valid() && r.value.View() == state
                 case Err(error) => r == Err(error)
      ensures r.Ok? ==> fresh(r.value.bytes)
      ensures r.Ok? ==> if buffer == null then fresh(r.value.bytes.data) else r.value.bytes.data == buffer
    {
      var minimum := ty.MinimumByteSize();
      if minimum.None? {
        return Err(MinimumSizeOverflow);
      }
      if minimum.value >= TWO_64 {
        return Err(MinimumSizeOverflow);
      }
      var maxSize: Option<U64> := None;
      if ty.maximum.Some? {
        if ty.maximum.value > ty.AbsoluteMax() {
          return Err(MaximumSizeOverflow);
        }
        var max := ty.maximum.value * ty.PageSize();
        maxSize := Some(if max < TWO_64 then max else TWO_64 - 1);
      }
      var decision := Consult(limiter, Request(MemoryKind, 0, minimum.value, maxSize));
      if decision != Allow {
        return Err(MemoryLimiterDenied);
      }
      r := Install(ty, limiter, buffer, granted, minimum.value);
    }

    /** The part of a creation after its approval. */
    static method Install(ty: MemoryType, limiter: Limiter?, buffer: array?<Byte>, granted: bool, size: U64)
      returns (r: Result<Memory, MemoryError>)
      requires ty.Valid() && size == ty.minimum * ty.PageSize()
      modifies limiter, buffer
      ensures var backing := if buffer == null then Heap(granted) else Static(buffer.Length);
              match backing.MakeBuffer(size)
              case Ok(state) =>
                && LimiterView(limiter) == old(LimiterView(limiter))
                && r.Ok? && fresh(r.value) && r.value.Valid() && r.value.View() == MemoryState(ty, state)
              case Err(error) =>
                var (trap, told) := Reported(old(LimiterView(limiter)), MemoryFailure(error));
                LimiterView(limiter) == told && r == Err(Escalated(trap, error))
      ensures r.Ok? ==> fresh(r.value.bytes)
      ensures r.Ok? ==> if buffer == null then fresh(r.value.bytes.data) else r.value.bytes.data == buffer
    {
      var made: Result<ByteBuffer, MemoryError>;
      if buffer == null {
        made := ByteBuffer.New(size, granted);
      } else {
        made := ByteBuffer.NewStatic(buffer, size);
      }
      if made.Err? {
        var trap := Report(limiter, MemoryFailure(made.error));
        return Err(Escalated(trap, made.error));
      }
      NewMemoryIsValid(ty, made.value.View());
      var m := new Memory(ty, made.value);
      assert m.View() == MemoryState(ty, made.value.View());
      return Ok(m);
    }

    method Size() returns (pages: U64)
      requires Valid()
      ensures pages == View().Pages()
    {
      PagesFit(ty, View().Pages());
      pages := bytes.len / ty.PageSize();
    }

    /** The checked multiplication of the source never overflows: the result is the byte length. */
    method SizeInBytes() returns (n: U64)
      requires Valid()
      ensures n == |View().buffer.bytes|
    {
      PagesFit(ty, View().Pages());
      WholePages(ty, View().Pages());
      var pages := Size();
      n := pages * ty.PageSize();
    }

    method MaxSizeInBytes() returns (n: Option<U64>)
      requires Valid() && !ty.MaximumOverflows()
      ensures n == if ty.maximum.None? then None else Some(ty.maximum.value * ty.PageSize())
    {
      MaximumOverflowsExactly(ty);
      if ty.maximum.None? {
        return None;
      }
      return Some(ty.maximum.value * ty.PageSize());
    }

    /** The builder always accepts the dynamic type. */
    method DynamicTy() returns (t: MemoryType)
      requires Valid()
      ensures t == View().DynamicType() && t.Valid()
      ensures t.minimum * t.PageSize() == |View().buffer.bytes| && t == ty.(minimum := t.minimum)
    {
      var pages := Size();
      PagesFit(ty, pages);
      WholePages(ty, pages);
      t := MemoryType(pages, ty.maximum, ty.pageSizeLog2, ty.indexType);
      var built := t.Build();
      assert built.Ok?;
      t := built.value;
    }

    method Grow(additional: U64, fuel: Fuel?, limiter: Limiter?, granted: bool)
      returns (r: Result<U64, MemoryError>)
      requires Valid() && (additional != 0 ==> !ty.MaximumOverflows())
      requires fuel != null ==> fuel.Valid()
      modifies bytes, bytes.data, fuel, limiter
      ensures Valid() && (bytes.data == old(bytes.data) || fresh(bytes.data))
      ensures var spec := Grown(old(View()), additional, old(FuelView(fuel)), old(LimiterView(limiter)), granted);
              GrowOutcome(r, View(), FuelView(fuel), LimiterView(limiter)) == spec
    {
      GrowthKeepsValidity(View(), additional, FuelView(fuel), LimiterView(limiter), granted);
      if additional == 0 {
        r := OkSize();
      } else {
        r := GrowSome(additional, fuel, limiter, granted);
      }
    }

    method GrowSome(additional: U64, fuel: Fuel?, limiter: Limiter?, granted: bool)
      returns (r: Result<U64, MemoryError>)
      requires Valid() && additional != 0 && !ty.MaximumOverflows()
      requires fuel != null ==> fuel.Valid()
      modifies bytes, bytes.data, fuel, limiter
      ensures bytes.Valid() && (bytes.data == old(bytes.data) || fresh(bytes.data))
      ensures GrowOutcome(r, View(), FuelView(fuel), LimiterView(limiter)) ==
              Grown(old(View()), additional, old(FuelView(fuel)), old(LimiterView(limiter)), granted)
    {
      var currentBytes := SizeInBytes();
      var maximumBytes := MaxSizeInBytes();
      var desired := DesiredBytes(additional);
      if desired.None? {
        return Err(OutOfBoundsGrowth);
      }
      ghost var before := View();
      var decision := Consult(limiter, Request(MemoryKind, currentBytes, desired.value, maximumBytes));
      assert View() == before;
      match decision
      case Deny => r := Err(OutOfBoundsGrowth);
      case Trap => r := Err(MemoryLimiterDenied);
      case Allow => r := Commit(additional, desired.value, fuel, limiter, granted);
    }

    /** The four bounds checks of `grow`, each on checked `u64` arithmetic. */
    method DesiredBytes(additional: U64) returns (r: Option<U64>)
      requires Valid()
      ensures r.Some? <==> View().Pages() + additional <= ty.Capacity()
      ensures r.Some? ==> r.value == (View().Pages() + additional) * ty.PageSize()
    {
      var current := Size();
      PagesFit(ty, current + additional);
      if current + additional >= TWO_64 {
        return None;
      }
      var desired: U64 := current + additional;
      if desired > ty.AbsoluteMax() {
        return None;
      }
      if ty.maximum.Some? && desired > ty.maximum.value {
        return None;
      }
      if desired * ty.PageSize() >= TWO_64 {
        return None;
      }
      return Some(desired * ty.PageSize());
    }

    method Commit(additional: U64, desired: U64, fuel: Fuel?, limiter: Limiter?, granted: bool)
      returns (r: Result<U64, MemoryError>)
      requires Valid() && View().Pages() + additional <= ty.Capacity()
      requires desired == (View().Pages() + additional) * ty.PageSize()
      requires fuel != null ==> fuel.Valid()
      modifies bytes, bytes.data, fuel, limiter
      ensures bytes.Valid() && (bytes.data == old(bytes.data) || fresh(bytes.data))
      ensures GrowOutcome(r, View(), FuelView(fuel), LimiterView(limiter)) ==
              Committed(old(View()), additional, old(FuelView(fuel)), old(LimiterView(limiter)), granted)
    {
      BufferGrowthKeepsValidity(View(), View().Pages() + additional, granted);
      AddedPagesFit(ty, View().Pages(), additional);
      var current := Size();
      ghost var before := View();
      var charged := Charge(fuel, additional * ty.PageSize(), 1);
      assert View() == before;
      if charged.Err? {
        var trap := Report(limiter, MemoryFailure(MemoryOutOfFuel(charged.error)));
        return Err(Escalated(trap, MemoryOutOfFuel(charged.error)));
      }
      var grown := bytes.Grow(desired, granted);
      if grown.Err? {
        var trap := Report(limiter, MemoryFailure(grown.error));
        return Err(Escalated(trap, grown.error));
      }
      return Ok(current);
    }

    method OkSize() returns (r: Result<U64, MemoryError>)
      requires Valid()
      ensures r == Ok(View().Pages())
    {
      var size := Size();
      return Ok(size);
    }

    /** Copies out exactly the requested bytes, or reports an access past the end. */
    method Read(offset: U64, buffer: array<Byte>) returns (r: Result<Unit, MemoryError>)
      requires Valid() && buffer != bytes.data && buffer.Length < TWO_64
      modifies buffer
      ensures r.Ok? <==> offset + buffer.Length <= |View().buffer.bytes|
      ensures buffer[..] == if r.Ok? then View().buffer.bytes[offset..offset + buffer.Length] else old(buffer[..])
      ensures r.Err? ==> r.error == OutOfBoundsAccess
    {
      PagesFit(ty, View().Pages());
      WholePages(ty, View().Pages());
      if offset + buffer.Length >= TWO_64 || bytes.len < offset + buffer.Length {
        return Err(OutOfBoundsAccess);
      }
      ghost var source := View().buffer.bytes;
      forall i | 0 <= i < buffer.Length {
        buffer[i] := bytes.data[offset + i];
      }
      assert View().buffer.bytes == source;
      assert buffer[..] == source[offset..offset + buffer.Length];
      return Ok(Unit);
    }

    /** Overwrites exactly the addressed bytes, or changes nothing. */
    method Write(offset: U64, buffer: seq<Byte>) returns (r: Result<Unit, MemoryError>)
      requires Valid() && |buffer| < TWO_64
      modifies bytes.data
      ensures Valid() && View() == Written(old(View()), offset, buffer).1 && r == Written(old(View()), offset, buffer).0
      ensures r.Ok? <==> offset + |buffer| <= |old(View()).buffer.bytes|
      ensures r.Err? ==> r.error == OutOfBoundsAccess
      ensures r.Ok? ==> Overlaid(View().buffer.bytes, old(View()).buffer.bytes, offset, buffer)
      ensures r.Err? ==> View().buffer.bytes == old(View()).buffer.bytes
    {
      PagesFit(ty, View().Pages());
      WholePages(ty, View().Pages());
      if offset + |buffer| >= TWO_64 || bytes.len < offset + |buffer| {
        return Err(OutOfBoundsAccess);
      }
      ghost var before := View().buffer.bytes;
      forall i | 0 <= i < |buffer| {
        bytes.data[offset + i] := buffer[i];
      }
      assert bytes.data[..bytes.len] == before[..offset] + buffer + before[offset + |buffer|..];
      return Ok(Unit);
    }
  }

  /** READING BACK: the written range yields the buffer, and a range apart from it what it held before. */
  method WriteThenRead(m: Memory, offset: U64, buffer: seq<Byte>, at: U64, back: array<Byte>, other: array<Byte>)
    returns (w: Result<Unit, MemoryError>, r: Result<Unit, MemoryError>, o: Result<Unit, MemoryError>)
    requires m.Valid() && |buffer| == back.Length < TWO_64 && other.Length < TWO_64
    requires back != other && back != m.bytes.data && other != m.bytes.data
    requires at + other.Length <= offset || offset + |buffer| <= at
    modifies m.bytes.data, back, other
    ensures w.Ok? <==> r.Ok?
    ensures w.Ok? ==> back[..] == buffer
    ensures o.Ok? <==> at + other.Length <= |old(m.View()).buffer.bytes|
    ensures o.Ok? ==> other[..] == old(m.View()).buffer.bytes[at..at + other.Length]
  {
    ghost var was := m.View().buffer.bytes;
    w := m.Write(offset, buffer);
    ghost var now := m.View().buffer.bytes;
    r := m.Read(offset, back);
    assert m.View().buffer.bytes == now;
    o := m.Read(at, other);
    assert w.Ok? && o.Ok? ==> now[at..at + other.Length] == was[at..at + other.Length] by {
      if w.Ok? {
        ReadingOverlaid(now, was, offset, buffer, at, other.Length);
      }
    }
    assert w.Ok? ==> now[offset..offset + |buffer|] == buffer by {
      if w.Ok? {
        ReadingOverlaid(now, was, offset, buffer, at, other.Length);
      }
    }
  }

  /** `now` holds the part from `offset` on and what `was` held everywhere else. */
  ghost predicate Overlaid(now: seq<Byte>, was: seq<Byte>, offset: nat, part: seq<Byte>) {
    && |now| == |was| && offset + |part| <= |was|
    && forall i {:trigger now[i]} :: 0 <= i < |now| ==>
         now[i] == if offset <= i < offset + |part| then part[i - offset] else was[i]
  }

  lemma ReadingOverlaid(now: seq<Byte>, was: seq<Byte>, offset: nat, part: seq<Byte>, at: nat, n: nat)
    requires Overlaid(now, was, offset, part)
    requires at + n <= offset || offset + |part| <= at
    ensures now[offset..offset + |part|] == part
    ensures at + n <= |was| ==> now[at..at + n] == was[at..at + n]
  {
  }

  ghost function Written(m: MemoryState, offset: nat, buffer: seq<Byte>): (Result<Unit, MemoryError>, MemoryState) {
    var bytes := m.buffer.bytes;
    if offset + |buffer| <= |bytes| then
      (Ok(Unit), m.(buffer := m.buffer.(bytes := bytes[..offset] + buffer + bytes[offset + |buffer|..])))
    else (Err(OutOfBoundsAccess), m)
  }

  lemma WholePages(ty: MemoryType, pages: nat)
    requires ty.Valid()
    ensures (pages * ty.PageSize()) % ty.PageSize() == 0
    ensures pages * ty.PageSize() / ty.PageSize() == pages
  {
  }

  /** What growing means to a caller, whatever backs the bytes:
      success happens exactly when all four gates open, returns the old page count, keeps the old
      bytes as a prefix, zeroes the rest and costs the whole number of fuel units in the new bytes;
      a failure keeps the memory, and keeps the fuel unless the buffer itself could not grow. */
  lemma GrowContract(
    m: MemoryState, additional: U64, fuel: Option<FuelState>, limiter: Option<LimiterState>, granted: bool)
    requires m.Valid() && additional != 0 && !m.ty.MaximumOverflows()
    requires fuel.Some? ==> fuel.value.Valid()
    ensures var size := m.ty.PageSize();
            var out := Grown(m, additional, fuel, limiter, granted);
            var inBounds := m.Pages() + additional <= m.ty.Capacity();
            var metered := fuel.Some? && fuel.value.enabled;
            && (out.result.Ok? <==>
                  && inBounds
                  && (limiter.Some? ==> limiter.value.Ask(GrowRequest(m, additional)).Allow?)
                  && (metered ==> additional * size / fuel.value.bytesPerFuel <= fuel.value.remaining)
                  && (if m.buffer.room.None? then granted
                      else (m.Pages() + additional) * size <= m.buffer.room.value))
            && (out.result.Ok? ==>
                  && out.result.value == m.Pages()
                  && out.memory == m.(buffer := m.buffer.(bytes := m.buffer.bytes + Zeros(additional * size)))
                  && out.fuel == if metered
                                 then Some(fuel.value.(remaining :=
                                   fuel.value.remaining - additional * size / fuel.value.bytesPerFuel))
                                 else fuel)
            && (out.result.Err? ==> out.memory == m)
            && (out.result.Err? && out.fuel != fuel ==>
                  inBounds && m.buffer.Grown((m.Pages() + additional) * size, granted).Err?)
  {
    if m.Pages() + additional <= m.ty.Capacity() {
      AddedBytes(m, additional);
      var (decision, asked) := Consulted(limiter, GrowRequest(m, additional));
      CommitContract(m, additional, fuel, asked, granted);
    }
  }

  /** The same of the part after the approval. */
  lemma CommitContract(
    m: MemoryState, additional: U64, fuel: Option<FuelState>, limiter: Option<LimiterState>, granted: bool)
    requires m.Valid() && m.Pages() + additional <= m.ty.Capacity()
    requires fuel.Some? ==> fuel.value.Valid()
    ensures var bytes := additional * m.ty.PageSize();
            var desired := (m.Pages() + additional) * m.ty.PageSize();
            var out := Committed(m, additional, fuel, limiter, granted);
            var metered := fuel.Some? && fuel.value.enabled;
            && (out.result.Ok? <==>
                  && (metered ==> bytes / fuel.value.bytesPerFuel <= fuel.value.remaining)
                  && (if m.buffer.room.None? then granted else desired <= m.buffer.room.value))
            && (out.result.Ok? ==>
                  && out.result.value == m.Pages()
                  && out.memory == m.(buffer := m.buffer.(bytes := m.buffer.bytes + Zeros(bytes)))
                  && out.fuel == if metered
                                 then Some(fuel.value.(remaining :=
                                   fuel.value.remaining - bytes / fuel.value.bytesPerFuel))
                                 else fuel)
            && (out.result.Err? ==> out.memory == m)
            && (out.result.Err? && out.fuel != fuel ==>
                  |m.buffer.bytes| <= desired && m.buffer.Grown(desired, granted).Err?)
  {
    AddedBytes(m, additional);
  }

  /** A growth does what was asked for or nothing: the request names exactly the old length, the new
      length if it succeeds, and a maximum that never is a reason to refuse it. */
  lemma GrowthIsAsRequested(
    m: MemoryState, additional: U64, fuel: Option<FuelState>, limiter: Option<LimiterState>, granted: bool)
    requires m.Valid() && additional != 0 && !m.ty.MaximumOverflows() && m.Pages() + additional <= m.ty.Capacity()
    requires fuel.Some? ==> fuel.value.Valid()
    ensures var q, out := GrowRequest(m, additional), Grown(m, additional, fuel, limiter, granted);
            && |out.memory.buffer.bytes| == (if out.result.Ok? then q.desired else q.current)
            && q.current < q.desired
            && forall limits: StoreLimits :: limits.LimitOf(MemoryKind).None? ==> limits.Decide(q).Allow?
  {
    AddedBytes(m, additional);
    GrowContract(m, additional, fuel, limiter, granted);
  }

  /** What a failed growth says and to whom: out of bounds without asking the limiter; the limiter's
      refusal, which only a trap reports as such; or, after an approval, the actual cause, which the
      limiter is told once and the caller sees unless the limiter turns it into a trap. */
  lemma GrowErrors(
    m: MemoryState, additional: U64, fuel: Option<FuelState>, limiter: Option<LimiterState>, granted: bool)
    requires m.Valid() && additional != 0 && !m.ty.MaximumOverflows()
    requires fuel.Some? ==> fuel.value.Valid()
    ensures var out := Grown(m, additional, fuel, limiter, granted);
            out.result.Err? ==>
              var error := out.result.error;
              if m.Pages() + additional > m.ty.Capacity() then error == OutOfBoundsGrowth && out.limiter == limiter
              else
                var q, cause := GrowRequest(m, additional), GrowFailure(m, additional, fuel);
                match limiter
                case None => error == cause && out.limiter == None
                case Some(l) =>
                  match l.policy.growing(l.log, q)
                  case Deny => error == OutOfBoundsGrowth && Answered(l, out.limiter, q, Deny)
                  case Trap => error == MemoryLimiterDenied && Answered(l, out.limiter, q, Trap)
                  case Allow =>
                    if l.policy.growFailed(l.log + [Growing(q, Allow)], MemoryFailure(cause))
                    then error == MemoryLimiterDenied && ToldOnce(l, out.limiter, q, MemoryFailure(cause), true)
                    else error == cause && ToldOnce(l, out.limiter, q, MemoryFailure(cause), false)
  {
    if m.Pages() + additional <= m.ty.Capacity() {
      AddedBytes(m, additional);
    }
  }

  lemma CostFits(bytes: nat, unit: nat)
    requires bytes < TWO_64 && unit > 0
    ensures 0 <= bytes / unit < TWO_64
  {
    DivisionBounds(bytes, unit);
  }

  /** Why an approved growth fails: the fuel, else the static buffer, else the system allocator. */
  ghost function GrowFailure(m: MemoryState, additional: nat, fuel: Option<FuelState>): MemoryError
    requires m.Valid() && m.Pages() + additional <= m.ty.Capacity()
    requires fuel.Some? ==> fuel.value.Valid()
  {
    AddedPagesFit(m.ty, m.Pages(), additional);
    var bytes := additional * m.ty.PageSize();
    if fuel.Some? && fuel.value.enabled && fuel.value.remaining < bytes / fuel.value.bytesPerFuel then
      CostFits(bytes, fuel.value.bytesPerFuel);
      MemoryOutOfFuel(bytes / fuel.value.bytesPerFuel)
    else if m.buffer.room.Some? then InvalidStaticBufferSize
    else OutOfSystemMemory
  }

  /** Creation succeeds exactly when the minimum is addressable, the limiter approves it and the
      backing has room; then the memory is its minimum of zeroed pages. */
  lemma CreateContract(ty: MemoryType, limiter: Option<LimiterState>, backing: Backing)
    requires ty.Valid()
    ensures var out := Created(ty, limiter, backing);
            var size := ty.minimum * ty.PageSize();
            && (out.result.Ok? <==>
                  && size < TWO_64
                  && (limiter.Some? ==> limiter.value.policy.growing(limiter.value.log, CreateRequest(ty)) == Allow)
                  && (if backing.Heap? then backing.granted else size <= backing.room))
            && (out.result.Ok? ==>
                  && out.result.value.Valid() && out.result.value.ty == ty
                  && out.result.value.Pages() == ty.minimum
                  && out.result.value.buffer.bytes == Zeros(size)
                  && out.result.value.buffer.room == (if backing.Heap? then None else Some(backing.room))
                  && (limiter.None? ==> out.limiter == None)
                  && (limiter.Some? ==> Answered(limiter.value, out.limiter, CreateRequest(ty), Allow)))
  {
    WholePages(ty, ty.minimum);
    PagesFit(ty, ty.minimum);
  }

  /** What a failed creation says and to whom: the minimum is not addressable and nobody is asked; the limiter
      refuses; or, after an approval, there is no buffer, as with a failed growth. */
  lemma CreateErrors(ty: MemoryType, limiter: Option<LimiterState>, backing: Backing)
    requires ty.Valid()
    ensures var out := Created(ty, limiter, backing);
            out.result.Err? ==>
              var error := out.result.error;
              if ty.minimum * ty.PageSize() >= TWO_64 then error == MinimumSizeOverflow && out.limiter == limiter
              else
                var q, cause := CreateRequest(ty), if backing.Heap? then OutOfSystemMemory else InvalidStaticBufferSize;
                match limiter
                case None => error == cause && out.limiter == None
                case Some(l) =>
                  var decision := l.policy.growing(l.log, q);
                  if decision != Allow then error == MemoryLimiterDenied && Answered(l, out.limiter, q, decision)
                  else if l.policy.growFailed(l.log + [Growing(q, Allow)], MemoryFailure(cause))
                  then error == MemoryLimiterDenied && ToldOnce(l, out.limiter, q, MemoryFailure(cause), true)
                  else error == cause && ToldOnce(l, out.limiter, q, MemoryFailure(cause), false)
  {
  }

  /** The limiter is asked on creation for the minimum, from nothing, with the largest maximum in bytes that a
      `u64` can hold. */
  lemma CreateRequestIs(ty: MemoryType)
    requires ty.Valid() && ty.minimum * ty.PageSize() < TWO_64
    ensures var q := CreateRequest(ty);
            && q.kind == MemoryKind && q.current == 0 && q.desired == ty.minimum * ty.PageSize()
            && (q.maximum.Some? <==> ty.maximum.Some?)
            && (q.maximum.Some? ==>
                  var exact := ty.maximum.value * ty.PageSize();
                  (exact < TWO_64 ==> q.maximum.value == exact) && (exact >= TWO_64 ==> q.maximum.value == TWO_64 - 1))
  {
  }

  lemma AddedBytes(m: MemoryState, additional: nat)
    requires m.Valid() && m.Pages() + additional <= m.ty.Capacity()
    ensures 0 <= additional * m.ty.PageSize() < TWO_64
    ensures (m.Pages() + additional) * m.ty.PageSize() == |m.buffer.bytes| + additional * m.ty.PageSize()
  {
    AddedPagesFit(m.ty, m.Pages(), additional);
    BufferGrowthKeepsValidity(m, m.Pages() + additional, true);
  }
}
