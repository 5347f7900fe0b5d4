# Wasmi's runtime core, modelled and proved

Wasmi is a WebAssembly interpreter. This project models the parts of it in which a step too few or
a branch too many would go unnoticed for long, and proves, for all inputs and all runs, what they
are for:

* **Linear memories and tables under a limiter and a fuel counter.** Creating and growing follows a
  two-phase protocol: the limiter approves, then the growth succeeds or a failure is reported.
  `Memories`, `Tables`, `ByteBuffers`, `Fuels` and `Limiters` hold the classes, each method proved
  equal to a function on values; `Stores`, `StoreProtocol` and `StoreRuns` prove what every run over
  any number of objects keeps. An arbitrary `dyn ResourceLimiter` is a policy: any function from the
  history of calls to the next answer. The system allocator is a Boolean parameter of each call.
* **Bulk copies.** `TableSemantics` has the element-by-element table instructions of section 4.4.6 of
  the WebAssembly Core Specification 2.0 as an independent reference; `CopySpans` has the stack copies
  of the interpreter, the overlap test and the choice of direction.
* **The linker.** A packed index over interned symbols refines a plain map from (module, name) to
  definitions (`LenOrders`, `Interners`, `LinkerSpec`, `Linkers`).
* **The translator's operand stack.** One doubly linked list per local variable runs through the
  operands, and three registers point into them (`OperandLinks`, `OperandRegs`, `OperandSpec`,
  `OperandRelease`, `OperandStacks`).
* **Exact numerics.** Truncation guards over dyadic floats, 128-bit wide arithmetic, little-endian
  accesses, fused SIMD loads (`Truncation`, `WideArithmetic`, `MemoryAccess`, `Simd`).
* **Representations that must not show.** Two slot encodings, inline and heap function types, and the
  deduplicating arena (`Slots`, `Spans`, `FuncTypes`, `DedupArenas`).

The target has a 64-bit `usize`, the `memory64` and `simd` features, and little-endian byte order.
Fixed widths are subset types of `nat` or `int`, and every wrap, checked operation and truncation of
the source is written out.

`dafny verify dfyconfig.toml` checks everything.

## Findings

Places where the code does less, or something else, than its documentation or its callers suggest.
The model follows the code.

* `preserve_all_locals(skip)` is documented, and called, as skipping the topmost `skip` *operands*
  (crates/wasmi/src/engine/translator/func/stack/operands.rs:887-898,
  crates/wasmi/src/engine/translator/func/visit.rs:126), but counts *local* operands only.
  `OperandSpec.SkippingIsExact` gives the exact condition under which the two agree;
  `OperandSpec.SkippingAnImmediateSparesTheLocal` is the smallest disagreement, and
  `OperandStacks.SkippingSparesTheLocalBelow` reaches it by four calls.
* `push_local` updates the links, and `push_temp` the register, before they know that there is room;
  when there is none, the head of the variable or the register points past the stack
  (`OperandSpec.FailedPushBreaksTheLinks`, `OperandSpec.FailedPushBreaksTheRegisters`). Both happen on a
  function with 65535 local slots (`OperandStacks.FullStackBreaksTheLinks`,
  `OperandStacks.FullStackBreaksTheRegisters`), and exactly when there is no room
  (`OperandStacks.OperandStack.PushLocal`, `OperandStacks.OperandStack.PushTemp`).
* `FixedSlotSpan::new` rejects spans that reach past slot 65535 only under `slot16`
  (`Slots.FormsDifferAtTheLastSlot`, `Slots.FixedSpanAcceptsExactly`). The iterator over such a byte-scaled
  span (crates/ir/src/span.rs:229-231) yields the right slots (`Spans.Drive`) but reports a wrong length: the length is right
  exactly when the span ends within the `u16` indices or has 32768 slots (`Slots.ReportedLenIsExact`,
  `Slots.LastSlotReportsTooMany`).
* So `has_overlapping_copies` (crates/ir/src/span.rs:246-268) misses the overlap of byte-scaled spans of 65535 slots that
  report one slot: it is right exactly unless there are that many slots, the results do not start at slot 0
  and the copies overlap (`CopySpans.HasOverlappingCopies`, `CopySpans.LongOverlapIsMissed`). Its assertion of
  equal lengths fires for two spans of one length exactly when one of them reaches past slot 65535 and the
  other does not, other than with 32768 slots (`CopySpans.SameLengthIsSeenExactly`).
* `alias_module` is not atomic: on a duplicate name the aliases with smaller symbols stay installed
  (`LinkerSpec.AliasContract`). Three definitions suffice (`LinkerSpec.AliasingCanStopHalfway`).
* `max_size_in_bytes`, and with it `grow`, panics for one validated type: a 64-bit memory with default
  pages and maximum 2^48 (`MemoryTypes.MaximumOverflowsExactly`). Such a memory can be created
  (`DataSizes.OverflowingMaximumIsReachable`).
* `Table::init` documents a panic on mismatching element types; the code returns an error
  (crates/core/src/table/mod.rs:245-258, `Tables.Table.Init`).
* `DedupArena::from_iter` keeps duplicates, and so differs from `alloc` in turn exactly when there are any
  (`DedupArenas.CollectingIsFoldingExactly`, `DedupArenas.DuplicatesAreKept`).
* `Memory::data_size` documents a multiple of 64 KiB (crates/core/src/memory/mod.rs:275-280). A memory of
  one one-byte page is not (`DataSizes.OneByteMemory`); the documentation holds of a type, over all runs,
  exactly when its pages are the default ones or its size is fixed at such a multiple
  (`DataSizes.DocumentationIsRightExactly`). The same guarantee to limiters (crates/core/src/limiter.rs:46-47) holds of exactly the
  same types (`LimiterRequests.GuaranteeHoldsExactly`, `LimiterRequests.OneByteIsAskedFor`).

## Model

| member | source | states |
|---|---|---|
| `StoreRuns.Conservation` | crates/core/src/limiter.rs:74-118 | After every run of calls, under every limiter and allocator, approved growth minus reported failures equals the total live size, for memories and for tables |
| `StoreRuns.ReportsFollowApprovals` | crates/core/src/limiter.rs:99-118 | In every run each failure report directly follows an approval of its own kind: none is unasked, none is repeated |
| `StoreProtocol.StepConverses` | crates/core/src/memory/mod.rs:71-258 | Every call says to the limiter nothing, one refused request, one approved request for exactly the change it then makes, or an approval and one report without a change; no other object is resized |
| `StoreProtocol.GrowingATableConverses` | crates/core/src/table/mod.rs:134-194 | The same for growing a table, whose own maximum is looked at only after the approval |
| `StoreProtocol.CommittingATableConverses` | crates/core/src/table/mod.rs:170-194 | The same of the part after the approval |
| `StoreProtocol.GrowingAMemoryConverses` | crates/core/src/memory/mod.rs:182-258 | The same for growing a memory |
| `StoreProtocol.CreatingAMemoryConverses` | crates/core/src/memory/mod.rs:71-117 | The same for creating a memory |
| `StoreProtocol.CreatingATableConverses` | crates/core/src/table/mod.rs:32-59 | The same for creating a table |
| `StoreRuns.StoreLimitsHold` | crates/wasmi/src/limits.rs:141-191 | Under `StoreLimits`, in every reachable state no memory and no table exceeds its limit |
| `StoreRuns.StoreLimitsTrapOnFailure` | crates/wasmi/src/limits.rs:160-165 | Under `StoreLimits` an approved growth that fails is reported as denied if failures trap, and as what went wrong otherwise |
| `StoreRuns.ReachableMemoriesAreSound` | crates/core/src/memory/mod.rs:144-172 | In every reachable state a memory is whole pages, between minimum and maximum, within `absolute_max` and below 2^64 bytes: the panics of the size computations cannot happen |
| `DataSizes.DocumentationIsRightExactly` | crates/core/src/memory/mod.rs:275-280 | Every reachable memory of a type is a multiple of 64 KiB if and only if its pages are the default ones, or its minimum is its capacity and such a multiple |
| `DataSizes.OneByteMemory` | crates/core/src/memory/mod.rs:275-280 | One creation reaches a memory of one byte |
| `DataSizes.OverflowingMaximumIsReachable` | crates/core/src/memory/mod.rs:162-172 | One creation reaches a memory whose maximum in bytes overflows |
| `LimiterRequests.GuaranteeHoldsExactly` | crates/core/src/limiter.rs:46-47 | Every request about a memory of a type, at any point of any run, is in multiples of 64 KiB if and only if the type is one whose sizes always are |
| `LimiterRequests.LoggedRequestsAreWholePages` | crates/core/src/limiter.rs:46-47 | Every memory request in the log of any run was made by one of its calls, in whole pages of the memory that call created or grew |
| `LimiterRequests.RequestsAreWholePages` | crates/core/src/limiter.rs:46-47 | At any state, a call asks in whole pages of its memory |
| `LimiterRequests.OneByteIsAskedFor` | crates/core/src/limiter.rs:46-47 | Creating a memory of one one-byte page asks for one byte |
| `StoreRuns.RunIsLater` | crates/core/src/table/mod.rs:134-194 | Over every run objects stay, keep their types and never shrink |
| `StoreRuns.AcceptedMemoriesStayAcceptable` | crates/core/src/memory/mod.rs:129-141 | Over every run each later dynamic type is valid, a subtype of the declared and of each earlier dynamic type, and still accepted wherever an earlier one was |
| `StoreRuns.AcceptedTablesStayAcceptable` | crates/core/src/table/mod.rs:72-79 | The same for tables |
| `Memories.GrowContract` | crates/core/src/memory/mod.rs:182-258 | Growing succeeds exactly when bounds, limiter, fuel and buffer all allow it; then it returns the old page count, keeps the old bytes as a prefix, zeroes the rest and charges the whole fuel units of the new bytes; a failure keeps the bytes, and the fuel too unless the buffer was what failed |
| `Memories.CommitContract` | crates/core/src/memory/mod.rs:235-257 | The same of the part after the approval |
| `Memories.GrowErrors` | crates/core/src/memory/mod.rs:188-257 | A failed growth reports out of bounds without asking the limiter, or the limiter's refusal, or, after an approval, the actual cause: without a limiter the caller sees it, with one the limiter is told it exactly once and may turn it into a trap |
| `Memories.CreateContract` | crates/core/src/memory/mod.rs:71-117 | Creation succeeds exactly when the minimum is addressable, approved and backed; then the memory is its minimum of zeroed pages |
| `Memories.CreateErrors` | crates/core/src/memory/mod.rs:71-117 | The errors of a failed creation, with and without a limiter, and what a limiter is told |
| `Memories.CreateRequestIs` | crates/core/src/memory/mod.rs:78-105 | The limiter is asked for the minimum, from nothing, with the maximum in bytes as far as a `u64` holds it |
| `Memories.GrowthKeepsValidity` | crates/core/src/memory/mod.rs:182-258 | Every outcome of growing is a valid memory of the same type |
| `Memories.Memory.Grow` | crates/core/src/memory/mod.rs:182-258 | The imperative `grow` leaves result, bytes, fuel and limiter exactly as the specification says, for heap and static buffers |
| `Memories.Memory.Commit` | crates/core/src/memory/mod.rs:235-257 | After an approval: fuel first, then the buffer, and every failure is reported |
| `Memories.GrowRequest` | crates/core/src/memory/mod.rs:202-233 | The request is for exactly the bytes of the additional pages, and never beyond the maximum it names |
| `Memories.GrowthIsAsRequested` | crates/core/src/memory/mod.rs:182-258 | The new length is the one asked for if the growth succeeds and the old one otherwise; the maximum in the request is never a reason for `StoreLimits` to refuse |
| `Memories.Memory.DesiredBytes` | crates/core/src/memory/mod.rs:204-220 | The four checked comparisons accept exactly the sizes within the capacity of the type |
| `Memories.Memory.New` | crates/core/src/memory/mod.rs:71-117 | Creation, with every early exit and the report of a failed allocation; the buffer is new, or the caller's |
| `Memories.Memory.Install` | crates/core/src/memory/mod.rs:106-116 | After an approval: the buffer is made, or the limiter is told why not |
| `Memories.Memory.Size` | crates/core/src/memory/mod.rs:144-146 | The number of whole pages |
| `Memories.Memory.SizeInBytes` | crates/core/src/memory/mod.rs:149-158 | Pages times page size does not overflow and is the byte length |
| `Memories.Memory.MaxSizeInBytes` | crates/core/src/memory/mod.rs:162-172 | The maximum in bytes, for every type but the one that overflows |
| `Memories.Memory.DynamicTy` | crates/core/src/memory/mod.rs:129-141 | The builder accepts the dynamic type of every reachable memory, which is the declared type with the present size as minimum |
| `Memories.Memory.Read` | crates/core/src/memory/mod.rs:283-305 | Copies out exactly the addressed bytes if and only if they are in bounds |
| `Memories.Memory.Write` | crates/core/src/memory/mod.rs:283-320 | Succeeds exactly when the range is in bounds; then each byte inside is the buffer's and each byte outside the old one; an error changes nothing |
| `Memories.WriteThenRead` | crates/core/src/memory/mod.rs:296-320 | Reading the written range yields the buffer, reading a range apart from it what was there before |
| `MemoryTypes.BuildAcceptsExactlyTheBoundedTypes` | crates/core/src/memory/ty.rs:170-209 | The builder accepts exactly the supported page sizes with minimum <= maximum <= absolute maximum |
| `MemoryTypes.MaximumOverflowsExactly` | crates/core/src/memory/ty.rs:28-84 | The maximum in bytes overflows a `u64` for exactly one family of validated types |
| `MemoryTypes.SubtypingIsInclusion` | crates/core/src/memory/ty.rs:279-294 | Of types that agree in index type and page size, exactly those are subtypes all of whose admitted sizes the other admits |
| `MemoryTypes.SubtypingIsAPartialOrder` | crates/core/src/memory/ty.rs:279-294 | `is_subtype_of` on memory types is reflexive, antisymmetric and transitive |
| `TableTypes.SubtypingIsInclusion` | crates/core/src/table/ty.rs:124-139 | The same for tables that agree in index and element type |
| `TableTypes.ConstructorAcceptsExactly` | crates/core/src/table/ty.rs:56-73 | The assertions of the constructor hold exactly for minimum <= maximum <= 2^32 or 2^64 |
| `TableTypes.SubtypingIsAPartialOrder` | crates/core/src/table/ty.rs:124-139 | `is_subtype_of` on table types is reflexive, antisymmetric and transitive |
| `ByteBuffers.ByteBuffer.New` | crates/core/src/memory/buffer.rs:76-96 | A heap buffer of zeros, or the out-of-memory error |
| `ByteBuffers.ByteBuffer.NewStatic` | crates/core/src/memory/buffer.rs:98-117 | A static buffer is zeroed where it becomes memory and kept behind, or left alone if it is too small |
| `ByteBuffers.ByteBuffer.Grow` | crates/core/src/memory/buffer.rs:124-157 | Growing appends zeros to the old bytes, stale bytes behind the length included, or changes nothing |
| `ByteBuffers.ByteBuffer.GrowVec` | crates/core/src/memory/buffer.rs:133-147 | The same for heap buffers, reallocated or not |
| `ByteBuffers.ByteBuffer.GrowStatic` | crates/core/src/memory/buffer.rs:149-157 | The same for static buffers, bounded by their room |
| `Fuels.CopyCostIsWholeUnits` | crates/core/src/fuel.rs:155-170 | The cost is the number of whole fuel units in the saturated byte count, and copying nothing is free |
| `Fuels.ChargingTakesWholeUnits` | crates/core/src/fuel.rs:324-333 | A metered counter pays exactly the whole units of the bytes or reports them as missing; any other pays nothing |
| `Fuels.FuelState.Pay` | crates/core/src/fuel.rs:291-297 | Paying succeeds exactly when metering is off or the fuel suffices, and takes exactly the cost |
| `Fuels.Fuel.ConsumeFuelUnchecked` | crates/core/src/fuel.rs:291-297 | Takes the amount, or reports it as missing and takes nothing |
| `Fuels.Fuel.ConsumeForCopyIf` | crates/core/src/fuel.rs:324-333 | The counter is charged exactly the cost, or not at all |
| `Fuels.Fuel.ConsumeForCopy` | crates/core/src/fuel.rs:307-316 | The same, reporting disabled metering as an error that charges nothing |
| `Fuels.Fuel.SetFuel` | crates/core/src/fuel.rs:260-264 | Sets the fuel if and only if metering is on |
| `Limiters.StoreLimits.Decide` | crates/wasmi/src/limits.rs:141-191 | Approves exactly what fits both the limit and the maximum, and otherwise traps if asked to and denies if not |
| `Limiters.Consult` | crates/core/src/limiter.rs:74-98 | A growing call is answered from the history and recorded; without a limiter everything is approved |
| `Limiters.Report` | crates/core/src/limiter.rs:99-118 | A failure report is answered from the history and recorded; without a limiter nothing traps |
| `Limiters.Limiter.AskGrowing` | crates/core/src/limiter.rs:74-98 | The answer depends on the calls before, and the call becomes one of them |
| `Limiters.Limiter.NotifyFailed` | crates/core/src/limiter.rs:99-118 | The same for a failure report |
| `Tables.GrowContract` | crates/core/src/table/mod.rs:134-194 | Growing a table succeeds exactly when index type, limiter, maximum, fuel and allocator allow it; then it appends copies of the initial reference and pays for four bytes each; a failure keeps the elements, and the fuel too unless the allocator refused |
| `Tables.GrowErrors` | crates/core/src/table/mod.rs:134-194 | The errors of a failed table growth, with and without a limiter, and what a limiter is told |
| `Tables.CreateContract` | crates/core/src/table/mod.rs:32-59 | Creation succeeds exactly when the element types match, the limiter approves and the allocator grants; then the table is its minimum of copies of the initial reference |
| `Tables.CreateErrors` | crates/core/src/table/mod.rs:32-59 | The errors of a failed creation, with and without a limiter; a type mismatch asks nobody |
| `Tables.Table.New` | crates/core/src/table/mod.rs:32-59 | Creation, with the element type check before the limiter is asked |
| `Tables.Table.GrowRaw` | crates/core/src/table/mod.rs:134-194 | The imperative `grow_raw` leaves result, elements, fuel and limiter exactly as the specification says |
| `Tables.Table.DynamicTy` | crates/core/src/table/mod.rs:72-79 | The dynamic type of a reachable table passes the constructor's assertions and has the present size as minimum |
| `Tables.Table.SetRaw` | crates/core/src/table/mod.rs:226-240 | Sets one element, or reports that it does not exist |
| `Tables.Table.FillRaw` | crates/core/src/table/mod.rs:417-440 | Bounds, then fuel, then the write, element by element; errors change neither elements nor fuel |
| `Tables.Table.Init` | crates/core/src/table/mod.rs:250-290 | The same for copying out of an element segment |
| `Tables.Table.Copy` | crates/core/src/table/mod.rs:301-337 | The same for copying from another table |
| `Tables.Table.CopyWithin` | crates/core/src/table/mod.rs:346-376 | The same within one table, as if the old contents were a second table; the one check on the larger offset is the two checks of the specification |
| `TableSemantics.CopyingUpwards` | crates/core/src/table/mod.rs:346-376 | One element at a time upwards is a splice of the old contents when the destination is not above the source |
| `TableSemantics.CopyingDownwards` | crates/core/src/table/mod.rs:346-376 | One element at a time downwards is one when it is above |
| `TableSemantics.CopyingBetweenTables` | crates/core/src/table/mod.rs:301-337 | Between two tables, either direction of the instruction is one splice |
| `TableSemantics.SplicingIsExecuting` | crates/core/src/table/mod.rs:250-440 | One splice equals the element-by-element execution, with the same traps |
| `TableSemantics.BulkOperationsRefineTheInstructions` | crates/core/src/table/mod.rs:250-440 | Each bulk operation traps exactly where the instruction does, runs out of fuel only where it does not and reports the missing units of four-byte references, computes the instruction's table, and is failure-atomic |
| `Stores.WritesTakeEffect` | crates/core/src/memory/mod.rs:312-320 | In a run, a write that fits overlays its bytes, a set element is set, metered fuel is what it is set to |
| `Stores.BulkTakesEffect` | crates/core/src/table/mod.rs:250-440 | In a run, a bulk operation that does not trap and is paid for executes its instruction |
| `Stores.GrowthTakesEffect` | crates/core/src/memory/mod.rs:182-258 | In a run, creating and growing leave what the object's own specification says |
| `CopySpans.OverlapTestIsExact` | crates/ir/src/span.rs:246-268 | The overlap test says no exactly when copying upwards slot by slot equals copying all at once for every content of the stack |
| `CopySpans.HasOverlappingCopies` | crates/ir/src/span.rs:246-268 | The implementation decides exactly that in both slot encodings, except for overlapping spans of 65535 slots whose results do not start at slot 0, which it takes not to overlap |
| `CopySpans.LongOverlapIsMissed` | crates/ir/src/span.rs:246-268 | Two spans on which it misses the overlap |
| `CopySpans.SameLengthIsSeenExactly` | crates/ir/src/span.rs:246-251 | When the assertion of equal lengths holds of two spans of one length |
| `CopySpans.ExecCopySpan` | crates/wasmi/src/engine/executor/handler/utils.rs:611-619 | Choosing the direction by the heads makes every copy simultaneous, overlapping or not |
| `CopySpans.ExecCopySpanAsc` | crates/wasmi/src/engine/executor/handler/utils.rs:621-633 | The upward loop is the simultaneous copy when the destination is lower |
| `CopySpans.ExecCopySpanDes` | crates/wasmi/src/engine/executor/handler/utils.rs:635-647 | The downward loop is the simultaneous copy when the destination is higher |
| `LenOrders.Cmp` | crates/collections/src/string_interner/detail.rs:190-212 | The short-string loop and the slice comparison compute one order, length first |
| `LenOrders.CompareIsATotalOrder` | crates/collections/src/string_interner/detail.rs:190-212 | That order is total, and only identical strings are equal in it |
| `LenOrders.OrderIsByLengthThenBytes` | crates/collections/src/string_interner/detail.rs:190-212 | Shorter strings come first; of one length the first differing byte decides |
| `Interners.Search` | crates/collections/src/string_interner/detail.rs:118-127 | Searching an ordered index with the comparison finds the key or the place it belongs to |
| `Interners.SearchDecidesMembership` | crates/collections/src/string_interner/detail.rs:118-127 | The search finds a string exactly when it is interned, and its symbol is the string's position |
| `Interners.InsertionKeepsOrderAndInverse` | crates/collections/src/string_interner/detail.rs:66-86 | Interning a new string keeps index and list ordered and inverse to each other |
| `Interners.IndexIsDetermined` | crates/collections/src/string_interner/detail.rs:19-26 | The strings have exactly one ordered index |
| `Interners.BothPaths` | crates/collections/src/string_interner/detail.rs:28-39 | Equal interners that follow different hints return the same symbol and stay equal, index included |
| `Interners.StringInterner.Get` | crates/collections/src/string_interner/detail.rs:118-127 | The symbol of an interned string, and only of one |
| `Interners.StringInterner.Resolve` | crates/collections/src/string_interner/detail.rs:129-131 | Succeeds exactly on the symbols in use, with the string whose symbol it is |
| `Interners.StringInterner.GetOrInternWithHint` | crates/collections/src/string_interner/detail.rs:28-39 | Every hint returns the same symbol and leaves the same strings and the only index of them |
| `Interners.StringInterner.HintNew` | crates/collections/src/string_interner/detail.rs:66-86 | The entry path interns exactly the missing strings |
| `Interners.StringInterner.HintExisting` | crates/collections/src/string_interner/detail.rs:88-99 | The lookup path does the same |
| `Interners.StringInterner.Intern` | crates/collections/src/string_interner/detail.rs:101-116 | The assertion that nothing was replaced never fires |
| `Linkers.PackingIsAnOrderedBijection` | crates/wasmi/src/linker.rs:123-142 | Import keys lose nothing and order by module, then name |
| `Linkers.InterningKeepsTheRepresentation` | crates/wasmi/src/linker.rs:552-560 | Interning more strings changes no lookup |
| `Linkers.InsertionKeepsTheRepresentation` | crates/wasmi/src/linker.rs:581-598 | Inserting under a packed key is inserting under its two strings |
| `Linkers.Linker.GetDefinition` | crates/wasmi/src/linker.rs:629-632 | Lookup returns exactly the map's entry |
| `Linkers.Linker.NewImportKey` | crates/wasmi/src/linker.rs:552-560 | The key packs the symbols of both strings, which are interned from then on |
| `Linkers.Linker.Insert` | crates/wasmi/src/linker.rs:581-598 | An occupied name is an error that names it unless shadowing is allowed; the panic for missing names is unreachable |
| `Linkers.Linker.Define` | crates/wasmi/src/linker.rs:271-287 | `define` is one step of the map specification |
| `Linkers.Linker.AllowShadowing` | crates/wasmi/src/linker.rs:547-549 | Sets the flag and nothing else |
| `Linkers.Linker.AliasModule` | crates/wasmi/src/linker.rs:603-620 | `alias_module` is one step of the map specification, partial failure included |
| `Linkers.Linker.Items` | crates/wasmi/src/linker.rs:603-615 | The collected items are exactly the module's definitions, in the order of the name symbols |
| `Linkers.Linker.InsertItems` | crates/wasmi/src/linker.rs:615-620 | The insertion loop stops at the first occupied name and keeps what it inserted before |
| `LinkerSpec.AliasContract` | crates/wasmi/src/linker.rs:603-620 | Aliasing succeeds exactly when shadowing is allowed or no name is in both modules; then the map is the old one overridden by all copies; otherwise the error is the common name with the least symbol and exactly the copies with smaller symbols are in place |
| `LinkerSpec.AliasingCanStopHalfway` | crates/wasmi/src/linker.rs:603-620 | A run of three definitions and an alias that fails and leaves one copy behind |
| `LinkerSpec.DefineContract` | crates/wasmi/src/linker.rs:271-287 | A failed definition changes no lookup, a successful one exactly one |
| `LinkerSpec.RunsOnlyExtend` | crates/wasmi/src/linker.rs:543-632 | Over every run symbols keep their meaning, strings stay distinct, definitions stay defined and every defined name resolves |
| `OperandSpec.LinksAreDetermined` | crates/wasmi/src/engine/translator/func/stack/operands.rs:37-58 | Linked stacks with the same operands are the same, links and heads included |
| `OperandLinks.PushingALocalKeepsLinks` | crates/wasmi/src/engine/translator/func/stack/operands.rs:477-499 | Pushing a local keeps every list linked |
| `OperandLinks.UnlinkingKeepsLinks` | crates/wasmi/src/engine/translator/func/stack/operands.rs:822-838 | Taking any local operand out of its list keeps every list linked |
| `OperandLinks.PushingAnotherKeepsLinks` | crates/wasmi/src/engine/translator/func/stack/operands.rs:506-541 | So does pushing an operand that is no local |
| `OperandLinks.DroppingTheTopKeepsLinks` | crates/wasmi/src/engine/translator/func/stack/operands.rs:567-580 | And dropping one |
| `OperandSpec.PushingALocal` | crates/wasmi/src/engine/translator/func/stack/operands.rs:477-499 | A push appends one operand in the next slots, changes nothing below and keeps counters, layout and links |
| `OperandSpec.PushingAnother` | crates/wasmi/src/engine/translator/func/stack/operands.rs:506-541 | Pushing a temporary or an immediate keeps the invariant |
| `OperandSpec.Popping` | crates/wasmi/src/engine/translator/func/stack/operands.rs:567-580 | A pop removes the top, changes nothing below and keeps counters, layout and links |
| `OperandSpec.PoppingUndoesPushing` | crates/wasmi/src/engine/translator/func/stack/operands.rs:477-580 | A pop after a push restores the stack to the last link; only the high-water mark may differ |
| `OperandSpec.PoppingUndoesPushingAnother` | crates/wasmi/src/engine/translator/func/stack/operands.rs:506-580 | A pop after pushing any other operand returns that operand and restores the stack, its register included |
| `OperandSpec.ListedDescends` | crates/wasmi/src/engine/translator/func/stack/operands.rs:939-983 | What the preserving operations hand out: every affected operand once, from the top down, with its slot, type and variable |
| `OperandSpec.LocalsCounts` | crates/wasmi/src/engine/translator/func/stack/operands.rs:129-132 | The counter of local operands is their number |
| `OperandSpec.DemotingOne` | crates/wasmi/src/engine/translator/func/stack/operands.rs:656-675 | Demoting one local operand keeps everything else and the invariant |
| `OperandSpec.FailedPushBreaksTheLinks` | crates/wasmi/src/engine/translator/func/stack/operands.rs:477-499 | A push without room always leaves a dangling head |
| `OperandSpec.FailedPushBreaksTheRegisters` | crates/wasmi/src/engine/translator/func/stack/operands.rs:506-520 | A push in a register without room always leaves the register dangling |
| `OperandSpec.PushingALocalKeepsRegisters` | crates/wasmi/src/engine/translator/func/stack/operands.rs:477-499 | Pushing a local keeps register links and flags in agreement |
| `OperandSpec.PushingAnotherKeepsRegisters` | crates/wasmi/src/engine/translator/func/stack/operands.rs:506-541 | So does pushing a temporary, in a register or not, or an immediate |
| `OperandSpec.DemotionKeepsRegisters` | crates/wasmi/src/engine/translator/func/stack/operands.rs:656-675 | And demoting any set of local operands |
| `OperandRegs.OverwritingExactly` | crates/wasmi/src/engine/translator/func/stack/operands.rs:296-324 | Linking a local to a register, or freeing it, keeps the agreement if and only if the register held no temporary |
| `OperandRegs.RegistersByType` | crates/wasmi/src/engine/translator/func/stack/operands.rs:169-176 | Integers and references share a register, each float type has its own, vectors have none |
| `OperandRelease.HolderCanBeTurned` | crates/wasmi/src/engine/translator/func/stack/operands.rs:333-350 | The temporary a register holds is on the stack and flagged: the unreachable branch is |
| `OperandRelease.ReleasingAll` | crates/wasmi/src/engine/translator/func/stack/operands.rs:733-772 | Freeing the registers one by one takes exactly the temporaries below the bound out of them and keeps the agreement |
| `OperandRelease.NothingLeftInRegisters` | crates/wasmi/src/engine/translator/func/stack/operands.rs:733-752 | Without a bound no register is linked and no temporary is flagged afterwards |
| `OperandSpec.SkippingIsExact` | crates/wasmi/src/engine/translator/func/stack/operands.rs:887-937 | Skipping local operands equals skipping operands if and only if the skipped operands are all locals or no local lies below them |
| `OperandSpec.PreservedLieBelowTheTop` | crates/wasmi/src/engine/translator/func/stack/operands.rs:887-937 | It never demotes more than skipping operands would |
| `OperandSpec.SkippingAnImmediateSparesTheLocal` | crates/wasmi/src/engine/translator/func/visit.rs:117-131 | The smallest list of operands on which the two differ |
| `OperandStacks.SkippingSparesTheLocalBelow` | crates/wasmi/src/engine/translator/func/stack/operands.rs:709-711 | A stack reached by four calls on which the local below the skipped operand stays a local |
| `OperandStacks.OperandStack.RegisterLocals` | crates/wasmi/src/engine/translator/func/stack/operands.rs:282-293 | Registers the variables and reserves their slots, or only the former when they do not fit |
| `OperandStacks.OperandStack.PushTempOffset` | crates/wasmi/src/engine/translator/func/stack/operands.rs:390-398 | Reserves slots below 2^16, or changes nothing |
| `OperandStacks.OperandStack.PushLocal` | crates/wasmi/src/engine/translator/func/stack/operands.rs:477-499 | The imperative push, with its register hint: valid on success, exactly the broken state on failure |
| `OperandStacks.OperandStack.PushTemp` | crates/wasmi/src/engine/translator/func/stack/operands.rs:506-520 | Pushes exactly the temporary, in a register or not; a failure is valid exactly if no register was asked for |
| `OperandStacks.OperandStack.PushImmediate` | crates/wasmi/src/engine/translator/func/stack/operands.rs:527-541 | Pushes exactly the immediate with its value in the next slots, two of them for a vector, or changes nothing |
| `OperandStacks.OperandStack.Pop` | crates/wasmi/src/engine/translator/func/stack/operands.rs:567-580 | The imperative pop keeps the invariant, frees the register of the top and says what was in one; its debug assertion holds |
| `OperandStacks.OperandStack.UnlinkLocal` | crates/wasmi/src/engine/translator/func/stack/operands.rs:822-838 | The two link updates and the head update of unlinking |
| `OperandStacks.OperandStack.PreserveLocalAt` | crates/wasmi/src/engine/translator/func/stack/operands.rs:656-675 | Demotes one operand, even while the head of its variable is cleared |
| `OperandStacks.OperandStack.OperandToTemp` | crates/wasmi/src/engine/translator/func/stack/operands.rs:625-654 | Turns exactly one operand into a temporary of the same slot and type, out of its list or register |
| `OperandStacks.OperandStack.PreserveLocals` | crates/wasmi/src/engine/translator/func/stack/operands.rs:690-698 | Demotes exactly the operands of the variable and hands them out from the top down with one register hint, although the head is cleared first |
| `OperandStacks.OperandStack.FindNextLocal` | crates/wasmi/src/engine/translator/func/stack/operands.rs:917-937 | The scan never runs off the bottom and stops at the next operand to demote, or when there is none |
| `OperandStacks.OperandStack.PreserveNext` | crates/wasmi/src/engine/translator/func/stack/operands.rs:941-957 | One step of the iterator hands out the next operand, with the hint of its type's register, and has demoted it |
| `OperandStacks.OperandStack.PreserveAllLocals` | crates/wasmi/src/engine/translator/func/stack/operands.rs:709-711 | Demotes exactly the local operands with at least `skip` local operands above them, and hands them out from the top down with their register hints |
| `OperandStacks.OperandStack.DeallocReg` | crates/wasmi/src/engine/translator/func/stack/operands.rs:333-350 | Frees the register and hands out the temporary it held, if any, as one that was in the register |
| `OperandStacks.OperandStack.RegisterLocalForReg` | crates/wasmi/src/engine/translator/func/stack/operands.rs:296-307 | Links the local; the stack stays valid if and only if the register held no temporary |
| `OperandStacks.OperandStack.DeallocLocalForReg` | crates/wasmi/src/engine/translator/func/stack/operands.rs:310-324 | Frees the register of the type if the variable is in any; valid if and only if it held no temporary |
| `OperandStacks.OperandStack.PreserveAllRegs` | crates/wasmi/src/engine/translator/func/stack/operands.rs:733-752 | Takes every temporary out of its register and returns the slots of those the registers held |
| `OperandStacks.OperandStack.PreserveAllTempRegs` | crates/wasmi/src/engine/translator/func/stack/operands.rs:759-772 | Takes exactly the temporaries below the topmost `skip` operands out of their registers and returns their slots |
| `OperandStacks.OperandStack.DiscardLocalRegs` | crates/wasmi/src/engine/translator/func/stack/operands.rs:723-725 | Forgets every local in a register and no temporary |
| `OperandStacks.FullStackBreaksTheLinks` | crates/wasmi/src/engine/translator/func/stack/operands.rs:477-499 | A stack on which `push_local` fails and breaks a list |
| `OperandStacks.FullStackBreaksTheRegisters` | crates/wasmi/src/engine/translator/func/stack/operands.rs:506-520 | A stack on which `push_temp` fails and leaves a register dangling |
| `Truncation.NoFloatInTheGap` | crates/core/src/value.rs:200-207 | No float of a given precision lies strictly between -2^k and the next literal below it |
| `Truncation.LowerGuardIsExact` | crates/core/src/value.rs:167-207 | Each lower literal cuts exactly where the truncated value leaves the integer type |
| `Truncation.TryTruncateIsExact` | crates/core/src/value.rs:167-207 | All eight trapping conversions succeed exactly when the truncated value fits, and return it |
| `Truncation.SaturatingAgreesWithTrapping` | crates/core/src/value.rs:167-207 | The saturating form agrees on success, gives the nearest bound on overflow and zero on NaN |
| `Truncation.LiteralsAreExact` | crates/core/src/value.rs:200-207 | All guard literals are values of their formats, so none is rounded |
| `Truncation.IntegerRanges` | crates/core/src/value.rs:167-207 | The integer bounds are those of the width, two's complement or unsigned |
| `Truncation.FormatsAreStandard` | crates/core/src/value.rs:167-207 | The formats are binary32 and binary64 |
| `Truncation.ValueDoubles` | crates/core/src/value.rs:167-207 | What a significand and an exponent mean |
| `WideArithmetic.SplitInvertsCombine` | crates/core/src/wasm.rs:494-505 | Splitting a combined value gives the halves back |
| `WideArithmetic.CombineInvertsSplit` | crates/core/src/wasm.rs:494-505 | Combining the halves of a value gives it back |
| `WideArithmetic.AdditionCarries` | crates/core/src/wasm.rs:514-519 | 128-bit addition is limb addition with carry |
| `WideArithmetic.SubtractionBorrows` | crates/core/src/wasm.rs:528-533 | 128-bit subtraction is limb subtraction with borrow |
| `WideArithmetic.SubtractionUndoesAddition` | crates/core/src/wasm.rs:514-533 | Subtraction undoes addition, wrapping included |
| `WideArithmetic.AdditionUndoesSubtraction` | crates/core/src/wasm.rs:514-533 | Addition undoes subtraction, wrapping included |
| `WideArithmetic.SignedProductIsExact` | crates/core/src/wasm.rs:542-547 | The signed wide product never wraps |
| `WideArithmetic.UnsignedProductIsExact` | crates/core/src/wasm.rs:556-561 | The unsigned wide product never wraps |
| `WideArithmetic.SignedAndUnsignedProductsAgree` | crates/core/src/wasm.rs:542-561 | The low halves agree, the high halves differ by the sign correction mod 2^64 |
| `MemoryAccess.LoadSucceedsExactly` | crates/core/src/memory/access.rs:158-195 | A load succeeds exactly when ptr + offset + width is within the memory, as integers |
| `MemoryAccess.LoadAfterStore` | crates/core/src/memory/access.rs:174-250 | A load after a store at the same address returns the stored value |
| `MemoryAccess.DisjointLoadAfterStore` | crates/core/src/memory/access.rs:174-250 | A disjoint load of any width sees no difference, traps included |
| `MemoryAccess.ExtendingLoadAfterWrappingStore` | crates/core/src/memory/access.rs:203-277 | A narrow store then an extending load is the extension of the low bits |
| `MemoryAccess.ExtensionKeepsTheValue` | crates/core/src/memory/access.rs:34-70 | Sign extension keeps the signed number, zero extension the unsigned one |
| `MemoryAccess.SignedValueIs` | crates/core/src/memory/access.rs:34-70 | The signed value of a pattern is the one number in the signed range congruent to it |
| `MemoryAccess.SignExtensionFills` | crates/core/src/memory/access.rs:34-70 | A signed extension fills with ones exactly if the top bit is set |
| `MemoryAccess.LoadingMinusOne` | crates/core/src/memory/access.rs:203-225 | Loading the byte 255 as 32 bits gives -1 if signed and 255 if not |
| `MemoryAccess.ByteWeights` | crates/core/src/memory/access.rs:121-151 | Little-endian: byte i has weight 256^i |
| `MemoryAccess.BytesOfValue` | crates/core/src/memory/access.rs:121-151 | Decoding the little-endian bytes of a value gives the value |
| `MemoryAccess.ValueOfBytes` | crates/core/src/memory/access.rs:121-151 | Encoding the value of bytes gives the bytes |
| `MemoryAccess.Store` | crates/core/src/memory/access.rs:229-250 | A store writes exactly its bytes, or traps and writes nothing |
| `MemoryAccess.StoreAt` | crates/core/src/memory/access.rs:107-118 | The same at a plain address |
| `Simd.FusedLoadIsExtendedLoad` | crates/core/src/simd.rs:1823-1837 | Each load-and-widen is the matching `extend_low` of `load64_zero`, with the same traps |
| `Simd.WideningIsExtendingLow` | crates/core/src/simd.rs:1776-1790 | `widen_nxm` is `extend_low` of any vector with those low 64 bits |
| `Simd.LanesInvert` | crates/core/src/simd.rs:205-225 | Viewing a vector in lanes of any width and back is the identity |
| `Simd.LanesOfBytes` | crates/core/src/simd.rs:205-225 | Laying out lanes and viewing them again is the identity on values that fit |
| `Simd.LaneIsItsBytes` | crates/core/src/simd.rs:205-225 | Lane i is the little-endian value of its bytes |
| `Simd.ReplacingALane` | crates/core/src/simd.rs:1656-1686 | Replacing a lane sets that lane and no other |
| `Simd.LoadLaneSetsOneLane` | crates/core/src/simd.rs:1656-1686 | A lane load traps exactly out of bounds, sets its lane to the bytes in memory and keeps the others |
| `Simd.Load64ZeroIs` | crates/core/src/simd.rs:1572-1582 | `load64_zero` is the eight bytes in memory followed by zeros, or traps |
| `Simd.ExtendLowIs` | crates/core/src/simd.rs:1074-1080 | Lane i of `extend_low` is the extension of lane i of the narrow view |
| `Simd.LaneRoundTrip` | crates/core/src/simd.rs:1656-1686 | Loading back a stored lane restores the vector |
| `Simd.StoreLane` | crates/core/src/simd.rs:1426-1485 | Stores exactly one lane, or traps and writes nothing |
| `Slots.FormsAgreeInRange` | crates/ir/src/index.rs:118-208 | Both slot encodings simulate plain index arithmetic, order included, up to 65535, and lose nothing |
| `Slots.RawsAgree` | crates/ir/src/index.rs:118-208 | They do up to the end of any span that exists in the encoding, past 65535 too, except that the cast back truncates |
| `Slots.CellOfRaw` | crates/ir/src/index.rs:148-165 | In both encodings the cell of an index lies eight bytes per index from the start |
| `Slots.ReportedLenIsExact` | crates/ir/src/span.rs:229-231 | The reported length is the length if and only if the span ends within the `u16` indices or has 32768 slots |
| `Slots.LastSlotReportsTooMany` | crates/ir/src/span.rs:229-231 | The accepted byte-scaled span of slot 65535 reports 65535 slots |
| `Slots.FixedSpanAcceptsExactly` | crates/ir/src/span.rs:57-63 | Which spans each encoding accepts |
| `Slots.FormsDifferAtTheLastSlot` | crates/ir/src/span.rs:57-63 | The encodings disagree on the span of the last slot |
| `Slots.ContainsExactly` | crates/ir/src/span.rs:158-165 | `contains` is membership in the span, in both encodings and for all spans, except that a `slot16` span that wraps contains nothing |
| `Spans.SlotSpanIter.Next` | crates/ir/src/span.rs:274-281 | Yields the lowest remaining slot and keeps the rest |
| `Spans.SlotSpanIter.NextBack` | crates/ir/src/span.rs:285-291 | Yields the highest remaining slot and keeps the rest |
| `Spans.SlotSpanIter.Len` | crates/ir/src/span.rs:229-231 | The number of remaining slots, or 65536 less it if they lie on both sides of index 65536 |
| `Spans.SlotSpanIter.constructor` | crates/ir/src/span.rs:216-222 | An iterator over exactly the slots of the span, past 65535 too where the encoding has room |
| `Spans.EveryInterleavingYieldsEachSlotOnce` | crates/ir/src/span.rs:271-292 | Any mix of both ends yields each slot exactly once and ends |
| `Spans.Drive` | crates/ir/src/span.rs:271-292 | The iterator, driven by any mix of calls in either encoding, yields exactly those slots and is left with the rest |
| `FuncTypes.StructuralEqualityIsTypeEquality` | crates/core/src/func_type.rs:42-60 | Derived equality is equality of parameters and results, across inline and heap storage |
| `FuncTypes.TryNewSmall` | crates/core/src/func_type.rs:126-153 | The inline form is used exactly when the types fit, and holds them |
| `FuncTypes.New` | crates/core/src/func_type.rs:89-116 | Construction keeps both sequences, or reports the one that is too long |
| `FuncTypes.FuncType.LenResults` | crates/core/src/func_type.rs:199-211 | The number of results, without a failing conversion |
| `DedupArenas.KeysRoundTrip` | crates/collections/src/arena/mod.rs:39-95 | Keys and positions convert back and forth in all four key types |
| `DedupArenas.KeySpace` | crates/collections/src/arena/mod.rs:39-95 | How many positions each key type can number |
| `DedupArenas.AllocationKeepsTheIndex` | crates/collections/src/arena/dedup.rs:95-108 | The index stays the exact inverse of the items, the key leads to the item, old keys stay good and a failure changes nothing |
| `DedupArenas.AllocationContract` | crates/collections/src/arena/dedup.rs:95-108 | Allocation succeeds exactly for an item that is there or can be numbered and stored, and appends it if it is new |
| `DedupArenas.CollectingIsFoldingExactly` | crates/collections/src/arena/dedup.rs:133-149 | Building at once equals allocating one by one exactly when there are no duplicates |
| `DedupArenas.LastOneIsIndexed` | crates/collections/src/arena/dedup.rs:133-149 | Of equal items the last one is indexed |
| `DedupArenas.DuplicatesAreKept` | crates/collections/src/arena/dedup.rs:133-149 | Two equal items are kept when collected and merged when allocated |
| `DedupArenas.KeysInUse` | crates/collections/src/arena/dedup.rs:117-119 | A key is indexed exactly when its position holds an item |
| `DedupArenas.DedupArena.Alloc` | crates/collections/src/arena/dedup.rs:95-108 | The imperative `alloc` is the specified step |
| `DedupArenas.DedupArena.Get` | crates/collections/src/arena/dedup.rs:117-119 | Succeeds exactly on the keys of the index, with the item that has the key |

## Left out

- Memories.Memory.Grow: a growth of the type with maximum 2^48 default pages is excluded by a precondition, because the source panics there.
- Interners.StringInterner.GetOrInternWithHint: a 2^32 + 1st distinct string is excluded by a precondition, because the source panics there; the same holds for the linker operations that intern.
- ByteBuffers.ByteBuffer.Grow: raw pointers, capacities above the requested size and the drop of the buffer; the allocator may refuse any growth of a heap buffer, one within the capacity too.
- MemoryAccess.LoadSucceedsExactly: memories are shorter than 2^64 bytes, as every slice is.
- OperandStacks.OperandStack.PushTemp: a vector in a register and a register that is in use are excluded by a precondition, because the source panics on the former and asserts against the latter in debug builds.
- OperandStacks.OperandStack.PreserveAllTempRegs: skipping more operands than there are is excluded by a precondition, because the source underflows there.
- `OperandStack::get_registers` and `set_registers`: saving and restoring all registers around control frames; whether a restored state fits the operands depends on the frames, which are not modelled.
- OperandStacks.OperandStack.PreserveLocals: the iterators of the two preserving operations are modelled fully consumed, as the source requires of its callers.
- CopySpans.HasOverlappingCopies: spans that report different lengths are excluded by a precondition, because the source asserts against them.
- Spans.SlotSpanIter.constructor: `slot16` spans that wrap are excluded by a precondition, because the source asserts against them in debug builds.
- 32-bit targets, big-endian hosts and builds without `memory64`.
- The rest of the translator, the executor, instantiation, resumable calls and the IR encoding.
- The counts of instances, tables and memories in `StoreLimits`: plain comparisons outside the modelled calls.
- `Linker::instance` and `Linker::instantiate_and_start`: they only call the modelled operations in turn.
- The hash-based interner and the map and set wrappers: thin layers over other crates.
- Float arithmetic, NaN payloads, integer division and the remaining numeric instructions: single expressions or foreign code.
- `Arena::alloc_many`, `get_pair_mut`, double-ended arena iteration and mutable access to arena items.
- Globals, error display, trap codes and the C API, command line, WASI and fuzzing crates.
