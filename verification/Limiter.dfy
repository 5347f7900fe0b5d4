/** The two-phase resource limiter protocol (crates/core/src/limiter.rs) and its
    stock implementation `StoreLimits` (crates/wasmi/src/limits.rs). */
module Limiters {
  import opened Prelude
  import opened Errors

  datatype Kind = MemoryKind | TableKind

  /** One call of `memory_growing` or `table_growing`. */
  datatype Request = Request(kind: Kind, current: U64, desired: U64, maximum: Option<U64>)

  /** The answers `Ok(true)`, `Ok(false)` and `Err(_)` of a growing call. */
  datatype Decision = Allow | Deny | Trap

  /** The error handed to `memory_grow_failed` or `table_grow_failed`. */
  datatype Failure = MemoryFailure(memoryError: MemoryError) | TableFailure(tableError: TableError)
  {
    function Kind(): Kind {
      if MemoryFailure? then MemoryKind else TableKind
    }
  }

  /** What a limiter has seen and answered. */
  datatype Event =
    | Growing(request: Request, decision: Decision)
    | GrowFailed(failure: Failure, trap: bool)

  /** Any limiter: whatever state it hides, its answers are a function of the calls it got before. */
  datatype Policy = Policy(
    growing: (seq<Event>, Request) -> Decision,
    growFailed: (seq<Event>, Failure) -> bool)

  datatype LimiterState = LimiterState(policy: Policy, log: seq<Event>)
  {
    function Ask(request: Request): Decision {
      policy.growing(log, request)
    }

    function Asked(request: Request): LimiterState {
      this.(log := log + [Growing(request, Ask(request))])
    }

    function TrapsOn(failure: Failure): bool {
      policy.growFailed(log, failure)
    }

    function Told(failure: Failure): LimiterState {
      this.(log := log + [GrowFailed(failure, TrapsOn(failure))])
    }
  }

  class Limiter {
    const policy: Policy
    var log: seq<Event>

    function View(): LimiterState
      reads this
    {
      LimiterState(policy, log)
    }

    constructor (policy: Policy)
      ensures View() == LimiterState(policy, [])
    {
      this.policy := policy;
      this.log := [];
    }

    method AskGrowing(request: Request) returns (d: Decision)
      modifies this
      ensures d == old(View()).Ask(request)
      ensures View() == old(View()).Asked(request)
    {
      d := policy.growing(log, request);
      log := log + [Growing(request, d)];
    }

    method NotifyFailed(failure: Failure) returns (trap: bool)
      modifies this
      ensures trap == old(View()).TrapsOn(failure)
      ensures View() == old(View()).Told(failure)
    {
      trap := policy.growFailed(log, failure);
      log := log + [GrowFailed(failure, trap)];
    }
  }

  /** `ResourceLimiterRef` as a value. */
  function LimiterView(limiter: Limiter?): Option<LimiterState>
    reads limiter
  {
    if limiter == null then None else Some(limiter.View())
  }

  /** Asks for an approval; without a limiter everything is approved. */
  function Consulted(limiter: Option<LimiterState>, request: Request): (Decision, Option<LimiterState>) {
    match limiter
    case None => (Allow, None)
    case Some(l) => (l.Ask(request), Some(l.Asked(request)))
  }

  method Consult(limiter: Limiter?, request: Request) returns (d: Decision)
    modifies limiter
    ensures (d, LimiterView(limiter)) == Consulted(old(LimiterView(limiter)), request)
    ensures limiter == null ==> d == Allow
    ensures limiter != null ==>
              && d == limiter.policy.growing(old(limiter.log), request)
              && limiter.log == old(limiter.log) + [Growing(request, d)]
  {
    if limiter == null {
      return Allow;
    }
    d := limiter.AskGrowing(request);
  }

  /** Reports that an approved growth failed; the limiter may ask for a trap. */
  function Reported(limiter: Option<LimiterState>, failure: Failure): (bool, Option<LimiterState>) {
    match limiter
    case None => (false, None)
    case Some(l) => (l.TrapsOn(failure), Some(l.Told(failure)))
  }

  method Report(limiter: Limiter?, failure: Failure) returns (trap: bool)
    modifies limiter
    ensures (trap, LimiterView(limiter)) == Reported(old(LimiterView(limiter)), failure)
    ensures limiter == null ==> !trap
    ensures limiter != null ==>
              && trap == limiter.policy.growFailed(old(limiter.log), failure)
              && limiter.log == old(limiter.log) + [GrowFailed(failure, trap)]
  {
    if limiter == null {
      return false;
    }
    trap := limiter.NotifyFailed(failure);
  }

  /** The limiter answered `d` to the request, and that is all it was asked and told. */
  ghost predicate Answered(limiter: LimiterState, after: Option<LimiterState>, q: Request, d: Decision) {
    && limiter.policy.growing(limiter.log, q) == d
    && after == Some(LimiterState(limiter.policy, limiter.log + [Growing(q, d)]))
  }

  /** The limiter approved the request, was told once of the failure, and answered that with `trap`. */
  ghost predicate ToldOnce(limiter: LimiterState, after: Option<LimiterState>, q: Request, f: Failure, trap: bool) {
    var asked := limiter.log + [Growing(q, Allow)];
    && limiter.policy.growing(limiter.log, q) == Allow
    && limiter.policy.growFailed(asked, f) == trap
    && after == Some(LimiterState(limiter.policy, asked + [GrowFailed(f, trap)]))
  }

  /** The two limits and the flag that `StoreLimits` decides with. */
  datatype StoreLimits = StoreLimits(
    memorySize: Option<U64>,
    tableElements: Option<U64>,
    trapOnGrowFailure: bool)
  {
    function LimitOf(kind: Kind): Option<U64> {
      if kind.MemoryKind? then memorySize else tableElements
    }

    function Decide(request: Request): (d: Decision)
      ensures d.Allow? <==>
              && (request.kind == MemoryKind && memorySize.Some? ==> request.desired <= memorySize.value)
              && (request.kind == TableKind && tableElements.Some? ==> request.desired <= tableElements.value)
              && (request.maximum.Some? ==> request.desired <= request.maximum.value)
      ensures !d.Allow? ==> d == if trapOnGrowFailure then Trap else Deny
    {
      var allow :=
        match LimitOf(request.kind)
        case Some(limit) =>
          if request.desired > limit then false
          else request.maximum.None? || request.desired <= request.maximum.value
        case None => request.maximum.None? || request.desired <= request.maximum.value;
      if allow then Allow else if trapOnGrowFailure then Trap else Deny
    }

    function AsPolicy(): Policy {
      Policy((log, request) => Decide(request), (log, failure) => trapOnGrowFailure)
    }
  }
}
