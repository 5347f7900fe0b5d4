/** Fuel metering (crates/core/src/fuel.rs). */
module Fuels {
  import opened Prelude

  /** The value of a fuel counter: what is left, whether it is metered at all,
      and how many bytes one unit pays for (a `NonZeroU64`). */
  datatype FuelState = FuelState(remaining: U64, enabled: bool, bytesPerFuel: U64)
  {
    predicate Valid() {
      bytesPerFuel > 0
    }

    /** The cost of copying `len` values of `size` bytes each: the byte count saturates. */
    function CopyCost(len: U64, size: nat): U64
      requires Valid()
    {
      var bytes := Min(len * size, TWO_64 - 1);
      DivisionBounds(bytes, bytesPerFuel);
      bytes / bytesPerFuel
    }

    /** What paying `cost` leaves, or `None` when there is not enough. */
    function Pay(cost: U64): (r: Option<FuelState>)
      ensures r.Some? <==> !enabled || cost <= remaining
      ensures r.Some? ==> r.value.remaining + (if enabled then cost else 0) == remaining
      ensures r.Some? ==> r.value.enabled == enabled && r.value.bytesPerFuel == bytesPerFuel
    {
      if !enabled then Some(this)
      else if cost <= remaining then Some(this.(remaining := remaining - cost))
      else None
    }
  }

  lemma DivisionBounds(bytes: nat, unit: nat)
    requires unit > 0
    ensures 0 <= bytes / unit <= bytes
    ensures bytes / unit * unit <= bytes < (bytes / unit + 1) * unit
  {
    var q, r := bytes / unit, bytes % unit;
    assert bytes == q * unit + r;
    assert (q + 1) * unit == q * unit + unit;
    if q > bytes {
      assert q * unit >= q by { MulAtLeast(q, unit); }
    }
  }

  /** The cost is the number of whole fuel units in the bytes; copying nothing is free. */
  lemma CopyCostIsWholeUnits(f: FuelState, len: U64, size: nat)
    requires f.Valid()
    ensures var cost, unit := f.CopyCost(len, size), f.bytesPerFuel;
            cost * unit <= Min(len * size, TWO_64 - 1) < (cost + 1) * unit
    ensures len == 0 ==> f.CopyCost(len, size) == 0
  {
    DivisionBounds(Min(len * size, TWO_64 - 1), f.bytesPerFuel);
  }

  lemma MulAtLeast(q: nat, unit: nat)
    requires unit > 0
    ensures q * unit >= q
  {
    assert q * unit == q * (unit - 1) + q;
  }

  datatype FuelError = FuelMeteringDisabled | OutOfFuel(requiredFuel: U64)

  class Fuel {
    var remaining: U64
    const enabled: bool
    const bytesPerFuel: U64

    ghost predicate Valid()
      reads this
    {
      View().Valid()
    }

    function View(): FuelState
      reads this
    {
      FuelState(remaining, enabled, bytesPerFuel)
    }

    constructor (enabled: bool, bytesPerFuel: U64)
      requires bytesPerFuel > 0
      ensures Valid() && View() == FuelState(0, enabled, bytesPerFuel)
    {
      this.remaining := 0;
      this.enabled := enabled;
      this.bytesPerFuel := bytesPerFuel;
    }

    method SetFuel(fuel: U64) returns (r: Result<Unit, FuelError>)
      modifies this
      ensures r.Ok? <==> enabled
      ensures View() == old(View()).(remaining := if enabled then fuel else old(remaining))
    {
      if !enabled {
        return Err(FuelMeteringDisabled);
      }
      remaining := fuel;
      return Ok(Unit);
    }

    method ConsumeFuelUnchecked(delta: U64) returns (r: Result<U64, FuelError>)
      modifies this
      ensures r == if delta <= old(remaining) then Ok(remaining) else Err(OutOfFuel(delta))
      ensures remaining == if r.Ok? then old(remaining) - delta else old(remaining)
    {
      if remaining < delta {
        return Err(OutOfFuel(delta));
      }
      remaining := remaining - delta;
      return Ok(remaining);
    }

    /** Pays for copying `len` values of `size` bytes; an unmetered counter pays nothing. */
    method ConsumeForCopyIf(len: U64, size: nat) returns (r: Result<Unit, FuelError>)
      requires Valid()
      modifies this
      ensures Valid()
      ensures var cost := old(View()).CopyCost(len, size);
              match old(View()).Pay(cost)
              case Some(left) => r == Ok(Unit) && View() == left
              case None => r == Err(OutOfFuel(cost)) && View() == old(View())
    {
      if !enabled {
        return Ok(Unit);
      }
      var paid := ConsumeFuelUnchecked(View().CopyCost(len, size));
      if paid.Err? {
        return Err(paid.error);
      }
      return Ok(Unit);
    }

    /** As `ConsumeForCopyIf`, except that an unmetered counter is reported. */
    method ConsumeForCopy(len: U64, size: nat) returns (r: Result<U64, FuelError>)
      requires Valid()
      modifies this
      ensures Valid()
      ensures var cost := old(View()).CopyCost(len, size);
              match old(View()).Pay(cost)
              case Some(left) =>
                View() == left && r == if enabled then Ok(left.remaining) else Err(FuelMeteringDisabled)
              case None => r == Err(OutOfFuel(cost)) && View() == old(View())
    {
      if !enabled {
        return Err(FuelMeteringDisabled);
      }
      r := ConsumeFuelUnchecked(View().CopyCost(len, size));
    }
  }

  /** `Option<&mut Fuel>` as a value. */
  function FuelView(fuel: Fuel?): Option<FuelState>
    reads fuel
  {
    if fuel == null then None else Some(fuel.View())
  }

  /** Paying for a copy where there is a counter to pay with; the error is the missing amount. */
  function Charged(fuel: Option<FuelState>, len: U64, size: nat): Result<Option<FuelState>, U64>
    requires fuel.Some? ==> fuel.value.Valid()
  {
    match fuel
    case None => Ok(None)
    case Some(f) =>
      match f.Pay(f.CopyCost(len, size))
      case Some(left) => Ok(Some(left))
      case None => Err(f.CopyCost(len, size))
  }

  /** Without a metered counter nothing is charged; with one, the whole units of the bytes, or nothing
      when they are not there. */
  lemma ChargingTakesWholeUnits(fuel: Option<FuelState>, len: U64, size: nat)
    requires fuel.Some? ==> fuel.value.Valid()
    ensures fuel.None? || !fuel.value.enabled ==> Charged(fuel, len, size) == Ok(fuel)
    ensures fuel.Some? && fuel.value.enabled ==>
              var cost: int := Min(len * size, TWO_64 - 1) / fuel.value.bytesPerFuel;
              match Charged(fuel, len, size)
              case Ok(left) =>
                && left.Some? && left.value.remaining + cost == fuel.value.remaining
                && left.value == fuel.value.(remaining := left.value.remaining)
              case Err(missing) => missing == cost && fuel.value.remaining < cost
  {
  }

  method Charge(fuel: Fuel?, len: U64, size: nat) returns (r: Result<Unit, U64>)
    requires fuel != null ==> fuel.Valid()
    modifies fuel
    ensures match Charged(old(FuelView(fuel)), len, size)
            case Ok(left) => r.Ok? && FuelView(fuel) == left
            case Err(cost) => r == Err(cost) && FuelView(fuel) == old(FuelView(fuel))
  {
    if fuel != null {
      var paid := fuel.ConsumeForCopyIf(len, size);
      if paid.Err? {
        return Err(paid.error.requiredFuel);
      }
    }
    return Ok(Unit);
  }
}
