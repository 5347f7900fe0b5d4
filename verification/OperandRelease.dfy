/** Freeing the registers of the operand stack
    (crates/wasmi/src/engine/translator/func/stack/operands.rs, `preserve_all_regs`, `preserve_all_temp_regs`). */
module OperandRelease {
  import opened Prelude
  import opened OperandLinks
  import opened OperandRegs
  import opened OperandSpec

  /** The temporary a register holds is on the stack, in that register, and can be taken out of it. */
  lemma HolderCanBeTurned(s: StackState, b: Bank)
    requires s.Valid() && s.regs.Of(b).Some? && s.regs.Of(b).value.TempLink?
    ensures var p := s.regs.Of(b).value.pos;
            && p < |s.operands| && InRegister(s.operands[p], b)
            && Turned(s, p).Valid()
            && Turned(s, p).regs == s.regs.With(b, None)
            && Turned(s, p) == Turned(s.(regs := s.regs.With(b, None)), p)
  {
    var p := s.regs.Of(b).value.pos;
    assert InRegister(s.operands[p], b);
    TurningAnother(s, p);
    var free := s.regs.With(b, None);
    assert free.With(b, None) == free;
  }

  /** The temporary in register `b` that lies below `bound`. */
  ghost function Holder(s: StackState, b: Bank, bound: nat): Option<nat> {
    match s.regs.Of(b)
    case Some(TempLink(p)) => if p < bound && p < |s.operands| then Some(p) else None
    case _ => None
  }

  /** Register `b` freed of a temporary below `bound`, and of a local if `locals`. */
  ghost function Released(s: StackState, b: Bank, bound: nat, locals: bool): StackState
    requires s.Valid()
  {
    if Holder(s, b, bound).Some? then
      HolderCanBeTurned(s, b);
      Turned(s, Holder(s, b, bound).value)
    else if locals && s.regs.Of(b).Some? && s.regs.Of(b).value.LocalLink? then s.(regs := s.regs.With(b, None))
    else s
  }

  const AllBanks: set<Bank> := {IReg, FReg32, FReg64}

  /** `now` is `was` with the temporaries below `bound` taken out of the registers `banks`. */
  ghost predicate TakenOut(now: Operands, was: Operands, banks: set<Bank>, bound: nat) {
    |now| == |was| && forall i :: 0 <= i < |was| ==> now[i] == OperandTakenOut(was[i], i, banks, bound)
  }

  ghost function OperandTakenOut(op: StackOperand, i: nat, banks: set<Bank>, bound: nat): StackOperand {
    if InAnyRegister(op) && BankOf(op.ty).Some? && BankOf(op.ty).value in banks && i < bound then op.(inReg := false)
    else op
  }

  /** The registers `banks` are freed of temporaries below `bound`, and of locals if `locals`; the others are not. */
  ghost predicate Freed(now: Registers, was: Registers, banks: set<Bank>, bound: nat, locals: bool) {
    forall b: Bank :: now.Of(b) == if b in banks then LinkFreed(was.Of(b), bound, locals) else was.Of(b)
  }

  function LinkFreed(link: Option<RegisterLink>, bound: nat, locals: bool): Option<RegisterLink> {
    match link
    case Some(TempLink(p)) => if p < bound then None else link
    case Some(LocalLink(_)) => if locals then None else link
    case None => None
  }

  lemma ReleasingOne(s: StackState, b: Bank, bound: nat, locals: bool)
    requires s.Valid()
    ensures var s' := Released(s, b, bound, locals);
            && s'.Valid() && SameFrame(s'.(regs := s.regs), s)
            && Freed(s'.regs, s.regs, {b}, bound, locals) && TakenOut(s'.operands, s.operands, {b}, bound)
  {
    if Holder(s, b, bound).Some? {
      HolderCanBeTurned(s, b);
      TakingOutOne(s.operands, s.regs, b, bound);
    } else {
      NothingToRelease(s, b, bound, locals);
    }
  }

  lemma NothingToRelease(s: StackState, b: Bank, bound: nat, locals: bool)
    requires s.Valid() && Holder(s, b, bound).None?
    ensures var s' := Released(s, b, bound, locals);
            && s'.Valid() && s'.operands == s.operands && SameFrame(s'.(regs := s.regs), s)
            && Freed(s'.regs, s.regs, {b}, bound, locals) && TakenOut(s.operands, s.operands, {b}, bound)
  {
    NothingToTakeOut(s.operands, s.regs, b, bound);
    if s.regs.Of(b).Some? && s.regs.Of(b).value.LocalLink? {
      OverwritingExactly(s.operands, s.regs, b, None);
    }
  }

  lemma TakingOutOne(ops: Operands, regs: Registers, b: Bank, bound: nat)
    requires Registered(ops, regs) && regs.Of(b).Some? && regs.Of(b).value.TempLink?
    requires regs.Of(b).value.pos < bound
    ensures var p := regs.Of(b).value.pos;
            p < |ops| && TakenOut(ops[p := Temp(ops[p].slot, ops[p].ty, false)], ops, {b}, bound)
  {
    var p := regs.Of(b).value.pos;
    assert InRegister(ops[p], b);
  }

  lemma NothingToTakeOut(ops: Operands, regs: Registers, b: Bank, bound: nat)
    requires Registered(ops, regs)
    requires regs.Of(b).Some? && regs.Of(b).value.TempLink? ==> bound <= regs.Of(b).value.pos
    ensures TakenOut(ops, ops, {b}, bound)
  {
  }

  lemma ReleasingOneMore(now: Operands, mid: Operands, was: Operands, banks: set<Bank>, b: Bank, bound: nat)
    requires TakenOut(mid, was, banks, bound) && TakenOut(now, mid, {b}, bound)
    ensures TakenOut(now, was, banks + {b}, bound)
  {
    forall i | 0 <= i < |was|
      ensures now[i] == OperandTakenOut(was[i], i, banks + {b}, bound)
    {
      assert mid[i] == OperandTakenOut(was[i], i, banks, bound);
    }
  }

  lemma FreeingOneMore(
    now: Registers, mid: Registers, was: Registers, banks: set<Bank>, b: Bank, bound: nat, locals: bool)
    requires Freed(mid, was, banks, bound, locals) && Freed(now, mid, {b}, bound, locals) && b !in banks
    ensures Freed(now, was, banks + {b}, bound, locals)
  {
  }

  /** The three registers freed one after the other. */
  ghost function ReleasedAll(s: StackState, bound: nat, locals: bool): StackState
    requires s.Valid()
  {
    ReleasingOne(s, IReg, bound, locals);
    var s1 := Released(s, IReg, bound, locals);
    ReleasingOne(s1, FReg32, bound, locals);
    var s2 := Released(s1, FReg32, bound, locals);
    Released(s2, FReg64, bound, locals)
  }

  /** That takes exactly the temporaries below the bound out of their registers,
      and leaves links and flags in agreement. */
  lemma ReleasingAll(s: StackState, bound: nat, locals: bool)
    requires s.Valid()
    ensures var s' := ReleasedAll(s, bound, locals);
            && s'.Valid() && SameFrame(s'.(regs := s.regs), s)
            && Freed(s'.regs, s.regs, AllBanks, bound, locals) && TakenOut(s'.operands, s.operands, AllBanks, bound)
  {
    ReleasingOne(s, IReg, bound, locals);
    var s1 := Released(s, IReg, bound, locals);
    ReleasingOne(s1, FReg32, bound, locals);
    var s2 := Released(s1, FReg32, bound, locals);
    ReleasingOne(s2, FReg64, bound, locals);
    var s' := Released(s2, FReg64, bound, locals);
    assert AllBanks == {IReg} + {FReg32} + {FReg64};
    ReleasingOneMore(s2.operands, s1.operands, s.operands, {IReg}, FReg32, bound);
    ReleasingOneMore(s'.operands, s2.operands, s.operands, {IReg} + {FReg32}, FReg64, bound);
    FreeingOneMore(s2.regs, s1.regs, s.regs, {IReg}, FReg32, bound, locals);
    FreeingOneMore(s'.regs, s2.regs, s.regs, {IReg} + {FReg32}, FReg64, bound, locals);
  }

  /** With no bound nothing is left in a register. */
  lemma NothingLeftInRegisters(s: StackState)
    requires s.Valid()
    ensures var s' := ReleasedAll(s, |s.operands|, true);
            s'.regs == NoRegisters && forall i :: 0 <= i < |s'.operands| ==> !InAnyRegister(s'.operands[i])
  {
    ReleasingAll(s, |s.operands|, true);
    var s' := ReleasedAll(s, |s.operands|, true);
    forall b: Bank
      ensures s'.regs.Of(b) == None
    {
    }
    assert s'.regs.Of(IReg) == None && s'.regs.Of(FReg32) == None && s'.regs.Of(FReg64) == None;
  }

  /** The slot of the temporary in register `b` that lies below `bound`. */
  ghost function SlotOf(s: StackState, b: Bank, bound: nat): Option<nat> {
    if Holder(s, b, bound).Some? then Some(s.operands[Holder(s, b, bound).value].slot) else None
  }

  /** The slot of the temporary that a register link leads to. */
  function HeldSlot(ops: Operands, link: Option<RegisterLink>): Option<nat> {
    match link
    case Some(TempLink(p)) => if p < |ops| then Some(ops[p].slot) else None
    case _ => None
  }

  /** The slots a caller has to copy to, one for each register. */
  ghost predicate Slots(
    ireg: Option<nat>, freg32: Option<nat>, freg64: Option<nat>, s: StackState, bound: nat)
  {
    ireg == SlotOf(s, IReg, bound) && freg32 == SlotOf(s, FReg32, bound) && freg64 == SlotOf(s, FReg64, bound)
  }

  /** Freeing one register does not change what the others hold or where. */
  lemma SlotsDoNotMove(s: StackState, bound: nat, locals: bool)
    requires s.Valid()
    ensures Released(s, IReg, bound, locals).Valid()
    ensures var s1 := Released(s, IReg, bound, locals);
            && SlotOf(s1, FReg32, bound) == SlotOf(s, FReg32, bound)
            && Released(s1, FReg32, bound, locals).Valid()
            && SlotOf(Released(s1, FReg32, bound, locals), FReg64, bound) == SlotOf(s, FReg64, bound)
  {
    ReleasingOne(s, IReg, bound, locals);
    var s1 := Released(s, IReg, bound, locals);
    ReleasingOne(s1, FReg32, bound, locals);
    SameSlot(s1, s, IReg, FReg32, bound, locals);
    SameSlot(s1, s, IReg, FReg64, bound, locals);
    SameSlot(Released(s1, FReg32, bound, locals), s1, FReg32, FReg64, bound, locals);
  }

  lemma SameSlot(now: StackState, was: StackState, freed: Bank, b: Bank, bound: nat, locals: bool)
    requires Freed(now.regs, was.regs, {freed}, bound, locals) && b != freed
    requires TakenOut(now.operands, was.operands, {freed}, bound)
    ensures SlotOf(now, b, bound) == SlotOf(was, b, bound)
  {
    assert now.regs.Of(b) == was.regs.Of(b);
  }

  lemma ForgettingLocals(ops: Operands, was: Registers, now: Registers)
    requires Registered(ops, was) && forall b: Bank :: now.Of(b) == LinkFreed(was.Of(b), 0, true)
    ensures Registered(ops, now)
  {
  }
}
