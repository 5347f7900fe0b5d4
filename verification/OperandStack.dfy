/** The operand stack as the translator keeps it
    (crates/wasmi/src/engine/translator/func/stack/operands.rs, locals.rs). */
module OperandStacks {
  import opened Prelude
  import opened FuncTypes
  import opened OperandLinks
  import opened OperandRegs
  import opened OperandSpec
  import opened OperandRelease

  /** A temporary as its users see it. */
  datatype TempOperand = TempOperand(slot: nat, ty: ValType, pos: nat, inReg: bool)

  class OperandStack {
    var operands: Operands
    var heads: seq<Option<nat>>
    var lenLocals: nat
    var localSlots: U16
    var tempOffset: U16
    var maxOffset: U16
    var regs: Registers

    ghost function View(): StackState
      reads this
    {
      StackState(operands, heads, lenLocals, localSlots, tempOffset, maxOffset, regs)
    }

    constructor ()
      ensures View() == StackState([], [], 0, 0, 0, 0, NoRegisters) && View().Valid()
    {
      operands, heads, lenLocals, localSlots, tempOffset, maxOffset := [], [], 0, 0, 0, 0;
      regs := NoRegisters;
    }

    /** `register_locals`, before any operand is pushed. The variables exist from then on
        even when there is no room for their slots. */
    method RegisterLocals(amount: nat, ty: ValType) returns (r: Result<Unit, TranslationError>)
      requires View().Valid() && operands == [] && localSlots == maxOffset
      modifies this
      ensures View().Valid() && operands == [] && localSlots == maxOffset
      ensures heads == old(heads) + seq(amount, _ => None)
      ensures r.Ok? <==> old(localSlots) + amount * (if ty.V128? then 2 else 1) < TWO_16
      ensures r.Err? ==> r.error == if amount >= TWO_16 then TooManyLocalVariables else AllocatedTooManySlots
      ensures localSlots == old(localSlots) + if r.Ok? then amount * (if ty.V128? then 2 else 1) else 0
      ensures regs == old(regs)
    {
      heads := heads + seq(amount, _ => None);
      if amount >= TWO_16 {
        return Err(TooManyLocalVariables);
      }
      var cells := amount * Cells(ty);
      if cells >= TWO_16 || localSlots + cells >= TWO_16 {
        return Err(AllocatedTooManySlots);
      }
      localSlots := localSlots + cells;
      tempOffset := localSlots;
      maxOffset := if maxOffset >= tempOffset then maxOffset else tempOffset;
      r := Ok(Unit);
    }

    /** `push_temp_offset`. */
    method PushTempOffset(delta: nat) returns (r: Result<nat, TranslationError>)
      modifies this`tempOffset, this`maxOffset
      ensures r == if old(tempOffset) + delta < TWO_16 then Ok(old(tempOffset)) else Err(AllocatedTooManySlots)
      ensures r.Ok? ==> tempOffset == old(tempOffset) + delta
      ensures r.Ok? ==> maxOffset == if old(maxOffset) >= tempOffset then old(maxOffset) else tempOffset
      ensures r.Err? ==> tempOffset == old(tempOffset) && maxOffset == old(maxOffset)
    {
      if tempOffset + delta >= TWO_16 {
        return Err(AllocatedTooManySlots);
      }
      r := Ok(tempOffset);
      tempOffset := tempOffset + delta;
      maxOffset := if maxOffset >= tempOffset then maxOffset else tempOffset;
    }

    /** A failing push leaves the head of the variable, and the operand it headed, pointing past the stack. */
    method PushLocal(v: nat, ty: ValType) returns (r: Result<LocalOperand, TranslationError>)
      requires View().Valid() && v < |heads|
      modifies this
      ensures r == if old(View()).HasRoom(ty)
                   then Ok(LocalOperand(LocalRef(old(tempOffset), ty, v), old(regs).Holds(ty, v)))
                   else Err(AllocatedTooManySlots)
      ensures r.Ok? ==> View() == PushedLocal(old(View()), v, ty) && View().Valid()
      ensures r.Ok? ==> SameOperands(old(operands) + [Local(old(tempOffset), ty, v, None, None)], operands)
      ensures r.Ok? <==> old(tempOffset) + (if ty.V128? then 2 else 1) < 0x1_0000
      ensures r.Ok? ==> tempOffset == old(tempOffset) + (if ty.V128? then 2 else 1) && regs == old(regs)
      ensures r.Err? ==> View() == LinkedOnly(old(View()), v) && !Linked(operands, heads)
    {
      ghost var before := View();
      HeadIsLocal(before, v);
      r := LinkAndPush(v, ty);
      if r.Ok? {
        PushingALocal(before, v, ty);
        PushingALocalKeepsRegisters(before, v, ty);
      } else {
        FailedPushBreaksTheLinks(before, v);
      }
    }

    /** The steps of `push_local`. */
    method LinkAndPush(v: nat, ty: ValType) returns (r: Result<LocalOperand, TranslationError>)
      requires HeadInside(View(), v)
      modifies this
      ensures r == if old(View()).HasRoom(ty)
                   then Ok(LocalOperand(LocalRef(old(tempOffset), ty, v), old(regs).Holds(ty, v)))
                   else Err(AllocatedTooManySlots)
      ensures View() == if r.Ok? then PushedLocal(old(View()), v, ty) else LinkedOnly(old(View()), v)
    {
      var next := heads[v];
      heads := heads[v := Some(|operands|)];
      operands := SetPrev(operands, next, Some(|operands|));
      var slot := PushTempOffset(Cells(ty));
      if slot.Err? {
        return Err(slot.error);
      }
      operands := operands + [Local(slot.value, ty, v, None, next)];
      lenLocals := lenLocals + 1;
      r := Ok(LocalOperand(LocalRef(slot.value, ty, v), regs.Holds(ty, v)));
    }

    /** Pushes a temporary, in a register if `inReg`; the register must exist and be free.
        A failing push leaves the register linked past the stack. */
    method PushTemp(ty: ValType, inReg: bool) returns (r: Result<nat, TranslationError>)
      requires View().Valid()
      requires inReg ==> BankOf(ty).Some? && regs.Of(BankOf(ty).value).None?
      modifies this
      ensures r == if old(View()).HasRoom(ty) then Ok(old(tempOffset)) else Err(AllocatedTooManySlots)
      ensures r.Ok? ==> View() == PushedOther(old(View()), Temp(old(tempOffset), ty, inReg)) && View().Valid()
      ensures r.Ok? ==> operands == old(operands) + [Temp(old(tempOffset), ty, inReg)] && heads == old(heads)
      ensures r.Ok? <==> old(tempOffset) + (if ty.V128? then 2 else 1) < 0x1_0000
      ensures r.Ok? ==> tempOffset == old(tempOffset) + (if ty.V128? then 2 else 1)
      ensures forall b: Bank :: regs.Of(b) ==
                if inReg && BankOf(ty) == Some(b) then Some(TempLink(|old(operands)|)) else old(regs).Of(b)
      ensures r.Err? ==> View() == old(View()).(regs := RegsAfterPush(old(View()), Temp(old(tempOffset), ty, inReg)))
      ensures r.Err? ==> (View().Valid() <==> !inReg)
    {
      ghost var before, op := View(), Temp(tempOffset, ty, inReg);
      if inReg {
        regs := regs.With(BankOf(ty).value, Some(TempLink(|operands|)));
      }
      r := PushTempOffset(Cells(ty));
      if r.Ok? {
        operands := operands + [Temp(r.value, ty, inReg)];
        PushingAnother(before, op);
        PushingAnotherKeepsRegisters(before, op);
      } else if inReg {
        FailedPushBreaksTheRegisters(before, op);
      }
    }

    method PushImmediate(ty: ValType, val: nat) returns (r: Result<nat, TranslationError>)
      requires View().Valid()
      modifies this
      ensures View().Valid()
      ensures r == if old(View()).HasRoom(ty) then Ok(old(tempOffset)) else Err(AllocatedTooManySlots)
      ensures r.Ok? ==> View() == PushedOther(old(View()), Immediate(old(tempOffset), ty, val))
      ensures r.Ok? ==> operands == old(operands) + [Immediate(old(tempOffset), ty, val)] && heads == old(heads)
      ensures r.Ok? <==> old(tempOffset) + (if ty.V128? then 2 else 1) < 0x1_0000
      ensures r.Ok? ==> tempOffset == old(tempOffset) + (if ty.V128? then 2 else 1) && regs == old(regs)
      ensures r.Err? ==> View() == old(View())
    {
      ghost var before := View();
      r := PushTempOffset(Cells(ty));
      if r.Ok? {
        operands := operands + [Immediate(r.value, ty, val)];
        PushingAnother(before, Immediate(r.value, ty, val));
        PushingAnotherKeepsRegisters(before, Immediate(r.value, ty, val));
      }
    }

    /** `unlink_local`. */
    method UnlinkLocal(v: nat, prev: Option<nat>, next: Option<nat>)
      requires v < |heads| && lenLocals > 0
      requires prev.Some? ==> prev.value < |operands| && operands[prev.value].Local?
      requires next.Some? ==> next.value < |operands| && operands[next.value].Local?
      modifies this`operands, this`heads, this`lenLocals
      ensures (operands, heads) == Unlinked(old(operands), old(heads), v, prev, next)
      ensures lenLocals == old(lenLocals) - 1
    {
      if prev.Some? {
        operands := SetNext(operands, prev, next);
      } else {
        heads := heads[v := next];
      }
      operands := SetPrev(operands, next, prev);
      lenLocals := lenLocals - 1;
    }

    /** Pops the top and says whether its value is in a register. The source panics on an empty stack;
        its assertion that the freed register belonged to the top holds. */
    method Pop() returns (op: StackOperand, inReg: bool)
      requires View().Valid() && operands != []
      modifies this
      ensures View().Valid() && View() == Popped(old(View())) && op == old(operands[|operands| - 1])
      ensures SameOperands(old(operands[..|operands| - 1]), operands) && |heads| == |old(heads)|
      ensures tempOffset == op.slot && maxOffset == old(maxOffset) && localSlots == old(localSlots)
      ensures forall b: Bank :: regs.Of(b) == if InRegister(op, b) then None else old(regs).Of(b)
      ensures inReg == match op
                       case Local(_, ty, v, _, _) => old(regs).Holds(ty, v)
                       case Temp(_, ty, _) =>
                         BankOf(ty).Some? && old(regs).Of(BankOf(ty).value) == Some(TempLink(|operands|))
                       case Immediate(_, _, _) => false
    {
      ghost var before := View();
      TopIsPoppable(before);
      op, inReg := DropTop();
      Popping(before);
      if op.Temp? {
        TopInRegister(before);
      }
    }

    /** The steps of `pop`. */
    method DropTop() returns (op: StackOperand, inReg: bool)
      requires Poppable(View())
      modifies this
      ensures View() == Popped(old(View())) && op == old(operands[|operands| - 1])
      ensures inReg == if op.Local? then old(regs).Holds(op.ty, op.local) else InAnyRegister(op)
    {
      var n := |operands| - 1;
      op := operands[n];
      operands := operands[..n];
      tempOffset := tempOffset - Cells(op.ty);
      if op.Local? {
        UnlinkLocal(op.local, op.prev, op.next);
      }
      regs := regs.Without(op);
      inReg := if op.Local? then regs.Holds(op.ty, op.local) else InAnyRegister(op);
    }

    /** `preserve_local_at`; the head of the variable need not be current when the operand is the topmost one. */
    method PreserveLocalAt(p: nat) returns (op: StackOperand)
      requires Demotable(View(), p)
      modifies this
      ensures op == old(operands[p]) && View() == DemotedAt(old(View()), p)
    {
      op := operands[p];
      UnlinkLocal(op.local, op.prev, op.next);
      operands := operands[p := Temp(op.slot, op.ty, false)];
    }

    /** `preserve_local_at` when every list is intact. */
    method PreserveValidLocalAt(p: nat) returns (op: StackOperand)
      requires View().Shaped() && p < |operands| && operands[p].Local?
      modifies this
      ensures View().Shaped() && SameFrame(View(), old(View()))
      ensures op == old(operands[p]) && Demoted(operands, old(operands), {p})
    {
      DemotingOne(View(), p);
      op := PreserveLocalAt(p);
    }

    /** The source panics when there are not that many operands. */
    method OperandToTemp(depth: nat) returns (op: StackOperand)
      requires View().Valid() && depth < |operands|
      modifies this
      ensures View().Valid() && SameFrame(View().(regs := old(regs)), old(View()))
      ensures op == old(operands[|operands| - 1 - depth])
      ensures TurnedAt(operands, old(operands), old(|operands| - 1 - depth))
      ensures InAnyRegister(op) ==> BankOf(op.ty).Some?
      ensures regs == old(regs).Without(op)
    {
      var p := |operands| - depth - 1;
      if operands[p].Local? {
        TurningALocal(View(), p);
      } else {
        TurningAnother(View(), p);
      }
      op := OperandToTempAt(p);
    }

    /** `operand_to_temp_at`: out of its list or its register. */
    method OperandToTempAt(p: nat) returns (op: StackOperand)
      requires p < |operands| && (operands[p].Local? ==> Demotable(View(), p))
      requires InAnyRegister(operands[p]) ==> BankOf(operands[p].ty).Some?
      modifies this
      ensures op == old(operands[p]) && View() == Turned(old(View()), p)
    {
      op := operands[p];
      if op.Local? {
        op := PreserveLocalAt(p);
      } else {
        regs := regs.Without(op);
        operands := operands[p := Temp(op.slot, op.ty, false)];
      }
    }

    /** `preserve_locals` and the iterator it returns, fully consumed: every operand of the variable
        becomes a temporary, and they are handed out from the top down. */
    method PreserveLocals(v: nat) returns (preserved: seq<LocalOperand>)
      requires View().Valid() && v < |heads|
      modifies this
      ensures View().Valid() && SameFrame(View(), old(View()))
      ensures var all := Occurrences(Vars(old(operands)), v, 0);
              && Demoted(operands, old(operands), all)
              && preserved == WithHint(Listed(old(operands), all, 0), regs.HoldsAnywhere(v))
    {
      ghost var was := View();
      preserved := SweepLocals(v);
      DemotionKeepsRegisters(operands, was.operands, Occurrences(Vars(was.operands), v, 0), regs);
    }

    method SweepLocals(v: nat) returns (preserved: seq<LocalOperand>)
      requires View().Shaped() && v < |heads|
      modifies this
      ensures View().Shaped() && SameFrame(View(), old(View()))
      ensures var all := Occurrences(Vars(old(operands)), v, 0);
              && Demoted(operands, old(operands), all)
              && preserved == WithHint(Listed(old(operands), all, 0), regs.HoldsAnywhere(v))
    {
      ghost var was := View();
      var pos := heads[v];
      heads := heads[v := None];
      var inReg := regs.HoldsAnywhere(v);
      preserved := [];
      SweepStarts(was, v);
      while pos.Some?
        invariant ValidButHead(View(), v, pos) && SameFrame(View(), was)
        invariant Sweeping(operands, was.operands, v, pos)
        invariant preserved == WithHint(Listed(was.operands, Occurrences(Vars(was.operands), v, 0), Floor(pos)), inReg)
        decreases Floor(pos)
      {
        ghost var now := operands;
        HeadIsOverwritten(View(), v, pos.value);
        var op := PreserveLocalAt(pos.value);
        SweepStep(operands, now, was.operands, v, pos.value, op.next);
        HintsAppend(Listed(was.operands, Occurrences(Vars(was.operands), v, 0), pos.value + 1),
                    LocalRef(op.slot, op.ty, op.local), regs, inReg);
        preserved := preserved + [LocalOperand(LocalRef(op.slot, op.ty, op.local), inReg)];
        pos := op.next;
      }
      assert heads[v := None] == heads;
    }

    /** `find_next_local`: the next local operand below `pos` once `toSkip` of them have been passed,
        looking no further than the `remaining` local operands. */
    method FindNextLocal(pos: nat, toSkip: nat, remaining: nat, ghost was: Operands, ghost skip: nat)
      returns (found: Option<nat>, left: nat)
      requires Scanning(operands, was, skip, pos, toSkip, remaining)
      ensures Awaiting(operands, was, skip, pos, found, left)
    {
      var at: nat, skipping: nat := pos, toSkip;
      left := remaining;
      while left != 0
        invariant at <= pos && Scanning(operands, was, skip, at, skipping, left)
        invariant Listed(was, Preserved(Vars(was), skip, 0), at) == Listed(was, Preserved(Vars(was), skip, 0), pos)
        decreases at
      {
        ScanReaches(operands, was, skip, at, skipping, left);
        at := at - 1;
        if operands[at].Local? && skipping == 0 {
          left := left - 1;
          return Some(at), left;
        }
        ScanPasses(operands, was, skip, at + 1, skipping, left);
        if operands[at].Local? {
          left, skipping := left - 1, skipping - 1;
        }
      }
      ScanEnds(operands, was, skip, at, skipping);
      found := None;
    }

    /** One step of the iterator of `preserve_all_locals`: demotes the next local operand and hands it out. */
    method PreserveNext(pos: nat, toSkip: nat, remaining: nat, ghost was: Operands, ghost skip: nat)
      returns (item: Option<LocalOperand>, at: nat, left: nat)
      requires View().Shaped() && Scanning(operands, was, skip, pos, toSkip, remaining)
      modifies this
      ensures View().Shaped() && SameFrame(View(), old(View()))
      ensures Stepped(operands, was, skip, pos, if item.Some? then Some(item.value.operand) else None, at, left)
      ensures item.Some? ==> item.value.inReg == regs.Holds(item.value.operand.ty, item.value.operand.local)
    {
      var found;
      found, left := FindNextLocal(pos, toSkip, remaining, was, skip);
      at := pos;
      if found.None? {
        return None, at, left;
      }
      at := found.value;
      ghost var now := operands;
      var op := PreserveValidLocalAt(at);
      ScanDemotes(operands, now, was, skip, at, left);
      item := Some(LocalOperand(LocalRef(op.slot, op.ty, op.local), regs.Holds(op.ty, op.local)));
    }

    /** `preserve_all_locals` and the iterator it returns, fully consumed. The scan goes down from the top,
        stops once it has seen every local operand and leaves the first `skip` of them alone. */
    method PreserveAllLocals(skip: nat) returns (preserved: seq<LocalOperand>)
      requires View().Valid()
      modifies this
      ensures View().Valid() && SameFrame(View(), old(View()))
      ensures var all := Preserved(Vars(old(operands)), skip, 0);
              && Demoted(operands, old(operands), all)
              && preserved == WithHints(Listed(old(operands), all, 0), regs)
    {
      ghost var was := operands;
      preserved := ScanLocals(skip);
      DemotionKeepsRegisters(operands, was, Preserved(Vars(was), skip, 0), regs);
    }

    method ScanLocals(skip: nat) returns (preserved: seq<LocalOperand>)
      requires View().Shaped()
      modifies this
      ensures View().Shaped() && SameFrame(View(), old(View()))
      ensures var all := Preserved(Vars(old(operands)), skip, 0);
              && Demoted(operands, old(operands), all)
              && preserved == WithHints(Listed(old(operands), all, 0), regs)
    {
      ghost var was := operands;
      preserved := [];
      ScanStarts(View(), skip);
      var item, pos, remaining := PreserveNext(|operands|, skip, lenLocals, was, skip);
      ghost var above: nat := |was|;
      while item.Some?
        invariant View().Shaped() && SameFrame(View(), old(View()))
        invariant Stepped(
          operands, was, skip, above, if item.Some? then Some(item.value.operand) else None, pos, remaining)
        invariant item.Some? ==> item.value.inReg == regs.Holds(item.value.operand.ty, item.value.operand.local)
        invariant preserved == WithHints(Listed(was, Preserved(Vars(was), skip, 0), above), regs)
        decreases above
      {
        HintsAppend(Listed(was, Preserved(Vars(was), skip, 0), above), item.value.operand, regs, false);
        preserved := preserved + [item.value];
        above := pos;
        item, pos, remaining := PreserveNext(pos, 0, remaining, was, skip);
      }
    }

    // ---------- registers ----------

    /** `dealloc_reg`: a temporary in the register is handed out for copying. That the link leads to a
        temporary is not luck: the branch the source calls unreachable is. There is no register for vectors. */
    method DeallocReg(ty: ValType) returns (r: Option<TempOperand>)
      requires View().Valid() && BankOf(ty).Some?
      modifies this
      ensures View().Valid()
      ensures var b := BankOf(ty).value;
              && View() == Released(old(View()), b, |operands|, true)
              && match Holder(old(View()), b, |operands|)
                 case Some(p) => r == Some(TempOperand(old(operands)[p].slot, old(operands)[p].ty, p, true))
                 case None => r == None
    {
      var b := BankOf(ty).value;
      ReleasingOne(View(), b, |operands|, true);
      var link := regs.Of(b);
      if link.Some? && link.value.TempLink? {
        HolderCanBeTurned(View(), b);
      }
      regs := regs.With(b, None);
      if link.None? || link.value.LocalLink? {
        return None;
      }
      var p := link.value.pos;
      var op := operands[p];
      operands := operands[p := op.(inReg := false)];
      r := Some(TempOperand(op.slot, op.ty, p, op.inReg));
    }

    /** `register_local_for_reg`: replaces whatever the register held, which is right exactly
        if that was no temporary. */
    method RegisterLocalForReg(ty: ValType, v: nat)
      requires View().Valid()
      modifies this
      ensures BankOf(ty).None? ==> View() == old(View())
      ensures BankOf(ty).Some? ==>
                && View() == old(View()).(regs := old(regs).With(BankOf(ty).value, Some(LocalLink(v))))
                && (View().Valid() <==> Holder(old(View()), BankOf(ty).value, |operands|).None?)
    {
      if ty.V128? {
        return;
      }
      OverwritingExactly(operands, regs, BankOf(ty).value, Some(LocalLink(v)));
      regs := regs.With(BankOf(ty).value, Some(LocalLink(v)));
    }

    /** `dealloc_local_for_reg`: frees the register of the type if the variable is in any register, which is
        right exactly if no temporary was held there. */
    method DeallocLocalForReg(ty: ValType, v: nat)
      requires View().Valid()
      modifies this
      ensures BankOf(ty).None? || !old(regs).HoldsAnywhere(v) ==> View() == old(View())
      ensures BankOf(ty).Some? && old(regs).HoldsAnywhere(v) ==>
                && View() == old(View()).(regs := old(regs).With(BankOf(ty).value, None))
                && (View().Valid() <==> Holder(old(View()), BankOf(ty).value, |operands|).None?)
    {
      if ty.V128? {
        return;
      }
      if regs.HoldsAnywhere(v) {
        OverwritingExactly(operands, regs, BankOf(ty).value, None);
        regs := regs.With(BankOf(ty).value, None);
      }
    }

    /** One register of `preserve_all_regs`: the slot of the temporary that has to be copied out. */
    method PreserveReg(b: Bank) returns (slot: Option<nat>)
      requires View().Valid()
      modifies this
      ensures View() == Released(old(View()), b, |old(operands)|, true)
      ensures View().Valid() && |operands| == |old(operands)|
      ensures slot == SlotOf(old(View()), b, |old(operands)|)
    {
      ReleasingOne(View(), b, |operands|, true);
      var link := regs.Of(b);
      if link.Some? && link.value.TempLink? {
        HolderCanBeTurned(View(), b);
      }
      regs := regs.With(b, None);
      if link.None? || link.value.LocalLink? {
        return None;
      }
      var op := OperandToTempAt(link.value.pos);
      slot := Some(op.slot);
    }

    /** `preserve_all_regs`: afterwards nothing is in a register, and the caller has the slots to copy to. */
    method PreserveAllRegs() returns (ireg: Option<nat>, freg32: Option<nat>, freg64: Option<nat>)
      requires View().Valid()
      modifies this
      ensures View().Valid() && View() == ReleasedAll(old(View()), |old(operands)|, true)
      ensures regs == NoRegisters && forall i :: 0 <= i < |operands| ==> !InAnyRegister(operands[i])
      ensures Slots(ireg, freg32, freg64, old(View()), |old(operands)|)
      ensures ireg == HeldSlot(old(operands), old(regs).ireg)
      ensures freg32 == HeldSlot(old(operands), old(regs).freg32)
      ensures freg64 == HeldSlot(old(operands), old(regs).freg64)
    {
      NothingLeftInRegisters(View());
      ireg, freg32, freg64 := PreserveEachReg();
    }

    method PreserveEachReg() returns (ireg: Option<nat>, freg32: Option<nat>, freg64: Option<nat>)
      requires View().Valid()
      modifies this
      ensures View().Valid() && View() == ReleasedAll(old(View()), |old(operands)|, true)
      ensures Slots(ireg, freg32, freg64, old(View()), |old(operands)|)
    {
      SlotsDoNotMove(View(), |operands|, true);
      ireg := PreserveReg(IReg);
      freg32 := PreserveReg(FReg32);
      freg64 := PreserveReg(FReg64);
    }

    /** One register of `preserve_all_temp_regs`. */
    method PreserveTempReg(b: Bank, bound: nat) returns (slot: Option<nat>)
      requires View().Valid() && bound <= |operands|
      modifies this
      ensures View() == Released(old(View()), b, bound, false) && View().Valid()
      ensures |operands| == |old(operands)|
      ensures slot == SlotOf(old(View()), b, bound)
    {
      ReleasingOne(View(), b, bound, false);
      var link := regs.Of(b);
      if link.None? || link.value.LocalLink? {
        return None;
      }
      HolderCanBeTurned(View(), b);
      if link.value.pos >= bound {
        return None;
      }
      regs := regs.With(b, None);
      var op := OperandToTempAt(link.value.pos);
      slot := Some(op.slot);
    }

    /** `preserve_all_temp_regs`: takes exactly the temporaries below the topmost `skip` operands out of
        their registers. The source underflows when there are fewer operands. */
    method PreserveAllTempRegs(skip: nat)
      returns (ireg: Option<nat>, freg32: Option<nat>, freg64: Option<nat>, ghost bound: nat)
      requires View().Valid() && skip <= |operands|
      modifies this
      ensures View().Valid() && bound + skip == old(|operands|)
      ensures View() == ReleasedAll(old(View()), bound, false) && Slots(ireg, freg32, freg64, old(View()), bound)
    {
      var threshold := |operands| - skip;
      bound := threshold;
      ireg, freg32, freg64 := PreserveEachTempReg(threshold);
    }

    method PreserveEachTempReg(bound: nat) returns (ireg: Option<nat>, freg32: Option<nat>, freg64: Option<nat>)
      requires View().Valid() && bound <= |operands|
      modifies this
      ensures View().Valid()
      ensures View() == ReleasedAll(old(View()), bound, false) && Slots(ireg, freg32, freg64, old(View()), bound)
    {
      SlotsDoNotMove(View(), bound, false);
      ireg := PreserveTempReg(IReg, bound);
      freg32 := PreserveTempReg(FReg32, bound);
      freg64 := PreserveTempReg(FReg64, bound);
    }

    /** `discard_local_regs`: forgets every variable that is in a register, and no temporary. */
    method DiscardLocalRegs()
      requires View().Valid()
      modifies this
      ensures View().Valid() && SameFrame(View().(regs := old(regs)), old(View())) && operands == old(operands)
      ensures forall b: Bank :: regs.Of(b) == LinkFreed(old(regs).Of(b), 0, true)
    {
      ghost var was := regs;
      regs := Registers(
        LinkFreed(regs.ireg, 0, true), LinkFreed(regs.freg32, 0, true), LinkFreed(regs.freg64, 0, true));
      ForgettingLocals(operands, was, regs);
    }
  }

  // ---------- a stack that the documented skipping would treat otherwise ----------

  /** A local and an immediate: skipping the one topmost operand was meant to demote the local below it. */
  method SkippingSparesTheLocalBelow() returns (s: OperandStack)
    ensures fresh(s) && s.View().Valid() && |s.operands| == 2
    ensures s.operands[0].Local? && s.operands[1].Immediate?
  {
    s := LocalBelowImmediate();
    ghost var before := s.operands;
    var preserved := s.PreserveAllLocals(1);
    SkippingAnImmediateSparesTheLocal();
    assert Vars(before) == [Some(0), None];
    assert SameOperand(before[0], s.operands[0]) && SameOperand(before[1], s.operands[1]);
  }

  method LocalBelowImmediate() returns (s: OperandStack)
    ensures fresh(s) && s.View().Valid() && |s.operands| == 2
    ensures s.operands[0].Local? && s.operands[0].local == 0 && s.operands[1].Immediate?
  {
    s := new OperandStack();
    var registered := s.RegisterLocals(1, I32);
    var local := s.PushLocal(0, I32);
    var immediate := s.PushImmediate(I32, 7);
  }

  // ---------- full stacks ----------

  /** With 65535 local slots there is no room for an operand: pushing the local fails and breaks its list. */
  method FullStackBreaksTheLinks() returns (s: OperandStack, r: Result<LocalOperand, TranslationError>)
    ensures fresh(s) && r == Err(AllocatedTooManySlots) && !Linked(s.operands, s.heads)
  {
    s := new OperandStack();
    var registered := s.RegisterLocals(65535, I32);
    r := s.PushLocal(0, I32);
  }

  /** And a temporary that was given a register leaves it linked to a position that does not exist. */
  method FullStackBreaksTheRegisters() returns (s: OperandStack, r: Result<nat, TranslationError>)
    ensures fresh(s) && r == Err(AllocatedTooManySlots) && s.operands == [] && s.regs.ireg == Some(TempLink(0))
  {
    s := new OperandStack();
    var registered := s.RegisterLocals(65535, I32);
    r := s.PushTemp(I32, true);
  }
}
