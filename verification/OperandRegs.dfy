/** The registers of the translator's operand stack
    (crates/wasmi/src/engine/translator/func/stack/operands.rs, `RegisterMap`): each register is free, holds
    the temporary at a stack position, or holds a local variable. */
module OperandRegs {
  import opened Prelude
  import opened FuncTypes
  import opened OperandLinks

  datatype Bank = IReg | FReg32 | FReg64

  /** Which register a type belongs to; vectors have none. */
  function BankOf(ty: ValType): Option<Bank> {
    match ty
    case I32 | I64 | FuncRef | ExternRef => Some(IReg)
    case F32 => Some(FReg32)
    case F64 => Some(FReg64)
    case V128 => None
  }

  datatype RegisterLink = TempLink(pos: nat) | LocalLink(local: nat)

  datatype Registers = Registers(ireg: Option<RegisterLink>, freg32: Option<RegisterLink>, freg64: Option<RegisterLink>)
  {
    function Of(b: Bank): Option<RegisterLink> {
      match b
      case IReg => ireg
      case FReg32 => freg32
      case FReg64 => freg64
    }

    function With(b: Bank, link: Option<RegisterLink>): (r: Registers)
      ensures forall c: Bank :: r.Of(c) == if c == b then link else Of(c)
    {
      match b
      case IReg => this.(ireg := link)
      case FReg32 => this.(freg32 := link)
      case FReg64 => this.(freg64 := link)
    }

    /** `is_local_in_reg` and `is_local_in_any_reg`. */
    predicate Holds(ty: ValType, v: nat) {
      BankOf(ty).Some? && Of(BankOf(ty).value) == Some(LocalLink(v))
    }

    predicate HoldsAnywhere(v: nat) {
      Holds(I64, v) || Holds(F32, v) || Holds(F64, v)
    }

    /** `try_unlink_reg`. The source does not support a vector in a register. */
    function Without(op: StackOperand): Registers
      requires op.Temp? && op.inReg ==> BankOf(op.ty).Some?
    {
      if op.Temp? && op.inReg then With(BankOf(op.ty).value, None) else this
    }
  }

  /** Integers and references share the general register, each float type has its own, vectors have none. */
  lemma RegistersByType(regs: Registers, ty: ValType)
    ensures BankOf(ty).None? <==> ty.V128?
    ensures BankOf(ty).Some? ==>
              regs.Of(BankOf(ty).value) == if ty.F32? then regs.freg32 else if ty.F64? then regs.freg64 else regs.ireg
  {
  }

  const NoRegisters: Registers := Registers(None, None, None)

  predicate InRegister(op: StackOperand, b: Bank) {
    op.Temp? && op.inReg && BankOf(op.ty) == Some(b)
  }

  predicate InAnyRegister(op: StackOperand) {
    op.Temp? && op.inReg
  }

  /** The flags of the temporaries and the links of the registers say the same. */
  ghost predicate Registered(ops: Operands, regs: Registers) {
    && (forall p :: 0 <= p < |ops| && InAnyRegister(ops[p]) ==>
          BankOf(ops[p].ty).Some? && regs.Of(BankOf(ops[p].ty).value) == Some(TempLink(p)))
    && (forall b: Bank :: regs.Of(b).Some? && regs.Of(b).value.TempLink? ==>
          regs.Of(b).value.pos < |ops| && InRegister(ops[regs.Of(b).value.pos], b))
  }

  /** Temporaries in registers are where they were. */
  ghost predicate SameInRegisters(a: Operands, b: Operands) {
    |a| == |b| && forall i :: 0 <= i < |a| ==>
      (InAnyRegister(a[i]) || InAnyRegister(b[i]) ==> a[i] == b[i])
  }

  lemma RegisteredSame(a: Operands, b: Operands, regs: Registers)
    requires Registered(a, regs) && SameInRegisters(a, b)
    ensures Registered(b, regs)
  {
    forall p | 0 <= p < |b| && InAnyRegister(b[p])
      ensures BankOf(b[p].ty).Some? && regs.Of(BankOf(b[p].ty).value) == Some(TempLink(p))
    {
      assert a[p] == b[p];
    }
  }

  lemma RegisteredPush(ops: Operands, regs: Registers, op: StackOperand)
    requires Registered(ops, regs) && !InAnyRegister(op)
    ensures Registered(ops + [op], regs)
  {
  }

  lemma RegisteredPushInRegister(ops: Operands, regs: Registers, op: StackOperand, b: Bank)
    requires Registered(ops, regs) && InRegister(op, b) && (regs.Of(b).Some? ==> regs.Of(b).value.LocalLink?)
    ensures Registered(ops + [op], regs.With(b, Some(TempLink(|ops|))))
  {
  }

  lemma RegisteredPop(ops: Operands, regs: Registers)
    requires Registered(ops, regs) && ops != []
    ensures var top := ops[|ops| - 1];
            (InAnyRegister(top) ==> BankOf(top.ty).Some?) && Registered(ops[..|ops| - 1], regs.Without(top))
  {
  }

  /** Taking a position out of its register, whatever it holds. */
  lemma RegisteredReplace(ops: Operands, regs: Registers, p: nat, op: StackOperand)
    requires Registered(ops, regs) && p < |ops| && !InAnyRegister(op)
    ensures (InAnyRegister(ops[p]) ==> BankOf(ops[p].ty).Some?) && Registered(ops[p := op], regs.Without(ops[p]))
  {
  }

  /** Linking a local, or freeing a register, keeps the flags right exactly if no temporary was held there. */
  lemma OverwritingExactly(ops: Operands, regs: Registers, b: Bank, link: Option<RegisterLink>)
    requires Registered(ops, regs) && (link.Some? ==> link.value.LocalLink?)
    ensures Registered(ops, regs.With(b, link)) <==> !(regs.Of(b).Some? && regs.Of(b).value.TempLink?)
  {
    var regs' := regs.With(b, link);
    if regs.Of(b).Some? && regs.Of(b).value.TempLink? {
      var p := regs.Of(b).value.pos;
      assert InAnyRegister(ops[p]) && regs'.Of(b) == link;
    }
  }
}
