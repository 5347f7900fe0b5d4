/** The operand stack of the translator
    (crates/wasmi/src/engine/translator/func/stack/operands.rs, locals.rs). */
module OperandSpec {
  import opened Prelude
  import opened FuncTypes
  import opened OperandLinks
  import opened OperandRegs

  datatype TranslationError = AllocatedTooManySlots | TooManyLocalVariables

  /** The number of stack cells a value needs. */
  function Cells(ty: ValType): nat {
    if ty.V128? then 2 else 1
  }

  /** The first slot above the operands. */
  function End(ops: Operands, base: nat): nat {
    if ops == [] then base else ops[|ops| - 1].slot + Cells(ops[|ops| - 1].ty)
  }

  /** Operands occupy consecutive slots above the locals. */
  ghost predicate LaidOut(ops: Operands, base: nat) {
    && (ops != [] ==> ops[0].slot == base)
    && forall p, q :: 0 <= p && q == p + 1 && q < |ops| ==> ops[q].slot == ops[p].slot + Cells(ops[p].ty)
  }

  /** How many of the first `n` operands refer to locals. */
  ghost function Locals(vars: seq<Option<nat>>, n: nat): (c: nat)
    requires n <= |vars|
    ensures c <= n
  {
    if n == 0 then 0 else Locals(vars, n - 1) + if vars[n - 1].Some? then 1 else 0
  }

  /** An operand without its links. */
  ghost predicate SameOperand(a: StackOperand, b: StackOperand) {
    match a
    case Local(slot, ty, local, _, _) => b.Local? && b.slot == slot && b.ty == ty && b.local == local
    case _ => a == b
  }

  ghost predicate SameOperands(a: Operands, b: Operands) {
    |a| == |b| && forall i :: 0 <= i < |a| ==> SameOperand(a[i], b[i])
  }

  /** `now` is `was` with the marked local operands turned into temporaries of the same slot and type. */
  ghost predicate Demoted(now: Operands, was: Operands, marked: set<nat>) {
    && |now| == |was|
    && forall i :: 0 <= i < |was| ==>
         if i in marked then was[i].Local? && now[i] == Temp(was[i].slot, was[i].ty, false)
         else SameOperand(was[i], now[i])
  }

  /** Layout depends on slots and types only, and is inherited by every prefix. */
  lemma LayoutOfSame(a: Operands, b: Operands, base: nat)
    requires LaidOut(a, base) && |b| <= |a|
    requires forall i :: 0 <= i < |b| ==> a[i].ty == b[i].ty && a[i].slot == b[i].slot
    ensures LaidOut(b, base) && (|a| == |b| ==> End(a, base) == End(b, base))
  {
  }

  lemma LayoutOfPush(ops: Operands, op: StackOperand, base: nat)
    requires LaidOut(ops, base) && op.slot == End(ops, base)
    ensures LaidOut(ops + [op], base) && End(ops + [op], base) == End(ops, base) + Cells(op.ty)
  {
  }

  lemma LayoutOfPop(ops: Operands, base: nat)
    requires LaidOut(ops, base) && ops != []
    ensures var rest := ops[..|ops| - 1];
            LaidOut(rest, base) && End(ops, base) == End(rest, base) + Cells(ops[|ops| - 1].ty)
  {
  }

  /** The counter counts. */
  lemma {:induction false} LocalsCounts(vars: seq<Option<nat>>, n: nat)
    requires n <= |vars|
    ensures Locals(vars, n) == |set i: nat | i < n && vars[i].Some?|
  {
    var positions := set i: nat | i < n && vars[i].Some?;
    if n > 0 {
      LocalsCounts(vars, n - 1);
      var below := set i: nat | i < n - 1 && vars[i].Some?;
      assert positions == below + if vars[n - 1].Some? then {n - 1} else {};
    }
  }

  lemma {:induction false} LocalsOfPrefix(a: seq<Option<nat>>, b: seq<Option<nat>>, n: nat)
    requires n <= |a| && n <= |b| && forall i :: 0 <= i < n ==> a[i].Some? == b[i].Some?
    ensures Locals(a, n) == Locals(b, n)
  {
    if n > 0 {
      LocalsOfPrefix(a, b, n - 1);
    }
  }

  lemma {:induction false} LocalsAfterUnlink(vars: seq<Option<nat>>, p: nat, n: nat)
    requires p < |vars| && n <= |vars| && vars[p].Some?
    ensures Locals(vars[p := None], n) == Locals(vars, n) - if p < n then 1 else 0
  {
    if n > 0 {
      LocalsAfterUnlink(vars, p, n - 1);
    }
  }

  /** A local operand without its links. */
  datatype LocalRef = LocalRef(slot: nat, ty: ValType, local: nat)

  /** What a caller learns about a local operand, with the hint that the variable is in a register. */
  datatype LocalOperand = LocalOperand(operand: LocalRef, inReg: bool)

  /** The hint that `preserve_all_locals` gives looks at the register of the operand's type. */
  ghost function WithHints(s: seq<LocalRef>, regs: Registers): (r: seq<LocalOperand>)
    ensures |r| == |s| && forall i :: 0 <= i < |s| ==> r[i] == LocalOperand(s[i], regs.Holds(s[i].ty, s[i].local))
  {
    seq(|s|, i requires 0 <= i < |s| => LocalOperand(s[i], regs.Holds(s[i].ty, s[i].local)))
  }

  /** The hint that `preserve_locals` gives is one for all operands of the variable. */
  ghost function WithHint(s: seq<LocalRef>, inReg: bool): (r: seq<LocalOperand>)
    ensures |r| == |s| && forall i :: 0 <= i < |s| ==> r[i] == LocalOperand(s[i], inReg)
  {
    seq(|s|, i requires 0 <= i < |s| => LocalOperand(s[i], inReg))
  }

  /** What is listed and in which order: every marked local operand from `lo` upwards once, from the top down. */
  lemma {:induction false} ListedDescends(ops: Operands, marked: set<nat>, lo: nat) returns (at: seq<nat>)
    requires lo <= |ops|
    ensures |at| == |Listed(ops, marked, lo)|
    ensures forall i, j :: 0 <= i < j < |at| ==> at[i] > at[j]
    ensures forall p :: p in at <==> lo <= p < |ops| && p in marked && ops[p].Local?
    ensures forall k :: 0 <= k < |at| ==>
              && at[k] < |ops| && ops[at[k]].Local?
              && Listed(ops, marked, lo)[k] == LocalRef(ops[at[k]].slot, ops[at[k]].ty, ops[at[k]].local)
    decreases |ops| - lo
  {
    if lo == |ops| {
      at := [];
    } else {
      var above := ListedDescends(ops, marked, lo + 1);
      assert forall k :: 0 <= k < |above| ==> above[k] in above;
      at := above + if lo in marked && ops[lo].Local? then [lo] else [];
    }
  }

  lemma HintsAppend(s: seq<LocalRef>, x: LocalRef, regs: Registers, inReg: bool)
    ensures WithHints(s + [x], regs) == WithHints(s, regs) + [LocalOperand(x, regs.Holds(x.ty, x.local))]
    ensures WithHint(s + [x], inReg) == WithHint(s, inReg) + [LocalOperand(x, inReg)]
  {
  }

  /** The marked local operands from `lo` upwards, listed from the top down. */
  ghost function Listed(ops: Operands, marked: set<nat>, lo: nat): seq<LocalRef>
    requires lo <= |ops|
    decreases |ops| - lo
  {
    if lo == |ops| then []
    else Listed(ops, marked, lo + 1)
         + if lo in marked && ops[lo].Local? then [LocalRef(ops[lo].slot, ops[lo].ty, ops[lo].local)] else []
  }

  lemma {:induction false} ListingSkips(ops: Operands, marked: set<nat>, lo: nat, hi: nat)
    requires lo <= hi <= |ops|
    requires forall i :: lo <= i < hi ==> i !in marked || !ops[i].Local?
    ensures Listed(ops, marked, lo) == Listed(ops, marked, hi)
    decreases hi - lo
  {
    if lo < hi {
      ListingSkips(ops, marked, lo + 1, hi);
    }
  }

  /** The value of an operand stack. */
  datatype StackState = StackState(
    operands: Operands,
    heads: seq<Option<nat>>,
    lenLocals: nat,
    localSlots: U16,
    tempOffset: U16,
    maxOffset: U16,
    regs: Registers)
  {
    ghost predicate Valid() {
      Shaped() && Registered(operands, regs)
    }

    ghost predicate Shaped() {
      Linked(operands, heads) && Sized()
    }

    /** The counters agree with the operands. */
    ghost predicate Sized() {
      && lenLocals == Locals(Vars(operands), |operands|)
      && LaidOut(operands, localSlots)
      && tempOffset == End(operands, localSlots)
      && tempOffset <= maxOffset
    }

    /** Room for one more operand of the type. */
    predicate HasRoom(ty: ValType) {
      tempOffset + Cells(ty) < TWO_16
    }

    /** Reserving the slots of one more operand. */
    function Advanced(ty: ValType): StackState
      requires HasRoom(ty)
    {
      var offset := tempOffset + Cells(ty);
      this.(tempOffset := offset, maxOffset := if maxOffset >= offset then maxOffset else offset)
    }
  }

  // ---------- pushing ----------

  ghost predicate HeadInside(s: StackState, v: nat) {
    v < |s.heads| && (s.heads[v].Some? ==> s.heads[v].value < |s.operands| && s.operands[s.heads[v].value].Local?)
  }

  lemma HeadIsLocal(s: StackState, v: nat)
    requires Linked(s.operands, s.heads) && v < |s.heads|
    ensures HeadInside(s, v)
  {
    assert Below(Vars(s.operands), |s.operands|, v, s.heads[v]);
  }

  ghost function PushedLocal(s: StackState, v: nat, ty: ValType): StackState
    requires HeadInside(s, v) && s.HasRoom(ty)
  {
    var (operands, heads) := WithLocal(s.operands, s.heads, v, s.tempOffset, ty);
    s.Advanced(ty).(operands := operands, heads := heads, lenLocals := s.lenLocals + 1)
  }

  /** The stack when `push_local` has linked the variable and then finds no room. */
  ghost function LinkedOnly(s: StackState, v: nat): StackState
    requires HeadInside(s, v)
  {
    s.(operands := SetPrev(s.operands, s.heads[v], Some(|s.operands|)), heads := s.heads[v := Some(|s.operands|)])
  }

  /** The registers after `alloc_reg`; the register must be free. */
  ghost function RegsAfterPush(s: StackState, op: StackOperand): Registers
    requires InAnyRegister(op) ==> BankOf(op.ty).Some?
  {
    if InAnyRegister(op) then s.regs.With(BankOf(op.ty).value, Some(TempLink(|s.operands|))) else s.regs
  }

  ghost function PushedOther(s: StackState, op: StackOperand): StackState
    requires s.HasRoom(op.ty) && (InAnyRegister(op) ==> BankOf(op.ty).Some?)
  {
    s.Advanced(op.ty).(operands := s.operands + [op], regs := RegsAfterPush(s, op))
  }

  /** To a reader of the stack, pushing a local appends it in the next slot and changes nothing below. */
  lemma PushingALocal(s: StackState, v: nat, ty: ValType)
    requires s.Shaped() && v < |s.heads| && s.HasRoom(ty)
    ensures HeadInside(s, v)
    ensures var s' := PushedLocal(s, v, ty);
            && s'.Shaped()
            && |s'.operands| == |s.operands| + 1
            && SameOperands(s.operands, s'.operands[..|s.operands|])
            && SameOperand(Local(s.tempOffset, ty, v, None, None), s'.operands[|s.operands|])
  {
    PushingALocalKeepsLinks(s.operands, s.heads, v, s.tempOffset, ty);
    PushingALocalKeepsSizes(s, v, ty);
    PushingALocalKeepsOperands(s, v, ty);
  }

  lemma PushingALocalKeepsSizes(s: StackState, v: nat, ty: ValType)
    requires s.Sized() && HeadInside(s, v) && s.HasRoom(ty)
    ensures PushedLocal(s, v, ty).Sized()
  {
    var below, top := SetPrev(s.operands, s.heads[v], Some(|s.operands|)), Local(s.tempOffset, ty, v, None, s.heads[v]);
    OnlyALinkChanges(s.operands, s.heads[v], Some(|s.operands|));
    LayoutOfLinkedPush(s.operands, below, top, s.localSlots);
    LocalsOfPush(s.operands, below, top);
  }

  lemma PushingALocalKeepsOperands(s: StackState, v: nat, ty: ValType)
    requires HeadInside(s, v) && s.HasRoom(ty)
    ensures SameOperands(s.operands, PushedLocal(s, v, ty).operands[..|s.operands|])
  {
    var below := SetPrev(s.operands, s.heads[v], Some(|s.operands|));
    OnlyALinkChanges(s.operands, s.heads[v], Some(|s.operands|));
    assert PushedLocal(s, v, ty).operands[..|s.operands|] == below;
  }

  lemma LayoutOfLinkedPush(ops: Operands, below: Operands, top: StackOperand, base: nat)
    requires LaidOut(ops, base) && SameOperands(ops, below) && top.slot == End(ops, base)
    ensures LaidOut(below + [top], base) && End(below + [top], base) == End(ops, base) + Cells(top.ty)
  {
    LayoutOfSame(ops, below, base);
    LayoutOfPush(below, top, base);
  }

  lemma OnlyALinkChanges(ops: Operands, at: Option<nat>, prev: Option<nat>)
    requires at.Some? ==> at.value < |ops| && ops[at.value].Local?
    ensures SameOperands(ops, SetPrev(ops, at, prev))
  {
  }

  lemma LocalsOfPush(ops: Operands, below: Operands, op: StackOperand)
    requires SameOperands(ops, below)
    ensures Locals(Vars(below + [op]), |below + [op]|) == Locals(Vars(ops), |ops|) + if op.Local? then 1 else 0
  {
    LocalsOfPrefix(Vars(ops), Vars(below + [op]), |ops|);
  }

  lemma PushingALocalKeepsRegisters(s: StackState, v: nat, ty: ValType)
    requires Registered(s.operands, s.regs) && HeadInside(s, v) && s.HasRoom(ty)
    ensures Registered(PushedLocal(s, v, ty).operands, s.regs)
  {
    var below := SetPrev(s.operands, s.heads[v], Some(|s.operands|));
    RegisteredSame(s.operands, below, s.regs);
    RegisteredPush(below, s.regs, Local(s.tempOffset, ty, v, None, s.heads[v]));
  }

  /** An operand whose register, if it wants one, exists and is free. */
  ghost predicate Allocatable(s: StackState, op: StackOperand) {
    InAnyRegister(op) ==> BankOf(op.ty).Some? && s.regs.Of(BankOf(op.ty).value).None?
  }

  lemma PushingAnotherKeepsRegisters(s: StackState, op: StackOperand)
    requires Registered(s.operands, s.regs) && Allocatable(s, op)
    ensures Registered(s.operands + [op], RegsAfterPush(s, op))
  {
    if InAnyRegister(op) {
      RegisteredPushInRegister(s.operands, s.regs, op, BankOf(op.ty).value);
    } else {
      RegisteredPush(s.operands, s.regs, op);
    }
  }

  /** A temporary that was given a register and then finds no room leaves the register linked past the stack. */
  lemma FailedPushBreaksTheRegisters(s: StackState, op: StackOperand)
    requires Registered(s.operands, s.regs) && InAnyRegister(op) && BankOf(op.ty).Some?
    ensures !Registered(s.operands, RegsAfterPush(s, op))
  {
    var b := BankOf(op.ty).value;
    assert RegsAfterPush(s, op).Of(b) == Some(TempLink(|s.operands|));
  }

  lemma PushingAnother(s: StackState, op: StackOperand)
    requires s.Shaped() && !op.Local? && op.slot == s.tempOffset && s.HasRoom(op.ty) && Allocatable(s, op)
    ensures PushedOther(s, op).Shaped()
  {
    PushingAnotherKeepsLinks(s.operands, s.heads, op);
    LayoutOfPush(s.operands, op, s.localSlots);
    LocalsOfPrefix(Vars(s.operands), Vars(s.operands + [op]), |s.operands|);
  }

  /** A push that finds no room has already moved the head of the variable past the stack. */
  lemma FailedPushBreaksTheLinks(s: StackState, v: nat)
    requires s.Shaped() && v < |s.heads|
    ensures HeadInside(s, v)
    ensures var s' := LinkedOnly(s, v); SameOperands(s.operands, s'.operands) && !Linked(s'.operands, s'.heads)
  {
    HeadIsLocal(s, v);
    var s' := LinkedOnly(s, v);
    assert !Below(Vars(s'.operands), |s'.operands|, v, s'.heads[v]);
  }

  // ---------- demoting and popping ----------

  ghost predicate Demotable(s: StackState, p: nat) {
    Unlinkable(s.operands, s.heads, p) && s.lenLocals > 0
  }

  /** The stack with the local operand at `p` unlinked and turned into a temporary. */
  ghost function DemotedAt(s: StackState, p: nat): StackState
    requires Demotable(s, p)
  {
    var (operands, heads) := Replaced(s.operands, s.heads, p, Temp(s.operands[p].slot, s.operands[p].ty, false));
    s.(operands := operands, heads := heads, lenLocals := s.lenLocals - 1)
  }

  lemma {:induction false} SomeLocal(vars: seq<Option<nat>>, p: nat, n: nat)
    requires p < n <= |vars| && vars[p].Some?
    ensures Locals(vars, n) > 0
    decreases n
  {
    if p < n - 1 {
      SomeLocal(vars, p, n - 1);
    }
  }

  /** Unlinking touches links only. */
  lemma UnlinkingShows(s: StackState, p: nat)
    requires Demotable(s, p)
    ensures Demoted(DemotedAt(s, p).operands, s.operands, {p}) && |DemotedAt(s, p).heads| == |s.heads|
  {
  }

  lemma DemotionKeepsLayout(now: Operands, was: Operands, marked: set<nat>, base: nat)
    requires Demoted(now, was, marked) && LaidOut(was, base)
    ensures LaidOut(now, base) && End(now, base) == End(was, base)
  {
    LayoutOfSame(was, now, base);
  }

  lemma DemotingOne(s: StackState, p: nat)
    requires s.Shaped() && p < |s.operands| && s.operands[p].Local?
    ensures Demotable(s, p)
    ensures var s' := DemotedAt(s, p);
            && s'.Shaped()
            && Demoted(s'.operands, s.operands, {p})
            && Vars(s'.operands) == Vars(s.operands)[p := None]
            && |s'.heads| == |s.heads|
  {
    SomeLocal(Vars(s.operands), p, |s.operands|);
    var temp := Temp(s.operands[p].slot, s.operands[p].ty, false);
    LocalsAreUnlinkable(s.operands, s.heads, p);
    UnlinkingKeepsLinks(s.operands, s.heads, p, temp);
    VarsAfterUnlink(s.operands, s.heads, p, temp);
    UnlinkingShows(s, p);
    var s' := DemotedAt(s, p);
    DemotionKeepsLayout(s'.operands, s.operands, {p}, s.localSlots);
    LocalsAfterUnlink(Vars(s.operands), p, |s.operands|);
  }

  lemma DemotionKeepsRegisters(now: Operands, was: Operands, marked: set<nat>, regs: Registers)
    requires Demoted(now, was, marked) && Registered(was, regs)
    ensures Registered(now, regs)
  {
    RegisteredSame(was, now, regs);
  }

  /** Demoting one more operand of an already demoted stack. */
  lemma DemotingAgain(now: Operands, mid: Operands, was: Operands, marked: set<nat>, p: nat)
    requires Demoted(mid, was, marked) && Demoted(now, mid, {p})
    requires p < |was| && p !in marked
    ensures Demoted(now, was, marked + {p})
  {
    assert p in {p};
    assert SameOperand(was[p], mid[p]);
    forall i | 0 <= i < |was|
      ensures if i in marked + {p} then was[i].Local? && now[i] == Temp(was[i].slot, was[i].ty, false)
              else SameOperand(was[i], now[i])
    {
      if i != p {
        assert SameOperand(mid[i], now[i]);
      }
    }
  }

  /** What popping relies on. */
  ghost predicate Poppable(s: StackState) {
    && s.operands != []
    && var n := |s.operands| - 1;
       && s.tempOffset >= Cells(s.operands[n].ty)
       && (s.operands[n].Local? ==> Demotable(s, n))
       && (InAnyRegister(s.operands[n]) ==> BankOf(s.operands[n].ty).Some?)
  }

  /** The stack without its top. */
  ghost function Popped(s: StackState): StackState
    requires Poppable(s)
  {
    var n := |s.operands| - 1;
    var top := s.operands[n];
    var s' := s.(operands := s.operands[..n], tempOffset := s.tempOffset - Cells(top.ty), regs := s.regs.Without(top));
    if !top.Local? then s'
    else
      var (operands, heads) := Unlinked(s'.operands, s.heads, top.local, top.prev, top.next);
      s'.(operands := operands, heads := heads, lenLocals := s.lenLocals - 1)
  }

  lemma TopIsPoppable(s: StackState)
    requires s.Valid() && s.operands != []
    ensures Poppable(s)
  {
    if s.operands[|s.operands| - 1].Local? {
      DemotingOne(s, |s.operands| - 1);
    }
  }

  /** Popping a local is demoting it and dropping the temporary. */
  lemma PoppingALocalIsDemotingIt(s: StackState)
    requires Poppable(s) && s.operands[|s.operands| - 1].Local?
    ensures Poppable(DemotedAt(s, |s.operands| - 1))
    ensures Popped(s) == Popped(DemotedAt(s, |s.operands| - 1))
  {
    var n := |s.operands| - 1;
    assert DemotedAt(s, n).operands[..n] == Popped(s).operands;
  }

  /** To a reader of the stack, popping removes the top operand and changes nothing below. */
  lemma Popping(s: StackState)
    requires s.Valid() && s.operands != []
    ensures Poppable(s)
    ensures var s' := Popped(s);
            s'.Valid() && SameOperands(s.operands[..|s.operands| - 1], s'.operands) && |s'.heads| == |s.heads|
  {
    TopIsPoppable(s);
    var n := |s.operands| - 1;
    if s.operands[n].Local? {
      DemotingOne(s, n);
      PoppingALocalIsDemotingIt(s);
      DroppingATemporary(DemotedAt(s, n));
    } else {
      DroppingATemporary(s);
    }
    PoppingKeepsRegisters(s);
  }

  /** The flag of the top and the register's link agree. */
  lemma TopInRegister(s: StackState)
    requires s.Valid() && s.operands != [] && s.operands[|s.operands| - 1].Temp?
    ensures var n, top := |s.operands| - 1, s.operands[|s.operands| - 1];
            top.inReg <==> BankOf(top.ty).Some? && s.regs.Of(BankOf(top.ty).value) == Some(TempLink(n))
  {
  }

  lemma PoppingKeepsRegisters(s: StackState)
    requires Poppable(s) && Registered(s.operands, s.regs)
    ensures Registered(Popped(s).operands, Popped(s).regs)
  {
    RegisteredPop(s.operands, s.regs);
    RegisteredSame(s.operands[..|s.operands| - 1], Popped(s).operands, Popped(s).regs);
  }

  lemma DroppingATemporary(s: StackState)
    requires s.Shaped() && Poppable(s) && !s.operands[|s.operands| - 1].Local?
    ensures Popped(s).Shaped()
  {
    DroppingTheTopKeepsLinks(s.operands, s.heads);
    LayoutOfPop(s.operands, s.localSlots);
    LocalsOfPrefix(Vars(s.operands), Vars(Popped(s).operands), |s.operands| - 1);
  }

  // ---------- the links carry no information of their own ----------

  lemma NearestBelowIsUnique(vars: seq<Option<nat>>, p: nat, v: nat, a: Option<nat>, b: Option<nat>)
    requires p <= |vars| && Below(vars, p, v, a) && Below(vars, p, v, b)
    ensures a == b
  {
    if a.Some? && b.Some? {
      assert !(a.value < b.value) && !(b.value < a.value);
    }
  }

  lemma NearestAboveIsUnique(vars: seq<Option<nat>>, p: nat, v: nat, a: Option<nat>, b: Option<nat>)
    requires Above(vars, p, v, a) && Above(vars, p, v, b)
    ensures a == b
  {
    if a.Some? && b.Some? {
      assert !(a.value < b.value) && !(b.value < a.value);
    }
  }

  /** Linked stacks that look the same are the same: every link and head follows from the operands. */
  lemma LinksAreDetermined(a: Operands, b: Operands, headsA: seq<Option<nat>>, headsB: seq<Option<nat>>)
    requires Linked(a, headsA) && Linked(b, headsB) && SameOperands(a, b) && |headsA| == |headsB|
    ensures a == b && headsA == headsB
  {
    assert Vars(a) == Vars(b);
    forall p | 0 <= p < |a|
      ensures a[p] == b[p]
    {
      assert LinkedAt(a[p], Vars(a), p) && LinkedAt(b[p], Vars(b), p);
      if a[p].Local? {
        NearestBelowIsUnique(Vars(a), p, a[p].local, a[p].next, b[p].next);
        NearestAboveIsUnique(Vars(a), p, a[p].local, a[p].prev, b[p].prev);
      }
    }
    forall v | 0 <= v < |headsA|
      ensures headsA[v] == headsB[v]
    {
      NearestBelowIsUnique(Vars(a), |a|, v, headsA[v], headsB[v]);
    }
  }

  /** Popping undoes pushing a local, links included; only the high-water mark may have moved. */
  lemma PoppingUndoesPushing(s: StackState, v: nat, ty: ValType)
    requires s.Valid() && v < |s.heads| && s.HasRoom(ty)
    ensures HeadInside(s, v) && Poppable(PushedLocal(s, v, ty))
    ensures Popped(PushedLocal(s, v, ty)) == s.(maxOffset := PushedLocal(s, v, ty).maxOffset)
  {
    PushingALocal(s, v, ty);
    PushingALocalKeepsRegisters(s, v, ty);
    var pushed := PushedLocal(s, v, ty);
    Popping(pushed);
    LinksAreDetermined(s.operands, Popped(pushed).operands, s.heads, Popped(pushed).heads);
  }

  /** Popping undoes pushing any other operand as well, out of its register too. */
  lemma PoppingUndoesPushingAnother(s: StackState, op: StackOperand)
    requires !op.Local? && s.HasRoom(op.ty) && Allocatable(s, op)
    ensures var pushed := PushedOther(s, op);
            && Poppable(pushed) && pushed.operands[|s.operands|] == op
            && Popped(pushed) == s.(maxOffset := pushed.maxOffset)
  {
    var pushed := PushedOther(s, op);
    assert pushed.operands[..|s.operands|] == s.operands;
    if InAnyRegister(op) {
      LinkingAndFreeing(s.regs, BankOf(op.ty).value, TempLink(|s.operands|));
    }
  }

  lemma LinkingAndFreeing(regs: Registers, b: Bank, link: RegisterLink)
    requires regs.Of(b).None?
    ensures regs.With(b, Some(link)).With(b, None) == regs
  {
  }

  // ---------- which operands are demoted ----------

  /** The positions of the variable from `lo` upwards. */
  ghost function Occurrences(vars: seq<Option<nat>>, v: nat, lo: nat): set<nat> {
    set i: nat | lo <= i < |vars| && vars[i] == Some(v)
  }

  /** How many local operands lie above position `i`. */
  ghost function LocalsAbove(vars: seq<Option<nat>>, i: nat): int
    requires i < |vars|
  {
    Locals(vars, |vars|) - Locals(vars, i + 1)
  }

  /** The local operands from `lo` upwards that have at least `skip` local operands above them. */
  ghost function Preserved(vars: seq<Option<nat>>, skip: nat, lo: nat): set<nat> {
    set i: nat | lo <= i < |vars| && vars[i].Some? && LocalsAbove(vars, i) >= skip
  }

  /** The local operands below the topmost `skip` operands. */
  ghost function BelowTheTop(vars: seq<Option<nat>>, skip: nat): set<nat> {
    set i: nat | i < |vars| && vars[i].Some? && i + skip < |vars|
  }

  lemma {:induction false} LocalsGrow(vars: seq<Option<nat>>, a: nat, b: nat)
    requires a <= b <= |vars|
    ensures Locals(vars, a) <= Locals(vars, b) <= Locals(vars, a) + (b - a)
    decreases b
  {
    if a < b {
      LocalsGrow(vars, a, b - 1);
    }
  }

  lemma {:induction false} NoLocalsBelow(vars: seq<Option<nat>>, n: nat, i: nat)
    requires i < n <= |vars| && Locals(vars, n) == 0
    ensures vars[i].None?
  {
    LocalsGrow(vars, i + 1, n);
  }

  /** The topmost local operand below `n`. */
  lemma {:induction false} TopmostLocal(vars: seq<Option<nat>>, n: nat) returns (i: nat)
    requires n <= |vars| && Locals(vars, n) > 0
    ensures i < n && vars[i].Some? && Locals(vars, i + 1) == Locals(vars, n)
  {
    if vars[n - 1].Some? {
      i := n - 1;
    } else {
      i := TopmostLocal(vars, n - 1);
    }
  }

  /** Counting skipped local operands never demotes more than counting skipped operands would. */
  lemma PreservedLieBelowTheTop(vars: seq<Option<nat>>, skip: nat)
    ensures Preserved(vars, skip, 0) <= BelowTheTop(vars, skip)
  {
    forall i | i in Preserved(vars, skip, 0)
      ensures i in BelowTheTop(vars, skip)
    {
      LocalsGrow(vars, i + 1, |vars|);
    }
  }

  /** The two ways of skipping agree exactly if the skipped operands are all locals
      or no local lies below them. */
  lemma SkippingIsExact(vars: seq<Option<nat>>, skip: nat)
    ensures var rest := if skip <= |vars| then |vars| - skip else 0;
            Preserved(vars, skip, 0) == BelowTheTop(vars, skip)
            <==> Locals(vars, rest) == 0 || Locals(vars, |vars|) - Locals(vars, rest) == skip
  {
    var rest := if skip <= |vars| then |vars| - skip else 0;
    LocalsGrow(vars, rest, |vars|);
    PreservedLieBelowTheTop(vars, skip);
    if Locals(vars, rest) == 0 {
      forall i | i in BelowTheTop(vars, skip)
        ensures false
      {
        NoLocalsBelow(vars, rest, i);
      }
    } else if Locals(vars, |vars|) - Locals(vars, rest) == skip {
      forall i | i in BelowTheTop(vars, skip)
        ensures i in Preserved(vars, skip, 0)
      {
        LocalsGrow(vars, i + 1, rest);
      }
    } else {
      var i := TopmostLocal(vars, rest);
      assert i in BelowTheTop(vars, skip) && i !in Preserved(vars, skip, 0);
    }
  }

  /** A local below an immediate survives a request to skip one operand. */
  lemma SkippingAnImmediateSparesTheLocal()
    ensures var vars := [Some(0), None];
            0 in BelowTheTop(vars, 1) && 0 !in Preserved(vars, 1, 0)
  {
    var vars: seq<Option<nat>> := [Some(0), None];
    assert Locals(vars, 1) == 1 && Locals(vars, 2) == 1;
    assert LocalsAbove(vars, 0) == 0;
  }

  // ---------- turning operands into temporaries ----------

  /** Demotion moves no slot and registers no local. */
  ghost predicate SameFrame(a: StackState, b: StackState) {
    && |a.heads| == |b.heads| && a.localSlots == b.localSlots
    && a.tempOffset == b.tempOffset && a.maxOffset == b.maxOffset && a.regs == b.regs
  }

  /** The operand at `p` is a temporary now, and the others are what they were. */
  ghost predicate TurnedAt(now: Operands, was: Operands, p: nat) {
    && |now| == |was| && p < |was| && now[p] == Temp(was[p].slot, was[p].ty, false)
    && forall i :: 0 <= i < |was| && i != p ==> SameOperand(was[i], now[i])
  }

  /** `operand_to_temp_at`: the operand at `p` leaves its list, or its register, and becomes a temporary. */
  ghost function Turned(s: StackState, p: nat): StackState
    requires p < |s.operands| && (s.operands[p].Local? ==> Demotable(s, p))
    requires InAnyRegister(s.operands[p]) ==> BankOf(s.operands[p].ty).Some?
  {
    if s.operands[p].Local? then DemotedAt(s, p)
    else s.(operands := s.operands[p := Temp(s.operands[p].slot, s.operands[p].ty, false)],
            regs := s.regs.Without(s.operands[p]))
  }

  lemma TurningALocal(s: StackState, p: nat)
    requires s.Valid() && p < |s.operands| && s.operands[p].Local?
    ensures Demotable(s, p)
    ensures var s' := DemotedAt(s, p);
            s'.Valid() && SameFrame(s', s) && TurnedAt(s'.operands, s.operands, p)
  {
    DemotingOne(s, p);
    assert p in {p};
    DemotionKeepsRegisters(DemotedAt(s, p).operands, s.operands, {p}, s.regs);
  }

  lemma TurningAnother(s: StackState, p: nat)
    requires s.Valid() && p < |s.operands| && !s.operands[p].Local?
    ensures InAnyRegister(s.operands[p]) ==> BankOf(s.operands[p].ty).Some?
    ensures var s' := Turned(s, p);
            s'.Valid() && SameFrame(s'.(regs := s.regs), s) && TurnedAt(s'.operands, s.operands, p)
  {
    var temp := Temp(s.operands[p].slot, s.operands[p].ty, false);
    ReplacingAnotherKeepsLinks(s.operands, s.heads, p, temp);
    LayoutOfSame(s.operands, s.operands[p := temp], s.localSlots);
    RegisteredReplace(s.operands, s.regs, p, temp);
  }

  // ---------- preserving one variable ----------

  function Floor(pos: Option<nat>): nat {
    if pos.Some? then pos.value + 1 else 0
  }

  /** Valid once the head of `v` is `pos`; the head may be missing until the first step. */
  ghost predicate ValidButHead(s: StackState, v: nat, pos: Option<nat>) {
    && v < |s.heads| && (s.heads[v] == pos || s.heads[v].None?)
    && s.(heads := s.heads[v := pos]).Shaped()
  }

  /** Midway through the list of `v`: what lies above `pos` is done. */
  ghost predicate Sweeping(now: Operands, was: Operands, v: nat, pos: Option<nat>) {
    Floor(pos) <= |was| && Demoted(now, was, Occurrences(Vars(was), v, Floor(pos)))
  }

  lemma NothingDemoted(ops: Operands)
    ensures Demoted(ops, ops, {})
  {
  }

  lemma SweepStarts(was: StackState, v: nat)
    requires was.Shaped() && v < |was.heads|
    ensures ValidButHead(was.(heads := was.heads[v := None]), v, was.heads[v])
    ensures Sweeping(was.operands, was.operands, v, was.heads[v])
    ensures Listed(was.operands, Occurrences(Vars(was.operands), v, 0), Floor(was.heads[v])) == []
  {
    var pos := was.heads[v];
    assert Below(Vars(was.operands), |was.operands|, v, pos);
    assert was.heads[v := None][v := pos] == was.heads;
    assert Occurrences(Vars(was.operands), v, Floor(pos)) == {};
    NothingDemoted(was.operands);
    ListingSkips(was.operands, Occurrences(Vars(was.operands), v, 0), Floor(pos), |was.operands|);
  }

  /** The operand the sweep has reached is a local operand of `v` with none of its kind above it. */
  lemma SweepPosition(s: StackState, v: nat, p: nat)
    requires s.Shaped() && v < |s.heads| && s.heads[v] == Some(p)
    ensures p < |s.operands| && s.operands[p].Local? && s.operands[p].local == v && s.operands[p].prev == None
    ensures Below(Vars(s.operands), p, v, s.operands[p].next)
  {
    assert Below(Vars(s.operands), |s.operands|, v, s.heads[v]);
    assert LinkedAt(s.operands[p], Vars(s.operands), p);
  }

  /** Between the operand at `p` and the next of its list there is none of `v`. */
  lemma SweptGap(now: Operands, was: Operands, v: nat, p: nat, next: Option<nat>)
    requires p < |was| && Demoted(now, was, Occurrences(Vars(was), v, p + 1))
    requires Below(Vars(now), p, v, next)
    ensures Floor(next) <= p
    ensures forall i :: Floor(next) <= i < p ==> Vars(was)[i] != Some(v)
  {
    forall i | Floor(next) <= i < p
      ensures Vars(was)[i] != Some(v)
    {
      assert SameOperand(was[i], now[i]) && Vars(now)[i] != Some(v);
    }
  }

  lemma SweptPositions(was: Operands, v: nat, p: nat, lo: nat)
    requires lo <= p < |was| && was[p].Local? && was[p].local == v
    requires forall i :: lo <= i < p ==> Vars(was)[i] != Some(v)
    ensures Occurrences(Vars(was), v, lo) == Occurrences(Vars(was), v, p + 1) + {p}
    ensures Listed(was, Occurrences(Vars(was), v, 0), lo)
            == Listed(was, Occurrences(Vars(was), v, 0), p + 1) + [LocalRef(was[p].slot, was[p].ty, v)]
  {
    ListingSkips(was, Occurrences(Vars(was), v, 0), lo, p);
    assert p in Occurrences(Vars(was), v, 0);
  }

  /** The stale head plays no part in demoting the topmost operand of its variable. */
  lemma HeadIsOverwritten(s: StackState, v: nat, p: nat)
    requires ValidButHead(s, v, Some(p))
    ensures Demotable(s, p) && s.operands[p].local == v
    ensures var s', next := DemotedAt(s, p), s.operands[p].next;
            && ValidButHead(s', v, next) && SameFrame(s', s)
            && Demoted(s'.operands, s.operands, {p}) && Below(Vars(s.operands), p, v, next)
  {
    var t := s.(heads := s.heads[v := Some(p)]);
    SweepPosition(t, v, p);
    DemotingOne(t, p);
    StaleHeadIsIgnored(s, v, p);
    HeadIsThere(DemotedAt(s, p), v, s.operands[p].next);
  }

  lemma HeadIsThere(s: StackState, v: nat, head: Option<nat>)
    requires v < |s.heads| && s.heads[v] == head
    ensures s.(heads := s.heads[v := head]) == s
  {
  }

  lemma StaleHeadIsIgnored(s: StackState, v: nat, p: nat)
    requires v < |s.heads| && p < |s.operands| && s.operands[p].Local?
    requires s.operands[p].local == v && s.operands[p].prev.None?
    requires Demotable(s.(heads := s.heads[v := Some(p)]), p)
    ensures Demotable(s, p) && DemotedAt(s, p) == DemotedAt(s.(heads := s.heads[v := Some(p)]), p)
  {
    assert s.heads[v := Some(p)][v := s.operands[p].next] == s.heads[v := s.operands[p].next];
  }

  lemma SweepStep(next: Operands, now: Operands, was: Operands, v: nat, p: nat, below: Option<nat>)
    requires Sweeping(now, was, v, Some(p)) && Demoted(next, now, {p})
    requires now[p].Local? && now[p].local == v && Below(Vars(now), p, v, below)
    ensures Floor(below) <= p && Sweeping(next, was, v, below)
    ensures Listed(was, Occurrences(Vars(was), v, 0), Floor(below))
            == Listed(was, Occurrences(Vars(was), v, 0), p + 1) + [LocalRef(now[p].slot, now[p].ty, v)]
  {
    var done := Occurrences(Vars(was), v, p + 1);
    assert p !in done && SameOperand(was[p], now[p]);
    SweptGap(now, was, v, p, below);
    SweptPositions(was, v, p, Floor(below));
    DemotingAgain(next, now, was, done, p);
  }

  // ---------- preserving all variables ----------

  /** What is left to skip after `seen` local operands. */
  function Skippable(skip: nat, seen: int): nat {
    if seen <= skip then skip - seen else 0
  }

  /** Midway through the scan: what lies at or above `pos` is done. */
  ghost predicate Scanning(now: Operands, was: Operands, skip: nat, pos: nat, toSkip: nat, remaining: nat) {
    && pos <= |was| && remaining == Locals(Vars(was), pos)
    && toSkip == Skippable(skip, Locals(Vars(was), |was|) - Locals(Vars(was), pos))
    && Demoted(now, was, Preserved(Vars(was), skip, pos))
  }

  /** What the search below `pos` has found: the next operand to demote, or that there is none left. */
  ghost predicate Awaiting(now: Operands, was: Operands, skip: nat, pos: nat, found: Option<nat>, left: nat) {
    var all := Preserved(Vars(was), skip, 0);
    && pos <= |was|
    && match found
       case None => Demoted(now, was, all) && Listed(was, all, 0) == Listed(was, all, pos)
       case Some(q) =>
         && q < pos && q < |now| && now[q].Local?
         && Scanning(now, was, skip, q + 1, 0, left + 1)
         && Listed(was, all, q + 1) == Listed(was, all, pos)
  }

  /** What one step from `pos` has done: demoted the next operand, at `at`, or found that there is none left. */
  ghost predicate Stepped(
    now: Operands, was: Operands, skip: nat, pos: nat, item: Option<LocalRef>, at: nat, left: nat)
  {
    var all := Preserved(Vars(was), skip, 0);
    && pos <= |was|
    && match item
       case None => Demoted(now, was, all) && Listed(was, all, 0) == Listed(was, all, pos)
       case Some(x) =>
         && at < pos && Scanning(now, was, skip, at, 0, left)
         && Listed(was, all, at) == Listed(was, all, pos) + [x]
  }

  lemma ScanStarts(was: StackState, skip: nat)
    requires was.Sized()
    ensures Scanning(was.operands, was.operands, skip, |was.operands|, skip, was.lenLocals)
  {
    assert Preserved(Vars(was.operands), skip, |was.operands|) == {};
    NothingDemoted(was.operands);
  }

  lemma ScanEnds(now: Operands, was: Operands, skip: nat, pos: nat, toSkip: nat)
    requires Scanning(now, was, skip, pos, toSkip, 0)
    ensures var all := Preserved(Vars(was), skip, 0);
            Demoted(now, was, all) && Listed(was, all, 0) == Listed(was, all, pos)
  {
    var vars := Vars(was);
    forall i | 0 <= i < pos
      ensures vars[i].None?
    {
      NoLocalsBelow(vars, pos, i);
    }
    assert Preserved(vars, skip, 0) == Preserved(vars, skip, pos);
    ListingSkips(was, Preserved(vars, skip, 0), 0, pos);
  }

  /** One position further down: which positions are preserved, and how the list goes on. */
  lemma ScannedPositions(was: Operands, skip: nat, p: nat)
    requires p < |was|
    ensures var vars := Vars(was);
            var hit := vars[p].Some? && Locals(vars, |vars|) - Locals(vars, p + 1) >= skip;
            && Preserved(vars, skip, p) == Preserved(vars, skip, p + 1) + (if hit then {p} else {})
            && Listed(was, Preserved(vars, skip, 0), p)
               == Listed(was, Preserved(vars, skip, 0), p + 1)
                  + (if hit then [LocalRef(was[p].slot, was[p].ty, was[p].local)] else [])
  {
    var vars := Vars(was);
    assert p in Preserved(vars, skip, 0) <==> vars[p].Some? && LocalsAbove(vars, p) >= skip;
  }

  /** The scan cannot run off the bottom, and what it has not reached is as it was. */
  lemma ScanReaches(now: Operands, was: Operands, skip: nat, pos: nat, toSkip: nat, remaining: nat)
    requires Scanning(now, was, skip, pos, toSkip, remaining) && remaining != 0
    ensures pos > 0 && |now| == |was| && SameOperand(was[pos - 1], now[pos - 1])
  {
    assert pos - 1 !in Preserved(Vars(was), skip, pos);
  }

  /** A position that is no local operand, or one to skip. */
  lemma ScanPasses(now: Operands, was: Operands, skip: nat, pos: nat, toSkip: nat, remaining: nat)
    requires Scanning(now, was, skip, pos, toSkip, remaining) && remaining != 0 && 0 < pos <= |now|
    requires now[pos - 1].Local? ==> toSkip > 0
    ensures var p, one := pos - 1, if now[pos - 1].Local? then 1 else 0;
            && Scanning(now, was, skip, p, toSkip - one, remaining - one)
            && Listed(was, Preserved(Vars(was), skip, 0), p) == Listed(was, Preserved(Vars(was), skip, 0), pos)
  {
    ScanReaches(now, was, skip, pos, toSkip, remaining);
    ScannedPositions(was, skip, pos - 1);
    assert Preserved(Vars(was), skip, pos - 1) == Preserved(Vars(was), skip, pos);
  }

  /** A local operand when there is nothing left to skip. */
  lemma ScanDemotes(next: Operands, now: Operands, was: Operands, skip: nat, p: nat, left: nat)
    requires Scanning(now, was, skip, p + 1, 0, left + 1) && p < |now|
    requires now[p].Local? && Demoted(next, now, {p})
    ensures Scanning(next, was, skip, p, 0, left)
    ensures Listed(was, Preserved(Vars(was), skip, 0), p)
            == Listed(was, Preserved(Vars(was), skip, 0), p + 1)
               + [LocalRef(now[p].slot, now[p].ty, now[p].local)]
  {
    ScanReaches(now, was, skip, p + 1, 0, left + 1);
    ScannedPositions(was, skip, p);
    DemotingAgain(next, now, was, Preserved(Vars(was), skip, p + 1), p);
  }
}
