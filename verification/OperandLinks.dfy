/** The operand stack of the translator keeps, inside its stack of operands, one doubly linked list
    per local variable (crates/wasmi/src/engine/translator/func/stack/operands.rs). */
module OperandLinks {
  import opened Prelude
  import opened FuncTypes

  datatype StackOperand =
    | Local(slot: nat, ty: ValType, local: nat, prev: Option<nat>, next: Option<nat>)
    | Temp(slot: nat, ty: ValType, inReg: bool)
    | Immediate(slot: nat, ty: ValType, val: nat)

  type Operands = seq<StackOperand>

  /** Which local variable each position refers to, if any; the links do not show here. */
  ghost function Vars(ops: Operands): (vars: seq<Option<nat>>)
    ensures |vars| == |ops|
    ensures forall i :: 0 <= i < |ops| ==> vars[i] == if ops[i].Local? then Some(ops[i].local) else None
  {
    seq(|ops|, i requires 0 <= i < |ops| => if ops[i].Local? then Some(ops[i].local) else None)
  }

  /** `r` is the highest position of `v` below `p`. */
  ghost predicate Below(vars: seq<Option<nat>>, p: nat, v: nat, r: Option<nat>)
    requires p <= |vars|
  {
    match r
    case None => forall i :: 0 <= i < p ==> vars[i] != Some(v)
    case Some(q) => q < p && vars[q] == Some(v) && forall i :: q < i < p ==> vars[i] != Some(v)
  }

  /** `r` is the lowest position of `v` above `p`. */
  ghost predicate Above(vars: seq<Option<nat>>, p: nat, v: nat, r: Option<nat>) {
    match r
    case None => forall i :: p < i < |vars| ==> vars[i] != Some(v)
    case Some(q) => p < q < |vars| && vars[q] == Some(v) && forall i :: p < i < q ==> vars[i] != Some(v)
  }

  ghost predicate LinkedAt(op: StackOperand, vars: seq<Option<nat>>, p: nat)
    requires p < |vars|
  {
    op.Local? ==> Below(vars, p, op.local, op.next) && Above(vars, p, op.local, op.prev)
  }

  /** Every local operand links to its neighbours of the same variable, and each head is the topmost one. */
  ghost predicate Linked(ops: Operands, heads: seq<Option<nat>>) {
    && (forall p :: 0 <= p < |ops| ==> LinkedAt(ops[p], Vars(ops), p))
    && (forall p :: 0 <= p < |ops| && ops[p].Local? ==> ops[p].local < |heads|)
    && (forall v :: 0 <= v < |heads| ==> Below(Vars(ops), |ops|, v, heads[v]))
  }

  // ---------- the link updates ----------

  /** `update_prev_local` and `update_next_local`; an absent position changes nothing.
      The source panics when the position holds no local operand. */
  function SetPrev(ops: Operands, at: Option<nat>, prev: Option<nat>): Operands
    requires at.Some? ==> at.value < |ops| && ops[at.value].Local?
  {
    if at.None? then ops else ops[at.value := ops[at.value].(prev := prev)]
  }

  function SetNext(ops: Operands, at: Option<nat>, next: Option<nat>): Operands
    requires at.Some? ==> at.value < |ops| && ops[at.value].Local?
  {
    if at.None? then ops else ops[at.value := ops[at.value].(next := next)]
  }

  // ---------- pushing ----------

  /** The operands and heads after `push_local`. */
  function WithLocal(ops: Operands, heads: seq<Option<nat>>, v: nat, slot: nat, ty: ValType)
    : (Operands, seq<Option<nat>>)
    requires v < |heads|
    requires heads[v].Some? ==> heads[v].value < |ops| && ops[heads[v].value].Local?
  {
    (SetPrev(ops, heads[v], Some(|ops|)) + [Local(slot, ty, v, None, heads[v])], heads[v := Some(|ops|)])
  }

  lemma PushingALocalKeepsLinks(ops: Operands, heads: seq<Option<nat>>, v: nat, slot: nat, ty: ValType)
    requires Linked(ops, heads) && v < |heads|
    ensures heads[v].Some? ==> heads[v].value < |ops| && ops[heads[v].value].Local?
    ensures var (ops', heads') := WithLocal(ops, heads, v, slot, ty);
            Linked(ops', heads') && Vars(ops') == Vars(ops) + [Some(v)]
  {
    var (ops', heads') := WithLocal(ops, heads, v, slot, ty);
    var vars, vars' := Vars(ops), Vars(ops');
    assert Below(vars, |ops|, v, heads[v]);
    assert vars' == vars + [Some(v)];
    forall p | 0 <= p < |ops|
      ensures LinkedAt(ops'[p], vars', p)
    {
      assert LinkedAt(ops[p], vars, p);
      PushedAbove(vars, p, v, ops[p], heads[v]);
    }
    forall w | 0 <= w < |heads'|
      ensures Below(vars', |ops'|, w, heads'[w])
    {
      assert Below(vars, |ops|, w, heads[w]);
    }
  }

  /** What a new topmost `v` changes for the operand at `p`: its upper neighbour, if it was the head. */
  lemma PushedAbove(vars: seq<Option<nat>>, p: nat, v: nat, op: StackOperand, head: Option<nat>)
    requires p < |vars| && LinkedAt(op, vars, p) && Below(vars, |vars|, v, head)
    requires vars[p] == if op.Local? then Some(op.local) else None
    ensures var vars' := vars + [Some(v)];
            LinkedAt(if head == Some(p) && op.Local? then op.(prev := Some(|vars|)) else op, vars', p)
  {
  }

  lemma PushingAnotherKeepsLinks(ops: Operands, heads: seq<Option<nat>>, op: StackOperand)
    requires Linked(ops, heads) && !op.Local?
    ensures Linked(ops + [op], heads) && Vars(ops + [op]) == Vars(ops) + [None]
  {
    var ops' := ops + [op];
    var vars, vars' := Vars(ops), Vars(ops');
    assert vars' == vars + [None];
    forall p | 0 <= p < |ops|
      ensures LinkedAt(ops'[p], vars', p)
    {
      assert LinkedAt(ops[p], vars, p);
    }
    forall w | 0 <= w < |heads|
      ensures Below(vars', |ops'|, w, heads[w])
    {
      assert Below(vars, |ops|, w, heads[w]);
    }
  }

  // ---------- unlinking ----------

  /** The operands and heads after `unlink_local` of the operand at `p`, which still stands there. */
  function Unlinked(ops: Operands, heads: seq<Option<nat>>, v: nat, prev: Option<nat>, next: Option<nat>)
    : (Operands, seq<Option<nat>>)
    requires v < |heads|
    requires prev.Some? ==> prev.value < |ops| && ops[prev.value].Local?
    requires next.Some? ==> next.value < |ops| && ops[next.value].Local?
  {
    (SetPrev(SetNext(ops, prev, next), next, prev), if prev.Some? then heads else heads[v := next])
  }

  /** What unlinking the operand at `p` relies on. */
  ghost predicate Unlinkable(ops: Operands, heads: seq<Option<nat>>, p: nat) {
    && p < |ops| && ops[p].Local? && ops[p].local < |heads|
    && (ops[p].prev.Some? ==> p < ops[p].prev.value < |ops| && ops[ops[p].prev.value].Local?)
    && (ops[p].next.Some? ==> ops[p].next.value < p && ops[ops[p].next.value].Local?)
  }

  lemma LocalsAreUnlinkable(ops: Operands, heads: seq<Option<nat>>, p: nat)
    requires Linked(ops, heads) && p < |ops| && ops[p].Local?
    ensures Unlinkable(ops, heads, p)
  {
    assert LinkedAt(ops[p], Vars(ops), p);
  }

  /** The operands and heads when the local operand at `p` has been unlinked and replaced. */
  ghost function Replaced(ops: Operands, heads: seq<Option<nat>>, p: nat, by_: StackOperand)
    : (Operands, seq<Option<nat>>)
    requires Unlinkable(ops, heads, p)
  {
    var (ops', heads') := Unlinked(ops, heads, ops[p].local, ops[p].prev, ops[p].next);
    (ops'[p := by_], heads')
  }

  lemma VarsAfterUnlink(ops: Operands, heads: seq<Option<nat>>, p: nat, by_: StackOperand)
    requires Unlinkable(ops, heads, p) && !by_.Local?
    ensures Vars(Replaced(ops, heads, p, by_).0) == Vars(ops)[p := None]
    ensures |Replaced(ops, heads, p, by_).1| == |heads|
  {
  }

  /** Taking the local operand at `p` out of its list, and out of the variables, leaves the rest linked. */
  lemma UnlinkingKeepsLinks(ops: Operands, heads: seq<Option<nat>>, p: nat, by_: StackOperand)
    requires Linked(ops, heads) && Unlinkable(ops, heads, p) && !by_.Local?
    ensures var (ops', heads') := Replaced(ops, heads, p, by_); Linked(ops', heads')
  {
    var (ops', heads') := Replaced(ops, heads, p, by_);
    VarsAfterUnlink(ops, heads, p, by_);
    forall i | 0 <= i < |ops'|
      ensures LinkedAt(ops'[i], Vars(ops'), i)
    {
      LinkedAfterUnlink(ops, heads, i, p, by_);
    }
    forall w | 0 <= w < |heads'|
      ensures Below(Vars(ops'), |ops'|, w, heads'[w])
    {
      HeadLinkedAfterUnlink(ops, heads, p, w);
    }
  }

  lemma LinkedAfterUnlink(ops: Operands, heads: seq<Option<nat>>, i: nat, p: nat, by_: StackOperand)
    requires Linked(ops, heads) && i < |ops| && Unlinkable(ops, heads, p) && !by_.Local?
    ensures LinkedAt(Replaced(ops, heads, p, by_).0[i], Vars(ops)[p := None], i)
  {
    var op, gone := ops[i], ops[p];
    if i != p && op.Local? {
      var next := if gone.prev == Some(i) then gone.next else op.next;
      var prev := if gone.next == Some(i) then gone.prev else op.prev;
      assert Replaced(ops, heads, p, by_).0[i] == op.(next := next, prev := prev) by {
        OperandAfterUnlink(ops, heads, i, p);
      }
      assert LinkedAt(op.(next := next, prev := prev), Vars(ops)[p := None], i) by {
        assert LinkedAt(gone, Vars(ops), p) && LinkedAt(op, Vars(ops), i);
        NeighbourAfterUnlink(Vars(ops), i, p, op, gone);
      }
    }
  }

  lemma HeadLinkedAfterUnlink(ops: Operands, heads: seq<Option<nat>>, p: nat, w: nat)
    requires Linked(ops, heads) && Unlinkable(ops, heads, p) && w < |heads|
    ensures var heads' := Unlinked(ops, heads, ops[p].local, ops[p].prev, ops[p].next).1;
            Below(Vars(ops)[p := None], |ops|, w, heads'[w])
  {
    assert LinkedAt(ops[p], Vars(ops), p) && Below(Vars(ops), |ops|, w, heads[w]);
    HeadAfterUnlink(Vars(ops), p, w, heads[w], ops[p]);
  }

  lemma OperandAfterUnlink(ops: Operands, heads: seq<Option<nat>>, i: nat, p: nat)
    requires i < |ops| && i != p && Unlinkable(ops, heads, p)
    ensures var gone := ops[p];
            Unlinked(ops, heads, gone.local, gone.prev, gone.next).0[i]
            == if ops[i].Local? then ops[i].(next := if gone.prev == Some(i) then gone.next else ops[i].next,
                                             prev := if gone.next == Some(i) then gone.prev else ops[i].prev)
               else ops[i]
  {
  }

  /** The operand at `i` keeps its links except where they led to the removed one. */
  lemma NeighbourAfterUnlink(vars: seq<Option<nat>>, i: nat, p: nat, op: StackOperand, gone: StackOperand)
    requires i < |vars| && p < |vars| && i != p
    requires gone.Local? && vars[p] == Some(gone.local) && LinkedAt(gone, vars, p)
    requires vars[i] == (if op.Local? then Some(op.local) else None) && LinkedAt(op, vars, i)
    ensures op.Local? ==>
              var next := if gone.prev == Some(i) then gone.next else op.next;
              var prev := if gone.next == Some(i) then gone.prev else op.prev;
              LinkedAt(op.(next := next, prev := prev), vars[p := None], i)
  {
    if op.Local? && op.local == gone.local {
      BelowAfterUnlink(vars, i, p, op.local, op.next, gone);
      AboveAfterUnlink(vars, i, p, op.local, op.prev, gone);
    }
  }

  lemma BelowAfterUnlink(vars: seq<Option<nat>>, i: nat, p: nat, v: nat, r: Option<nat>, gone: StackOperand)
    requires i < |vars| && p < |vars| && i != p
    requires gone.Local? && gone.local == v && vars[p] == Some(v) && LinkedAt(gone, vars, p)
    requires vars[i] == Some(v) && Below(vars, i, v, r)
    ensures Below(vars[p := None], i, v, if gone.prev == Some(i) then gone.next else r)
  {
  }

  lemma AboveAfterUnlink(vars: seq<Option<nat>>, i: nat, p: nat, v: nat, r: Option<nat>, gone: StackOperand)
    requires i < |vars| && p < |vars| && i != p
    requires gone.Local? && gone.local == v && vars[p] == Some(v) && LinkedAt(gone, vars, p)
    requires vars[i] == Some(v) && Above(vars, i, v, r)
    ensures Above(vars[p := None], i, v, if gone.next == Some(i) then gone.prev else r)
  {
  }

  lemma HeadAfterUnlink(vars: seq<Option<nat>>, p: nat, w: nat, head: Option<nat>, gone: StackOperand)
    requires p < |vars| && gone.Local? && vars[p] == Some(gone.local) && LinkedAt(gone, vars, p)
    requires Below(vars, |vars|, w, head)
    ensures Below(vars[p := None], |vars|, w, if w == gone.local && gone.prev.None? then gone.next else head)
  {
  }

  /** Dropping a top that is no local operand. */
  lemma DroppingTheTopKeepsLinks(ops: Operands, heads: seq<Option<nat>>)
    requires Linked(ops, heads) && ops != [] && !ops[|ops| - 1].Local?
    ensures Linked(ops[..|ops| - 1], heads) && Vars(ops[..|ops| - 1]) == Vars(ops)[..|ops| - 1]
  {
    var ops' := ops[..|ops| - 1];
    var vars, vars' := Vars(ops), Vars(ops');
    assert vars' == vars[..|ops| - 1];
    forall p | 0 <= p < |ops'|
      ensures LinkedAt(ops'[p], vars', p)
    {
      assert LinkedAt(ops[p], vars, p);
      LinkedBelowATop(vars, p, ops[p]);
    }
    forall w | 0 <= w < |heads|
      ensures Below(vars', |ops'|, w, heads[w])
    {
      assert Below(vars, |ops|, w, heads[w]);
    }
  }

  lemma LinkedBelowATop(vars: seq<Option<nat>>, p: nat, op: StackOperand)
    requires p < |vars| - 1 && vars[|vars| - 1] == None && LinkedAt(op, vars, p)
    ensures LinkedAt(op, vars[..|vars| - 1], p)
  {
  }

  /** Replacing one operand that is no local by another. */
  lemma ReplacingAnotherKeepsLinks(ops: Operands, heads: seq<Option<nat>>, p: nat, op: StackOperand)
    requires Linked(ops, heads) && p < |ops| && !ops[p].Local? && !op.Local?
    ensures Linked(ops[p := op], heads) && Vars(ops[p := op]) == Vars(ops)
  {
    var ops' := ops[p := op];
    assert Vars(ops') == Vars(ops);
    forall i | 0 <= i < |ops|
      ensures LinkedAt(ops'[i], Vars(ops'), i)
    {
      assert LinkedAt(ops[i], Vars(ops), i);
    }
  }
}
