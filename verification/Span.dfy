/** Iteration over slot spans (crates/ir/src/span.rs). */
module Spans {
  import opened Prelude
  import opened Slots

  /** The slot indices from `a` up to but not including `b`. */
  ghost function Range(a: nat, b: nat): (s: seq<nat>)
    requires a <= b
    ensures |s| == b - a && forall i :: 0 <= i < |s| ==> s[i] == a + i
  {
    seq(b - a, i => a + i)
  }

  class SlotSpanIter {
    const form: Form
    var next: nat
    var last: nat

    /** The raw ends stand for indices a <= b. */
    ghost predicate Spans(a: nat, b: nat)
      reads this
    {
      && a <= b < form.Bound() && b - a < TWO_16
      && next == form.Raw(a)
      && last == form.Raw(b)
    }

    /** The source asserts in debug builds that the end does not wrap, which only `slot16` can. */
    constructor (form: Form, start: U16, len: U16)
      requires form.Slot16? ==> start + len < TWO_16
      ensures this.form == form && Spans(start, start + len)
    {
      RawsAgree(form, start, len, start);
      this.form := form;
      this.next := form.FromU16(start);
      this.last := form.NextN(form.FromU16(start), len);
    }

    /** The remaining number of slots, unless they lie on both sides of index 65536. */
    method Len(ghost a: nat, ghost b: nat) returns (n: U16)
      requires Spans(a, b)
      ensures n == if a < TWO_16 <= b then TWO_16 - (b - a) else b - a
    {
      RawsAgree(form, a, 0, b);
      RawsAgree(form, b, 0, a);
      n := AbsDiff(form.ToU16(last), form.ToU16(next));
    }

    /** Yields the lowest remaining slot. */
    method Next(ghost a: nat, ghost b: nat) returns (r: Option<nat>)
      requires Spans(a, b)
      modifies this
      ensures if a == b then r == None && Spans(a, b)
              else r == Some(form.Raw(a)) && Spans(a + 1, b)
    {
      RawsAgree(form, a, 1, b);
      if next == last {
        return None;
      }
      r := Some(next);
      next := form.NextN(next, 1);
    }

    /** Yields the highest remaining slot. */
    method NextBack(ghost a: nat, ghost b: nat) returns (r: Option<nat>)
      requires Spans(a, b)
      modifies this
      ensures if a == b then r == None && Spans(a, b)
              else r == Some(form.Raw(b - 1)) && Spans(a, b - 1)
    {
      RawsAgree(form, a, 0, b);
      RawsAgree(form, b, 1, a);
      if next == last {
        return None;
      }
      last := form.PrevN(last, 1);
      r := Some(last);
    }
  }

  /** What a mix of `next` (true) and `next_back` (false) calls on the span a..b yields:
      the slots from the front, those from the back, and the ends that remain. */
  ghost function Drain(a: nat, b: nat, calls: seq<bool>): (seq<nat>, seq<nat>, nat, nat)
    requires a <= b
    decreases |calls|
  {
    if calls == [] || a == b then ([], [], a, b)
    else if calls[0] then
      var (front, back, x, y) := Drain(a + 1, b, calls[1..]);
      ([a] + front, back, x, y)
    else
      var (front, back, x, y) := Drain(a, b - 1, calls[1..]);
      (front, [b - 1] + back, x, y)
  }

  ghost function Reverse(s: seq<nat>): seq<nat> {
    if s == [] then [] else Reverse(s[1..]) + [s[0]]
  }

  ghost predicate Indices(form: Form, s: seq<nat>) {
    forall i :: 0 <= i < |s| ==> s[i] < form.Bound()
  }

  lemma ReverseOfPush(x: nat, s: seq<nat>)
    ensures Reverse([x] + s) == Reverse(s) + [x]
  {
    assert ([x] + s)[1..] == s;
  }

  /** The raw slots of some indices. */
  ghost function Encoded(form: Form, indices: seq<nat>): (raw: seq<nat>)
    requires Indices(form, indices)
    ensures |raw| == |indices| && forall i :: 0 <= i < |raw| ==> raw[i] == form.Raw(indices[i])
  {
    seq(|indices|, i requires 0 <= i < |indices| => form.Raw(indices[i]))
  }

  lemma {:induction false} DrainedIndices(form: Form, a: nat, b: nat, calls: seq<bool>)
    requires a <= b < form.Bound()
    ensures var (front, back, x, y) := Drain(a, b, calls);
            Indices(form, front) && Indices(form, back)
    decreases |calls|
  {
    if calls == [] || a == b {
    } else if calls[0] {
      DrainedIndices(form, a + 1, b, calls[1..]);
    } else {
      DrainedIndices(form, a, b - 1, calls[1..]);
    }
  }

  /** The iterator itself, driven by any mix of calls and in either encoding, yields those slots. */
  method Drive(it: SlotSpanIter, calls: seq<bool>, ghost a: nat, ghost b: nat)
    returns (front: seq<nat>, back: seq<nat>)
    requires it.Spans(a, b)
    modifies it
    ensures var (f, r, x, y) := Drain(a, b, calls);
            && it.Spans(x, y)
            && Indices(it.form, f) && Indices(it.form, r)
            && front == Encoded(it.form, f) && back == Encoded(it.form, r)
    decreases |calls|
  {
    DrainedIndices(it.form, a, b, calls);
    if calls == [] {
      return [], [];
    }
    if calls[0] {
      var slot := it.Next(a, b);
      front, back := Drive(it, calls[1..], if a < b then a + 1 else a, b);
      if slot.Some? {
        front := [slot.value] + front;
      }
    } else {
      var slot := it.NextBack(a, b);
      front, back := Drive(it, calls[1..], a, if a < b then b - 1 else b);
      if slot.Some? {
        back := [slot.value] + back;
      }
    }
  }

  /** Any interleaving yields each slot exactly once, in order from its end; calling often enough
      exhausts the span. */
  lemma {:induction false} EveryInterleavingYieldsEachSlotOnce(a: nat, b: nat, calls: seq<bool>)
    requires a <= b
    ensures var (front, back, x, y) := Drain(a, b, calls);
            && a <= x <= y <= b
            && front + Range(x, y) + Reverse(back) == Range(a, b)
            && (|calls| >= b - a ==> x == y)
    decreases |calls|
  {
    if calls == [] || a == b {
    } else if calls[0] {
      EveryInterleavingYieldsEachSlotOnce(a + 1, b, calls[1..]);
      var (front, back, x, y) := Drain(a + 1, b, calls[1..]);
      assert Range(a, b) == [a] + Range(a + 1, b);
      assert [a] + front + Range(x, y) + Reverse(back) == [a] + (front + Range(x, y) + Reverse(back));
    } else {
      EveryInterleavingYieldsEachSlotOnce(a, b - 1, calls[1..]);
      var (front, back, x, y) := Drain(a, b - 1, calls[1..]);
      assert Range(a, b) == Range(a, b - 1) + [b - 1];
      ReverseOfPush(b - 1, back);
      assert front + Range(x, y) + (Reverse(back) + [b - 1]) == front + Range(x, y) + Reverse(back) + [b - 1];
    }
  }
}
