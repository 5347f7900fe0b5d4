/** Copying one slot span to another: the overlap test (crates/ir/src/span.rs) and the executor's
    `copy_span` (crates/wasmi/src/engine/executor/handler/utils.rs). */
module CopySpans {
  import opened Prelude
  import opened Arithmetic
  import opened Slots

  type Cell = U64

  /** All copies at once: what a `copy_span` means. */
  ghost function Copied(stack: seq<Cell>, d: nat, s: nat, n: nat): (r: seq<Cell>)
    requires d + n <= |stack| && s + n <= |stack|
    ensures |r| == |stack|
  {
    seq(|stack|, i requires 0 <= i < |stack| => if d <= i < d + n then stack[s + (i - d)] else stack[i])
  }

  /** One copy after the other, from the lowest slot up. */
  ghost function CopiedUpwards(stack: seq<Cell>, d: nat, s: nat, n: nat): (r: seq<Cell>)
    requires d + n <= |stack| && s + n <= |stack|
    ensures |r| == |stack|
    decreases n
  {
    if n == 0 then stack
    else CopiedUpwards(stack[d := stack[s]], d + 1, s + 1, n - 1)
  }

  /** Spans of 65535 slots that do not start at slot 0 report a single slot, which is taken not to overlap. */
  predicate Misread(results: U16, len: U16) {
    len == 65535 && results >= 1
  }

  /** `SlotSpanIter::has_overlapping_copies` on two spans of `len` slots. The spans must exist, which limits
      only `slot16`, and the source asserts that they report the same length. The answer is exact
      unless the spans are misread, and then it is no. */
  method HasOverlappingCopies(form: Form, results: U16, values: U16, len: U16) returns (r: bool)
    requires form.Slot16? ==> results + len < TWO_16 && values + len < TWO_16
    requires ReportedLen(form, results, len) == ReportedLen(form, values, len)
    ensures r <==> Overlaps(results, values, len) && !Misread(results, len)
    ensures !Misread(results, len) ==> (r <==> !AlwaysRight(2 * TWO_16, results, values, len))
  {
    assert !Overlaps(results, values, len) <==> AlwaysRight(2 * TWO_16, results, values, len) by {
      OverlapTestIsExact(2 * TWO_16, results, values, len);
    }
    ReportedLenIs(form, results, len);
    ReportedLenIs(form, values, len);
    if ReportedLen(form, results, len) <= 1 {
      return false;
    }
    var firstValue, firstResult := form.FromU16(values), form.FromU16(results);
    assert firstValue >= firstResult <==> values >= results by {
      FormsAgreeInRange(form, results, 0, values);
    }
    if firstValue >= firstResult {
      return false;
    }
    var lastValue := form.PrevN(form.NextN(firstValue, len), 1);
    assert lastValue >= firstResult <==> values + len - 1 >= results by {
      LastSlotOfSpan(form, values, len, results);
    }
    return lastValue >= firstResult;
  }

  /** Two spans of one length report one length exactly if both end within the `u16` indices, or neither does,
      or they have half that number of slots; otherwise the assertion of the source fires. */
  lemma SameLengthIsSeenExactly(form: Form, results: U16, values: U16, len: U16)
    ensures ReportedLen(form, results, len) == ReportedLen(form, values, len) <==>
            (results + len < TWO_16 <==> values + len < TWO_16) || len == 0x8000
  {
    ReportedLenIs(form, results, len);
    ReportedLenIs(form, values, len);
  }

  lemma LastSlotOfSpan(form: Form, head: U16, len: U16, other: U16)
    requires len >= 1 && (form.Slot16? ==> head + len < TWO_16)
    ensures form.PrevN(form.NextN(form.FromU16(head), len), 1) >= form.FromU16(other) <==> head + len - 1 >= other
  {
    RawsAgree(form, head, len, other);
    RawsAgree(form, head + len, 1, other);
    RawsAgree(form, other, 0, head + len - 1);
  }

  /** Copying 65535 slots from slot 1 up to slot 2 overlaps, and the byte-scaled build says that it does not. */
  method LongOverlapIsMissed() returns (r: bool)
    ensures !r && Overlaps(2, 1, 65535)
  {
    r := HasOverlappingCopies(ByteScaled, 2, 1, 65535);
  }

  ghost predicate Overlaps(d: nat, s: nat, n: nat) {
    n >= 2 && s < d <= s + n - 1
  }

  /** Without overlap the order does not matter. */
  lemma {:induction false} UpwardsIsSimultaneousWithoutOverlap(stack: seq<Cell>, d: nat, s: nat, n: nat)
    requires d + n <= |stack| && s + n <= |stack| && !Overlaps(d, s, n)
    ensures CopiedUpwards(stack, d, s, n) == Copied(stack, d, s, n)
    decreases n
  {
    if n > 0 {
      var next := stack[d := stack[s]];
      UpwardsIsSimultaneousWithoutOverlap(next, d + 1, s + 1, n - 1);
      forall i | 0 <= i < |stack|
        ensures Copied(next, d + 1, s + 1, n - 1)[i] == Copied(stack, d, s, n)[i]
      {
      }
    }
  }

  /** Slots below the destination are never touched. */
  lemma {:induction false} UpwardsKeepsLowerSlots(stack: seq<Cell>, d: nat, s: nat, n: nat, i: nat)
    requires d + n <= |stack| && s + n <= |stack| && i < d
    ensures CopiedUpwards(stack, d, s, n)[i] == stack[i]
    decreases n
  {
    if n > 0 {
      UpwardsKeepsLowerSlots(stack[d := stack[s]], d + 1, s + 1, n - 1, i);
    }
  }

  /** The slot written `k` copies in holds what its source held by then. */
  lemma {:induction false} UpwardsFromBelow(stack: seq<Cell>, d: nat, s: nat, n: nat, k: nat)
    requires d + n <= |stack| && s < d && k < n
    ensures CopiedUpwards(stack, d, s, n)[d + k] == stack[s + k % (d - s)]
    decreases n
  {
    var gap := d - s;
    var next := stack[d := stack[s]];
    if k == 0 {
      UpwardsKeepsLowerSlots(next, d + 1, s + 1, n - 1, d);
    } else {
      var r := (k - 1) % gap;
      assert CopiedUpwards(next, d + 1, s + 1, n - 1)[d + 1 + (k - 1)] == next[s + 1 + r] by {
        UpwardsFromBelow(next, d + 1, s + 1, n - 1, k - 1);
      }
      assert k % gap == if r + 1 == gap then 0 else r + 1 by {
        PreviousInCycle(k, gap);
      }
    }
  }

  lemma PreviousInCycle(k: nat, gap: nat)
    requires 0 < k && 0 < gap
    ensures (k - 1) % gap + 1 == gap ==> k % gap == 0
    ensures (k - 1) % gap + 1 < gap ==> k % gap == (k - 1) % gap + 1
  {
    var q, r := (k - 1) / gap, (k - 1) % gap;
    assert k - 1 == q * gap + r;
    if r + 1 == gap {
      assert k == (q + 1) * gap;
      UniqueRemainder(k, gap, q + 1, 0);
    } else {
      UniqueRemainder(k, gap, q, r + 1);
    }
  }

  /** With overlap, a stack that holds a mark in the first source slot comes out wrong. */
  lemma OverlapGoesWrong(size: nat, d: nat, s: nat, n: nat) returns (stack: seq<Cell>)
    requires d + n <= size && s + n <= size && Overlaps(d, s, n)
    ensures |stack| == size && CopiedUpwards(stack, d, s, n) != Copied(stack, d, s, n)
  {
    var gap := d - s;
    stack := seq(size, i => if i == s then 1 else 0);
    UpwardsFromBelow(stack, d, s, n, gap);
    UniqueRemainder(gap, gap, 1, 0);
    assert stack[s] == 1 && stack[s + gap] == 0;
    assert Copied(stack, d, s, n)[d + gap] == stack[s + gap];
  }

  ghost predicate AlwaysRight(size: nat, d: nat, s: nat, n: nat)
    requires d + n <= size && s + n <= size
  {
    forall stack: seq<Cell> :: |stack| == size ==> CopiedUpwards(stack, d, s, n) == Copied(stack, d, s, n)
  }

  /** THE TEST IS EXACT: it says no exactly when copying upwards one by one is right
      for every content of the stack. */
  lemma OverlapTestIsExact(size: nat, d: nat, s: nat, n: nat)
    requires d + n <= size && s + n <= size
    ensures !Overlaps(d, s, n) <==> AlwaysRight(size, d, s, n)
  {
    if Overlaps(d, s, n) {
      var stack := OverlapGoesWrong(size, d, s, n);
    } else {
      forall stack: seq<Cell> | |stack| == size
        ensures CopiedUpwards(stack, d, s, n) == Copied(stack, d, s, n)
      {
        UpwardsIsSimultaneousWithoutOverlap(stack, d, s, n);
      }
    }
  }

  // ---------- the executor ----------

  /** `sp[dst] = sp[src]`, where the raw slots stand for the cells i and j. */
  method CopySlot(form: Form, sp: array<Cell>, dst: nat, src: nat, ghost i: nat, ghost j: nat)
    requires i < form.Bound() && j < form.Bound() && i < sp.Length && j < sp.Length
    requires dst == form.Raw(i) && src == form.Raw(j)
    modifies sp
    ensures sp[..] == old(sp[..])[i := old(sp[j])]
  {
    CellOfRaw(form, i);
    CellOfRaw(form, j);
    var value := sp[form.CellIndex(src)];
    sp[form.CellIndex(dst)] := value;
  }

  /** The stack after the lowest k, or all but the lowest k, cells were copied. */
  ghost predicate LowCopied(now: seq<Cell>, before: seq<Cell>, d: nat, s: nat, k: nat) {
    && |now| == |before| && d + k <= |before| && s + k <= |before|
    && forall i {:trigger now[i]} :: 0 <= i < |now| ==>
         now[i] == if d <= i < d + k then before[s + (i - d)] else before[i]
  }

  ghost predicate HighCopied(now: seq<Cell>, before: seq<Cell>, d: nat, s: nat, k: nat, n: nat) {
    && |now| == |before| && d + n <= |before| && s + n <= |before| && k <= n
    && forall i {:trigger now[i]} :: 0 <= i < |now| ==>
         now[i] == if d + k <= i < d + n then before[s + (i - d)] else before[i]
  }

  lemma LowStep(now: seq<Cell>, before: seq<Cell>, d: nat, s: nat, k: nat)
    requires LowCopied(now, before, d, s, k) && d < s && s + k < |now|
    ensures LowCopied(now[d + k := now[s + k]], before, d, s, k + 1)
  {
  }

  lemma HighStep(now: seq<Cell>, before: seq<Cell>, d: nat, s: nat, k: nat, n: nat)
    requires HighCopied(now, before, d, s, k, n) && s < d && 0 < k
    ensures HighCopied(now[d + k - 1 := now[s + k - 1]], before, d, s, k - 1, n)
  {
  }

  lemma AllCopied(now: seq<Cell>, before: seq<Cell>, d: nat, s: nat, n: nat)
    requires LowCopied(now, before, d, s, n) || HighCopied(now, before, d, s, 0, n)
    ensures d + n <= |before| && s + n <= |before| && now == Copied(before, d, s, n)
  {
  }

  /** One turn of the upward loop: copies cell k of the spans and steps both slots. */
  method StepUp(
    form: Form, sp: array<Cell>, d: nat, s: nat,
    ghost before: seq<Cell>, ghost dst: U16, ghost src: U16, ghost k: nat)
    returns (d': nat, s': nat)
    requires dst + k + 1 < form.Bound() && src + k + 1 < form.Bound() && dst < src && src + k < sp.Length
    requires d == form.Raw(dst + k) && s == form.Raw(src + k)
    requires LowCopied(sp[..], before, dst, src, k)
    modifies sp
    ensures d' == form.Raw(dst + k + 1) && s' == form.Raw(src + k + 1)
    ensures LowCopied(sp[..], before, dst, src, k + 1)
  {
    RawsAgree(form, dst + k, 1, 0);
    RawsAgree(form, src + k, 1, 0);
    LowStep(sp[..], before, dst, src, k);
    CopySlot(form, sp, d, s, dst + k, src + k);
    d', s' := form.NextN(d, 1), form.NextN(s, 1);
  }

  /** One turn of the downward loop: steps both slots and copies cell k - 1. */
  method StepDown(
    form: Form, sp: array<Cell>, d: nat, s: nat,
    ghost before: seq<Cell>, ghost dst: U16, ghost src: U16, ghost k: nat, ghost len: U16)
    returns (d': nat, s': nat)
    requires dst + k < form.Bound() && src + k < form.Bound() && src < dst && 0 < k
    requires d == form.Raw(dst + k) && s == form.Raw(src + k)
    requires HighCopied(sp[..], before, dst, src, k, len)
    modifies sp
    ensures d' == form.Raw(dst + k - 1) && s' == form.Raw(src + k - 1)
    ensures HighCopied(sp[..], before, dst, src, k - 1, len)
  {
    RawsAgree(form, dst + k, 1, 0);
    RawsAgree(form, src + k, 1, 0);
    HighStep(sp[..], before, dst, src, k, len);
    d', s' := form.PrevN(d, 1), form.PrevN(s, 1);
    CopySlot(form, sp, d', s', dst + k - 1, src + k - 1);
  }

  method ExecCopySpanAsc(form: Form, sp: array<Cell>, dst: U16, src: U16, len: U16)
    requires form.Slot16? ==> dst + len < TWO_16 && src + len < TWO_16
    requires dst + len <= sp.Length && src + len <= sp.Length
    requires dst < src
    modifies sp
    ensures sp[..] == Copied(old(sp[..]), dst, src, len)
  {
    var d, s := form.FromU16(dst), form.FromU16(src);
    var end := form.NextN(d, len);
    assert d == form.Raw(dst) && s == form.Raw(src) && end == form.Raw(dst + len) by {
      RawsAgree(form, dst, len, src);
      RawsAgree(form, src, 0, dst);
    }
    ghost var k := 0;
    while d != end
      invariant k <= len
      invariant d == form.Raw(dst + k) && s == form.Raw(src + k)
      invariant LowCopied(sp[..], old(sp[..]), dst, src, k)
      decreases len - k
    {
      d, s := StepUp(form, sp, d, s, old(sp[..]), dst, src, k);
      k := k + 1;
    }
    assert k == len by {
      RawsAgree(form, dst + k, 0, dst + len);
    }
    AllCopied(sp[..], old(sp[..]), dst, src, len);
  }

  method ExecCopySpanDes(form: Form, sp: array<Cell>, dst: U16, src: U16, len: U16)
    requires form.Slot16? ==> dst + len < TWO_16 && src + len < TWO_16
    requires dst + len <= sp.Length && src + len <= sp.Length
    requires src < dst
    modifies sp
    ensures sp[..] == Copied(old(sp[..]), dst, src, len)
  {
    var end := form.FromU16(dst);
    var d, s := form.NextN(form.FromU16(dst), len), form.NextN(form.FromU16(src), len);
    assert end == form.Raw(dst) && d == form.Raw(dst + len) && s == form.Raw(src + len) by {
      RawsAgree(form, dst, len, src);
      RawsAgree(form, src, len, dst);
    }
    ghost var k: nat := len;
    while d != end
      invariant k <= len
      invariant d == form.Raw(dst + k) && s == form.Raw(src + k)
      invariant HighCopied(sp[..], old(sp[..]), dst, src, k, len)
      decreases k
    {
      d, s := StepDown(form, sp, d, s, old(sp[..]), dst, src, k, len);
      k := k - 1;
    }
    assert k == 0 by {
      RawsAgree(form, dst + k, 0, dst);
    }
    AllCopied(sp[..], old(sp[..]), dst, src, len);
  }

  /** Choosing the direction by the heads makes every copy right, overlapping or not. */
  method ExecCopySpan(form: Form, sp: array<Cell>, dst: U16, src: U16, len: U16)
    requires form.Slot16? ==> dst + len < TWO_16 && src + len < TWO_16
    requires dst + len <= sp.Length && src + len <= sp.Length
    requires dst != src && len > 0
    modifies sp
    ensures sp[..] == Copied(old(sp[..]), dst, src, len)
  {
    RawsAgree(form, dst, len, src);
    if form.FromU16(dst) <= form.FromU16(src) {
      ExecCopySpanAsc(form, sp, dst, src, len);
    } else {
      ExecCopySpanDes(form, sp, dst, src, len);
    }
  }
}
