/** Stack slots in their two build-time representations (crates/ir/src/index.rs): the `slot16` one
    stores the index in a `u16`, the default one stores the byte offset in a `u32`. */
module Slots {
  import opened Prelude

  const CELL_BYTES: nat := 8

  datatype Form = Slot16 | ByteScaled
  {
    /** Raw values wrap at this bound. */
    function Modulus(): nat {
      match this
      case Slot16 => 0x1_0000
      case ByteScaled => 0x1_0000_0000
    }

    function FromU16(index: U16): (raw: nat)
      ensures raw < Modulus()
    {
      match this
      case Slot16 => index
      case ByteScaled => index * 8
    }

    /** The end of a span of up to 65535 slots lies below this index: `slot16` spans must not wrap,
        byte-scaled ones have room past 65535. */
    function Bound(): nat {
      match this
      case Slot16 => 0x1_0000
      case ByteScaled => 0x2_0000
    }

    /** The raw value of an index, past 65535 too where there is room. */
    function Raw(index: nat): (raw: nat)
      requires index < Bound()
      ensures raw < Modulus()
    {
      match this
      case Slot16 => index
      case ByteScaled => index * 8
    }

    /** The cast back to `u16` truncates. */
    function ToU16(raw: nat): U16 {
      match this
      case Slot16 => raw % 0x1_0000
      case ByteScaled => raw / 8 % 0x1_0000
    }

    /** `byte_offset`: where the cell of a raw slot lies. */
    function ByteOffset(raw: nat): nat {
      match this
      case Slot16 => raw * CELL_BYTES
      case ByteScaled => raw
    }

    /** The cell a raw slot addresses: its byte offset over the size of a cell. */
    function CellIndex(raw: nat): nat {
      ByteOffset(raw) / CELL_BYTES
    }

    /** `wrapping_add` of `n` slots. */
    function NextN(raw: nat, n: U16): (r: nat)
      ensures r < Modulus()
    {
      match this
      case Slot16 => (raw + n) % 0x1_0000
      case ByteScaled => (raw + n * 8) % 0x1_0000_0000
    }

    /** `wrapping_sub` of `n` slots. */
    function PrevN(raw: nat, n: U16): (r: nat)
      ensures r < Modulus()
    {
      match this
      case Slot16 => (raw - n) % 0x1_0000
      case ByteScaled => (raw - n * 8) % 0x1_0000_0000
    }
  }

  lemma Wraps16(x: int)
    requires -0x1_0000 <= x < 0x2_0000
    ensures x % 0x1_0000 == if x < 0 then x + 0x1_0000 else if x < 0x1_0000 then x else x - 0x1_0000
  {
  }

  lemma Fits32(x: int)
    requires 0 <= x < 0x1_0000_0000
    ensures x % 0x1_0000_0000 == x
  {
  }

  lemma Eighth(i: nat)
    ensures i * 8 / 8 == i
  {
  }

  /** Both forms are the plain arithmetic of indices, order included, on all indices below the bound;
      but the cast back truncates. */
  lemma RawsAgree(form: Form, index: nat, n: U16, other: nat)
    requires index < form.Bound() && other < form.Bound()
    ensures index < TWO_16 ==> form.Raw(index) == form.FromU16(index)
    ensures form.Raw(index) < form.Raw(other) <==> index < other
    ensures form.Raw(index) == form.Raw(other) <==> index == other
    ensures index + n < form.Bound() ==> form.NextN(form.Raw(index), n) == form.Raw(index + n)
    ensures n <= index ==> form.PrevN(form.Raw(index), n) == form.Raw(index - n)
    ensures form.ToU16(form.Raw(index)) == if index < TWO_16 then index else index - TWO_16
  {
    Wraps16(index);
    match form
    case Slot16 =>
      Wraps16(index + n);
      Wraps16(index - n);
    case ByteScaled =>
      Fits32(index * 8 + n * 8);
      Eighth(index);
      if n <= index {
        Fits32(index * 8 - n * 8);
      }
  }

  /** In both forms the cell of an index lies eight bytes per index from the start. */
  lemma CellOfRaw(form: Form, index: nat)
    requires index < form.Bound()
    ensures form.ByteOffset(form.Raw(index)) == 8 * index
    ensures form.CellIndex(form.Raw(index)) == index
  {
    Eighth(index);
  }

  /** On indices up to 65535 nothing is lost. */
  lemma FormsAgreeInRange(form: Form, index: U16, n: U16, other: U16)
    ensures form.ToU16(form.FromU16(index)) == index
    ensures form.CellIndex(form.FromU16(index)) == index
    ensures form.FromU16(index) < form.FromU16(other) <==> index < other
    ensures form.FromU16(index) == form.FromU16(other) <==> index == other
    ensures index + n < TWO_16 ==> form.NextN(form.FromU16(index), n) == form.FromU16(index + n)
    ensures n <= index ==> form.PrevN(form.FromU16(index), n) == form.FromU16(index - n)
  {
    RawsAgree(form, index, n, other);
    Eighth(index);
  }

  /** The length an iterator over `n` slots from `head` reports: the difference of its ends as `u16`. */
  function ReportedLen(form: Form, head: U16, n: U16): U16 {
    AbsDiff(form.ToU16(form.NextN(form.FromU16(head), n)), form.ToU16(form.FromU16(head)))
  }

  lemma ReportedLenIs(form: Form, head: U16, n: U16)
    ensures ReportedLen(form, head, n) == if head + n < TWO_16 then n else TWO_16 - n
  {
    RawsAgree(form, head, n, head);
    Wraps16(head + n);
    match form
    case Slot16 => Wraps16((head + n) % 0x1_0000);
    case ByteScaled => RawsAgree(form, head + n, 0, head);
  }

  /** It is the length exactly when the span ends within the `u16` indices, or has half their number. */
  lemma ReportedLenIsExact(form: Form, head: U16, n: U16)
    ensures ReportedLen(form, head, n) == n <==> head + n < TWO_16 || n == 0x8000
  {
    ReportedLenIs(form, head, n);
  }

  /** The byte-scaled span of the last slot, which is accepted, reports 65535 slots for one. */
  lemma LastSlotReportsTooMany()
    ensures FixedSpanAccepts(ByteScaled, ByteScaled.FromU16(65535), 1) && ReportedLen(ByteScaled, 65535, 1) == 65535
  {
  }

  /** The bounds check of `FixedSlotSpan::new`: `head >= head.next_n(N)` is an error. */
  function FixedSpanAccepts(form: Form, head: nat, n: U16): bool {
    head < form.NextN(head, n)
  }

  /** The check is exact for `slot16`; the byte-scaled form never wraps on indices and so accepts
      every non-empty span, past 65535 too. */
  lemma FixedSpanAcceptsExactly(form: Form, head: U16, n: U16)
    ensures FixedSpanAccepts(form, form.FromU16(head), n) <==>
            n >= 1 && (form.Slot16? ==> head + n < TWO_16)
  {
  }

  /** So the two builds differ on the span of the last slot. */
  lemma FormsDifferAtTheLastSlot()
    ensures !FixedSpanAccepts(Slot16, Slot16.FromU16(65535), 1)
    ensures FixedSpanAccepts(ByteScaled, ByteScaled.FromU16(65535), 1)
  {
  }

  /** `BoundedSlotSpan::contains`. */
  function Contains(form: Form, head: nat, len: U16, reg: nat): bool {
    len != 0 && head <= reg && reg < form.NextN(head, len)
  }

  /** A `slot16` span that wraps contains nothing; every other span contains exactly its slots. */
  lemma ContainsExactly(form: Form, head: U16, len: U16, reg: U16)
    ensures Contains(form, form.FromU16(head), len, form.FromU16(reg)) <==>
            head <= reg < head + len && (form.Slot16? ==> head + len < TWO_16)
  {
  }
}
