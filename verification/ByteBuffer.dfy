/** The growable byte store under a linear memory (crates/core/src/memory/buffer.rs).
    `data` is the whole allocation (its length is the capacity); only `data[..len]` is the memory.
    The system allocator is the parameter `granted`. */
module ByteBuffers {
  import opened Prelude
  import opened Errors

  function Zeros(n: nat): (s: seq<Byte>)
    ensures |s| == n && forall i :: 0 <= i < n ==> s[i] == 0
  {
    seq(n, i => 0)
  }

  /** The value of a buffer: its bytes and, for a static one, the fixed room it has. */
  datatype BufferState = BufferState(bytes: seq<Byte>, room: Option<nat>)
  {
    predicate Valid() {
      room.Some? ==> |bytes| <= room.value
    }

    /** Growing keeps the old bytes and appends zeros, or fails. */
    function Grown(newSize: nat, granted: bool): Result<BufferState, MemoryError>
      requires |bytes| <= newSize
    {
      match room
      case None =>
        if granted then Ok(this.(bytes := bytes + Zeros(newSize - |bytes|))) else Err(OutOfSystemMemory)
      case Some(n) =>
        if newSize <= n then Ok(this.(bytes := bytes + Zeros(newSize - |bytes|)))
        else Err(InvalidStaticBufferSize)
    }
  }

  class ByteBuffer {
    var data: array<Byte>
    var len: nat
    const isStatic: bool

    ghost predicate Valid()
      reads this
    {
      len <= data.Length
    }

    ghost function View(): BufferState
      reads this, data
      requires Valid()
    {
      BufferState(data[..len], if isStatic then Some(data.Length) else None)
    }

    constructor Raw(data: array<Byte>, len: nat, isStatic: bool)
      requires len <= data.Length
      ensures this.data == data && this.len == len && this.isStatic == isStatic
    {
      this.data, this.len, this.isStatic := data, len, isStatic;
    }

    /** A fresh heap buffer of `size` zeros. */
    static method New(size: nat, granted: bool) returns (r: Result<ByteBuffer, MemoryError>)
      ensures r.Ok? <==> granted
      ensures r.Ok? ==> fresh(r.value) && fresh(r.value.data) && r.value.Valid()
                        && r.value.View() == BufferState(Zeros(size), None)
      ensures r.Err? ==> r.error == OutOfSystemMemory
    {
      if !granted {
        return Err(OutOfSystemMemory);
      }
      var data := new Byte[size](i => 0);
      var b := new ByteBuffer.Raw(data, size, false);
      assert data[..size] == Zeros(size);
      return Ok(b);
    }

    /** Uses the caller's `buffer`, zeroing the part that becomes the memory. */
    static method NewStatic(buffer: array<Byte>, size: nat) returns (r: Result<ByteBuffer, MemoryError>)
      modifies buffer
      ensures r.Ok? <==> size <= buffer.Length
      ensures r.Ok? ==> fresh(r.value) && r.value.data == buffer && r.value.Valid()
                        && r.value.View() == BufferState(Zeros(size), Some(buffer.Length))
                        && buffer[size..] == old(buffer[size..])
      ensures r.Err? ==> r.error == InvalidStaticBufferSize && buffer[..] == old(buffer[..])
    {
      if size > buffer.Length {
        return Err(InvalidStaticBufferSize);
      }
      forall i | 0 <= i < size {
        buffer[i] := 0;
      }
      var b := new ByteBuffer.Raw(buffer, size, true);
      assert buffer[..size] == Zeros(size);
      return Ok(b);
    }

    method Grow(newSize: nat, granted: bool) returns (r: Result<Unit, MemoryError>)
      requires Valid() && len <= newSize
      modifies this, data
      ensures Valid() && (data == old(data) || fresh(data))
      ensures match old(View()).Grown(newSize, granted)
              case Ok(grown) => r.Ok? && View() == grown
              case Err(error) => r == Err(error) && View() == old(View())
    {
      if isStatic {
        r := GrowStatic(newSize);
      } else {
        r := GrowVec(newSize, granted);
      }
    }

    method GrowVec(newSize: nat, granted: bool) returns (r: Result<Unit, MemoryError>)
      requires Valid() && len <= newSize && !isStatic
      modifies this, data
      ensures Valid() && (data == old(data) || fresh(data))
      ensures match old(View()).Grown(newSize, granted)
              case Ok(grown) => r.Ok? && View() == grown
              case Err(error) => r == Err(error) && View() == old(View())
    {
      if !granted {
        return Err(OutOfSystemMemory);
      }
      ghost var before := data[..len];
      if data.Length < newSize {
        var bigger := new Byte[newSize](i => 0);
        forall i | 0 <= i < len {
          bigger[i] := data[i];
        }
        data := bigger;
      } else {
        forall i | len <= i < newSize {
          data[i] := 0;
        }
      }
      len := newSize;
      assert data[..len] == before + Zeros(newSize - |before|);
      return Ok(Unit);
    }

    method GrowStatic(newSize: nat) returns (r: Result<Unit, MemoryError>)
      requires Valid() && len <= newSize && isStatic
      modifies this, data
      ensures Valid() && data == old(data)
      ensures match old(View()).Grown(newSize, false)
              case Ok(grown) => r.Ok? && View() == grown
              case Err(error) => r == Err(error) && View() == old(View())
    {
      if data.Length < newSize {
        return Err(InvalidStaticBufferSize);
      }
      ghost var before := data[..len];
      var oldLen := len;
      len := newSize;
      forall i | oldLen <= i < newSize {
        data[i] := 0;
      }
      assert data[..len] == before + Zeros(newSize - |before|);
      return Ok(Unit);
    }
  }
}
