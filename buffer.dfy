/**
 * `assembler_buffer`: an append-only byte store. Positions are offsets from
 * the start of the storage (`contents`), so `cursor` here is the source's
 * `cursor - contents` and `limit` its `limit - contents`. Multi-byte values
 * are stored little-endian, as `*(int32_t*)p = v` does on x86-64.
 */
module Buffers {
  import opened Bytes

  /** `kMinGap`. */
  const MIN_GAP: nat := 32

  /** `kInitialBufferCapacity`: 4 MiB. */
  const INITIAL_CAPACITY: nat := 4 * (1024 * 1024)

  class CodeBuffer {
    /** The storage `contents` points at. */
    const data: array<Byte>
    /** `cursor - contents`: the number of bytes emitted so far. */
    var cursor: nat
    /** `limit - contents`. No emit consults it. */
    const limit: nat

    ghost predicate Valid()
      reads this
    {
      data.Length == INITIAL_CAPACITY && cursor <= data.Length && limit == INITIAL_CAPACITY + MIN_GAP
    }

    /** The bytes emitted so far. */
    function Contents(): (s: seq<Byte>)
      reads this, data
      requires Valid()
      ensures |s| == cursor
    {
      data[..cursor]
    }

    /** `asm_buffer_new`: a 4 MiB allocation with nothing emitted and the limit 32 bytes past its end. */
    constructor ()
      ensures Valid() && fresh(data)
      ensures Contents() == [] && limit == data.Length + MIN_GAP
    {
      data := new Byte[INITIAL_CAPACITY];
      cursor := 0;
      limit := INITIAL_CAPACITY + MIN_GAP;
    }

    /** `asm_buffer_size`: `cursor - contents`, the number of bytes emitted. */
    function Size(): (n: int)
      reads this, data
      requires Valid()
      ensures n == |Contents()| && 0 <= n <= INITIAL_CAPACITY
    {
      cursor
    }

    /** Whether n more bytes fit in the allocation; the source never checks this. */
    predicate HasRoom(n: nat)
      reads this
    {
      cursor + n <= data.Length
    }

    /** Writes `bytes` at the cursor and advances it past them. */
    method Append(bytes: seq<Byte>)
      requires Valid() && HasRoom(|bytes|)
      modifies this, data
      ensures Valid()
      ensures Contents() == old(Contents()) + bytes
    {
      forall i | 0 <= i < |bytes| {
        data[cursor + i] := bytes[i];
      }
      cursor := cursor + |bytes|;
    }

    /** `asm_buffer_emit_uint8`: stores the byte at the cursor and advances it by one. */
    method EmitUint8(value: Byte)
      requires Valid() && HasRoom(1)
      modifies this, data
      ensures Valid()
      ensures Contents() == old(Contents()) + [value]
    {
      data[cursor] := value;
      cursor := cursor + 1;
    }

    /** `asm_buffer_emit_int32`: stores the four little-endian bytes of `value` and advances by four. */
    method EmitInt32(value: Int32)
      requires Valid() && HasRoom(4)
      modifies this, data
      ensures Valid()
      ensures Contents() == old(Contents()) + LE32(value)
    {
      Append(LE32(value));
    }

    /** `asm_buffer_emit_int64`: stores the eight little-endian bytes of `value` and advances by eight. */
    method EmitInt64(value: Int64)
      requires Valid() && HasRoom(8)
      modifies this, data
      ensures Valid()
      ensures Contents() == old(Contents()) + LE64(value)
    {
      Append(LE64(value));
    }

    /**
     * `asm_buffer_load_int32`, as the encoder needs it: the int32 whose four
     * little-endian bytes sit at `pos`.
     */
    function LoadInt32(pos: int): (v: Int32)
      reads this, data
      requires Valid() && 0 <= pos && pos + 4 <= cursor
      ensures LE32(v) == Contents()[pos..pos + 4]
    {
      assert Contents()[pos..pos + 4] == data[pos..pos + 4];
      Decode32(data[pos..pos + 4])
    }

    /**
     * `asm_buffer_store_int32`: overwrites the four bytes at `pos` with the
     * little-endian bytes of `value`; nothing else changes, the cursor
     * included, and loading at `pos` then yields `value`.
     */
    method StoreInt32(pos: int, value: Int32)
      requires Valid() && 0 <= pos && pos + 4 <= cursor
      modifies data
      ensures Valid()
      ensures Contents() == old(Contents())[..pos] + LE32(value) + old(Contents())[pos + 4..]
      ensures LoadInt32(pos) == value
    {
      var bytes := LE32(value);
      ghost var before := Contents();
      forall i | 0 <= i < 4 {
        data[pos + i] := bytes[i];
      }
      ghost var after := before[..pos] + bytes + before[pos + 4..];
      assert |after| == cursor;
      assert forall i :: 0 <= i < cursor ==> Contents()[i] == after[i];
      assert Contents() == after;
      assert Contents()[pos..pos + 4] == bytes;
      Decode32LE32(value);
    }
  }

  /**
   * `asm_buffer_load_int32` as written: `(int32_t)(contents + pos)`, the
   * truncated address of the bytes rather than the bytes themselves.
   * `contents` is the storage's address.
   */
  function LoadInt32AsWritten(contents: nat, pos: int): (v: Int32)
    ensures (v - (contents + pos)) % TWO_32 == 0
  {
    Wrap32(contents + pos)
  }

  /**
   * The as-written load cannot see the end of a label chain: when the field
   * at offset 0 of a buffer holds 0 (the first link of an empty label), the
   * intended load reads 0, while the as-written load of storage at address
   * 0x10000 yields 0x10000, which `assembler_bind` would follow as a further link.
   */
  lemma {:induction false} LoadAsWrittenMissesStoredValue(b: CodeBuffer)
    requires b.Valid() && b.cursor >= 4 && b.Contents()[0..4] == LE32(0)
    ensures b.LoadInt32(0) == 0 != LoadInt32AsWritten(0x10000, 0)
  {
    var v := b.LoadInt32(0);
    Decode32LE32(v);
    Decode32LE32(0);
  }
}
