// The inline accessors of the DDK's io_buffer_t (ddk/io-buffer.h): validity,
// the virtual and physical address of the buffer's start, and the room left
// after an offset. All fields are 64-bit (size_t, zx_off_t, uintptr_t,
// zx_paddr_t), so every sum and difference wraps modulo 2^64.
module IoBuffer {
  import opened Zx

  /** ZX_HANDLE_INVALID. */
  const HANDLE_INVALID: nat := 0

  /** The fields of io_buffer_t the accessors read; `phys_list` and
      `phys_count` are only read by io_buffer_physmap, which is not part of
      this model. */
  datatype IoBufferT = IoBufferT(vmoHandle: nat, size: nat, offset: nat, virt: nat, phys: nat)
  {
    /** Every field fits its 64-bit C type. */
    predicate WellFormed()
    {
      size < U64_MOD && offset < U64_MOD && virt < U64_MOD && phys < U64_MOD
    }
  }

  /** io_buffer_is_valid: the buffer holds a VMO handle. */
  function IsValid(b: IoBufferT): (r: bool)
    ensures r <==> b.vmoHandle != HANDLE_INVALID
  {
    b.vmoHandle != HANDLE_INVALID
  }

  /** io_buffer_virt: the mapping's base moved on by the VMO offset. */
  function Virt(b: IoBufferT): (r: nat)
    ensures r < U64_MOD
    ensures b.virt + b.offset < U64_MOD ==> r == b.virt + b.offset
  {
    Add64(b.virt, b.offset)
  }

  /** io_buffer_phys: the first page's physical address moved on by the VMO
      offset. */
  function Phys(b: IoBufferT): (r: nat)
    ensures r < U64_MOD
    ensures b.phys + b.offset < U64_MOD ==> r == b.phys + b.offset
  {
    Add64(b.phys, b.offset)
  }

  /** The virtual and the physical address both lie `offset` past their bases,
      so they name the same byte of the buffer. */
  lemma VirtPhysSameByte(b: IoBufferT)
    requires b.virt + b.offset < U64_MOD && b.phys + b.offset < U64_MOD
    ensures Virt(b) - b.virt == Phys(b) - b.phys == b.offset
  {
  }

  /** io_buffer_size as written: size - offset - off in 64-bit arithmetic,
      then 0 when the result exceeds the size. */
  function SizeAsWritten(b: IoBufferT, off: nat): (r: nat)
    requires b.WellFormed() && off < U64_MOD
    ensures r <= b.size
  {
    var remaining := Sub64(Sub64(b.size, b.offset), off);
    if remaining > b.size then 0 else remaining
  }

  /** The room after `off` as io_buffer_size means it: what is left of the
      buffer past its own offset and `off`, and nothing once they reach or
      pass its end. */
  function Size(b: IoBufferT, off: nat): (r: nat)
    ensures r <= b.size
    ensures b.offset + off <= b.size ==> r + b.offset + off == b.size
    ensures b.offset + off >= b.size ==> r == 0
  {
    if b.offset + off > b.size then 0 else b.size - b.offset - off
  }

  /** As written, io_buffer_size is exact whenever nothing wraps. */
  lemma SizeAsWrittenExact(b: IoBufferT, off: nat)
    requires b.WellFormed() && off < U64_MOD
    requires b.offset + off <= b.size
    ensures SizeAsWritten(b, off) == b.size - b.offset - off
  {
  }

  /** As written, io_buffer_size agrees with the intended room whenever
      offset + off fits in 64 bits: one wrap-around always lands above the
      size and is caught. */
  lemma SizeAsWrittenAgrees(b: IoBufferT, off: nat)
    requires b.WellFormed() && off < U64_MOD
    requires b.offset + off < U64_MOD
    ensures SizeAsWritten(b, off) == Size(b, off)
  {
    var first := Sub64(b.size, b.offset);
    if b.offset <= b.size {
      assert first == b.size - b.offset;
      if off > first {
        assert Sub64(first, off) == U64_MOD + first - off;
      }
    } else {
      assert first == U64_MOD + b.size - b.offset;
      assert off <= first;
      assert Sub64(first, off) == first - off;
    }
  }

  /** When offset + off passes 2^64 the two subtractions can wrap twice and
      land back inside the buffer: a 100-byte buffer at offset 20 reports 90
      bytes left after an offset of 2^64 - 10, where no room is left. */
  lemma SizeAsWrittenDoubleWrap()
    ensures var b := IoBufferT(1, 100, 20, 0, 0);
            SizeAsWritten(b, U64_MOD - 10) == 90 && Size(b, U64_MOD - 10) == 0
  {
    var b := IoBufferT(1, 100, 20, 0, 0);
    assert Sub64(100, 20) == 80;
    assert Sub64(80, U64_MOD - 10) == 90;
  }
}
