// Memory-mapped device registers as the drivers see them through readb/writeb
// and readl/writel. The state of a register window is the contents it had
// when the driver started plus the list of writes the driver issued, in
// order; a register reads as the value last written to it, or as its initial
// content when it was never written (zero when that is not given).
module Mmio {

  /** One writeb/writel: the register's address and the value stored. */
  datatype RegWrite<V> = RegWrite(addr: nat, value: V)

  /** The value register `addr` holds after the writes `ws` to a window that
      started out as `initial`. */
  function Current<V>(initial: map<nat, V>, ws: seq<RegWrite<V>>, addr: nat, zero: V): V
  {
    if ws == [] then (if addr in initial then initial[addr] else zero)
    else if ws[|ws| - 1].addr == addr then ws[|ws| - 1].value
    else Current(initial, ws[..|ws| - 1], addr, zero)
  }

  /** A write changes only the register it names, and that one reads back
      what was written. */
  lemma CurrentAfterWrite<V>(initial: map<nat, V>, ws: seq<RegWrite<V>>, w: RegWrite<V>, addr: nat, zero: V)
    ensures Current(initial, ws + [w], addr, zero) ==
            if addr == w.addr then w.value else Current(initial, ws, addr, zero)
  {
    assert (ws + [w])[..|ws|] == ws;
  }

  /** What one more write does to the whole window: the register it names
      reads back the value written, and every other register reads as before. */
  lemma WriteFrame<V>(initial: map<nat, V>, ws: seq<RegWrite<V>>, w: RegWrite<V>, zero: V)
    ensures Current(initial, ws + [w], w.addr, zero) == w.value
    ensures forall a :: a != w.addr ==> Current(initial, ws + [w], a, zero) == Current(initial, ws, a, zero)
  {
    CurrentAfterWrite(initial, ws, w, w.addr, zero);
    forall a | a != w.addr
      ensures Current(initial, ws + [w], a, zero) == Current(initial, ws, a, zero)
    {
      CurrentAfterWrite(initial, ws, w, a, zero);
    }
  }

  /** A window of 8-bit registers. */
  class Regs8 {
    const initial: map<nat, bv8>
    var writes: seq<RegWrite<bv8>>

    constructor(initial: map<nat, bv8>)
      ensures this.initial == initial && writes == []
    {
      this.initial := initial;
      writes := [];
    }

    function Peek(addr: nat): bv8
      reads this
    {
      Current(initial, writes, addr, 0)
    }

    /** readb. */
    method Read(addr: nat) returns (v: bv8)
      ensures v == Peek(addr)
    {
      v := Current(initial, writes, addr, 0);
    }

    /** writeb. */
    method Write(v: bv8, addr: nat)
      modifies this
      ensures writes == old(writes) + [RegWrite(addr, v)]
      ensures Peek(addr) == v
      ensures forall a :: a != addr ==> Peek(a) == old(Peek(a))
    {
      WriteFrame(initial, writes, RegWrite(addr, v), 0);
      writes := writes + [RegWrite(addr, v)];
    }
  }

  /** A window of 32-bit registers. */
  class Regs32 {
    const initial: map<nat, bv32>
    var writes: seq<RegWrite<bv32>>

    constructor(initial: map<nat, bv32>)
      ensures this.initial == initial && writes == []
    {
      this.initial := initial;
      writes := [];
    }

    function Peek(addr: nat): bv32
      reads this
    {
      Current(initial, writes, addr, 0)
    }

    /** readl. */
    method Read(addr: nat) returns (v: bv32)
      ensures v == Peek(addr)
    {
      v := Current(initial, writes, addr, 0);
    }

    /** writel. */
    method Write(v: bv32, addr: nat)
      modifies this
      ensures writes == old(writes) + [RegWrite(addr, v)]
      ensures Peek(addr) == v
      ensures forall a :: a != addr ==> Peek(a) == old(Peek(a))
    {
      WriteFrame(initial, writes, RegWrite(addr, v), 0);
      writes := writes + [RegWrite(addr, v)];
    }
  }

  /** Setting the bits of `mask` sets them and keeps every other bit. */
  lemma SetMask(v: bv32, mask: bv32)
    ensures (v | mask) & mask == mask && (v | mask) & !mask == v & !mask
  {
  }

  /** Clearing the bits of `mask` clears them and keeps every other bit. */
  lemma ClearMask(v: bv32, mask: bv32)
    ensures (v & !mask) & mask == 0 && (v & !mask) & !mask == v & !mask
  {
  }
}
