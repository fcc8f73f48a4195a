// The ARM PL061 GPIO controller driver (pl061.c). Each controller page holds
// eight GPIOs; a pin's registers are found at PAGE_SIZE * (index / 8) past the
// mapped buffer and the pin is the bit 1 << (index % 8) of each 8-bit register.
module Pl061 {
  import opened Zx
  import opened Mmio
  import IoBuffer

  const GPIODIR: nat := 0x400
  const GPIOIS: nat := 0x404
  const GPIOIBE: nat := 0x408
  const GPIOIEV: nat := 0x40C
  const GPIOS_PER_PAGE: nat := 8

  /** GPIODATA(mask) for the one-bit mask 1 << k: the data register address
      that reads and writes only that bit, mask << 2. */
  function GpioData(k: nat): nat
    requires k < 8
  {
    if k == 0 then 0x4 else if k == 1 then 0x8 else if k == 2 then 0x10 else if k == 3 then 0x20
    else if k == 4 then 0x40 else if k == 5 then 0x80 else if k == 6 then 0x100 else 0x200
  }

  /** The fields of gpio_config_flags_t the driver tests: whether the
      direction field is GPIO_DIR_OUT, whether the trigger field is
      GPIO_TRIGGER_LEVEL or GPIO_TRIGGER_EDGE, and the RISING and FALLING
      bits. */
  datatype ConfigFlags = ConfigFlags(dirOut: bool, triggerLevel: bool, triggerEdge: bool,
                                     rising: bool, falling: bool)

  /** Both edges interrupt. */
  predicate BothEdges(f: ConfigFlags)
  {
    f.triggerEdge && f.rising && f.falling
  }

  /** Only the rising edge interrupts. */
  predicate RisingOnly(f: ConfigFlags)
  {
    f.triggerEdge && f.rising && !f.falling
  }

  /** The single bit 1 << k of an 8-bit register, spelled out. */
  function Bit(k: nat): (bit: bv8)
    requires k < 8
    ensures bit != 0
  {
    if k == 0 then 1 else if k == 1 then 2 else if k == 2 then 4 else if k == 3 then 8
    else if k == 4 then 16 else if k == 5 then 32 else if k == 6 then 64 else 128
  }

  /** The tables are 1 << k and (1 << k) << 2. */
  lemma BitIsShift(k: nat)
    requires k < 8
    ensures Bit(k) == (1 as bv8) << k
    ensures GpioData(k) == Bit(k) as nat * 4
  {
    if k < 4 {
      assert k == 0 || k == 1 || k == 2 || k == 3;
    } else {
      assert k == 4 || k == 5 || k == 6 || k == 7;
    }
  }

  /** `v` with the bits of `bit` set when `on` and cleared otherwise. */
  function SetBitIf(v: bv8, bit: bv8, on: bool): bv8
  {
    if on then v | bit else v & !bit
  }

  /** A register value `v` that says `on` in the bits of `bit` and keeps the
      other bits of `was`. */
  predicate SaysPin(v: bv8, was: bv8, bit: bv8, on: bool)
  {
    (v & bit != 0 <==> on) && v & !bit == was & !bit
  }

  /** Setting or clearing the bits of a non-zero mask makes them say `on`
      and leaves the other bits alone. */
  lemma SetBitIfOneBit(v: bv8, bit: bv8, on: bool)
    requires bit != 0
    ensures SaysPin(SetBitIf(v, bit, on), v, bit, on)
  {
  }

  /** A pin's index relative to the controller's first GPIO, in uint32_t
      arithmetic. */
  function RelIndex(gpioStart: nat, index: nat): (r: nat)
    requires gpioStart < U32_MOD && index < U32_MOD
    ensures r < U32_MOD
    ensures gpioStart <= index ==> r == index - gpioStart
  {
    Sub32(index, gpioStart)
  }

  /** The writes pl061_gpio_config issues, in order, to a page whose
      GPIODIR, GPIOIS, GPIOIBE and GPIOIEV registers held `dir`, `sense`, `ibe`
      and `iev`: each register's old value with the pin's bit set or
      cleared. */
  function ConfigWrites(regs: nat, dir: bv8, sense: bv8, ibe: bv8, iev: bv8, bit: bv8, f: ConfigFlags)
    : seq<RegWrite<bv8>>
  {
    [RegWrite(regs + GPIODIR, SetBitIf(dir, bit, f.dirOut)),
     RegWrite(regs + GPIOIS, SetBitIf(sense, bit, f.triggerLevel)),
     RegWrite(regs + GPIOIBE, SetBitIf(ibe, bit, BothEdges(f))),
     RegWrite(regs + GPIOIEV, SetBitIf(iev, bit, RisingOnly(f)))]
  }

  /** What pl061_gpio_config does to the pin's page: it rewrites GPIODIR,
      GPIOIS, GPIOIBE and GPIOIEV, in that order; in them the pin's bit says
      OUT, level-triggered, both edges and rising edge only, and every other
      bit keeps its old value. */
  lemma ConfigSpec(regs: nat, dir: bv8, sense: bv8, ibe: bv8, iev: bv8, k: nat, f: ConfigFlags)
    requires k < 8
    ensures var ws := ConfigWrites(regs, dir, sense, ibe, iev, Bit(k), f);
            |ws| == 4 &&
            ws[0].addr == regs + GPIODIR && ws[1].addr == regs + GPIOIS &&
            ws[2].addr == regs + GPIOIBE && ws[3].addr == regs + GPIOIEV
    ensures var ws := ConfigWrites(regs, dir, sense, ibe, iev, Bit(k), f);
            var bit := Bit(k);
            SaysPin(ws[0].value, dir, bit, f.dirOut) &&
            SaysPin(ws[1].value, sense, bit, f.triggerLevel) &&
            SaysPin(ws[2].value, ibe, bit, BothEdges(f)) &&
            SaysPin(ws[3].value, iev, bit, RisingOnly(f))
  {
    var bit := Bit(k);
    SetBitIfOneBit(dir, bit, f.dirOut);
    SetBitIfOneBit(sense, bit, f.triggerLevel);
    SetBitIfOneBit(ibe, bit, BothEdges(f));
    SetBitIfOneBit(iev, bit, RisingOnly(f));
  }

  /** The value pl061_gpio_read reports for a data register reading `v`:
      1 exactly when the pin's bit is set. */
  function PinLevel(v: bv8, bit: bv8): (r: bv8)
    ensures r == 0 || r == 1
    ensures r == 1 <==> v & bit != 0
  {
    if v & bit != 0 then 1 else 0
  }

  /** The value pl061_gpio_write stores into the pin's data register. */
  function DataValue(value: bv8, bit: bv8): bv8
  {
    if value != 0 then bit else 0
  }

  /** Writing a value and reading the pin back yields 1 exactly when the
      value written was non-zero. This holds for the register window of this
      model, where the masked data address GPIODATA(bit) reads back what was
      last written to it; on the PL061 itself each masked address is a view
      of the one data register and an input pin reads the line, not the
      value written. */
  lemma WriteThenRead(value: bv8, k: nat)
    requires k < 8
    ensures PinLevel(DataValue(value, Bit(k)), Bit(k)) == (if value != 0 then 1 else 0)
  {
  }

  /** pl061_gpios_t: the controller's mapped register buffer and the number
      of its first GPIO. */
  class Pl061Gpios {
    const buffer: IoBuffer.IoBufferT
    const gpioStart: nat
    const regs: Regs8

    constructor(buffer: IoBuffer.IoBufferT, gpioStart: nat, regs: Regs8)
      ensures this.buffer == buffer && this.gpioStart == gpioStart && this.regs == regs
    {
      this.buffer := buffer;
      this.gpioStart := gpioStart;
      this.regs := regs;
    }

    /** The address of the register page that holds GPIO `index`. */
    function PageBase(index: nat): nat
      requires gpioStart < U32_MOD && index < U32_MOD
    {
      Add64(IoBuffer.Virt(buffer), PAGE_SIZE * (RelIndex(gpioStart, index) / GPIOS_PER_PAGE))
    }

    /** The bit position of GPIO `index` within its page's registers. */
    function BitIndex(index: nat): (k: nat)
      requires gpioStart < U32_MOD && index < U32_MOD
      ensures k < 8
    {
      RelIndex(gpioStart, index) % GPIOS_PER_PAGE
    }

    /** Two GPIOs of one group of eight share their register page and use
        different bits of it. */
    lemma PinsOfOnePage(i: nat, j: nat)
      requires gpioStart <= i < U32_MOD && gpioStart <= j < U32_MOD && i != j
      requires (i - gpioStart) / GPIOS_PER_PAGE == (j - gpioStart) / GPIOS_PER_PAGE
      ensures PageBase(i) == PageBase(j) && BitIndex(i) != BitIndex(j)
    {
      var ri, rj := i - gpioStart, j - gpioStart;
      assert ri == GPIOS_PER_PAGE * (ri / GPIOS_PER_PAGE) + ri % GPIOS_PER_PAGE;
      assert rj == GPIOS_PER_PAGE * (rj / GPIOS_PER_PAGE) + rj % GPIOS_PER_PAGE;
    }

    /** pl061_gpio_config: program direction and interrupt trigger of one
        pin with four read-modify-writes. */
    method Config(index: nat, flags: ConfigFlags) returns (status: Status)
      requires gpioStart < U32_MOD && index < U32_MOD
      modifies regs
      ensures status == Ok
      ensures var base := PageBase(index);
              regs.writes == old(regs.writes) +
                ConfigWrites(base, old(regs.Peek(base + GPIODIR)), old(regs.Peek(base + GPIOIS)),
                             old(regs.Peek(base + GPIOIBE)), old(regs.Peek(base + GPIOIEV)),
                             Bit(BitIndex(index)), flags)
    {
      var base := PageBase(index);
      var bit := Bit(BitIndex(index));
      UpdateBit(base + GPIODIR, bit, flags.dirOut);
      UpdateBit(base + GPIOIS, bit, flags.triggerLevel);
      UpdateEdges(base, bit, flags);
      status := Ok;
    }

    /** One read-modify-write of a register: `reg |= bit` when `on`, else
        `reg &= ~bit`. */
    method UpdateBit(addr: nat, bit: bv8, on: bool)
      modifies regs
      ensures regs.writes == old(regs.writes) + [RegWrite(addr, SetBitIf(old(regs.Peek(addr)), bit, on))]
      ensures forall a :: a != addr ==> regs.Peek(a) == old(regs.Peek(a))
    {
      var v := regs.Read(addr);
      v := SetBitIf(v, bit, on);
      regs.Write(v, addr);
    }

    /** Read GPIOIBE and GPIOIEV, then write both back with the pin's bit
        saying both edges and rising edge only. */
    method UpdateEdges(base: nat, bit: bv8, flags: ConfigFlags)
      modifies regs
      ensures regs.writes == old(regs.writes) +
                [RegWrite(base + GPIOIBE, SetBitIf(old(regs.Peek(base + GPIOIBE)), bit, BothEdges(flags))),
                 RegWrite(base + GPIOIEV, SetBitIf(old(regs.Peek(base + GPIOIEV)), bit, RisingOnly(flags)))]
    {
      var be := regs.Read(base + GPIOIBE);
      var iev := regs.Read(base + GPIOIEV);
      be := SetBitIf(be, bit, BothEdges(flags));
      iev := SetBitIf(iev, bit, RisingOnly(flags));
      regs.Write(be, base + GPIOIBE);
      regs.Write(iev, base + GPIOIEV);
    }

    /** pl061_gpio_read: read the pin through its masked data address. */
    method Read(index: nat) returns (status: Status, value: bv8)
      requires gpioStart < U32_MOD && index < U32_MOD
      ensures status == Ok
      ensures var bit := Bit(BitIndex(index));
              value == PinLevel(regs.Peek(PageBase(index) + GpioData(BitIndex(index))), bit)
    {
      var bit := Bit(BitIndex(index));
      var v := regs.Read(PageBase(index) + GpioData(BitIndex(index)));
      value := if v & bit != 0 then 1 else 0;
      status := Ok;
    }

    /** pl061_gpio_write: store the pin's bit, or 0, at its masked data
        address. */
    method Write(index: nat, value: bv8) returns (status: Status)
      requires gpioStart < U32_MOD && index < U32_MOD
      modifies regs
      ensures status == Ok
      ensures var bit := Bit(BitIndex(index));
              regs.writes == old(regs.writes) + [RegWrite(PageBase(index) + GpioData(BitIndex(index)), DataValue(value, bit))]
    {
      var bit := Bit(BitIndex(index));
      regs.Write(if value != 0 then bit else 0, PageBase(index) + GpioData(BitIndex(index)));
      status := Ok;
    }
  }

  /** Through the driver: a pin written and then read back reports 1
      exactly when the value written was non-zero. Like WriteThenRead, this
      holds under the model's register window, in which every masked data
      address is an independent register that reads back its last write. */
  method WriteThenReadPin(g: Pl061Gpios, index: nat, value: bv8) returns (level: bv8)
    requires g.gpioStart < U32_MOD && index < U32_MOD
    modifies g.regs
    ensures level == (if value != 0 then 1 else 0)
  {
    var _ := g.Write(index, value);
    var status;
    status, level := g.Read(index);
    WriteThenRead(value, g.BitIndex(index));
  }
}
