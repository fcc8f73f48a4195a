// The Amlogic A113 GPIO and pin-mux driver (a113-gpio.c). Pins are grouped
// into a fixed table of blocks; each block names its bank's first pin, its
// pin-mux register, its direction/level control register and the physical
// page of the control block it lives in. Registers are 32 bits wide and are
// addressed as `uint32_t*` plus a word offset, so a register at offset `o`
// from a base lies 4 * o bytes past it.
module A113Gpio {
  import opened Zx
  import opened Mmio
  import IoBuffer

  /** Physical address of the pin-mux/GPIO control block. */
  const GPIO_BASE_PHYS: nat := 0xff634400
  /** Physical address of the "always on" domain's control block. */
  const GPIOAO_BASE_PHYS: nat := 0xff800000

  /** An address with its offset into the page masked off,
      `~(PAGE_SIZE - 1) & phys`. */
  function BasePage(phys: nat): (page: nat)
    ensures page <= phys && phys - page < PAGE_SIZE && page % PAGE_SIZE == 0
  {
    phys - phys % PAGE_SIZE
  }

  const GPIO_BASE_PAGE: nat := BasePage(GPIO_BASE_PHYS)
  const GPIOAO_BASE_PAGE: nat := BasePage(GPIOAO_BASE_PHYS)

  /** The control block sits 0x400 into its page; the AO block starts its
      page. The two pages differ, so init's switch can tell them apart. */
  lemma BasePages()
    ensures GPIO_BASE_PAGE == 0xff634000 && GPIO_BASE_PHYS - GPIO_BASE_PAGE == 0x400
    ensures GPIOAO_BASE_PAGE == 0xff800000 && GPIOAO_BASE_PHYS - GPIOAO_BASE_PAGE == 0
    ensures GPIO_BASE_PAGE != GPIOAO_BASE_PAGE
  {
    assert GPIO_BASE_PHYS % PAGE_SIZE == 0x400;
    assert GPIOAO_BASE_PHYS % PAGE_SIZE == 0;
  }

  /** The SoC constants of a113-hw.h the driver uses: the first pin of each
      bank, the word offsets of the pin-mux registers PERIPHS_PIN_MUX_0 to
      PERIPHS_PIN_MUX_D (indexed by their number), of AO_RTI_PIN_MUX_REG0/1,
      of GPIO_REG0_EN_N to GPIO_REG4_EN_N and AO_GPIO_O_EN_N, of the input
      and output registers relative to the enable register, and the largest
      alternate function A113_PINMUX_ALT_FN_MAX. */
  datatype Hw = Hw(gpioxStart: nat, gpioaStart: nat, gpiobStart: nat, gpioyStart: nat,
                   gpiozStart: nat, gpioaoStart: nat,
                   periphsPinMux: seq<nat>, aoPinMux0: nat, aoPinMux1: nat,
                   gpioRegEnN: seq<nat>, aoGpioOEnN: nat,
                   gpioInputOffset: nat, gpioOutputOffset: nat, gpioaoInputOffset: nat,
                   altFnMax: nat)
  {
    /** Every register table is complete, every bank leaves room for its
        pins in uint32_t, the AO bank's first pin is not another bank's, and
        every alternate function fits a pin's 4-bit mux field. */
    predicate Sane()
    {
      |periphsPinMux| == 14 && |gpioRegEnN| == 5 && altFnMax < 16 &&
      gpioxStart + 32 < U32_MOD && gpioaStart + 32 < U32_MOD && gpiobStart + 32 < U32_MOD &&
      gpioyStart + 32 < U32_MOD && gpiozStart + 32 < U32_MOD && gpioaoStart + 32 < U32_MOD &&
      gpioaoStart !in {gpioxStart, gpioaStart, gpiobStart, gpioyStart, gpiozStart}
    }
  }

  /** gpio_block_t without its lock. */
  datatype GpioBlock = GpioBlock(startPin: nat, pinBlock: nat, pinCount: nat,
                                 muxOffset: nat, ctrlOffset: nat,
                                 ctrlBasePhys: nat, ctrlBaseVirt: nat)

  /** The shape every table entry has: the block's pins follow its bank's
      first pin closely enough that a pin's bit fits the 32-bit control
      register (for the AO bank also 16 bits higher, where its output bits
      are), at most eight pins share one mux register, and `start_pin +
      pin_count` does not wrap. */
  predicate BlockOk(b: GpioBlock, aoStart: nat)
  {
    b.pinCount <= 8 && b.pinBlock <= b.startPin && b.startPin + b.pinCount < U32_MOD &&
    b.startPin + b.pinCount <= b.pinBlock + (if b.pinBlock == aoStart then 16 else 32)
  }

  /** pinmux_blocks as it is before init: five banks on the GPIO control
      page and the AO bank on its own page, none of them mapped yet. */
  function PinmuxBlocks(hw: Hw): (t: seq<GpioBlock>)
    requires hw.Sane()
    ensures |t| == 14
  {
    var mux := hw.periphsPinMux;
    var en := hw.gpioRegEnN;
    [GpioBlock(hw.gpioxStart + 0, hw.gpioxStart, 8, mux[0x4], en[2], GPIO_BASE_PAGE, 0),
     GpioBlock(hw.gpioxStart + 8, hw.gpioxStart, 8, mux[0x5], en[2], GPIO_BASE_PAGE, 0),
     GpioBlock(hw.gpioxStart + 16, hw.gpioxStart, 7, mux[0x6], en[2], GPIO_BASE_PAGE, 0),
     GpioBlock(hw.gpioaStart + 0, hw.gpioaStart, 8, mux[0xB], en[0], GPIO_BASE_PAGE, 0),
     GpioBlock(hw.gpioaStart + 8, hw.gpioaStart, 8, mux[0xC], en[0], GPIO_BASE_PAGE, 0),
     GpioBlock(hw.gpioaStart + 16, hw.gpioaStart, 5, mux[0xD], en[0], GPIO_BASE_PAGE, 0),
     GpioBlock(hw.gpiobStart + 0, hw.gpiobStart, 8, mux[0x0], en[4], GPIO_BASE_PAGE, 0),
     GpioBlock(hw.gpiobStart + 8, hw.gpiobStart, 7, mux[0x1], en[4], GPIO_BASE_PAGE, 0),
     GpioBlock(hw.gpioyStart + 0, hw.gpioyStart, 8, mux[0x8], en[1], GPIO_BASE_PAGE, 0),
     GpioBlock(hw.gpioyStart + 8, hw.gpioyStart, 8, mux[0x9], en[1], GPIO_BASE_PAGE, 0),
     GpioBlock(hw.gpiozStart + 0, hw.gpiozStart, 8, mux[0x2], en[3], GPIO_BASE_PAGE, 0),
     GpioBlock(hw.gpiozStart + 8, hw.gpiozStart, 3, mux[0x3], en[3], GPIO_BASE_PAGE, 0),
     GpioBlock(hw.gpioaoStart + 0, hw.gpioaoStart, 8, hw.aoPinMux0, hw.aoGpioOEnN, GPIOAO_BASE_PAGE, 0),
     GpioBlock(hw.gpioaoStart + 8, hw.gpioaoStart, 6, hw.aoPinMux1, hw.aoGpioOEnN, GPIOAO_BASE_PAGE, 0)]
  }

  /** Every entry of the table has the shape the pin operations rely on. */
  lemma TableWellFormed(hw: Hw)
    requires hw.Sane()
    ensures forall i :: 0 <= i < 14 ==> BlockOk(PinmuxBlocks(hw)[i], hw.gpioaoStart)
  {
  }

  /** Whether a block holds `pin`: start_pin <= pin < start_pin + pin_count,
      the end computed in uint32_t. */
  predicate HoldsPin(b: GpioBlock, pin: nat)
  {
    b.startPin <= pin < Add32(b.startPin, b.pinCount)
  }

  /** a113_pin_to_block: the first block of the table that holds the pin,
      or none. */
  function FirstBlock(t: seq<GpioBlock>, pin: nat): (r: Option<nat>)
    ensures r.Some? ==> r.value < |t| && HoldsPin(t[r.value], pin) &&
                        forall j :: 0 <= j < r.value ==> !HoldsPin(t[j], pin)
    ensures r.None? <==> forall j :: 0 <= j < |t| ==> !HoldsPin(t[j], pin)
  {
    if t == [] then None
    else if HoldsPin(t[0], pin) then Some(0)
    else match FirstBlock(t[1..], pin)
      case None => None
      case Some(i) => Some(i + 1)
  }

  /** The table never names a control page that init does not know, so init
      cannot fail with ZX_ERR_NOT_SUPPORTED. */
  lemma TableBasesKnown(hw: Hw)
    requires hw.Sane()
    ensures forall i :: 0 <= i < 14 ==> KnownBase(PinmuxBlocks(hw)[i])
  {
  }

  /** init's switch has a case for the block's physical base. */
  predicate KnownBase(b: GpioBlock)
  {
    b.ctrlBasePhys == GPIOAO_BASE_PAGE || b.ctrlBasePhys == GPIO_BASE_PAGE
  }

  /** The virtual address init gives a block whose control page is known:
      the mapped page of its domain plus the control block's offset into
      that page, in 64-bit address arithmetic. */
  function BlockVirt(b: GpioBlock, periphsVirt: nat, aoVirt: nat): (v: nat)
    requires KnownBase(b)
    ensures v < U64_MOD
    ensures b.ctrlBasePhys == GPIOAO_BASE_PAGE && aoVirt < U64_MOD ==> v == aoVirt
    ensures b.ctrlBasePhys != GPIOAO_BASE_PAGE && periphsVirt + 0x400 < U64_MOD ==> v == periphsVirt + 0x400
  {
    BasePages();
    if b.ctrlBasePhys == GPIOAO_BASE_PAGE then Add64(aoVirt, GPIOAO_BASE_PHYS - GPIOAO_BASE_PAGE)
    else Add64(periphsVirt, GPIO_BASE_PHYS - GPIO_BASE_PAGE)
  }

  /** The number of leading blocks of `t` whose control page init knows. */
  function KnownPrefix(t: seq<GpioBlock>): (n: nat)
    ensures n <= |t|
    ensures forall j :: 0 <= j < n ==> KnownBase(t[j])
    ensures n < |t| ==> !KnownBase(t[n])
  {
    if t == [] || !KnownBase(t[0]) then 0 else 1 + KnownPrefix(t[1..])
  }

  /** A pin's bit position as the uint32_t shift amount the driver uses. */
  function Shift(n: nat): (k: bv32)
    requires n < 32
    ensures k < 32
  {
    n as bv32
  }

  /** The pin's bit, 1 << k, of a 32-bit register. */
  function PinMask(k: bv32): bv32
    requires k < 32
  {
    1 << k
  }

  lemma PinMaskNonZero(k: bv32)
    requires k < 32
    ensures PinMask(k) != 0
  {
  }

  /** `v` with the bits of `mask` set when `on` and cleared otherwise. */
  function SetBitIf(v: bv32, mask: bv32, on: bool): bv32
  {
    if on then v | mask else v & !mask
  }

  /** A register value `v` that says `on` in the bits of `mask` and keeps the
      other bits of `was`. */
  predicate SaysPin(v: bv32, was: bv32, mask: bv32, on: bool)
  {
    (v & mask != 0 <==> on) && v & !mask == was & !mask
  }

  lemma SetPinBitOn(v: bv32, mask: bv32)
    requires mask != 0
    ensures SaysPin(v | mask, v, mask, true)
  {
    SetMask(v, mask);
  }

  lemma SetPinBitOff(v: bv32, mask: bv32)
    ensures SaysPin(v & !mask, v, mask, false)
  {
    ClearMask(v, mask);
  }

  /** Setting or clearing a non-zero mask makes its bits say `on` and leaves
      every other bit alone. */
  lemma SetPinBit(v: bv32, mask: bv32, on: bool)
    requires mask != 0
    ensures SaysPin(SetBitIf(v, mask, on), v, mask, on)
  {
    if on {
      SetPinBitOn(v, mask);
    } else {
      SetPinBitOff(v, mask);
    }
  }

  /** pin_shift for the k-th pin of a block: (pin - start_pin) * 4. */
  function MuxShift(k: nat): (sh: bv32)
    requires k < 8
    ensures sh <= 28
  {
    (4 * k) as bv32
  }

  /** The 4-bit pin-mux field at shift `sh`, 0x0F << sh. */
  function MuxMask(sh: bv32): bv32
    requires sh <= 28
  {
    0xF << sh
  }

  /** The pin-mux register after selecting function `fn` for the field at
      shift `sh`: the field cleared, then `fn << sh` ORed in. */
  function MuxValue(was: bv32, sh: bv32, fn: bv32): bv32
    requires sh <= 28
  {
    (was & !MuxMask(sh)) | (fn << sh)
  }

  lemma MuxFieldHolds(was: bv32, sh: bv32, fn: bv32)
    requires sh <= 28 && fn < 16
    ensures MuxValue(was, sh, fn) & MuxMask(sh) == fn << sh
  {
  }

  lemma MuxOthersKept(was: bv32, sh: bv32, fn: bv32)
    requires sh <= 28 && fn < 16
    ensures MuxValue(was, sh, fn) & !MuxMask(sh) == was & !MuxMask(sh)
  {
  }

  /** For a function number that fits four bits, the pin's field holds it
      afterwards and every other field keeps its value. */
  lemma MuxFieldUpdate(was: bv32, sh: bv32, fn: bv32)
    requires sh <= 28 && fn < 16
    ensures MuxValue(was, sh, fn) & MuxMask(sh) == fn << sh
    ensures MuxValue(was, sh, fn) & !MuxMask(sh) == was & !MuxMask(sh)
  {
    MuxFieldHolds(was, sh, fn);
    MuxOthersKept(was, sh, fn);
  }

  /** Any function number PinmuxConfig accepts fits the 4-bit field, so the
      value it writes selects that function for the pin and keeps every other
      field. */
  lemma PinmuxSelectsFunction(hw: Hw, was: bv32, sh: bv32, fn: bv32)
    requires hw.Sane() && fn as nat <= hw.altFnMax && sh <= 28
    ensures MuxValue(was, sh, fn) & MuxMask(sh) == fn << sh
    ensures MuxValue(was, sh, fn) & !MuxMask(sh) == was & !MuxMask(sh)
  {
    assert fn < 16 by {
      assert fn as nat < 16;
    }
    MuxFieldUpdate(was, sh, fn);
  }

  /** The direction bit's polarity: in the AO bank the bit set means output,
      in all other banks the bit set means input. */
  function DirBitSet(b: GpioBlock, aoStart: nat, dirOut: bool): (on: bool)
    ensures b.pinBlock == aoStart ==> (on <==> dirOut)
    ensures b.pinBlock != aoStart ==> (on <==> !dirOut)
  {
    if b.pinBlock == aoStart then dirOut else !dirOut
  }

  /** A read-modify-write of one pin's bit makes that bit say `on` and
      keeps every other bit of the register. */
  lemma PinBitSaysPin(was: bv32, k: bv32, on: bool)
    requires k < 32
    ensures SaysPin(SetBitIf(was, PinMask(k), on), was, PinMask(k), on)
  {
    PinMaskNonZero(k);
    SetPinBit(was, PinMask(k), on);
  }

  /** The value a113_gpio_read reports for an input register reading `v`. */
  function PinLevel(v: bv32, k: bv32): (r: nat)
    requires k < 32
    ensures r == 0 || r == 1
    ensures r == 1 <==> v & PinMask(k) != 0
  {
    if v & PinMask(k) != 0 then 1 else 0
  }

  /** The GPIO state of an A113 bus: its two mapped register pages (None
      before init and after release), the pinmux_blocks table and the
      device registers, addressed by virtual address. */
  class A113Bus {
    const hw: Hw
    const blocks: array<GpioBlock>
    const regs: Regs32
    var periphsReg: Option<IoBuffer.IoBufferT>
    var periphsAoReg: Option<IoBuffer.IoBufferT>

    predicate Valid()
      reads this, blocks
    {
      hw.Sane() && forall i :: 0 <= i < blocks.Length ==> BlockOk(blocks[i], hw.gpioaoStart)
    }

    constructor(hw: Hw, regs: Regs32)
      requires hw.Sane()
      ensures Valid() && fresh(blocks)
      ensures this.hw == hw && this.regs == regs && blocks[..] == PinmuxBlocks(hw)
      ensures periphsReg == None && periphsAoReg == None
    {
      this.hw := hw;
      this.regs := regs;
      var t := PinmuxBlocks(hw);
      blocks := new GpioBlock[14](i requires 0 <= i < 14 => t[i]);
      periphsReg, periphsAoReg := None, None;
      new;
      TableWellFormed(hw);
      assert blocks[..] == t;
    }

    /** a113_pin_to_block: scan the table for the first block holding the
        pin. */
    method PinToBlock(pin: nat) returns (status: Status, i: nat)
      ensures status == Ok || status == ErrNotFound
      ensures status == Ok <==> FirstBlock(blocks[..], pin).Some?
      ensures status == Ok ==> i == FirstBlock(blocks[..], pin).value && i < blocks.Length
    {
      i := 0;
      while i < blocks.Length
        invariant i <= blocks.Length
        invariant forall j :: 0 <= j < i ==> !HoldsPin(blocks[j], pin)
      {
        var end := Add32(blocks[i].startPin, blocks[i].pinCount);
        if pin >= blocks[i].startPin && pin < end {
          FirstBlockIs(blocks[..], pin, i);
          return Ok, i;
        }
        i := i + 1;
      }
      status := ErrNotFound;
    }

    /** a113_pinmux_config: select alternate function `fn` for `pin` by
        rewriting the pin's 4-bit field of its block's mux register. */
    method PinmuxConfig(pin: nat, fn: bv32) returns (status: Status)
      requires Valid()
      modifies regs
      ensures fn as nat > hw.altFnMax ==> status == ErrOutOfRange && regs.writes == old(regs.writes)
      ensures fn as nat <= hw.altFnMax && FirstBlock(blocks[..], pin).None? ==>
                status == ErrNotFound && regs.writes == old(regs.writes)
      ensures fn as nat <= hw.altFnMax && FirstBlock(blocks[..], pin).Some? ==>
                var b := blocks[FirstBlock(blocks[..], pin).value];
                var addr := b.ctrlBaseVirt + 4 * b.muxOffset;
                status == Ok &&
                regs.writes == old(regs.writes) +
                  [RegWrite(addr, MuxValue(old(regs.Peek(addr)), MuxShift(pin - b.startPin), fn))]
    {
      if fn as nat > hw.altFnMax {
        return ErrOutOfRange;
      }
      var i;
      status, i := PinToBlock(pin);
      if status != Ok {
        return;
      }
      var b := blocks[i];
      UpdateMux(b.ctrlBaseVirt + 4 * b.muxOffset, MuxShift(pin - b.startPin), fn);
    }

    /** The read-modify-write of a pin-mux register. */
    method UpdateMux(addr: nat, sh: bv32, fn: bv32)
      requires sh <= 28
      modifies regs
      ensures regs.writes == old(regs.writes) + [RegWrite(addr, MuxValue(old(regs.Peek(addr)), sh, fn))]
    {
      var regval := regs.Read(addr);
      regval := MuxValue(regval, sh, fn);
      regs.Write(regval, addr);
    }

    /** a113_gpio_config: find the pin's block and set its direction. */
    method Config(index: nat, dirOut: bool) returns (status: Status)
      requires Valid()
      modifies regs
      ensures FirstBlock(blocks[..], index).None? ==> status == ErrNotFound && regs.writes == old(regs.writes)
      ensures FirstBlock(blocks[..], index).Some? ==>
                var b := blocks[FirstBlock(blocks[..], index).value];
                var addr := b.ctrlBaseVirt + 4 * b.ctrlOffset;
                status == Ok &&
                regs.writes == old(regs.writes) +
                  [RegWrite(addr, SetBitIf(old(regs.Peek(addr)), PinMask(Shift(index - b.pinBlock)),
                                           DirBitSet(b, hw.gpioaoStart, dirOut)))]
    {
      var i;
      status, i := PinToBlock(index);
      if status != Ok {
        return;
      }
      status := SetDirection(blocks[i], index, dirOut);
    }

    /** a113_gpio_set_direction: one read-modify-write of the block's enable
        register, with the AO bank's polarity inverted. */
    method SetDirection(b: GpioBlock, index: nat, dirOut: bool) returns (status: Status)
      requires BlockOk(b, hw.gpioaoStart) && HoldsPin(b, index)
      modifies regs
      ensures status == Ok
      ensures var addr := b.ctrlBaseVirt + 4 * b.ctrlOffset;
              regs.writes == old(regs.writes) +
                [RegWrite(addr, SetBitIf(old(regs.Peek(addr)), PinMask(Shift(index - b.pinBlock)),
                                         DirBitSet(b, hw.gpioaoStart, dirOut)))]
    {
      var addr := b.ctrlBaseVirt + 4 * b.ctrlOffset;
      var regval := regs.Read(addr);
      regval := SetBitIf(regval, PinMask(Shift(index - b.pinBlock)), DirBitSet(b, hw.gpioaoStart, dirOut));
      regs.Write(regval, addr);
      status := Ok;
    }

    /** The input register of a block: GPIOAO_INPUT_OFFSET past the AO
        enable register, GPIO_INPUT_OFFSET past the others. */
    function InputAddr(b: GpioBlock): nat
      reads this
    {
      b.ctrlBaseVirt + 4 * (b.ctrlOffset +
        (if b.pinBlock == hw.gpioaoStart then hw.gpioaoInputOffset else hw.gpioInputOffset))
    }

    /** a113_gpio_read: 1 exactly when the pin's bit is set in its block's
        input register. */
    method Read(index: nat) returns (status: Status, value: nat)
      requires Valid()
      ensures FirstBlock(blocks[..], index).None? ==> status == ErrNotFound
      ensures FirstBlock(blocks[..], index).Some? ==>
                var b := blocks[FirstBlock(blocks[..], index).value];
                status == Ok && value == PinLevel(regs.Peek(InputAddr(b)), Shift(index - b.pinBlock))
    {
      var i;
      value := 0;
      status, i := PinToBlock(index);
      if status != Ok {
        return;
      }
      var b := blocks[i];
      var regval := regs.Read(InputAddr(b));
      value := PinLevel(regval, Shift(index - b.pinBlock));
    }

    /** The register a113_gpio_write changes: the AO enable register itself,
        or GPIO_OUTPUT_OFFSET past the other banks' enable register. */
    function OutputAddr(b: GpioBlock): nat
      reads this
    {
      b.ctrlBaseVirt + 4 * (b.ctrlOffset + (if b.pinBlock == hw.gpioaoStart then 0 else hw.gpioOutputOffset))
    }

    /** The bit a113_gpio_write changes: the pin's bit, 16 higher in the AO
        bank. */
    function OutputBit(b: GpioBlock, index: nat): (k: nat)
      requires BlockOk(b, hw.gpioaoStart) && HoldsPin(b, index)
      reads this
      ensures k < 32
    {
      if b.pinBlock == hw.gpioaoStart then index - b.pinBlock + 16 else index - b.pinBlock
    }

    /** a113_gpio_write: set the pin's output bit when `value` is non-zero,
        clear it otherwise. */
    method Write(index: nat, value: bv8) returns (status: Status)
      requires Valid()
      modifies regs
      ensures FirstBlock(blocks[..], index).None? ==> status == ErrNotFound && regs.writes == old(regs.writes)
      ensures FirstBlock(blocks[..], index).Some? ==>
                var b := blocks[FirstBlock(blocks[..], index).value];
                status == Ok &&
                regs.writes == old(regs.writes) +
                  [RegWrite(OutputAddr(b), SetBitIf(old(regs.Peek(OutputAddr(b))),
                                                    PinMask(Shift(OutputBit(b, index))), value != 0))]
    {
      var i;
      status, i := PinToBlock(index);
      if status != Ok {
        return;
      }
      var b := blocks[i];
      var addr := OutputAddr(b);
      var regval := regs.Read(addr);
      regval := SetBitIf(regval, PinMask(Shift(OutputBit(b, index))), value != 0);
      regs.Write(regval, addr);
    }

    /** a113_gpio_init: map the GPIO page and then the AO page, releasing
        the first when the second fails; then give every block the virtual
        address of its control block, failing with ZX_ERR_NOT_SUPPORTED at
        the first block whose page is unknown (the blocks before it keep
        their new address) and releasing both pages. The outcomes of the two
        mappings are parameters. */
    method Init(periphsStatus: Status, periphs: IoBuffer.IoBufferT,
                aoStatus: Status, ao: IoBuffer.IoBufferT) returns (status: Status)
      requires Valid()
      modifies this, blocks
      ensures Valid()
      ensures periphsStatus != Ok ==> status == periphsStatus && blocks[..] == old(blocks[..])
      ensures periphsStatus == Ok && aoStatus != Ok ==> status == aoStatus && blocks[..] == old(blocks[..])
      ensures periphsStatus == Ok && aoStatus == Ok ==>
                var n := KnownPrefix(old(blocks[..]));
                (status == Ok <==> n == blocks.Length) &&
                (status != Ok ==> status == ErrNotSupported) &&
                (forall j :: 0 <= j < n ==>
                   blocks[j] == old(blocks[j]).(ctrlBaseVirt := BlockVirt(old(blocks[j]), IoBuffer.Virt(periphs), IoBuffer.Virt(ao)))) &&
                (forall j :: n <= j < blocks.Length ==> blocks[j] == old(blocks[j]))
      ensures status == Ok ==> periphsReg == Some(periphs) && periphsAoReg == Some(ao)
      ensures status != Ok ==> periphsReg == None && periphsAoReg == None
    {
      if periphsStatus != Ok {
        periphsReg, periphsAoReg := None, None;
        return periphsStatus;
      }
      periphsReg := Some(periphs);
      if aoStatus != Ok {
        periphsReg, periphsAoReg := None, None;
        return aoStatus;
      }
      periphsAoReg := Some(ao);
      status := SetBlockBases(IoBuffer.Virt(periphs), IoBuffer.Virt(ao));
      if status != Ok {
        Release();
      }
    }

    /** The loop of a113_gpio_init over pinmux_blocks. */
    method SetBlockBases(periphsVirt: nat, aoVirt: nat) returns (status: Status)
      requires Valid()
      modifies blocks
      ensures Valid()
      ensures var n := KnownPrefix(old(blocks[..]));
              (status == Ok <==> n == blocks.Length) &&
              (status != Ok ==> status == ErrNotSupported) &&
              (forall j :: 0 <= j < n ==>
                 blocks[j] == old(blocks[j]).(ctrlBaseVirt := BlockVirt(old(blocks[j]), periphsVirt, aoVirt))) &&
              (forall j :: n <= j < blocks.Length ==> blocks[j] == old(blocks[j]))
    {
      ghost var t := blocks[..];
      var i := 0;
      while i < blocks.Length
        invariant i <= blocks.Length
        invariant forall j :: 0 <= j < i ==> KnownBase(t[j])
        invariant forall j :: 0 <= j < i ==> blocks[j] == t[j].(ctrlBaseVirt := BlockVirt(t[j], periphsVirt, aoVirt))
        invariant forall j :: i <= j < blocks.Length ==> blocks[j] == t[j]
        invariant Valid()
      {
        var b := blocks[i];
        if b.ctrlBasePhys == GPIOAO_BASE_PAGE {
          blocks[i] := b.(ctrlBaseVirt := Add64(aoVirt, GPIOAO_BASE_PHYS - GPIOAO_BASE_PAGE));
        } else if b.ctrlBasePhys == GPIO_BASE_PAGE {
          blocks[i] := b.(ctrlBaseVirt := Add64(periphsVirt, GPIO_BASE_PHYS - GPIO_BASE_PAGE));
        } else {
          KnownPrefixIs(t, i);
          return ErrNotSupported;
        }
        i := i + 1;
      }
      KnownPrefixIs(t, i);
      status := Ok;
    }

    /** a113_gpio_release: release both register pages. */
    method Release()
      modifies this
      ensures periphsReg == None && periphsAoReg == None
      ensures unchanged(regs)
    {
      periphsReg, periphsAoReg := None, None;
    }
  }

  /** The first block found is the one at `i` when no earlier block holds
      the pin and block `i` does. */
  lemma {:induction false} FirstBlockIs(t: seq<GpioBlock>, pin: nat, i: nat)
    requires i < |t| && HoldsPin(t[i], pin)
    requires forall j :: 0 <= j < i ==> !HoldsPin(t[j], pin)
    ensures FirstBlock(t, pin) == Some(i)
  {
    if i > 0 {
      assert !HoldsPin(t[0], pin);
      FirstBlockIs(t[1..], pin, i - 1);
    }
  }

  /** The known prefix is `i` long when the first `i` blocks have known
      pages and the next one, if any, does not. */
  lemma {:induction false} KnownPrefixIs(t: seq<GpioBlock>, i: nat)
    requires i <= |t|
    requires forall j :: 0 <= j < i ==> KnownBase(t[j])
    requires i < |t| ==> !KnownBase(t[i])
    ensures KnownPrefix(t) == i
  {
    if i > 0 {
      assert KnownBase(t[0]);
      KnownPrefixIs(t[1..], i - 1);
    }
  }

  /** On the table as the driver ships it, init succeeds once both pages are
      mapped and every block then points into its own domain's page. */
  method InitFreshBus(hw: Hw, regs: Regs32, periphs: IoBuffer.IoBufferT, ao: IoBuffer.IoBufferT)
    returns (bus: A113Bus, status: Status)
    requires hw.Sane()
    ensures status == Ok
    ensures bus.periphsReg == Some(periphs) && bus.periphsAoReg == Some(ao)
    ensures bus.blocks.Length == 14
    ensures forall j :: 0 <= j < 14 ==>
              bus.blocks[j].ctrlBaseVirt == BlockVirt(PinmuxBlocks(hw)[j], IoBuffer.Virt(periphs), IoBuffer.Virt(ao))
  {
    bus := new A113Bus(hw, regs);
    TableBasesKnown(hw);
    KnownPrefixIs(bus.blocks[..], 14);
    assert bus.blocks.Length == 14;
    status := bus.Init(Ok, periphs, Ok, ao);
  }
}
