# A verified model of parts of Zircon's drivers, kernel objects and minfs

This project models, in Dafny, the decision logic and bookkeeping of a set of
files from the Zircon kernel and its user-space drivers and libraries, and
proves what those files promise. Nothing of the original is executed; the
model is checked by the Dafny verifier alone.

The primary part is the allocation and layout engine of **minfs**, Zircon's
native filesystem (`system/ulib/minfs/minfs.cpp`):

- `MinfsFormat` — the superblock (`minfs_info_t`) and its mount-time check
  `minfs_check_info`: the magic/version/size checks, the fit on a plain
  device, the reconciliation of each region's volume-manager (FVM) slices
  with the counts the superblock expects, and the capacity and collision
  checks of the four regions; the inode-table offset arithmetic of
  `InodeSync`/`VnodeGet`; the plain-device layout of `minfs_mkfs`; `ReadBlk`.
- `MinfsBitmap` — the allocation bitmaps as a run of bits with a usable
  size: `Reset`, `Shrink`, `Grow`, `Set`, `Clear`, `Find` of a clear bit.
- `MinfsState` — the allocator's state as a value (superblock, the two
  bitmaps, the inode table, the write-back work submitted, the FVM requests
  sent) and the specification functions of `AddInodes`, `AddBlocks`,
  `InoNew`, `BlockNew`, `BlockFree` and `InoFree`, with the lemmas about
  them (first fit, hint order, grow-then-shrink, release order of the
  direct, indirect and doubly-indirect pointers, round trips).
- `Minfs` — the `Minfs` class itself: its fields updated in place by
  `Create`, `InodeSync`, `CountUpdate`, the growth and allocation methods,
  `InoFree` with its loops over the pointer arrays, and the vnode table
  (`VnodeNew`, `VnodeInsert`, `VnodeLookup`, `VnodeReleaseLocked`,
  `VnodeGet`). Each method is proved to produce exactly the effect the
  `MinfsState` function states.
- `MinfsMkfs` — `minfs_mkfs`: the geometry on the volume manager, with the
  slices given back on failure (`minfs_free_slices`), the two bitmaps it
  reserves, and the ordered list of blocks it writes.

The secondary parts are small, self-contained sequential cores:

- DMA pinning: the bus transaction initiator's list of pinned memory
  objects (`BusTxnInitiator`), the pinned memory object's contiguity test,
  extents and IOMMU mapping with first-error unmapping (`PinnedMemory`), the
  IOMMU interface (`IommuIface`) and the dummy IOMMU (`DummyIommu`), the
  Intel IOMMU's bus transaction id decoding (`IntelIommu`), and the argument
  and permission checks of `sys_vmo_create_contiguous`, `sys_iommu_create`
  and `sys_bti_pin` (`SyscallsDdk`).
- The PCI proxy protocol: the top devhost's RPC dispatch and replies
  (`Kpci`) and the proxy side's response checks, resource handling and
  bounded capability-list walk (section 6.7 of the PCI Local Bus
  Specification 3.0) (`PciProtocol`).
- Register-level drivers over a register window that records its writes
  (`Mmio`): the A113 GPIO and pin-mux driver (`A113Gpio`), the Amlogic I2C
  controller's token and data packing, slave address and connection list
  (`AmlI2c`, slave address per section 3.1.10 of the UM10204 I2C-bus
  specification), and the PL061 GPIO controller (`Pl061`).
- The xHCI root hub's port-status-change handling (`XhciRootHub`, PORTSC as
  in section 5.4.8 of the xHCI specification).
- The `io_buffer_t` accessors (`IoBuffer`), the `crypto::Bytes` buffer as
  its doc comments specify it (`CryptoBytes`), and the Gauss TDM audio output
  stream's request validation, format listing and ring-buffer sizing
  (`GaussTdm`).
- `Zx` holds the shared status codes, fixed-width arithmetic (`Add32`,
  `Sub64`, …) and rounding helpers.

Constants of the minfs on-disk format (block size 8192, inode size 256, 16
direct, 31 indirect and 1 doubly-indirect pointers, the FVM region starts
0x10000, 0x20000, 0x30000 and 0x40000, the magic numbers and version 6) and
a 4096-byte page are fixed; constants that live in headers that are not part
of this model (PORTSC bit masks, I2C token codes, PCI resource ids, rights
and flag bits, register offsets, audio protocol sizes) are parameters.
Collaborators whose code is not part of this model — the volume manager,
the block device, the IOMMU hardware, VM object pinning and page lookup,
channel writes, handle tables, user copies, memory allocation — are oracles:
parameters giving their answers, or logs of the requests made of them.

## Model

| member | source | states |
|---|---|---|
| DummyIommu.Create | kernel/dev/iommu/dummy/dummy_iommu.cpp:17-30 | OK exactly for a descriptor of the dummy descriptor's size when the allocation succeeds; INVALID_ARGS for a wrong size, NO_MEMORY for a failed allocation |
| DummyIommu.IsValidBusTxnId | kernel/dev/iommu/dummy/dummy_iommu.cpp:35-37 | every bus transaction id is valid |
| DummyIommu.Map | kernel/dev/iommu/dummy/dummy_iommu.cpp:39-53 | succeeds exactly for a page-aligned address and size with non-empty permissions inside read/write/execute, and then maps to the physical address itself; INVALID_ARGS otherwise |
| DummyIommu.Unmap | kernel/dev/iommu/dummy/dummy_iommu.cpp:55-60 | OK exactly for a page-aligned address and size, INVALID_ARGS otherwise |
| DummyIommu.ClearMappingsForBusTxnId | kernel/dev/iommu/dummy/dummy_iommu.cpp:62-64 | always OK |
| DummyIommu.Ops | kernel/dev/iommu/dummy/dummy_iommu.cpp:35-60 | the dummy IOMMU seen through the IOMMU interface accepts every bus transaction id |
| IntelIommu.DecodeBusTxnId | kernel/dev/iommu/intel/iommu_impl.h:55-58 | the bus is bits 15..8 and the device/function byte bits 7..0 of the id |
| IntelIommu.DecodeIgnoresHighBits | kernel/dev/iommu/intel/iommu_impl.h:55-58 | ids equal in their low 16 bits decode alike |
| IntelIommu.DecodePackedBdf | kernel/dev/iommu/intel/iommu_impl.h:55-58 | decoding the packed id, bus shifted left by 8 over device shifted left by 3 over function, gives back the bus and the device/function byte |
| IoBuffer.IsValid | system/ulib/ddk/include/ddk/io-buffer.h:74-76 | valid exactly when the VMO handle is not ZX_HANDLE_INVALID |
| IoBuffer.Virt | system/ulib/ddk/include/ddk/io-buffer.h:78-80 | the mapping base plus the offset, modulo 2^64 |
| IoBuffer.Phys | system/ulib/ddk/include/ddk/io-buffer.h:82-84 | the physical base plus the offset, modulo 2^64 |
| IoBuffer.VirtPhysSameByte | system/ulib/ddk/include/ddk/io-buffer.h:78-84 | virtual and physical address lie the same offset past their bases |
| IoBuffer.SizeAsWritten | system/ulib/ddk/include/ddk/io-buffer.h:95-102 | the 64-bit computation as written never reports more than the buffer's size |
| IoBuffer.Size | system/ulib/ddk/include/ddk/io-buffer.h:93-102 | the intended room: size minus offset minus off, and 0 once they reach the end |
| IoBuffer.SizeAsWrittenExact | system/ulib/ddk/include/ddk/io-buffer.h:95-102 | as written, exact whenever offset + off stays within the size |
| IoBuffer.SizeAsWrittenAgrees | system/ulib/ddk/include/ddk/io-buffer.h:95-102 | as written, equal to the intended room whenever offset + off fits in 64 bits |
| IoBuffer.SizeAsWrittenDoubleWrap | system/ulib/ddk/include/ddk/io-buffer.h:95-102 | size 100, offset 20, off 2^64 - 10: as written 90, intended 0 |
| Pl061.Bit | system/dev/gpio/pl061/pl061.c:29 | the pin's bit within an 8-bit register is never zero |
| Pl061.BitIsShift | system/dev/gpio/pl061/pl061.c:12 | the pin's bit is 1 << (index % 8) and its data register address is that mask shifted left by two |
| Pl061.SetBitIfOneBit | system/dev/gpio/pl061/pl061.c:33-37 | setting or clearing the pin's bit makes the pin's bit say the requested state and keeps every other bit |
| Pl061.RelIndex | system/dev/gpio/pl061/pl061.c:27 | the index relative to gpio_start, in uint32_t arithmetic; exact when the index is not below the start |
| Pl061.ConfigSpec | system/dev/gpio/pl061/pl061.c:32-65 | config rewrites GPIODIR, GPIOIS, GPIOIBE, GPIOIEV in that order; the pin's bit says OUT, level, both edges and rising-only respectively and the other bits are kept |
| Pl061.PinLevel | system/dev/gpio/pl061/pl061.c:77 | the value read is 0 or 1, and 1 exactly when the pin's bit is set |
| Pl061.WriteThenRead | system/dev/gpio/pl061/pl061.c:77-87 | a value written to the pin's data register reads back as 1 exactly when it was non-zero, with each masked data address read back as the model's independent register |
| Pl061.Pl061Gpios.constructor | system/dev/gpio/pl061/pl061.c:26 | the controller's buffer, first GPIO and registers |
| Pl061.Pl061Gpios.BitIndex | system/dev/gpio/pl061/pl061.c:29 | the pin's bit position is below 8 |
| Pl061.Pl061Gpios.PinsOfOnePage | system/dev/gpio/pl061/pl061.c:28-29 | two GPIOs of one group of eight share the register page and use different bits |
| Pl061.Pl061Gpios.Config | system/dev/gpio/pl061/pl061.c:25-69 | returns OK; the register writes appended are exactly the four read-modify-writes of ConfigWrites on the pin's page |
| Pl061.Pl061Gpios.UpdateBit | system/dev/gpio/pl061/pl061.c:32-46 | one read-modify-write: the only write is the old value with the bit set or cleared, and no other register changes |
| Pl061.Pl061Gpios.UpdateEdges | system/dev/gpio/pl061/pl061.c:48-65 | GPIOIBE and GPIOIEV are both read before either is written; the two writes carry the both-edges and rising-only bit |
| Pl061.Pl061Gpios.Read | system/dev/gpio/pl061/pl061.c:71-79 | returns OK and the pin's level as read through its masked data address |
| Pl061.Pl061Gpios.Write | system/dev/gpio/pl061/pl061.c:81-89 | returns OK and writes the pin's bit, or 0 for a zero value, to the pin's masked data address |
| Pl061.WriteThenReadPin | system/dev/gpio/pl061/pl061.c:71-89 | through the driver, a pin written and read back reports 1 exactly when the value written was non-zero, under the same register-window abstraction |
| A113Gpio.BasePage | system/dev/soc/aml-a113/a113-gpio.c:18-26 | `~PAGE_MASK & phys` is the page-aligned address at most one page below `phys` |
| A113Gpio.BasePages | system/dev/soc/aml-a113/a113-gpio.c:20-26 | the GPIO control block lies 0x400 into page 0xff634000, the AO block starts page 0xff800000, and the two pages differ |
| A113Gpio.PinmuxBlocks | system/dev/soc/aml-a113/a113-gpio.c:39-179 | the table has fourteen blocks |
| A113Gpio.TableWellFormed | system/dev/soc/aml-a113/a113-gpio.c:39-179 | every block has at most eight pins and its pins' control bits (16 higher in the AO bank) fit a 32-bit register |
| A113Gpio.FirstBlock | system/dev/soc/aml-a113/a113-gpio.c:184-192 | the first block whose range holds the pin, with no earlier block holding it; none exactly when no block holds it |
| A113Gpio.TableBasesKnown | system/dev/soc/aml-a113/a113-gpio.c:39-179 | every table entry names one of the two control pages init's switch knows |
| A113Gpio.BlockVirt | system/dev/soc/aml-a113/a113-gpio.c:415-425 | a block of the AO page points at the AO mapping, any other at the GPIO mapping plus 0x400, as 64-bit addresses |
| A113Gpio.KnownPrefix | system/dev/soc/aml-a113/a113-gpio.c:412-433 | the length of the leading run of blocks whose page init knows; the next block, if any, is unknown |
| A113Gpio.Shift | system/dev/soc/aml-a113/a113-gpio.c:244 | a pin's bit position is below 32 |
| A113Gpio.PinMaskNonZero | system/dev/soc/aml-a113/a113-gpio.c:251 | `1 << pinid` is non-zero for a position below 32 |
| A113Gpio.SetPinBitOn | system/dev/soc/aml-a113/a113-gpio.c:257 | OR-ing the mask in sets the mask's bits and keeps the others |
| A113Gpio.SetPinBitOff | system/dev/soc/aml-a113/a113-gpio.c:259 | `regval &= ~mask` clears the mask's bits and keeps the others |
| A113Gpio.SetPinBit | system/dev/soc/aml-a113/a113-gpio.c:255-267 | setting or clearing a non-zero mask makes its bits say the requested state and keeps every other bit |
| A113Gpio.MuxShift | system/dev/soc/aml-a113/a113-gpio.c:224 | the field shift (pin - start_pin) * 4 is at most 28 |
| A113Gpio.MuxFieldHolds | system/dev/soc/aml-a113/a113-gpio.c:225-232 | after the update the pin's 4-bit field holds the function number |
| A113Gpio.MuxOthersKept | system/dev/soc/aml-a113/a113-gpio.c:225-232 | after the update every bit outside the pin's field is unchanged |
| A113Gpio.MuxFieldUpdate | system/dev/soc/aml-a113/a113-gpio.c:224-233 | both: the field holds the function and the rest of the register is kept |
| A113Gpio.PinmuxSelectsFunction | system/dev/soc/aml-a113/a113-gpio.c:199-233 | any function number that passes the A113_PINMUX_ALT_FN_MAX check fits the 4-bit field, so the value written selects it for the pin and keeps every other field |
| A113Gpio.DirBitSet | system/dev/soc/aml-a113/a113-gpio.c:253-267 | in the AO bank the bit set means output, in every other bank it means input |
| A113Gpio.PinBitSaysPin | system/dev/soc/aml-a113/a113-gpio.c:250-269 | a read-modify-write of `1 << k` makes that bit say the state and keeps the others |
| A113Gpio.PinLevel | system/dev/soc/aml-a113/a113-gpio.c:321-325 | the value read is 0 or 1, and 1 exactly when the pin's bit is set |
| A113Gpio.A113Bus.constructor | system/dev/soc/aml-a113/a113-gpio.c:39-179 | a bus holding the table as shipped, with neither page mapped |
| A113Gpio.A113Bus.PinToBlock | system/dev/soc/aml-a113/a113-gpio.c:181-193 | OK with the index of the first block holding the pin, NOT_FOUND exactly when none does |
| A113Gpio.A113Bus.PinmuxConfig | system/dev/soc/aml-a113/a113-gpio.c:196-238 | OUT_OF_RANGE for a function above the maximum and NOT_FOUND for an unknown pin, both writing nothing; otherwise OK and one write of the block's mux register with the pin's field replaced |
| A113Gpio.A113Bus.UpdateMux | system/dev/soc/aml-a113/a113-gpio.c:230-233 | one write: the old mux register value with the field replaced |
| A113Gpio.A113Bus.Config | system/dev/soc/aml-a113/a113-gpio.c:276-292 | NOT_FOUND with nothing written for an unknown pin; otherwise the direction write of set_direction |
| A113Gpio.A113Bus.SetDirection | system/dev/soc/aml-a113/a113-gpio.c:240-274 | OK and one write of the block's enable register with the pin's bit set or cleared by the bank's polarity |
| A113Gpio.A113Bus.Read | system/dev/soc/aml-a113/a113-gpio.c:294-328 | NOT_FOUND for an unknown pin; otherwise OK and the pin's level in the bank's input register |
| A113Gpio.A113Bus.OutputBit | system/dev/soc/aml-a113/a113-gpio.c:339-350 | the output bit is below 32: the pin's position, 16 higher in the AO bank |
| A113Gpio.A113Bus.Write | system/dev/soc/aml-a113/a113-gpio.c:330-367 | NOT_FOUND with nothing written for an unknown pin; otherwise one write of the output register with the pin's output bit set for a non-zero value and cleared for zero |
| A113Gpio.A113Bus.Init | system/dev/soc/aml-a113/a113-gpio.c:381-445 | a failed mapping is returned with the table untouched and both pages released; otherwise OK exactly when every block's page is known, the known leading blocks get their virtual address, the rest are untouched, and a failure returns NOT_SUPPORTED with both pages released |
| A113Gpio.A113Bus.SetBlockBases | system/dev/soc/aml-a113/a113-gpio.c:412-433 | the loop: the leading known blocks get their virtual address, it stops with NOT_SUPPORTED at the first unknown one |
| A113Gpio.A113Bus.Release | system/dev/soc/aml-a113/a113-gpio.c:370-373 | both register pages are released |
| A113Gpio.FirstBlockIs | system/dev/soc/aml-a113/a113-gpio.c:184-192 | the scan finds block `i` when it holds the pin and no earlier one does |
| A113Gpio.KnownPrefixIs | system/dev/soc/aml-a113/a113-gpio.c:412-433 | the known run has length `i` when the first `i` pages are known and the next is not |
| A113Gpio.InitFreshBus | system/dev/soc/aml-a113/a113-gpio.c:381-439 | on the shipped table init succeeds once both pages map, and every block points into its own domain's page |
| AmlI2c.PackBound | system/dev/soc/aml-a113/aml-i2c.c:217-234 | a register built from `n` digits (tokens or bytes) stays below base^n |
| AmlI2c.PackSnoc | system/dev/soc/aml-a113/aml-i2c.c:220-233 | ORing the next digit into the still-zero bits above the others adds it at the next power of the base |
| AmlI2c.PackSplit | system/dev/soc/aml-a113/aml-i2c.c:228-237 | a packed register is its high digits shifted past its low digits |
| AmlI2c.PackDigit | system/dev/soc/aml-a113/aml-i2c.c:283-285 | digit `i` of a packed register is the i-th element packed |
| AmlI2c.PackDigitBeyond | system/dev/soc/aml-a113/aml-i2c.c:283-285 | digits past the packed elements read as zero |
| AmlI2c.Word0 | system/dev/soc/aml-a113/aml-i2c.c:228 | `(uint32_t)(x & 0xffffffff)` fits 32 bits |
| AmlI2c.Word1 | system/dev/soc/aml-a113/aml-i2c.c:229 | `(uint32_t)((x >> 32) & 0xffffffff)` fits 32 bits |
| AmlI2c.PackWords | system/dev/soc/aml-a113/aml-i2c.c:228-237 | the low word of a packed register holds its first k digits and the high word the rest |
| AmlI2c.LowHigh | system/dev/soc/aml-a113/aml-i2c.c:280-281 | rdata0 OR-ed with rdata1 shifted left by 32 rebuilds the 64-bit value from its two words |
| AmlI2c.TokenNibbles | system/dev/soc/aml-a113/aml-i2c.c:217-229 | each token of a list of at most sixteen sits in its own nibble of token_list_0/1, and the nibbles past the list are zero |
| AmlI2c.DataBytes | system/dev/soc/aml-a113/aml-i2c.c:231-237 | each byte of at most eight sits in its own byte of token_wdata_0/1, and the bytes past the buffer are zero |
| AmlI2c.ByteAt | system/dev/soc/aml-a113/aml-i2c.c:284 | `(rdata >> 8i) & 0xff` is a byte |
| AmlI2c.DataRoundTrip | system/dev/soc/aml-a113/aml-i2c.c:231-237 | bytes packed the way write packs them and unpacked the way read unpacks them come back, with zeros past the buffer |
| AmlI2c.GetI2cDev | system/dev/soc/aml-a113/aml-i2c.c:35-40 | the table entry of the port, or none exactly when no entry has that port |
| AmlI2c.PortsDistinctPages | system/dev/soc/aml-a113/aml-i2c.c:28-33 | the four ports have distinct port numbers and register pages |
| AmlI2c.SlaveAddrField | system/dev/soc/aml-a113/aml-i2c.c:42-51 | as intended, the address field holds the 7-bit address |
| AmlI2c.SlaveAddrKeepsRest | system/dev/soc/aml-a113/aml-i2c.c:42-51 | as intended, the bits above the low byte keep their value |
| AmlI2c.SlaveAddrBit0 | system/dev/soc/aml-a113/aml-i2c.c:42-51 | as intended, bit 0 is clear |
| AmlI2c.SlaveAddrSet | system/dev/soc/aml-a113/aml-i2c.c:42-51 | the intended update puts the 7-bit address in bits 1..7, clears bit 0 and keeps the bits above the low byte |
| AmlI2c.SlaveAddrAsWrittenMixesAddresses | system/dev/soc/aml-a113/aml-i2c.c:44-48 | as written, old address 0x50 and new address 0x20 read back 0x70, and bits above the low byte are lost |
| AmlI2c.Repeat | system/dev/soc/aml-a113/aml-i2c.c:223-225 | `n` copies of a token |
| AmlI2c.WriteTokens | system/dev/soc/aml-a113/aml-i2c.c:220-226 | a write of `len` bytes has `len + 3` tokens |
| AmlI2c.ReadTokens | system/dev/soc/aml-a113/aml-i2c.c:253-260 | a read of `len` bytes has `len + 3` tokens |
| AmlI2c.TokensAreDigits | system/dev/soc/aml-a113/aml-i2c.c:220-260 | every token of both lists fits a 4-bit slot |
| AmlI2c.Slot | system/dev/soc/aml-a113/aml-i2c.c:228-229 | a token slot of the two token registers is below 16 |
| AmlI2c.SlotsOfList | system/dev/soc/aml-a113/aml-i2c.c:220-229 | slot `i` of the registers holds token `i` of the list, and 0 past its end |
| AmlI2c.WriteTokenLayout | system/dev/soc/aml-a113/aml-i2c.c:217-229 | the write's registers hold START, SLAVE_ADDR_WR, one DATA per byte, STOP, then zero (END) in every slot after |
| AmlI2c.ReadTokenLayout | system/dev/soc/aml-a113/aml-i2c.c:250-264 | the read's registers hold START, SLAVE_ADDR_RD, DATA for all bytes but the last, DATA_LAST, STOP, then zero |
| AmlI2c.WaitOutcome | system/dev/soc/aml-a113/aml-i2c.c:196-209 | the wait's own failure is returned; after a successful wait, TIMED_OUT exactly when the error signal was seen, else OK |
| AmlI2c.Connection.constructor | system/dev/soc/aml-a113/aml-i2c.c:315-316 | the connection's slave address and width |
| AmlI2c.Without | system/dev/soc/aml-a113/aml-i2c.c:329 | unlinking keeps every other connection, drops `c`, and changes nothing when `c` is absent |
| AmlI2c.WithoutUnique | system/dev/soc/aml-a113/aml-i2c.c:327-332 | unlinking a connection keeps the slave addresses unique |
| AmlI2c.ConnectThenRelease | system/dev/soc/aml-a113/aml-i2c.c:319-329 | a connection added at the head and released leaves the list as it was |
| AmlI2c.AmlI2cDev.constructor | system/dev/soc/aml-a113/aml-i2c.c:348 | a device with no connections |
| AmlI2c.AmlI2cDev.Connect | system/dev/soc/aml-a113/aml-i2c.c:290-325 | INVALID_ARGS for a width other than 7 or 10 and for an address in use, NO_MEMORY when allocation fails, all leaving the list unchanged; otherwise OK and a new connection at the head, keeping addresses unique |
| AmlI2c.AmlI2cDev.Release | system/dev/soc/aml-a113/aml-i2c.c:327-332 | the connection is unlinked and the others kept |
| AmlI2c.AmlI2cDev.SetSlaveAddr | system/dev/soc/aml-a113/aml-i2c.c:42-51 | OK and one write of the slave address register with the intended value |
| AmlI2c.AmlI2cDev.StartGoesLow | system/dev/soc/aml-a113/aml-i2c.c:128 | the first write of the pulse clears START |
| AmlI2c.AmlI2cDev.StartGoesHigh | system/dev/soc/aml-a113/aml-i2c.c:129 | the second write of the pulse sets START |
| AmlI2c.AmlI2cDev.StartKeepsControl | system/dev/soc/aml-a113/aml-i2c.c:127-129 | the pulse keeps every other control bit |
| AmlI2c.AmlI2cDev.StartXfer | system/dev/soc/aml-a113/aml-i2c.c:126-131 | exactly the two control writes, START cleared and then set |
| AmlI2c.AmlI2cDev.StoreWords | system/dev/soc/aml-a113/aml-i2c.c:228-237 | the low word and then the high word are written, and no other register changes |
| AmlI2c.AmlI2cDev.BuildWriteTokens | system/dev/soc/aml-a113/aml-i2c.c:217-226 | the loop builds the packed write token list |
| AmlI2c.AmlI2cDev.BuildReadTokens | system/dev/soc/aml-a113/aml-i2c.c:250-260 | the loop builds the packed read token list |
| AmlI2c.AmlI2cDev.PackData | system/dev/soc/aml-a113/aml-i2c.c:231-234 | the loop packs the first `len` bytes, byte i at bits 8i..8i+7, and byte i of the word read back is buff[i] |
| AmlI2c.AmlI2cDev.Write | system/dev/soc/aml-a113/aml-i2c.c:212-243 | the register writes are the token words, the data words and the START pulse, in that order; the status is the wait's outcome |
| AmlI2c.AmlI2cDev.Read | system/dev/soc/aml-a113/aml-i2c.c:245-288 | the token words, zeroed read-data words and START pulse are written; on failure the buffer is untouched; on success its first eight bytes are the bytes of rdata |
| AmlI2c.AmlI2cDev.Unpack | system/dev/soc/aml-a113/aml-i2c.c:283-285 | the loop stores the eight bytes of rdata and leaves the rest of the buffer alone |
| AmlI2c.AddUnique | system/dev/soc/aml-a113/aml-i2c.c:302-319 | a connection to an address not in use keeps the addresses unique when added at the head |
| Kpci.OkReply | system/dev/bus/pci/kpci.c:27-34 | the OK reply echoes the request's transaction id, has ordinal OK and carries no handle |
| Kpci.ErrorReply | system/dev/bus/pci/kpci.c:159-167 | the error reply echoes the transaction id, carries the status as ordinal and no handle |
| Kpci.Lookup | system/dev/bus/pci/kpci.c:110-124 | ordinals at or past PCI_OP_MAX have no callback; reset, bus mastering, auxdata and BTI have theirs, exactly at their own ordinals, and every other ordinal has none |
| Kpci.Channel.constructor | system/dev/bus/pci/kpci.c:126 | a channel with nothing sent and nothing closed |
| Kpci.Channel.Write | system/dev/bus/pci/kpci.c:33 | the write's status, and the reply is sent exactly when the write succeeds |
| Kpci.Channel.Close | system/dev/bus/pci/kpci.c:97 | the handle is closed and nothing is sent |
| Kpci.BdfDecodes | system/dev/bus/pci/kpci.c:83-85 | the BDF kpci_get_bti builds decodes, through the Intel IOMMU's bus transaction id decoding, to the device's bus and its device/function byte |
| Kpci.BdfFields | system/dev/bus/pci/kpci.c:83-85 | the BDF's bits 15..8 are the bus and bits 7..0 are the device shifted left by 3 over the function |
| Kpci.Bdf | system/dev/bus/pci/kpci.c:83-85 | the BDF built from the device's bus, device and function numbers; BdfDecodes and BdfFields state its layout |
| Kpci.CStr | system/dev/bus/pci/kpci.c:59 | the `%s` of the request data: a NUL-free prefix followed by a NUL or the end of the data |
| Kpci.Hex2 | system/dev/bus/pci/kpci.c:59 | `%02x` is two characters |
| Kpci.Hex2RoundTrip | system/dev/bus/pci/kpci.c:59 | the two hex digits read back as the byte |
| Kpci.AuxArgsFull | system/dev/bus/pci/kpci.c:59-60 | the untruncated string is nine characters longer than the request's string |
| Kpci.DeviceSuffix | system/dev/bus/pci/kpci.c:59-60 | the device suffix `,bb:dd:ff` is nine characters |
| Kpci.AuxArgs | system/dev/bus/pci/kpci.c:58-60 | snprintf into 32 bytes keeps at most 31 characters, a prefix of the full string, and all of it when it fits |
| Kpci.AuxArgsNameDevice | system/dev/bus/pci/kpci.c:58-60 | a request string of at most 22 characters is not truncated: the string is it followed by the device suffix |
| Kpci.SuffixNamesDevice | system/dev/bus/pci/kpci.c:59-60 | the suffix is a comma and the bus, device and function in hex, colon-separated, each readable back |
| Kpci.ReplyOk | system/dev/bus/pci/kpci.c:27-34 | the write's status, and the OK reply is sent exactly when the write succeeds |
| Kpci.OutcomeFails | system/dev/bus/pci/kpci.c:37-100 | a callback whose kernel call fails returns that failure; otherwise it returns OK exactly when its reply was written, except get_bti, which returns OK either way |
| Kpci.KpciResetDevice | system/dev/bus/pci/kpci.c:48-55 | the kernel's failure, with nothing sent; otherwise the OK reply's write |
| Kpci.KpciEnableBusMaster | system/dev/bus/pci/kpci.c:37-46 | asks the kernel to enable exactly when data[0] is non-zero; the kernel's failure with nothing sent, otherwise the OK reply's write |
| Kpci.KpciGetAuxdata | system/dev/bus/pci/kpci.c:57-76 | asks the root protocol with the formatted string; its failure with nothing sent, otherwise a reply with ordinal OK and the actual length |
| Kpci.KpciGetBti | system/dev/bus/pci/kpci.c:78-100 | asks for the device's BDF; the root protocol's failure with nothing sent, otherwise OK, the reply carrying the handle, and the handle closed when the write fails |
| Kpci.Call | system/dev/bus/pci/kpci.c:151 | runs the callback named by the handler, with its outcome, replies and closed handles |
| Kpci.Replies | system/dev/bus/pci/kpci.c:143-167 | the replies an accepted request gets: none on a failing channel, NOT_SUPPORTED without a callback, the kernel's failure or the callback's own reply; OneReplyPerRequest and BrokenChannel state their properties |
| Kpci.RxrpcStatus | system/dev/bus/pci/kpci.c:143-167 | the status kpci_rxrpc returns for an accepted request: OK when the callback succeeded, otherwise the status of the error reply's write; OneReplyPerRequest and BrokenChannel state its values |
| Kpci.Rxrpc | system/dev/bus/pci/kpci.c:126-169 | a failed read is returned and a short one is INTERNAL, both sending nothing; an accepted request gets the replies and status of Replies and RxrpcStatus, and a BTI is closed only when its reply could not be written |
| Kpci.OneReplyPerRequest | system/dev/bus/pci/kpci.c:126-169 | on a working channel every accepted request gets exactly one reply echoing its txid; its ordinal is OK exactly when served, NOT_SUPPORTED without a callback, and the kernel's failure otherwise |
| Kpci.BrokenChannel | system/dev/bus/pci/kpci.c:95-99 | on a failing channel nothing is sent and the write failure is returned, except for a BTI obtained, which reports OK |
| PciProtocol.Zeros | system/dev/bus/pci/protocol.c:25-30 | `n` zero bytes: the zero-initialised rest of a request |
| PciProtocol.EnableBusMasterRequest | system/dev/bus/pci/protocol.c:26-30 | a full-size request with a fresh txid, ordinal ENABLE_BUS_MASTER |
| PciProtocol.ResetDeviceRequest | system/dev/bus/pci/protocol.c:115-118 | a full-size request with ordinal RESET_DEVICE |
| PciProtocol.GetBtiRequest | system/dev/bus/pci/protocol.c:65-68 | a full-size request with ordinal GET_BTI |
| PciProtocol.AuxdataRequest | system/dev/bus/pci/protocol.c:360-368 | ordinal GET_AUXDATA, outlen the caller's buffer size, datalen the string length, and the string at the start of the data |
| PciProtocol.EnableFlagRoundTrip | system/dev/bus/pci/kpci.c:38 | the top devhost reads back the enable flag the proxy sent |
| PciProtocol.AuxdataArgsRoundTrip | system/dev/bus/pci/kpci.c:59 | the top devhost's `%s` of the request data is exactly the argument string the proxy sent |
| PciProtocol.CStrOfPadded | system/dev/bus/pci/protocol.c:368 | a NUL-free string followed by zeros reads back as the string |
| PciProtocol.ProxyStatus | system/dev/bus/pci/protocol.c:41-54 | the call's failure, INTERNAL for a short reply, else the reply's ordinal |
| PciProtocol.ProxyRoundTrip | system/dev/bus/pci/protocol.c:112-143 | over a working channel the proxy reports OK exactly when the top devhost served the request, NOT_SUPPORTED for an op without a callback, and the kernel's failure otherwise |
| PciProtocol.ProxyGetBti | system/dev/bus/pci/protocol.c:62-109 | the call's failure with no handle; a handle is handed out exactly when the reply is whole, OK and carries one handle; a received handle not handed out is closed; OK without a handle is INTERNAL |
| PciProtocol.BtiRoundTrip | system/dev/bus/pci/protocol.c:62-109 | a BTI the top devhost obtained reaches the proxy's caller with nothing closed; a failure reaches it as that failure with no handle |
| PciProtocol.DataPrefix | system/dev/bus/pci/protocol.c:399 | the first `n` bytes of the response data |
| PciProtocol.ProxyGetAuxdata | system/dev/bus/pci/protocol.c:346-407 | NOT_SUPPORTED without a channel and INVALID_ARGS for a string over PCI_MAX_DATA, both with no call; OK exactly when the call, size, ordinal and BUFFER_TOO_SMALL checks pass, and then the reply's bytes are copied and the count stored when asked for |
| PciProtocol.AuxdataEndToEnd | system/dev/bus/pci/kpci.c:57-76 | the proxy's NUL-free string of at most 22 characters reaches the root protocol followed by the device suffix, and bytes that fit come back to the caller with their count |
| PciProtocol.NextByte | system/dev/bus/pci/protocol.c:180-193 | the offset after a byte as the uint8_t parameter of the config read receives it: one more, except that 255 is followed by 0 |
| PciProtocol.Entries | system/dev/bus/pci/protocol.c:192-211 | the walk visits at most `fuel` entries, each a non-zero byte offset, each read through the wrapping pointer offset |
| PciProtocol.Walk | system/dev/bus/pci/protocol.c:192-211 | the first visited entry whose type byte is the one asked for, or 0; its properties are WalkFindsFirst, WalkBounded and SelfLoop |
| PciProtocol.WalkFindsFirst | system/dev/bus/pci/protocol.c:199-210 | the walk returns 0 exactly when no visited entry has the type, and otherwise the first visited entry of the type |
| PciProtocol.GetNextCapability | system/dev/bus/pci/protocol.c:180-211 | the loop returns the walk from the pointer read at the wrapped offset after `offset`, with a limit of 64 entries |
| PciProtocol.WalkBounded | system/dev/bus/pci/protocol.c:194-206 | at most 64 entries are visited, and a capability that points at itself (through the wrapped next-pointer offset) with the wrong type ends the walk with 0 |
| PciProtocol.SelfLoop | system/dev/bus/pci/protocol.c:199-207 | a self-pointing capability of the wrong type makes the walk return 0 for any limit |
| PciProtocol.WalkAfterLastByte | system/dev/bus/pci/protocol.c:180-193 | the walk started after offset 255 reads its first pointer from byte 0, so a zero byte 0 gives 0 whatever byte 256 of the device would hold |
| PciProtocol.Bookkeeping | system/dev/bus/pci/protocol.c:148-169 | INVALID_ARGS without a resource; PIO needs the I/O bitmap call on x86 and is NOT_SUPPORTED elsewhere; other resources are OK |
| PciProtocol.GetResource | system/dev/bus/pci/protocol.c:213-241 | INVALID_ARGS for a null output or an id past the count; BARs come from get_bar and the config id from get_config, their failure returned, then bookkeeping; other ids make no kernel call |
| PciProtocol.MapRefusesPio | system/dev/bus/pci/protocol.c:265-268 | a PIO resource is refused with WRONG_TYPE before anything is asked of the kernel |
| PciProtocol.MapResource | system/dev/bus/pci/protocol.c:249-300 | kpci_op_map_resource: a null output is INVALID_ARGS, then the resource lookup, the PIO refusal and the mapping; MapRefusesPio, MapFlagsByResource and MapHandleNeverLeaks state its outcomes |
| PciProtocol.MapFlagsByResource | system/dev/bus/pci/protocol.c:270-288 | the mapping covers the size rounded up to pages, is readable and MAP_RANGE, and is writable with the cache policy set exactly for a BAR; the config space is read-only |
| PciProtocol.MapHandleNeverLeaks | system/dev/bus/pci/protocol.c:255-300 | after a mappable resource was obtained its VMO is handed out exactly on success and closed on every failure; before that nothing is closed or handed out |
| XhciRootHub.RootHub.constructor | system/udev/usb-xhci/xhci-root-hub.c:35-36 | a root hub with its PORTSC field masks and operational register base, having taken no action |
| XhciRootHub.RootHub.WritePortsc | system/udev/usb-xhci/xhci-root-hub.c:13-16 | one write, to PORTSC of the given port |
| XhciRootHub.RootHub.ResetPort | system/udev/usb-xhci/xhci-root-hub.c:12-17 | one write to the port's PORTSC: its control bits as read, plus PR |
| XhciRootHub.RootHub.HandlePortChanged | system/udev/usb-xhci/xhci-root-hub.c:35-66 | the actions taken are exactly PortActions: nothing without a change bit, else the acknowledge write, then the connect handling, then the reset-change handling |
| XhciRootHub.PortActions | system/udev/usb-xhci/xhci-root-hub.c:35-66 | the actions the port-change event handler takes; the lemmas from NoChangeNoAction to ConnectBeforeReset state their order and conditions |
| XhciRootHub.NoChangeNoAction | system/udev/usb-xhci/xhci-root-hub.c:43-44 | the handler does nothing exactly when no change bit is set |
| XhciRootHub.ChangeBitsAreStatus | system/udev/usb-xhci/xhci-root-hub.c:43-59 | CSC or PRC set means a change bit is set, so their handling is reached |
| XhciRootHub.ChangeBitIsStatus | system/udev/usb-xhci/xhci-root-hub.c:43-59 | a bit inside the change bits that is set makes the change bits non-zero |
| XhciRootHub.AckChangeBits | system/udev/usb-xhci/xhci-root-hub.c:48-49 | the acknowledge write sets exactly the change bits that were set, so writing ones clears them |
| XhciRootHub.AckControlBits | system/udev/usb-xhci/xhci-root-hub.c:49 | the acknowledge write keeps the control bits as read |
| XhciRootHub.AckNothingElse | system/udev/usb-xhci/xhci-root-hub.c:49 | the acknowledge write sets no bit outside the control and change bits |
| XhciRootHub.ResetSetsPr | system/udev/usb-xhci/xhci-root-hub.c:15 | the reset write sets PR and keeps the other control bits as read |
| XhciRootHub.AckComesFirst | system/udev/usb-xhci/xhci-root-hub.c:48-58 | whenever the handler acts, its first action is the acknowledge write to the event's port |
| XhciRootHub.ResetIffConnected | system/udev/usb-xhci/xhci-root-hub.c:51-54 | the port is reset exactly when its connection changed and it is connected |
| XhciRootHub.DisconnectIffNotConnected | system/udev/usb-xhci/xhci-root-hub.c:51-57 | a disconnect is reported exactly when the connection changed and the port is not connected |
| XhciRootHub.EnumerateIffEnabled | system/udev/usb-xhci/xhci-root-hub.c:59-64 | the device is enumerated exactly when the reset completed and the port is enabled, and only for this port at its PORTSC speed |
| XhciRootHub.ConnectBeforeReset | system/udev/usb-xhci/xhci-root-hub.c:51-64 | with both changes in one event, the reset write or disconnect comes before the enumeration, three actions in all |
| CryptoBytes.Fill | system/ulib/crypto/include/crypto/bytes.h:34-36 | `n` bytes, each equal to the fill value |
| CryptoBytes.Resized | system/ulib/crypto/include/crypto/bytes.h:38-40 | the new length; the bytes both lengths cover are kept, and the bytes past the old length are the fill value |
| CryptoBytes.Copied | system/ulib/crypto/include/crypto/bytes.h:42-44 | bytes [off, off + len) are the data, every other old byte is kept, bytes added by growing are zero, and the length is the larger of the old length and off + len |
| CryptoBytes.ResizeBack | system/ulib/crypto/include/crypto/bytes.h:38-40 | growing and then shrinking back gives the original contents |
| CryptoBytes.CopyReadsBack | system/ulib/crypto/include/crypto/bytes.h:42-44 | reading the copied range back gives the data |
| CryptoBytes.Pow256 | system/ulib/crypto/include/crypto/bytes.h:49-51 | 256^n is positive |
| CryptoBytes.BeBound | system/ulib/crypto/include/crypto/bytes.h:49-51 | `n` bytes as a big-endian number are below 256^n |
| CryptoBytes.BeConcat | system/ulib/crypto/include/crypto/bytes.h:49-51 | the big-endian value of a concatenation is the high part shifted past the low part |
| CryptoBytes.BeAllOnes | system/ulib/crypto/include/crypto/bytes.h:49-51 | `k` bytes of 0xff are 256^k - 1, the largest value `k` bytes hold |
| CryptoBytes.BeZeros | system/ulib/crypto/include/crypto/bytes.h:49-51 | `k` zero bytes are 0 |
| CryptoBytes.CarryStep | system/ulib/crypto/include/crypto/bytes.h:49-51 | adding one turns the trailing 0xff bytes to zero and raises the byte before them by one |
| CryptoBytes.Bytes.constructor | system/ulib/crypto/include/crypto/bytes.h:23 | an empty buffer |
| CryptoBytes.Bytes.Len | system/ulib/crypto/include/crypto/bytes.h:29 | len() is the buffer's length |
| CryptoBytes.Bytes.Adopt | system/ulib/crypto/include/crypto/bytes.h:31-32 | after the reset the buffer is exactly the adopted bytes |
| CryptoBytes.Bytes.Init | system/ulib/crypto/include/crypto/bytes.h:34-36 | OK and `size` bytes of `fill`; NO_MEMORY with the buffer unchanged when allocation fails |
| CryptoBytes.Bytes.Resize | system/ulib/crypto/include/crypto/bytes.h:38-40 | OK and the resized contents; NO_MEMORY with the buffer unchanged when allocation fails |
| CryptoBytes.Bytes.Copy | system/ulib/crypto/include/crypto/bytes.h:42-44 | OK exactly when nothing needs allocating or the allocation succeeds, and then the copied contents; otherwise NO_MEMORY with the buffer unchanged |
| CryptoBytes.Bytes.Randomize | system/ulib/crypto/include/crypto/bytes.h:46-47 | OK and the buffer is `size` random bytes; NO_MEMORY with the buffer unchanged when allocation fails |
| CryptoBytes.Bytes.Increment | system/ulib/crypto/include/crypto/bytes.h:49-51 | the length is kept; OK exactly when one more still fits, and then the big-endian value is one higher; otherwise OUT_OF_RANGE with the buffer unchanged |
| CryptoBytes.Bytes.Release | system/ulib/crypto/include/crypto/bytes.h:53-55 | the old buffer and its length are handed out and the object is left empty |
| CryptoBytes.Bytes.Reset | system/ulib/crypto/include/crypto/bytes.h:57-59 | the buffer is empty |
| CryptoBytes.Bytes.Set | system/ulib/crypto/include/crypto/bytes.h:61-63 | an in-bounds byte is replaced and every other byte kept |
| CryptoBytes.Bytes.IsEqual | system/ulib/crypto/include/crypto/bytes.h:65-66 | equal exactly when both buffers hold the same bytes, every byte being compared |
| CryptoBytes.Bytes.IsNotEqual | system/ulib/crypto/include/crypto/bytes.h:67 | the negation of equality |
| GaussTdm.ValidateAccepts | system/dev/audio/gauss-tdm/gauss-tdm-stream.cpp:293-346 | a request reaches a handler exactly when the header is complete, the transaction id valid, the command (NO_ACK stripped) one of the channel's, the size that command's, and NO_ACK set only on a command that allows it; and then the handler of its own command |
| GaussTdm.ValidateRejects | system/dev/audio/gauss-tdm/gauss-tdm-stream.cpp:331-345 | every rejection is INVALID_ARGS or NOT_SUPPORTED, and NOT_SUPPORTED exactly for a well-formed header whose command this channel does not handle |
| GaussTdm.ChannelsDisjoint | system/dev/audio/gauss-tdm/gauss-tdm-stream.cpp:337-345 | a ring buffer command on the stream channel, or a stream command on the ring buffer channel, is NOT_SUPPORTED |
| GaussTdm.Validate | system/dev/audio/gauss-tdm/gauss-tdm-stream.cpp:293-346 | the request checks shared by both channels, in the source's order; ValidateAccepts, ValidateRejects and ChannelsDisjoint state them |
| GaussTdm.Channel.constructor | system/dev/audio/gauss-tdm/gauss-tdm-stream.cpp:256 | a new channel has sent nothing |
| GaussTdm.Channel.Write | system/dev/audio/gauss-tdm/gauss-tdm-stream.cpp:416 | a write returns the channel's write status and appends the response only when it succeeds |
| GaussTdm.FormatChunks | system/dev/audio/gauss-tdm/gauss-tdm-stream.cpp:405-423 | the format responses form at least one chunk, even for an empty list |
| GaussTdm.ChunkStep | system/dev/audio/gauss-tdm/gauss-tdm-stream.cpp:409-422 | one pass of the do-while sends the next min(left, max) ranges starting at formats_sent, and what remains is the chunks from formats_sent + todo |
| GaussTdm.ChunkLayout | system/dev/audio/gauss-tdm/gauss-tdm-stream.cpp:402-414 | the k-th chunk echoes the header, carries the total count, starts at k times the per-response maximum and holds the ranges from there |
| GaussTdm.ChunksCoverFormats | system/dev/audio/gauss-tdm/gauss-tdm-stream.cpp:405-423 | the chunks together carry every supported range exactly once and in order |
| GaussTdm.RingBufferRequest | system/dev/audio/gauss-tdm/gauss-tdm-stream.cpp:609-612 | the requested size is at least the FIFO depth, and is the FIFO depth or the uint32 product of frames and frame size; without wrap-around it is at least the true product |
| GaussTdm.BytesPerNotification | system/dev/audio/gauss-tdm/gauss-tdm-stream.cpp:644-648 | zero notifications give 0; otherwise the ring is split evenly, with less than one notification's worth left over |
| GaussTdm.UsPerNotification | system/dev/audio/gauss-tdm/gauss-tdm-stream.cpp:649 | the timer period in microseconds at 48000 frames per second, with the product 1000 * bytes_per_notification taken in uint32 as the source does; OnGetBuffer stores it |
| GaussTdm.BufferResult | system/dev/audio/gauss-tdm/gauss-tdm-stream.cpp:637-716 | OK exactly when creation, commit, lookup and duplication all succeed; otherwise one of their failures |
| GaussTdm.TdmOutputStream.constructor | system/dev/audio/gauss-tdm/gauss-tdm-stream.cpp:164-179 | a new stream has its supported formats, no frame size or FIFO depth, no ring buffer channel or VMO, and is not running |
| GaussTdm.TdmOutputStream.OnGetStreamFormats | system/dev/audio/gauss-tdm/gauss-tdm-stream.cpp:390-426 | more than 65535 ranges is INTERNAL with nothing sent; otherwise the channel receives exactly the chunk list, or nothing if its writes fail, and the write status is returned |
| GaussTdm.TdmOutputStream.OnSetStreamFormat | system/dev/audio/gauss-tdm/gauss-tdm-stream.cpp:428-515 | the response result is ACCESS_DENIED, INVALID_ARGS, INTERNAL, NO_MEMORY or the activation status, in the source's order; rejected requests change nothing; an accepted one stores the frame size, sets the FIFO depth to 1024 and has a ring buffer channel exactly when creation and activation succeed |
| GaussTdm.TdmOutputStream.OnGetGain | system/dev/audio/gauss-tdm/gauss-tdm-stream.cpp:517-531 | one fixed-gain response echoing the header |
| GaussTdm.TdmOutputStream.OnSetGain | system/dev/audio/gauss-tdm/gauss-tdm-stream.cpp:533-552 | with NO_ACK, OK and nothing sent; otherwise a response that refuses muting or a non-zero gain with INVALID_ARGS |
| GaussTdm.TdmOutputStream.OnPlugDetect | system/dev/audio/gauss-tdm/gauss-tdm-stream.cpp:554-564 | with NO_ACK, OK and nothing sent; otherwise one plug-detect response |
| GaussTdm.TdmOutputStream.OnGetFifoDepth | system/dev/audio/gauss-tdm/gauss-tdm-stream.cpp:566-575 | one response carrying the current FIFO depth |
| GaussTdm.TdmOutputStream.OnGetBuffer | system/dev/audio/gauss-tdm/gauss-tdm-stream.cpp:593-732 | the request size, the size kept (the VMO size truncated to 32 bits) and the notification spacing are as specified; the response carries the first failure or OK with the VMO; the VMO is kept exactly when creation and the response write succeed; the format state is untouched |
| GaussTdm.TdmOutputStream.OnStart | system/dev/audio/gauss-tdm/gauss-tdm-stream.cpp:750-798 | the stream is running and one start response is sent |
| GaussTdm.TdmOutputStream.OnStop | system/dev/audio/gauss-tdm/gauss-tdm-stream.cpp:800-808 | the stream is stopped and one stop response is sent |
| GaussTdm.TdmOutputStream.ProcessStreamChannel | system/dev/audio/gauss-tdm/gauss-tdm-stream.cpp:306-347 | a failed read or a rejected request returns its status with nothing sent; only SET_FORMAT changes the format state; every handler except GET_FORMATS sends at most one response, echoing the header; NO_ACK requests are answered with nothing |
| GaussTdm.TdmOutputStream.ProcessRingBufferChannel | system/dev/audio/gauss-tdm/gauss-tdm-stream.cpp:349-387 | a failed read or a rejected request returns its status with nothing sent; the format state is untouched; an accepted request gets at most one response, echoing the header |
| BusTxnInitiator.FirstMatch | kernel/object/bus_transaction_initiator_dispatcher.cpp:94-111 | the index of the first extent list equal to the one given, below the list's length exactly when there is one |
| BusTxnInitiator.RemoveAt | kernel/object/bus_transaction_initiator_dispatcher.cpp:109 | erasing one element keeps the others in order |
| BusTxnInitiator.RemoveAtMultiset | kernel/object/bus_transaction_initiator_dispatcher.cpp:109 | erasing takes exactly that element out of the multiset |
| BusTxnInitiator.PinThenUnpin | kernel/object/bus_transaction_initiator_dispatcher.cpp:82-111 | unpinning the extents a Pin just appended restores the previous list exactly when no earlier PMO has the same extents, and up to order otherwise |
| BusTxnInitiator.ViewsOf | kernel/object/bus_transaction_initiator_dispatcher.cpp:69-70 | one extent list per PMO, each that PMO's mapped extents |
| BusTxnInitiator.Bti.constructor | kernel/object/bus_transaction_initiator_dispatcher.cpp:35-37 | a new BTI keeps its IOMMU and id, has nothing pinned and its handles are not gone |
| BusTxnInitiator.Bti.Create | kernel/object/bus_transaction_initiator_dispatcher.cpp:16-33 | OK exactly when the IOMMU accepts the id and allocation succeeds; an invalid id is INVALID_ARGS, a failed allocation NO_MEMORY, and no object comes out of a failure |
| BusTxnInitiator.Bti.CopyOut | kernel/object/bus_transaction_initiator_dispatcher.cpp:75-79 | the caller's buffer starts with the PMO's extents in order |
| BusTxnInitiator.Bti.Pin | kernel/object/bus_transaction_initiator_dispatcher.cpp:43-84 | an unaligned offset is INVALID_ARGS and a BTI without handles BAD_STATE; otherwise the status is the PMO creation's outcome or BUFFER_TOO_SMALL; a failure leaves the list and the VMO's pins unchanged; success appends one fresh PMO, copies out its extents, reports their count and adds one pin of the range |
| BusTxnInitiator.Bti.Keep | kernel/object/bus_transaction_initiator_dispatcher.cpp:69-84 | a buffer shorter than the extents is BUFFER_TOO_SMALL and the PMO is destroyed, giving its pin back; otherwise it is appended and its extents copied out |
| BusTxnInitiator.Bti.Append | kernel/object/bus_transaction_initiator_dispatcher.cpp:75-82 | the PMO is appended, its extents copied out, and the extent lists grow by its extents |
| BusTxnInitiator.Bti.Matches | kernel/object/bus_transaction_initiator_dispatcher.cpp:95-106 | true exactly when the PMO's extents equal the ones given, count and every entry |
| BusTxnInitiator.Bti.Find | kernel/object/bus_transaction_initiator_dispatcher.cpp:94-112 | the index of the first pinned PMO whose extents are the ones given |
| BusTxnInitiator.Bti.Unpin | kernel/object/bus_transaction_initiator_dispatcher.cpp:86-115 | BAD_STATE once the handles are gone; otherwise OK exactly when some pinned PMO has exactly these extents, and then the first such PMO is erased, unmapped and its pin dropped; a failure changes nothing |
| BusTxnInitiator.Bti.Remove | kernel/object/bus_transaction_initiator_dispatcher.cpp:107-110 | the k-th PMO is erased, unmapped and its pin dropped, the other PMOs and their extents kept in order |
| BusTxnInitiator.Bti.OnZeroHandles | kernel/object/bus_transaction_initiator_dispatcher.cpp:117-123 | every PMO is released and unmapped and the BTI refuses further pins |
| BusTxnInitiator.FirstMatchIs | kernel/object/bus_transaction_initiator_dispatcher.cpp:94-111 | an index with no earlier match that is a match, or the end, is the first match |
| BusTxnInitiator.ViewsOfSnoc | kernel/object/bus_transaction_initiator_dispatcher.cpp:82 | appending a PMO appends its extents to the extent lists |
| BusTxnInitiator.RemovedViews | kernel/object/bus_transaction_initiator_dispatcher.cpp:109 | erasing a PMO erases its extents from the extent lists and keeps the others |
| PinnedMemory.Vmo.constructor | kernel/object/pinned_memory_object.cpp:68-71 | a VM object starts with no pins |
| PinnedMemory.Vmo.Pin | kernel/object/pinned_memory_object.cpp:77-81 | the pin's outcome is returned and the range counted as pinned only when it succeeds |
| PinnedMemory.Vmo.Unpin | kernel/object/pinned_memory_object.cpp:97-99 | one pin of the range is dropped |
| PinnedMemory.CheckContiguous | kernel/object/pinned_memory_object.cpp:83-93 | OK exactly when every page starts where the one before it ends (a uint64 sum), NOT_FOUND otherwise |
| PinnedMemory.MapEach | kernel/object/pinned_memory_object.cpp:34-64 | the page-by-page mapping gives one single-page extent per page mapped, at the address the IOMMU chose, and stops at the first page the IOMMU refuses, returning its error |
| PinnedMemory.MapEachStops | kernel/object/pinned_memory_object.cpp:164 | once one page failed, later pages are never mapped |
| PinnedMemory.MapRange | kernel/object/pinned_memory_object.cpp:133-173 | a contiguous range is one mapping of the whole rounded-up range with one extent, or no extent on failure; any other range is mapped page by page |
| PinnedMemory.UnmapCalls | kernel/object/pinned_memory_object.cpp:187-196 | one Unmap per extent, of its base and its length in bytes |
| PinnedMemory.FirstError | kernel/object/pinned_memory_object.cpp:183-201 | OK exactly when every Unmap succeeds; otherwise the error of the first one that failed |
| PinnedMemory.Pmo.constructor | kernel/object/pinned_memory_object.cpp:210-216 | a new object keeps its VM object, range, contiguity and extent array and has no extents in use |
| PinnedMemory.Pmo.IommuMapPage | kernel/object/pinned_memory_object.cpp:34-64 | a refused page changes nothing; a mapped page is recorded as a one-page extent in the next slot |
| PinnedMemory.Pmo.MapPageStep | kernel/object/pinned_memory_object.cpp:34-64 | after one more page the extent array holds the page-by-page mapping of the pages so far |
| PinnedMemory.Pmo.MapPages | kernel/object/pinned_memory_object.cpp:157-165 | the extents in use are exactly the page-by-page mapping and the status its outcome |
| PinnedMemory.Pmo.MapIntoIommu | kernel/object/pinned_memory_object.cpp:133-173 | the status is the range mapping's; on success the extents are its extents; on failure none remain, and a page-by-page mapping unmaps every extent it had made |
| PinnedMemory.Pmo.UnmapFromIommu | kernel/object/pinned_memory_object.cpp:175-202 | with no extents, OK and nothing sent; otherwise one Unmap of the whole range, or one per extent reporting the first error, and no extent remains, so a second call does nothing |
| PinnedMemory.Pmo.Destroy | kernel/object/pinned_memory_object.cpp:204-208 | every extent is unmapped and the pin on the VM object dropped |
| PinnedMemory.Pmo.Create | kernel/object/pinned_memory_object.cpp:68-130 | a failed pin returns its status, a failed allocation NO_MEMORY, and otherwise the status is the mapping's; every failure leaves the VM object's pins as they were; success gives a fresh object whose contiguity is the pages' and whose extents are the mapping's, with one more pin of the range |
| SyscallsDdk.RoundUpPage64 | kernel/syscalls/syscalls_ddk.cpp:138 | the rounded size is a page multiple below 2^64: the true round-up when the sum fits in 64 bits, and 0 when it wraps |
| SyscallsDdk.ContiguousAlignment | kernel/syscalls/syscalls_ddk.cpp:125-130 | 0 becomes PAGE_SIZE_SHIFT; accepted exactly when the alignment is then between PAGE_SIZE_SHIFT and 63; anything else is INVALID_ARGS |
| SyscallsDdk.VmoCreateRest | kernel/syscalls/syscalls_ddk.cpp:139-174 | a created object has the rounded size and alignment and was committed in full; a successful create whose commit fails or falls short is NO_MEMORY |
| SyscallsDdk.VmoCreateContiguousWrapsToEmpty | kernel/syscalls/syscalls_ddk.cpp:124-154 | as written, a size of 2^64 - 1 passes the zero check, rounds to 0 and yields an empty object with every call succeeding |
| SyscallsDdk.VmoCreateContiguousSound | kernel/syscalls/syscalls_ddk.cpp:119-175 | with the rounding checked: size 0 and a bad alignment are INVALID_ARGS, and a created object is the page round-up of the size, non-empty, at least the size, committed in full and with the requested alignment |
| SyscallsDdk.VmoCreateContiguousCorrectsOnlyWrap | kernel/syscalls/syscalls_ddk.cpp:119-175 | wherever the rounding does not wrap, the corrected call and the call as written agree |
| SyscallsDdk.VmoCreateContiguousAsWritten | kernel/syscalls/syscalls_ddk.cpp:119-175 | the call as written, the zero check before the wrapping rounding; VmoCreateContiguousWrapsToEmpty shows the wrap |
| SyscallsDdk.VmoCreateContiguous | kernel/syscalls/syscalls_ddk.cpp:119-175 | corrected (see ## Findings, syscalls_ddk.cpp:124-154): a size that does not round up within 64 bits is OUT_OF_RANGE; VmoCreateContiguousSound states its outcomes |
| SyscallsDdk.IommuCreate | kernel/syscalls/syscalls_ddk.cpp:286-328 | a failed resource check returns its status, a descriptor longer than the maximum is INVALID_ARGS, and OK exactly when every step succeeds |
| SyscallsDdk.TranslatePerms | kernel/syscalls/syscalls_ddk.cpp:419-444 | ACCESS_DENIED exactly when a permission lacks its right; otherwise INVALID_ARGS exactly when a bit other than read, write and execute is set; otherwise the IOMMU flags |
| SyscallsDdk.TranslatePermsInPlace | kernel/syscalls/syscalls_ddk.cpp:419-444 | clearing the permissions one by one while accumulating IOMMU flags gives the same verdict and flags as the translation |
| SyscallsDdk.BtiPinChecks | kernel/syscalls/syscalls_ddk.cpp:399-450 | an unaligned offset is INVALID_ARGS, a VM object handle without MAP is ACCESS_DENIED, then the translation's verdicts; a pass yields the translated flags, with the buffer allocated |
| SyscallsDdk.BtiPin | kernel/syscalls/syscalls_ddk.cpp:394-473 | a failed check returns its status with nothing pinned; otherwise the status is the pin-and-copy outcome; any failure leaves the BTI with the same extent lists, and the same list unless an earlier PMO had the very same extents; success adds the mapped extents, no more than the buffer holds |
| SyscallsDdk.PinAndCopy | kernel/syscalls/syscalls_ddk.cpp:452-472 | the status is the BTI's pin outcome, then the copies' statuses; a failed copy unpins, leaving the same extent lists; success adds exactly the mapped extents |
| SyscallsDdk.CopyOutOrUnpin | kernel/syscalls/syscalls_ddk.cpp:459-471 | the status is the first failing copy's; after a failure the new extents are unpinned again |
| SyscallsDdk.UnpinAfterFailedCopy | kernel/syscalls/syscalls_ddk.cpp:459-461 | unpinning the extents just pinned restores the extent lists, and the PMO list itself when no earlier PMO had those extents |
| MinfsFormat.InodeLocationInjective | system/ulib/minfs/minfs.cpp:199-201 | an inode's record lies inside its block at a multiple of the inode size, and its block and offset give back the inode number |
| MinfsFormat.InodeLocationsDisjoint | system/ulib/minfs/minfs.cpp:640-646 | two distinct inodes never share a record slot of the inode table |
| MinfsFormat.RegionReconciled | system/ulib/minfs/minfs.cpp:113-148 | a granted request leaves each region holding exactly the slices the superblock expects: an unallocated region is extended from its start, a short one from where it ends, a long one shrunk past the expected end; a region that agrees gets no request |
| MinfsFormat.Reconcile | system/ulib/minfs/minfs.cpp:113-148 | the status is OK or IO_DATA_INTEGRITY, with at most one request per region, and OK exactly when every request sent was granted |
| MinfsFormat.ReconcileAllGranted | system/ulib/minfs/minfs.cpp:113-148 | when every request the regions need is granted, the outcome is OK with exactly those requests in region order |
| MinfsFormat.ReconcileUnfold | system/ulib/minfs/minfs.cpp:113-148 | one region's step of the reconciliation: its request if any, then the rest, stopping when refused |
| MinfsFormat.ReconcileSlices | system/ulib/minfs/minfs.cpp:113-148 | the loop over the regions gives the status and requests of the reconciliation |
| MinfsFormat.CapacityCheck | system/ulib/minfs/minfs.cpp:150-191 | corrected (see ## Findings, minfs.cpp:152-170): OK exactly when each region's slices hold its structure, with the roundings taken without wrap-around, no region runs into the next, the data region stays addressable by a blk_t and there is more than one data block; INVALID_ARGS otherwise |
| MinfsFormat.NeededAsWritten | system/ulib/minfs/minfs.cpp:152 | the blocks needed as the uint32 rounding computes them: never more than the true round-up, and equal to it when the numerator does not wrap |
| MinfsFormat.CapacityAsWrittenWraps | system/ulib/minfs/minfs.cpp:152-170 | as written, a superblock claiming 2^32 - 1 inodes with one inode-bitmap slice and one inode-table slice of one block passes, because both roundings wrap to 0 blocks needed |
| MinfsFormat.SlicesHoldLayoutMeansRoom | system/ulib/minfs/minfs.cpp:150-191 | the corrected test guarantees one bitmap bit per inode and per data block and one table record per inode, accepts nothing the test as written refuses, and agrees with it whenever no rounding wraps |
| MinfsFormat.RoomFromNeeded | system/ulib/minfs/minfs.cpp:152-154 | blocks enough for the rounded-up count hold the count |
| MinfsFormat.FitsDeviceAsWritten | system/ulib/minfs/minfs.cpp:69-73 | the fit test as written, on the uint32 sum of dat_block and block_count; FitsDeviceAsWrittenWraps shows what it lets through |
| MinfsFormat.FitsDevice | system/ulib/minfs/minfs.cpp:69-73 | corrected (see ## Findings, minfs.cpp:69-73): the data region ends within the device; FitsDeviceMeansInDevice states what it guarantees |
| MinfsFormat.FitsDeviceAsWrittenWraps | system/ulib/minfs/minfs.cpp:69-73 | as written, a data region starting at 2^32 - 1 with two blocks passes on a 100-block device, because dat_block + block_count wraps to 1 |
| MinfsFormat.FitsDeviceMeansInDevice | system/ulib/minfs/minfs.cpp:69-73 | with the sum taken without wrap-around, every data block of an accepted superblock lies on the device, and the corrected test accepts nothing the test as written refuses |
| MinfsFormat.FormatCheck | system/ulib/minfs/minfs.cpp:54-68 | OK exactly when both magic numbers, the version, the block size and the inode size are minfs's; INVALID_ARGS otherwise |
| MinfsFormat.CheckInfo | system/ulib/minfs/minfs.cpp:50-195 | corrected (see ## Findings, minfs.cpp:69-73 and minfs.cpp:152-170): a bad format is refused first with no request; a non-FVM superblock is accepted exactly when its data region fits the device; an FVM one only when both queries succeed, the slice size matches, four ranges came back, every request sent was granted and the slices hold the layout |
| MinfsFormat.MkfsNonDataBlocksValue | system/ulib/minfs/minfs.cpp:1016-1025 | with 32768 inodes the inode bitmap takes 1 block, the inode table 1024, and the metadata 1040 blocks |
| MinfsFormat.MkfsLayoutAsWrittenUnderflows | system/ulib/minfs/minfs.cpp:1026-1038 | as written, a 1041-block device is accepted with block_count 2^32 - 7 and the data region starting past the device |
| MinfsFormat.MkfsLayoutAsWritten | system/ulib/minfs/minfs.cpp:1016-1038 | the non-FVM layout as written in uint32: the abmblks rounding sum wraps from 2^32 - 64495 blocks on and the subtraction of the block bitmap is unchecked; MkfsLayoutAsWrittenUnderflows, MkfsLayoutAsWrittenWraps and MkfsLayoutCorrectsOnlyUnderflow relate it to the corrected layout |
| MinfsFormat.MkfsLayoutAsWrittenWraps | system/ulib/minfs/minfs.cpp:1033-1038 | as written, from 2^32 - 64495 blocks on abmblks wraps to 0: block_count is the whole data area, its bitmap rounding would wrap, and the inode table starts at the block bitmap |
| MinfsFormat.MkfsLayout | system/ulib/minfs/minfs.cpp:1023-1038 | the corrected layout fails only with INVALID_ARGS |
| MinfsFormat.MkfsLayoutSound | system/ulib/minfs/minfs.cpp:1023-1038 | the corrected layout fills the device exactly, places superblock, inode bitmap, block bitmap, inode table and data in that order with each bitmap big enough, has at least one data block, and passes the mount-time check |
| MinfsFormat.CeilDivMono | system/ulib/minfs/minfs.cpp:1033 | rounding up a quotient is monotone in the dividend |
| MinfsFormat.MkfsLayoutCorrectsOnlyUnderflow | system/ulib/minfs/minfs.cpp:1023-1038 | below 2^32 - 64495 blocks the corrected layout agrees with the one as written whenever it succeeds; on any device it refuses only devices where the layout as written does not fill the device exactly or leaves no data block |
| MinfsFormat.MkfsLayoutLargeDevice | system/ulib/minfs/minfs.cpp:1023-1038 | corrected (see ## Findings, minfs.cpp:1033-1071): from 2^32 - 64495 blocks on the corrected layout succeeds, gives the block bitmap 65536 blocks and leaves a block count whose bitmap rounding does not wrap |
| MinfsFormat.ReadBlk | system/ulib/minfs/minfs.cpp:1164-1173 | OUT_OF_RANGE exactly past the hard limit, zeros exactly between the soft and the hard limit, and otherwise a device read of block start + bno |
| MinfsBitmap.Reset | system/ulib/minfs/minfs.cpp:778-781 | n usable bits over n bits of storage, all clear |
| MinfsBitmap.Shrink | system/ulib/minfs/minfs.cpp:786-789 | the usable count becomes n while the storage is untouched |
| MinfsBitmap.Grow | system/ulib/minfs/minfs.cpp:421-426 | the usable count becomes n; the bits below the old count keep their values and the new ones read clear |
| MinfsBitmap.Set | system/ulib/minfs/minfs.cpp:526 | the bit is set, the size and length are kept, and every other bit is unchanged |
| MinfsBitmap.Clear | system/ulib/minfs/minfs.cpp:665 | the bit is cleared, the size and length are kept, and every other bit is unchanged |
| MinfsBitmap.FindClear | system/ulib/minfs/minfs.cpp:515-521 | a found bit is the lowest clear usable bit in the range; none means every usable bit in the range is set |
| MinfsBitmap.ClearUndoesSet | system/ulib/minfs/minfs.cpp:526-547 | setting a clear bit and clearing it again gives back the bitmap |
| MinfsBitmap.SetUndoesClear | system/ulib/minfs/minfs.cpp:665-691 | clearing a set bit and setting it again gives back the bitmap |
| MinfsBitmap.GrowThenShrink | system/ulib/minfs/minfs.cpp:421-426 | growing to a block multiple and shrinking to the new count keeps the old bits, and the first clear bit past the old count is the old count itself |
| MinfsBitmap.ClearAllEffect | system/ulib/minfs/minfs.cpp:276-372 | after clearing a list of bits, a bit is set exactly when it was set before and is not in the list |
| MinfsMkfs.FreeSlices | system/ulib/minfs/minfs.cpp:916-944 | nothing on a plain device; on the volume manager only shrinks, one per region holding slices, at that region's slice offset and for its slice count |
| MinfsMkfs.Granted | system/ulib/minfs/minfs.cpp:971-1000 | the extends the volume manager grants before its first refusal |
| MinfsMkfs.FvmGeometry | system/ulib/minfs/minfs.cpp:959-1007 | the volume-manager geometry for any positive slice size: a slice size that is not a block multiple fails with no request, then one extend per region with the slices taken given back after a refusal; on success the superblock is an FVM one with the manager's slice size, at least one block; FvmGeometryReleasesWhatItTook states its outcome |
| MinfsMkfs.MkfsGeometry | system/ulib/minfs/minfs.cpp:959-1038 | the volume-manager geometry when the query answers, otherwise the corrected layout over the whole device; a successful geometry is an FVM one exactly when the query answered, with slices of at least one block; Mkfs states what follows from it |
| MinfsMkfs.FvmGeometryReleasesWhatItTook | system/ulib/minfs/minfs.cpp:959-1007 | mkfs succeeds on the volume manager exactly when all four one-slice extends are granted, and then it records one slice per region and five slices in all; otherwise the requests are the extends up to the refused one, then a shrink of each slice it obtained |
| MinfsMkfs.SetRange | system/ulib/minfs/minfs.cpp:1085-1092 | the bits of the range are set when it lies inside the usable bits, and nothing changes otherwise |
| MinfsMkfs.Fresh | system/ulib/minfs/minfs.cpp:1057-1076 | n usable bits over whole blocks of storage, all clear; FormatMaps proves the uint32 Reset and Shrink build exactly it whenever ShrinkFits holds |
| MinfsMkfs.BitmapStorageAsWritten | system/ulib/minfs/minfs.cpp:1057-1062 | the uint32 round_up of a bit count to whole bitmap blocks: the true rounding unless n + 65535 passes 2^32 - 1, and then 0 |
| MinfsMkfs.ShrinkFits | system/ulib/minfs/minfs.cpp:1067-1076 | a bitmap's Shrink after its Reset succeeds for a uint32 count exactly when the rounding does not wrap, and then the storage is the true rounding |
| MinfsMkfs.FormattedBlockMap | system/ulib/minfs/minfs.cpp:1092 | exactly data blocks 0 and 1 are taken, when there are at least two data blocks |
| MinfsMkfs.FormattedInodeMap | system/ulib/minfs/minfs.cpp:1085-1086 | exactly inode 0 and the root inode are taken, each when it is a usable inode |
| MinfsMkfs.BitmapWrites | system/ulib/minfs/minfs.cpp:1096-1107 | the k-th write goes to block start + k and carries the k-th block of the bitmap's storage |
| MinfsMkfs.ZeroWrites | system/ulib/minfs/minfs.cpp:1110-1113 | n zero blocks written to consecutive blocks from start |
| MinfsMkfs.AbmWrites | system/ulib/minfs/minfs.cpp:1096-1100 | corrected (see ## Findings, minfs.cpp:1096-1100): the block bitmap's storage blocks written from abm_block on; AbmWrittenAsReadBack states their contents |
| MinfsMkfs.IbmWrites | system/ulib/minfs/minfs.cpp:1103-1107 | the inode bitmap's storage blocks written from ibm_block on; IbmWrittenAsReadBack states their contents |
| MinfsMkfs.MkfsWrites | system/ulib/minfs/minfs.cpp:1078-1127 | the image a successful mkfs writes, in order: root directory, block bitmap, inode bitmap, zeroed inode table, root inode, superblock; Format and Mkfs are proved to issue exactly it |
| MinfsMkfs.AbmWrittenAsReadBack | system/ulib/minfs/minfs.cpp:1096-1100 | block n of the block bitmap goes to abm_block + n and marks exactly data blocks 0 and 1 as reserved, which is the bitmap the mount reads back |
| MinfsMkfs.IbmWrittenAsReadBack | system/ulib/minfs/minfs.cpp:1103-1107 | block n of the inode bitmap goes to ibm_block + n and marks exactly inode 0 and the root inode as reserved |
| MinfsMkfs.BitmapWriteBit | system/ulib/minfs/minfs.cpp:1096-1107 | bit j of the n-th block written from a bitmap is bit n * 8192 + j of the bitmap |
| MinfsMkfs.WriteBitmap | system/ulib/minfs/minfs.cpp:1096-1107 | the write loop issues exactly the bitmap's blocks, in order |
| MinfsMkfs.WriteZeroes | system/ulib/minfs/minfs.cpp:1110-1113 | the inode-table loop writes exactly the zero blocks of the table, in order |
| MinfsMkfs.Mkfs | system/ulib/minfs/minfs.cpp:946-1129 | corrected (see ## Findings, minfs.cpp:1032-1034, minfs.cpp:1033-1071 and minfs.cpp:1096-1100): a geometry failure is returned with no block written; a failed bitmap allocation, or a Shrink refused because a bitmap's uint32 rounding wraps, returns its status, gives back every slice taken and writes nothing; otherwise the superblock counts one block and one inode in use and the writes are exactly the root directory, both bitmaps, the zeroed inode table, the root inode and the superblock, in that order |
| MinfsMkfs.Format | system/ulib/minfs/minfs.cpp:1078-1127 | corrected (see ## Findings, minfs.cpp:1096-1100): once both Shrinks fit, the allocated-block and allocated-inode counts each go up by one and the writes are the formatted image in order |
| MinfsMkfs.FormatMaps | system/ulib/minfs/minfs.cpp:1057-1093 | the bitmaps reset to their uint32 storage size, shrunk to the block and inode counts and marked are the formatted block bitmap and the formatted inode bitmap |
| MinfsMkfs.MkfsAbmWriteOverreads | system/ulib/minfs/minfs.cpp:1096-1100 | on a 66579-block device the block count is 65531, its bitmap has one block of storage, yet the loop as written writes two bitmap blocks |
| MinfsMkfs.MkfsAbmWriteFits | system/ulib/minfs/minfs.cpp:1096-1100 | with the loop bounded by the bitmap's own block count, the blocks written are exactly the storage, fit before the inode table, and, below 2^32 - 64495 blocks, are never more than the loop as written covers |
| MinfsMkfs.MkfsAsWrittenRefusesLargeDevice | system/ulib/minfs/minfs.cpp:1033-1071 | as written, a plain device of 2^32 - 64495 blocks or more gets a block count whose uint32 bitmap rounding is 0, so the block bitmap's Shrink fails |
| MinfsMkfs.MkfsLayoutShrinks | system/ulib/minfs/minfs.cpp:1057-1076 | with the corrected layout neither bitmap's Shrink fails on any plain device |
| MinfsState.PlanInodeGrowth | system/ulib/minfs/minfs.cpp:386-416 | every check before the table grows: a plain device, a bitmap that would overflow its slices, a refused extend, a failed work allocation or a failed bitmap growth is refused with its status and whether the extend was sent; otherwise the bitmap is regrown to the new inode count |
| MinfsState.AddInodes | system/ulib/minfs/minfs.cpp:380-448 | corrected (see ## Findings, minfs.cpp:421-436): the filesystem invariant is kept; the status is OK, NO_SPACE or NO_MEMORY; a plain device gets NO_SPACE with nothing changed; any failure leaves the state as it was except for the extend request already sent |
| MinfsState.AddInodesGrowth | system/ulib/minfs/minfs.cpp:405-444 | a successful growth adds one inode-table slice to the superblock, records the extend, keeps every old inode bit and table record, exposes the new inodes as free, and submits the new bitmap blocks and the superblock in one work item |
| MinfsState.AddInodesAsWrittenBreaksInvariant | system/ulib/minfs/minfs.cpp:421-436 | as written, when the inode table cannot grow, the operation reports NO_SPACE with the inode bitmap already enlarged past the table, breaking the invariant that every usable inode has a table record; the corrected operation keeps the old bitmap |
| MinfsState.AddInodesAsWritten | system/ulib/minfs/minfs.cpp:380-448 | the inode growth as written, with the inode bitmap left enlarged when the inode table cannot grow; AddInodesAsWrittenBreaksInvariant and AddInodesAgreesElsewhere relate it to the corrected growth |
| MinfsState.AddInodesCommit | system/ulib/minfs/minfs.cpp:437-444 | the commit of a successful inode growth keeps the filesystem invariant |
| MinfsState.AddInodesAgreesElsewhere | system/ulib/minfs/minfs.cpp:380-448 | the corrected growth differs from the one as written only when the inode table cannot grow |
| MinfsState.AddInodesAddsOneSlice | system/ulib/minfs/minfs.cpp:386-394 | when the inode count matches the inode slices and the sum does not wrap, a successful growth adds exactly one slice's worth of inodes |
| MinfsState.AddBlocks | system/ulib/minfs/minfs.cpp:450-511 | the filesystem invariant is kept; the status is OK, NO_SPACE or NO_MEMORY; a plain device gets NO_SPACE with nothing changed; any failure leaves the state as it was except for the extend request already sent |
| MinfsState.AddBlocksGrowth | system/ulib/minfs/minfs.cpp:456-507 | a successful growth adds one data slice to the superblock, records the extend, keeps every old block bit and the inodes, exposes the new blocks as free, and submits the new bitmap blocks and the superblock in one work item |
| MinfsState.InoNew | system/ulib/minfs/minfs.cpp:513-560 | corrected (see ## Findings, minfs.cpp:421-436): allocating an inode keeps the filesystem invariant; when the table must grow it grows through the corrected AddInodes, so a failed growth leaves the inode bitmap as it was |
| MinfsState.TakeInode | system/ulib/minfs/minfs.cpp:526-559 | taking an inode keeps the filesystem invariant; TakeFreeInode states what it changes |
| MinfsState.FindFromHint | system/ulib/minfs/minfs.cpp:679-680 | the search order of BlockNew, from the hint to the end and then from the start to the hint; BlockNewHonoursHint states what it finds |
| MinfsState.TakeBlock | system/ulib/minfs/minfs.cpp:691-711 | taking a block keeps the filesystem invariant |
| MinfsState.BlockNew | system/ulib/minfs/minfs.cpp:676-712 | allocating a block keeps the filesystem invariant; BlockNewHonoursHint and BlockNewThenFree state its outcome |
| MinfsState.FreeBlock | system/ulib/minfs/minfs.cpp:656-670 | releasing a block keeps the filesystem invariant; BlockNewThenFree states that it undoes an allocation |
| MinfsState.TakeFreeInode | system/ulib/minfs/minfs.cpp:526-559 | taking a clear inode sets its bit and only its bit, counts it allocated, stores its record and stages its table block, its bitmap block and the superblock |
| MinfsState.TakeGrownInode | system/ulib/minfs/minfs.cpp:515-524 | an inode found past the old end after a successful growth is taken the same way |
| MinfsState.InoNewAllocatesFreeInode | system/ulib/minfs/minfs.cpp:513-560 | a successful allocation takes an inode that was free and changes no other inode bit; a failed one stages nothing, counts nothing and changes no old inode bit |
| MinfsState.InoNewFirstFit | system/ulib/minfs/minfs.cpp:515 | when any inode is free the allocation succeeds without growing, on the lowest-numbered free inode |
| MinfsState.InoNewFullNonFvm | system/ulib/minfs/minfs.cpp:513-524 | a full filesystem on a plain device reports NO_SPACE and changes nothing |
| MinfsState.InoNewRollbackRestores | system/ulib/minfs/minfs.cpp:543-547 | the rollback for a failed inode write-back gives back the bitmap and the allocated-inode count |
| MinfsState.BlockNewHonoursHint | system/ulib/minfs/minfs.cpp:679-689 | when any block is free the allocation succeeds without growing, on a block that was free: the first free block at or after the hint, and only when none follows the hint the lowest free block below it |
| MinfsState.BlockNewThenFree | system/ulib/minfs/minfs.cpp:656-712 | allocating a block other than block 0 and freeing it leaves the filesystem state exactly as it was |
| MinfsState.NonZero | system/ulib/minfs/minfs.cpp:276-284 | the released pointers are the non-zero ones, in order, none when all are zero |
| MinfsState.IndirectRelease | system/ulib/minfs/minfs.cpp:287-317 | the blocks an indirect run releases, each indirect block after its data blocks; NoIndirectBlocks and ReleaseOrderExample show it |
| MinfsState.DoublyRelease | system/ulib/minfs/minfs.cpp:319-372 | the blocks a doubly-indirect run releases, each pointer block after what it holds; DoublyReleaseWithoutIndirect and ReleaseOrderExample show it |
| MinfsState.ReleaseOrder | system/ulib/minfs/minfs.cpp:276-372 | every block of an inode in release order: direct, indirect, then doubly indirect; WalkCompletes and InoFreeReleasesAllBlocks state that InoFree releases exactly them |
| MinfsState.FreeWalk | system/ulib/minfs/minfs.cpp:261-378 | what the release loops free when the indirect-block cache can fail; FreeWalkIsPrefix, WalkStopsAtIndirect, WalkStopsAtDoubly, WalkStopsAtLoad and WalkCompletes state it |
| MinfsState.FirstLoad | system/ulib/minfs/minfs.cpp:319-372 | the first doubly-indirect slot whose block holds a non-zero entry, where the load of an indirect block happens first |
| MinfsState.DoublyReleaseWithoutIndirect | system/ulib/minfs/minfs.cpp:319-372 | doubly-indirect blocks pointing at no indirect block release just themselves |
| MinfsState.NoIndirectBlocks | system/ulib/minfs/minfs.cpp:287-317 | with no indirect pointer nothing is released by the indirect loop |
| MinfsState.WalkStopsAtIndirect | system/ulib/minfs/minfs.cpp:287-300 | when the indirect block cache cannot be set up and there is an indirect block, only the direct blocks are released and the error is returned |
| MinfsState.WalkStopsAtDoubly | system/ulib/minfs/minfs.cpp:319-330 | when the cache cannot be set up at the first doubly-indirect pointer, the direct and indirect blocks are released and the error is returned |
| MinfsState.WalkStopsAtLoad | system/ulib/minfs/minfs.cpp:341-346 | when loading an indirect block within a doubly-indirect one fails, everything before that slot is released and the error is returned |
| MinfsState.WalkCompletes | system/ulib/minfs/minfs.cpp:261-378 | when no load that fails is reached, every block of the inode is released in order |
| MinfsState.FreeWalkIsPrefix | system/ulib/minfs/minfs.cpp:261-378 | whatever the loads answer, the blocks released are a prefix of the inode's blocks in release order, the status is OK or the failing load's, and OK means all of them were released |
| MinfsState.WrapSubCompose | system/ulib/minfs/minfs.cpp:281-366 | decrementing a uint32 counter by a and then by b is decrementing it by a + b |
| MinfsState.ReleaseOrderInRange | system/ulib/minfs/minfs.cpp:281 | when every pointer names a block of the volume, every block released is one BlockFree accepts |
| MinfsState.FreeBlocksStep | system/ulib/minfs/minfs.cpp:656-670 | freeing one more block is one more BlockFree on the state and one more bitmap block staged |
| MinfsState.FreeBlocks | system/ulib/minfs/minfs.cpp:656-670 | BlockFree over a list of blocks keeps the filesystem invariant |
| MinfsState.InoFreeOfWalk | system/ulib/minfs/minfs.cpp:261-378 | freeing an inode clears its bit, frees the blocks the walk released, stages the inode bitmap block, one bitmap block per freed block and, on success, the superblock |
| MinfsState.InoFree | system/ulib/minfs/minfs.cpp:261-378 | releasing an inode keeps the filesystem invariant; InoFreeOfWalk and InoFreeReleasesAllBlocks state its effect |
| MinfsState.InoFreeReleasesAllBlocks | system/ulib/minfs/minfs.cpp:261-378 | when every load succeeds, each block of the inode is clear afterwards, every other block keeps its bit, the block count drops by the number released, the inode bit is clear and the superblock is staged last |
| MinfsState.InoNewThenFree | system/ulib/minfs/minfs.cpp:261-560 | allocating an inode that owns no blocks and freeing it leaves both bitmaps and the superblock as they were |
| MinfsState.ReleaseOrderExample | system/ulib/minfs/minfs.cpp:261-378 | three direct blocks, one indirect block of four entries and one doubly indirect block reaching two data blocks through one indirect block release twelve blocks in the order the loops visit them, each pointer block after the blocks it holds, matching a block_count of 12 |
| Minfs.WriteTxn.Enqueue | system/ulib/minfs/minfs.cpp:273 | an enqueue appends its request to the transaction |
| Minfs.EraseObject | system/ulib/minfs/minfs.cpp:620-622 | erasing by object drops exactly the keys holding that vnode and keeps every other entry |
| Minfs.EraseObjectRemovesItsKey | system/ulib/minfs/minfs.cpp:620-622 | a vnode cached only under its own number is removed with that key alone |
| Minfs.EraseObjectSparesSuccessor | system/ulib/minfs/minfs.cpp:601-610 | erasing a stale vnode keeps a newer vnode cached under the same inode number |
| Minfs.Minfs.constructor | system/ulib/minfs/minfs.cpp:228-255 | the filesystem starts with the superblock given, no cached vnodes, no work and no requests |
| Minfs.Minfs.Create | system/ulib/minfs/minfs.cpp:753-869 | corrected (see ## Findings, minfs.cpp:69-73 and minfs.cpp:152-170, through the superblock check): mounting succeeds exactly when the superblock passes the check and the setup succeeds; a failed check returns its status; on success the bitmaps span whole blocks for the superblock's counts, hold the bits on disk, the inode table holds the disk's records, and the volume-manager requests are those of the check |
| Minfs.Minfs.SizeAndLoad | system/ulib/minfs/minfs.cpp:770-869 | the setup status is returned; on success the bitmaps and the inode table are sized from the counts, whole blocks each, and hold what the disk holds |
| Minfs.Minfs.InodeSync | system/ulib/minfs/minfs.cpp:197-217 | the record is stored in the table, its table block is staged, the result is OK and nothing else changes |
| Minfs.Minfs.CountUpdate | system/ulib/minfs/minfs.cpp:714-730 | the superblock is staged and the result is OK |
| Minfs.Minfs.AddInodes | system/ulib/minfs/minfs.cpp:380-448 | the status and the new state are those of the corrected inode growth, and the vnode cache is untouched |
| Minfs.Minfs.ResizeInodes | system/ulib/minfs/minfs.cpp:421-448 | the part after the extend and the bitmap checks: the status and state are those of the corrected inode growth |
| Minfs.Minfs.AddBlocks | system/ulib/minfs/minfs.cpp:450-511 | the status and the new state are those of the block growth, and the vnode cache is untouched |
| Minfs.Minfs.CommitBlocks | system/ulib/minfs/minfs.cpp:487-507 | the block bitmap grows to the new count, the superblock counts the slice and its blocks, and the grown bitmap blocks and the superblock are staged |
| Minfs.Minfs.InoNew | system/ulib/minfs/minfs.cpp:513-560 | corrected (see ## Findings, minfs.cpp:421-436): the status, the inode number, the new state and the staged entries are those of the inode allocation |
| Minfs.Minfs.TakeInode | system/ulib/minfs/minfs.cpp:526-559 | the status, new state and staged entries are those of taking the inode in the model, and the vnode cache is untouched |
| Minfs.Minfs.BlockNew | system/ulib/minfs/minfs.cpp:676-712 | the status, the block number, the new state and the staged entries are those of the block allocation |
| Minfs.Minfs.BlockFree | system/ulib/minfs/minfs.cpp:656-670 | the block's bit is cleared, the count drops by one and its bitmap block is staged, as the block release states |
| Minfs.Minfs.ReleaseRun | system/ulib/minfs/minfs.cpp:276-284 | a run of pointers frees exactly its non-zero entries, in order |
| Minfs.Minfs.ReleaseTree | system/ulib/minfs/minfs.cpp:305-316 | an indirect block frees its non-zero entries and then itself |
| Minfs.Minfs.ReleaseIndirect | system/ulib/minfs/minfs.cpp:287-317 | the indirect loop frees exactly the indirect release list, or stops with the cache's error before freeing anything when there is an indirect block |
| Minfs.Minfs.ReleaseBlock | system/ulib/minfs/minfs.cpp:362-363 | one more BlockFree extends the walk by that block, keeping the walk's standing |
| Minfs.Minfs.ReleaseDirect | system/ulib/minfs/minfs.cpp:277-284 | one direct pointer: released exactly when it is non-zero |
| Minfs.Minfs.ReleaseSlot | system/ulib/minfs/minfs.cpp:288-316 | one indirect slot: a zero pointer is skipped, a failed load is returned with nothing freed, otherwise its data blocks and then itself are freed |
| Minfs.Minfs.ReleaseDoubly | system/ulib/minfs/minfs.cpp:319-372 | the doubly-indirect loop frees its blocks slot by slot up to the first failing load |
| Minfs.Minfs.ReleaseDoublySlot | system/ulib/minfs/minfs.cpp:320-367 | one doubly-indirect slot: a zero pointer is skipped, a failed cache set-up or load is returned, otherwise its indirect trees and then itself are freed |
| Minfs.Minfs.ReleaseDoublyStep | system/ulib/minfs/minfs.cpp:320-367 | slot n of the doubly-indirect walk keeps the walk's standing for the slots up to n + 1 |
| Minfs.Minfs.ReleaseAll | system/ulib/minfs/minfs.cpp:276-372 | the three loops free exactly what the release walk frees and return its status |
| Minfs.Minfs.ClearInodeBit | system/ulib/minfs/minfs.cpp:268-273 | the inode bit is cleared, the allocated-inode count drops by one and the inode bitmap block is staged |
| Minfs.Minfs.InoFree | system/ulib/minfs/minfs.cpp:261-378 | the status, the new state and the staged entries are those of the inode release, and on success the running block count ends at block_count less the blocks released |
| Minfs.Minfs.VnodeInsert | system/ulib/minfs/minfs.cpp:585-591 | a vnode whose number is not cached is cached under it and nothing else changes |
| Minfs.Minfs.VnodeLookup | system/ulib/minfs/minfs.cpp:593-618 | a miss returns nothing; a vnode being destroyed is erased by key and not returned; an unlinked vnode stays cached and is not returned; otherwise the cached vnode is returned |
| Minfs.Minfs.VnodeReleaseLocked | system/ulib/minfs/minfs.cpp:620-622 | the vnode is erased from the cache by identity |
| Minfs.Minfs.VnodeGet | system/ulib/minfs/minfs.cpp:624-654 | a number outside 1 to inode_count - 1 is OUT_OF_RANGE; a usable cached vnode is returned; otherwise a new vnode with the inode's record from the table is cached and returned, or NO_MEMORY with the stale entry gone |
| Minfs.Minfs.VnodeNew | system/ulib/minfs/minfs.cpp:562-583 | corrected (see ## Findings, minfs.cpp:421-436): a type other than file or directory is INVALID_ARGS and a failed vnode allocation its status, both changing nothing; otherwise the inode allocation decides, and on success a new vnode for the inode taken is cached under a number that was not cached |
| Minfs.Minfs.AllocVnode | system/ulib/minfs/minfs.cpp:576-582 | corrected (see ## Findings, minfs.cpp:421-436): the status, state and staged entries are those of the inode allocation; on success a fresh vnode for the new inode is cached under a number that was not cached, and on failure nothing is cached |

## Left out

- Threads, interrupts, waits, timers and locks: the I2C interrupt and transaction threads, `aml_i2c_wait_event`'s event wait (its outcome is a parameter), the Gauss IRQ thread and notification timer (`ProcessRingNotification`), `hash_lock_` in minfs, and the `pci_next_txid` atomic counter. The model is sequential.
- Hardware I/O: block-device reads and writes, VMO attachment and the write-back thread in minfs (the write-back transaction is a list of enqueue requests), the DAC and clock register writes in the Gauss stream's start and stop paths (`SetModuleClocks`), and the mapping of register pages (a register window is a map plus a write log).
- Floating point: the gain comparison in `OnSetGainLocked`; the model keeps only whether the requested gain is zero.
- Opaque utilities: `FormatIsCompatible` and `ComputeFrameSize` from the audio utilities are parameters.
- Host-side minfs (`#ifndef __Fuchsia__`): `ReadBlk`'s soft and hard limits are modelled; the host-only extent set-up in the constructor and the direct block reads of `InodeSync` and `VnodeGet` are not. The on-device inode-table VMO is the `inodeTable` sequence.
- minfs operations outside the allocation and layout engine: `minfs_mount`, `Unmount`, fsck, directory operations and `Sync`.
- `sys_bti_create`, `sys_bti_unpin` and the other syscalls of syscalls_ddk.cpp are not part of this model.
- The PCI pass-through operations `enable_pio`, `config_read`, `map_interrupt`, `query_irq_mode_caps`, `set_irq_mode` and `get_device_info`, and `kpci_release`/`kpci_init`; the non-proxy build of protocol.c is not modelled.
- `io_buffer_physmap_range` and the other io-buffer functions outside the inline accessors.
- The Gauss stream's `DdkIoctl`; each channel's write outcome is one fixed status for all its writes.
- The AML I2C driver's `dumpstate` diagnostic and the asynchronous transaction queue.
- `crypto::Bytes`: zeroization on free is not observable in the model; an allocation that fails is assumed to leave the buffer unchanged.
- CryptoBytes.Bytes.Copy: the `size_t` overflow of `off + len` is not modelled; offsets and lengths are unbounded.
- AmlI2c.AmlI2cDev.Read: requires `len >= 1`, as its only caller does (`rx_len > 0`); a zero-length read would make `len - 1` wrap.
- AmlI2c.AmlI2cDev.BuildReadTokens: requires `len >= 1` for the same reason.
- XhciRootHub.RootHub.HandlePortChanged: requires a port number of at least 1, as the event TRB carries it; port 0 would address below the first PORTSC register.
- GaussTdm.TdmOutputStream.OnGetBuffer: requires a set frame size (a debug assert in the source) small enough that `48 * frame_size_` does not wrap.
- GaussTdm.TdmOutputStream.ProcessRingBufferChannel: has the same requirement for a GetBuffer request.
- PinnedMemory.Pmo.Create: takes a non-empty range; a zero-size pin, which the VM object decides, is not modelled.
- BusTxnInitiator.Bti.Pin: takes a non-empty range, for the same reason.
- SyscallsDdk.BtiPin: takes a non-empty range, for the same reason.
- PinnedMemory.Pmo.MapIntoIommu: the page lookup of the contiguous path is assumed to succeed; its failure is not modelled.
- Minfs.Minfs.VnodeGet: requires that no live but unlinked vnode is cached for the inode, because the source's insertion asserts the key is absent in that case.
- Minfs.Minfs.InoFree: `block_count` ends at `block_count` less the blocks released in uint32 arithmetic; it is zero exactly when the inode's recorded count matches its pointers (the source asserts this, and `ReleaseOrderExample` shows a case).
- MinfsState.InoNewRollbackRestores: `InodeSync` always returns OK, so the rollback in `InoNew` is unreachable; the lemma states what it would restore.
- Minfs.Minfs.Create: the memory allocations and device attachments between the sizing and the load are one status, `setupStatus`.
- MinfsState.AddInodes: the inode and block counts after a growth are computed in uint32 as the source does, but a wrap of the bitmap-size rounding is not modelled.
- MinfsState.AddBlocks: `abmblks`, `abmblks_old` and `round_up(blocks, kMinfsBlockBits)` are computed without the uint32 wrap of the source (minfs.cpp:463-464 and 489); they differ only for a block count above 2^32 - 65536, where the source's roundings wrap to 0.
- MinfsState.AddBlocksGrowth: states the growth with the same unwrapped roundings.
- Minfs.Minfs.AddBlocks: follows MinfsState.AddBlocks, with the same unwrapped roundings.
- Minfs.Minfs.CommitBlocks: grows the bitmap to the unwrapped `round_up` for the same reason.
- Minfs.Minfs.SizeAndLoad: sizes the bitmaps and the inode table with the roundings of minfs.cpp:774-776 taken without the uint32 wrap; a count above 2^32 - 65536 that passes the superblock check would make the source size a bitmap of 0 blocks and fail its `Shrink`.
- Minfs.Minfs.Create: sizes the filesystem through SizeAndLoad, with the same unwrapped roundings.
- Kpci.Channel: every write on a channel has the one outcome `writeStatus`; a channel whose writes fail for some replies and not others is not modelled.
- GaussTdm.Channel: every write on a channel has the one outcome `writeStatus`, as for the PCI channel.
- minfs's `RawBitmap` internals are not part of this model; the bitmap is modelled from its call sites. The error its Shrink returns when the usable bits exceed the storage is the `shrinkRefused` parameter of Mkfs.
- MinfsMkfs.Fresh: rounds the storage without the uint32 wrap; FormatMaps builds the bitmaps with the uint32 rounding and proves them equal to Fresh's whenever ShrinkFits holds, which is the only case in which mkfs reaches them.
- MinfsMkfs.FvmGeometry: a slice size of 0 is excluded, because the source then divides by zero when it computes the blocks per slice.
- Pl061.WriteThenRead and Pl061.WriteThenReadPin: the masked GPIODATA addresses are independent registers of the model's register window. The PL061's masking of one shared data register, and input pins reading the line, are not modelled.
- A113Gpio.Hw.Sane assumes A113_PINMUX_ALT_FN_MAX is below 16, because the header that defines it is not part of this model.
- MinfsFormat.CheckInfo: requires the volume manager's slice size to hold at least one block; for a smaller slice the source computes a blocks-per-slice of 0 (minfs.cpp:75) and divides by it (minfs.cpp:96-99).
- Minfs.Minfs.Create: requires the same, through the superblock check, for the same reason.

## Findings

| source | as written | input that shows it | evidently intended | confidence | as-written member | corrected member |
|---|---|---|---|---|---|---|
| system/ulib/minfs/minfs.cpp:69-73 | on a plain device the fit test sums `dat_block + block_count` in uint32, so the sum can wrap and pass | `dat_block` 2^32 - 1, `block_count` 2, device of 100 blocks: the sum wraps to 1 and the superblock is accepted | the data region must lie within the device | not executed; high | MinfsFormat.FitsDeviceAsWrittenWraps | MinfsFormat.FitsDeviceMeansInDevice |
| system/ulib/minfs/minfs.cpp:152-170 | the blocks needed for the inode bitmap, the block bitmap and the inode table are rounded up as `(count + per - 1) / per` on a uint32_t count, so the numerator wraps for a count near 2^32 | an FVM superblock with inode_count 2^32 - 1 and one one-block slice each for the inode bitmap and the inode table: both roundings give 0 blocks needed and the superblock is accepted | the slices must hold one bitmap bit and one table record per inode | not executed; medium (assumes the minfs block-bit and inodes-per-block constants are 32-bit, as the header that defines them is not part of this model) | MinfsFormat.CapacityAsWrittenWraps | MinfsFormat.SlicesHoldLayoutMeansRoom |
| system/ulib/minfs/minfs.cpp:1032-1034 | `block_count = dat_block_count - round_up(abmblks, 8)` is not checked and wraps on a small partition | a 1041-block device: 1 data block remains, 8 bitmap blocks are subtracted, `block_count` becomes 2^32 - 7 | refuse a partition with no room for data after the block bitmap | not executed; high | MinfsFormat.MkfsLayoutAsWrittenUnderflows | MinfsFormat.MkfsLayoutSound |
| system/ulib/minfs/minfs.cpp:1033-1071 | `abmblks = (dat_block_count + kMinfsBlockBits - 1) / kMinfsBlockBits` and `round_up(block_count, kMinfsBlockBits)` are uint32 computations that wrap on a large device | a device of 2^32 - 1 blocks: abmblks wraps to 0, block_count is the whole data area, its rounding wraps to 0, so the block bitmap is reset to no storage and `abm.Shrink(block_count)` fails | give the block bitmap its 65536 blocks and format the device | not executed; medium (assumes the minfs block-bit constant is 32-bit, as the header that defines it is not part of this model) | MinfsMkfs.MkfsAsWrittenRefusesLargeDevice | MinfsMkfs.MkfsLayoutShrinks |
| system/ulib/minfs/minfs.cpp:1096-1100 | the block-bitmap write loop runs over `abmblks`, computed before the bitmap's own blocks are subtracted, while the bitmap's storage covers `block_count` | a 66579-block device: `abmblks` is 2, `block_count` 65531 needs 1 storage block, and the loop reads a second block past the storage | write exactly the blocks of the bitmap's storage | not executed; medium | MinfsMkfs.MkfsAbmWriteOverreads | MinfsMkfs.MkfsAbmWriteFits |
| system/ulib/minfs/minfs.cpp:421-436 | when the inode table cannot grow, `AddInodes` returns NO_SPACE after the inode bitmap was already enlarged | a volume-backed filesystem whose inode-table growth fails: the bitmap exposes inodes with no table record | leave the bitmap as it was, like every other failure of the operation | not executed; medium | MinfsState.AddInodesAsWrittenBreaksInvariant | MinfsState.AddInodes |
| system/dev/soc/aml-a113/aml-i2c.c:44-48 | `reg & 0xff` keeps the old address byte and drops the rest, and the new address is ORed in | old register 0xA0 (address 0x50), new address 0x20: the register becomes 0xE0, address 0x70 | clear the address field (`reg & ~0xff`) before setting it | not executed; high | AmlI2c.SlaveAddrAsWrittenMixesAddresses | AmlI2c.SlaveAddrSet |
| system/ulib/ddk/include/ddk/io-buffer.h:95-102 | the two 64-bit subtractions can wrap twice and land inside the buffer, so the overflow test misses it | size 100, buffer offset 20, offset 2^64 - 10: the result is 90 | no room once the offsets pass the end | not executed; low | IoBuffer.SizeAsWrittenDoubleWrap | IoBuffer.Size |
| kernel/syscalls/syscalls_ddk.cpp:124-154 | `ROUNDUP_PAGE_SIZE(size)` wraps for a size within a page of 2^64, after the zero check | size 2^64 - 1: it rounds to 0 and an empty object is created with every later call succeeding | refuse a size that does not round up within 64 bits | not executed; medium | SyscallsDdk.VmoCreateContiguousWrapsToEmpty | SyscallsDdk.VmoCreateContiguousSound |
