// The xHCI root hub's port status change handling
// (system/udev/usb-xhci/xhci-root-hub.c): on a Port Status Change event the
// driver reads the port's PORTSC register (section 5.4.8 of the xHCI
// specification), writes the change bits back to acknowledge them, and then
// resets a newly connected port, reports a disconnect, or enumerates a port
// whose reset completed. PORTSC is changed by the controller itself and its
// change bits are cleared by writing ones, so the values the driver reads
// are parameters rather than the last value written.
module XhciRootHub {

  /** The PORTSC fields the handler uses, as masks (their values come from a
      header this model does not include): Current Connect Status, Port
      Enabled, Port Reset, Connect Status Change, Port Reset Change, the
      control bits preserved on a write, the change bits, and the Port Speed
      field's mask and shift. */
  datatype PortscBits = PortscBits(ccs: bv32, ped: bv32, pr: bv32, csc: bv32, prc: bv32,
                                   control: bv32, status: bv32, speedMask: bv32, speedShift: bv32)
  {
    /** CSC and PRC are change bits, and change bits are not control bits. */
    predicate Valid()
    {
      csc != 0 && prc != 0 && csc & status == csc && prc & status == prc && control & status == 0 &&
      speedShift < 32
    }
  }

  /** Base address of the operational registers; PORTSC of port `n` (from 1)
      lies at offset 400h + 10h * (n - 1), section 5.4.8 of the xHCI
      specification. */
  function PortscAddr(opBase: nat, port: nat): nat
    requires port >= 1
  {
    opBase + 0x400 + 0x10 * (port - 1)
  }

  /** What the handler does, in order: a register write, or a call into the
      device layer (xhci_device_disconnected, xhci_enumerate_device). */
  datatype HubAction =
    | PortWrite(addr: nat, value: bv32)
    | Disconnected(port: nat)
    | Enumerate(port: nat, speed: bv32)

  /** `v` has a bit of `mask` set. */
  predicate Has(v: bv32, mask: bv32)
  {
    v & mask != 0
  }

  /** The port's speed: the PORTSC speed field shifted down. */
  function Speed(b: PortscBits, portsc: bv32): bv32
    requires b.Valid()
  {
    (portsc & b.speedMask) >> b.speedShift
  }

  /** The acknowledge value: the control bits as read plus every change bit
      that is set. */
  function Ack(b: PortscBits, portsc: bv32): bv32
  {
    (portsc & b.control) | (portsc & b.status)
  }

  /** The value xhci_reset_port writes: the control bits as read, plus PR. */
  function ResetValue(b: PortscBits, read: bv32): bv32
  {
    (read & b.control) | b.pr
  }

  /** The actions of the connect status change handling. */
  function ConnectActions(b: PortscBits, opBase: nat, port: nat, portsc: bv32, resetRead: bv32): seq<HubAction>
    requires port >= 1
  {
    if !Has(portsc, b.csc) then []
    else if Has(portsc, b.ccs) then [PortWrite(PortscAddr(opBase, port), ResetValue(b, resetRead))]
    else [Disconnected(port)]
  }

  /** The actions of the port reset change handling. */
  function ResetChangeActions(b: PortscBits, port: nat, portsc: bv32): seq<HubAction>
    requires b.Valid()
  {
    if Has(portsc, b.prc) && Has(portsc, b.ped) then [Enumerate(port, Speed(b, portsc))] else []
  }

  /** Every action of xhci_handle_port_changed_event for port `port` whose
      PORTSC read `portsc` (and `resetRead` when xhci_reset_port reads it
      again). */
  function PortActions(b: PortscBits, opBase: nat, port: nat, portsc: bv32, resetRead: bv32): seq<HubAction>
    requires b.Valid() && port >= 1
  {
    if !Has(portsc, b.status) then []
    else [PortWrite(PortscAddr(opBase, port), Ack(b, portsc))] +
         ConnectActions(b, opBase, port, portsc, resetRead) + ResetChangeActions(b, port, portsc)
  }

  /** The root hub's view of its ports: the actions it has taken so far. */
  class RootHub {
    const bits: PortscBits
    const opBase: nat
    var actions: seq<HubAction>

    constructor(bits: PortscBits, opBase: nat)
      requires bits.Valid()
      ensures this.bits == bits && this.opBase == opBase && actions == []
    {
      this.bits := bits;
      this.opBase := opBase;
      actions := [];
    }

    /** XHCI_WRITE32 on PORTSC of `port`. */
    method WritePortsc(port: nat, v: bv32)
      requires port >= 1
      modifies this
      ensures actions == old(actions) + [PortWrite(PortscAddr(opBase, port), v)]
    {
      actions := actions + [PortWrite(PortscAddr(opBase, port), v)];
    }

    /** xhci_reset_port: PORTSC reads `read`; write back its control bits with
        PR set. */
    method ResetPort(port: nat, read: bv32)
      requires port >= 1
      modifies this
      ensures actions == old(actions) + [PortWrite(PortscAddr(opBase, port), ResetValue(bits, read))]
    {
      WritePortsc(port, ResetValue(bits, read));
    }

    /** xhci_handle_port_changed_event: `port` is the port id the event TRB
        carries, `portsc` what PORTSC reads, `resetRead` what it reads when a
        reset follows. */
    method HandlePortChanged(port: nat, portsc: bv32, resetRead: bv32)
      requires bits.Valid() && port >= 1
      modifies this
      ensures actions == old(actions) + PortActions(bits, opBase, port, portsc, resetRead)
    {
      var speed := Speed(bits, portsc);
      if Has(portsc, bits.status) {
        var connected := Has(portsc, bits.ccs);
        var enabled := Has(portsc, bits.ped);
        WritePortsc(port, Ack(bits, portsc));
        if Has(portsc, bits.csc) {
          if connected {
            ResetPort(port, resetRead);
          } else {
            actions := actions + [Disconnected(port)];
          }
        }
        if Has(portsc, bits.prc) {
          if enabled {
            actions := actions + [Enumerate(port, speed)];
          }
        }
      }
    }
  }

  // What the handling promises.

  /** Without a change bit set nothing is written and no handler runs. */
  lemma NoChangeNoAction(b: PortscBits, opBase: nat, port: nat, portsc: bv32, resetRead: bv32)
    requires b.Valid() && port >= 1
    ensures PortActions(b, opBase, port, portsc, resetRead) == [] <==> !Has(portsc, b.status)
  {
  }

  /** A set change bit is a change: CSC and PRC are among the bits the
      handler tests first. */
  lemma ChangeBitsAreStatus(b: PortscBits, portsc: bv32)
    requires b.csc & b.status == b.csc && b.prc & b.status == b.prc
    ensures Has(portsc, b.csc) ==> Has(portsc, b.status)
    ensures Has(portsc, b.prc) ==> Has(portsc, b.status)
  {
    ChangeBitIsStatus(portsc, b.csc, b.status);
    ChangeBitIsStatus(portsc, b.prc, b.status);
  }

  lemma ChangeBitIsStatus(portsc: bv32, bit: bv32, status: bv32)
    requires bit & status == bit
    ensures Has(portsc, bit) ==> Has(portsc, status)
  {
    assert portsc & bit == (portsc & status) & bit;
  }

  /** The acknowledge write sets exactly the change bits that were set, so
      writing ones clears them. */
  lemma AckChangeBits(b: PortscBits, portsc: bv32)
    requires b.Valid()
    ensures Ack(b, portsc) & b.status == portsc & b.status
  {
  }

  /** The acknowledge write keeps the control bits as they were read. */
  lemma AckControlBits(b: PortscBits, portsc: bv32)
    requires b.Valid()
    ensures Ack(b, portsc) & b.control == portsc & b.control
  {
  }

  /** The acknowledge write sets no bit outside the control and change
      bits. */
  lemma AckNothingElse(b: PortscBits, portsc: bv32)
    ensures Ack(b, portsc) & !(b.control | b.status) == 0
  {
  }

  /** The reset write sets PR and keeps the control bits besides PR. */
  lemma ResetSetsPr(b: PortscBits, read: bv32)
    ensures ResetValue(b, read) & b.pr == b.pr
    ensures ResetValue(b, read) & b.control & !b.pr == read & b.control & !b.pr
  {
  }

  /** Whenever the handler acts, its first action is the acknowledge write
      to the event's port. */
  lemma AckComesFirst(b: PortscBits, opBase: nat, port: nat, portsc: bv32, resetRead: bv32)
    requires b.Valid() && port >= 1
    ensures var acts := PortActions(b, opBase, port, portsc, resetRead);
            acts != [] ==> acts[0] == PortWrite(PortscAddr(opBase, port), Ack(b, portsc))
  {
  }

  /** The port is reset exactly when its connection status changed and it
      is connected. */
  lemma ResetIffConnected(b: PortscBits, opBase: nat, port: nat, portsc: bv32, resetRead: bv32)
    requires b.Valid() && port >= 1
    ensures var acts := PortActions(b, opBase, port, portsc, resetRead);
            (exists i :: 1 <= i < |acts| && acts[i] == PortWrite(PortscAddr(opBase, port), ResetValue(b, resetRead)))
            <==> Has(portsc, b.csc) && Has(portsc, b.ccs)
  {
    ChangeBitsAreStatus(b, portsc);
    var acts := PortActions(b, opBase, port, portsc, resetRead);
    if Has(portsc, b.csc) && Has(portsc, b.ccs) {
      assert acts[1] == PortWrite(PortscAddr(opBase, port), ResetValue(b, resetRead));
    }
  }

  /** A disconnect is reported exactly when the connection status changed
      and the port is not connected. */
  lemma DisconnectIffNotConnected(b: PortscBits, opBase: nat, port: nat, portsc: bv32, resetRead: bv32)
    requires b.Valid() && port >= 1
    ensures Disconnected(port) in PortActions(b, opBase, port, portsc, resetRead) <==>
            Has(portsc, b.csc) && !Has(portsc, b.ccs)
  {
    ChangeBitsAreStatus(b, portsc);
  }

  /** The device is enumerated, at the port's speed, exactly when the port
      reset completed and the port is enabled. */
  lemma EnumerateIffEnabled(b: PortscBits, opBase: nat, port: nat, portsc: bv32, resetRead: bv32)
    requires b.Valid() && port >= 1
    ensures Enumerate(port, Speed(b, portsc)) in PortActions(b, opBase, port, portsc, resetRead) <==>
            Has(portsc, b.prc) && Has(portsc, b.ped)
    ensures forall p, s :: Enumerate(p, s) in PortActions(b, opBase, port, portsc, resetRead) ==>
              p == port && s == Speed(b, portsc)
  {
    ChangeBitsAreStatus(b, portsc);
  }

  /** When the connection changed and the reset completed in one event, the
      connect handling runs first: the reset write, or the disconnect, comes
      before the enumeration. */
  lemma ConnectBeforeReset(b: PortscBits, opBase: nat, port: nat, portsc: bv32, resetRead: bv32)
    requires b.Valid() && port >= 1
    requires Has(portsc, b.csc) && Has(portsc, b.prc) && Has(portsc, b.ped)
    ensures var acts := PortActions(b, opBase, port, portsc, resetRead);
            |acts| == 3 && acts[2] == Enumerate(port, Speed(b, portsc)) &&
            acts[1] == if Has(portsc, b.ccs) then PortWrite(PortscAddr(opBase, port), ResetValue(b, resetRead))
                       else Disconnected(port)
  {
    ChangeBitsAreStatus(b, portsc);
  }
}
