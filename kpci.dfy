// The top devhost side of the PCI proxy protocol (system/dev/bus/pci/kpci.c):
// a request read from the RPC channel is dispatched through the callback
// table by its ordinal; a callback replies on the channel itself, and an
// error it hands back (or a missing callback) becomes an error reply that
// echoes the request's transaction id and carries the status as ordinal.
module Kpci {
  import opened Zx
  import IntelIommu

  /** pci_op_t. */
  const PCI_OP_RESET_DEVICE: nat := 1
  const PCI_OP_ENABLE_BUS_MASTER: nat := 2
  const PCI_OP_ENABLE_PIO: nat := 3
  const PCI_OP_CONFIG_READ: nat := 4
  const PCI_OP_GET_NEXT_CAPABILITY: nat := 5
  const PCI_OP_GET_RESOURCE: nat := 6
  const PCI_OP_MAP_RESOURCE: nat := 7
  const PCI_OP_QUERY_IRQ_MODE_CAPS: nat := 8
  const PCI_OP_SET_IRQ_MODE: nat := 9
  const PCI_OP_MAP_INTERRUPT: nat := 10
  const PCI_OP_GET_DEVICE_INFO: nat := 11
  const PCI_OP_GET_AUXDATA: nat := 12
  const PCI_OP_GET_BTI: nat := 13
  const PCI_OP_MAX: nat := 14

  const PCI_MAX_DATA: nat := 4096

  /** sizeof(pci_msg_t): six 32-bit header words and the data array. */
  const MSG_SIZE: nat := 24 + PCI_MAX_DATA

  /** A pci_msg_t request; `reserved0` and `flags` play no part. */
  datatype Msg = Msg(txid: nat, ordinal: nat, outlen: nat, datalen: nat, data: seq<bv8>)
  {
    /** The data array has its fixed size. */
    predicate WellFormed()
    {
      |data| == PCI_MAX_DATA
    }
  }

  /** A pci_msg_t reply. Its ordinal carries a zx_status_t; `data` is the
      part of the data array that was filled in (the rest is zero) and
      `handles` the handles that travel with it. */
  datatype Reply = Reply(txid: nat, ordinal: Status, datalen: nat, data: seq<bv8>, handles: seq<nat>)

  /** The reply of pci_rpc_reply_ok. */
  function OkReply(txid: nat): (r: Reply)
    ensures r.txid == txid && r.ordinal == Ok && r.handles == []
  {
    Reply(txid, Ok, 0, [], [])
  }

  /** The reply built at the `err` label of kpci_rxrpc. */
  function ErrorReply(txid: nat, st: Status): (r: Reply)
    ensures r.txid == txid && r.ordinal == st && r.handles == []
  {
    Reply(txid, st, 0, [], [])
  }

  /** The callbacks rxrpc_cbk_tbl holds. */
  datatype Handler = ResetDevice | EnableBusMaster | GetAuxdata | GetBti

  /** rxrpc_cbk_tbl, indices 0 to PCI_OP_MAX. */
  const CBK_TBL: seq<Option<Handler>> :=
    [None, Some(ResetDevice), Some(EnableBusMaster), None, None, None, None, None,
     None, None, None, None, Some(GetAuxdata), Some(GetBti), None]

  /** The callback kpci_rxrpc runs for ordinal `op`: none for an ordinal at
      or past PCI_OP_MAX or with an empty table slot. Only reset, bus
      mastering, auxdata and BTI requests are served here. */
  function Lookup(op: nat): (h: Option<Handler>)
    ensures op >= PCI_OP_MAX ==> h.None?
    ensures h == Some(ResetDevice) <==> op == PCI_OP_RESET_DEVICE
    ensures h == Some(EnableBusMaster) <==> op == PCI_OP_ENABLE_BUS_MASTER
    ensures h == Some(GetAuxdata) <==> op == PCI_OP_GET_AUXDATA
    ensures h == Some(GetBti) <==> op == PCI_OP_GET_BTI
  {
    if op >= PCI_OP_MAX then None else CBK_TBL[op]
  }

  /** zx_pcie_device_info_t: the device's bus, device and function numbers
      (uint8_t each). */
  datatype DeviceInfo = DeviceInfo(busId: bv8, devId: bv8, funcId: bv8)

  /** What the kernel and the root protocol answer the callbacks:
      zx_pci_reset_device, zx_pci_enable_bus_master, pciroot_get_auxdata
      (status, bytes written and the bytes) and pciroot_get_bti (status and
      the handle). */
  datatype Kernel = Kernel(resetStatus: Status, busMasterStatus: Status,
                           auxStatus: Status, auxActual: nat, auxData: seq<bv8>,
                           btiStatus: Status, bti: nat)

  /** The RPC channel: the replies the driver wrote to it and the handles
      it closed. Whether zx_channel_write succeeds is fixed for the channel. */
  class Channel {
    const writeStatus: Status
    var sent: seq<Reply>
    var closed: seq<nat>

    constructor(writeStatus: Status)
      ensures this.writeStatus == writeStatus && sent == [] && closed == []
    {
      this.writeStatus := writeStatus;
      sent := [];
      closed := [];
    }

    /** zx_channel_write. */
    method Write(r: Reply) returns (st: Status)
      modifies this
      ensures st == writeStatus
      ensures sent == old(sent) + (if writeStatus == Ok then [r] else [])
      ensures closed == old(closed)
    {
      if writeStatus == Ok {
        sent := sent + [r];
      }
      st := writeStatus;
    }

    /** zx_handle_close. */
    method Close(h: nat)
      modifies this
      ensures sent == old(sent) && closed == old(closed) + [h]
    {
      closed := closed + [h];
    }
  }

  // The BDF of kpci_get_bti.

  /** (bus << 8) | (dev << 3) | func in 32 bits. */
  function Bdf(info: DeviceInfo): bv32
  {
    ((info.busId as bv32) << 8) | ((info.devId as bv32) << 3) | (info.funcId as bv32)
  }

  /** With a PCI device number (below 32) and function number (below 8),
      the IOMMU's decoding of the BDF gives back the bus and the
      device/function byte. */
  lemma BdfDecodes(info: DeviceInfo)
    requires info.devId < 32 && info.funcId < 8
    ensures IntelIommu.DecodeBusTxnId(Bdf(info) as bv64) == (info.busId, (info.devId << 3) | info.funcId)
  {
    BdfFields(info);
  }

  lemma BdfFields(info: DeviceInfo)
    requires info.devId < 32 && info.funcId < 8
    ensures (Bdf(info) as bv64 >> 8) & 0xFF == info.busId as bv64
    ensures Bdf(info) as bv64 & 0xFF == ((info.devId << 3) | info.funcId) as bv64
  {
  }

  // The argument string of kpci_get_auxdata.

  /** The C string at the start of `data`: the bytes before the first NUL. */
  function CStr(data: seq<bv8>): (s: seq<bv8>)
    ensures |s| <= |data| && s == data[..|s|]
    ensures forall i :: 0 <= i < |s| ==> s[i] != 0
    ensures |s| < |data| ==> data[|s|] == 0
  {
    if data == [] || data[0] == 0 then [] else [data[0]] + CStr(data[1..])
  }

  /** The ASCII code of a lower-case hex digit. */
  function HexDigit(d: bv8): bv8
    requires d < 16
  {
    if d < 10 then 48 + d else 87 + d
  }

  /** The value of a lower-case hex digit. */
  function HexValue(c: bv8): bv8
  {
    if c < 58 then c - 48 else c - 87
  }

  /** "%02x" of a byte. */
  function Hex2(b: bv8): (s: seq<bv8>)
    ensures |s| == 2
  {
    [HexDigit(b >> 4), HexDigit(b & 0xF)]
  }

  /** Two hex digits read back. */
  function ParseHex2(hi: bv8, lo: bv8): bv8
  {
    (HexValue(hi) << 4) | HexValue(lo)
  }

  lemma Hex2RoundTrip(b: bv8)
    ensures ParseHex2(Hex2(b)[0], Hex2(b)[1]) == b
  {
  }

  /** "%s,%02x:%02x:%02x" of the request data and the device's numbers,
      before snprintf cuts it to the 31 characters that fit args[32]. */
  function AuxArgsFull(data: seq<bv8>, info: DeviceInfo): (s: seq<bv8>)
    ensures |s| == |CStr(data)| + 9
  {
    CStr(data) + DeviceSuffix(info)
  }

  /** ",%02x:%02x:%02x" of the device's numbers. */
  function DeviceSuffix(info: DeviceInfo): (s: seq<bv8>)
    ensures |s| == 9
  {
    [44] + Hex2(info.busId) + [58] + Hex2(info.devId) + [58] + Hex2(info.funcId)
  }

  /** The string kpci_get_auxdata hands to pciroot_get_auxdata. */
  function AuxArgs(data: seq<bv8>, info: DeviceInfo): (s: seq<bv8>)
    ensures |s| <= 31 && |s| <= |AuxArgsFull(data, info)|
    ensures s == AuxArgsFull(data, info)[..|s|]
    ensures |AuxArgsFull(data, info)| <= 31 ==> s == AuxArgsFull(data, info)
  {
    var full := AuxArgsFull(data, info);
    if |full| <= 31 then full else full[..31]
  }

  /** When the request's string leaves room, the argument string names the
      request's string and then the device: the bus, device and function
      numbers read back from its last eight characters. */
  lemma AuxArgsNameDevice(data: seq<bv8>, info: DeviceInfo)
    requires |CStr(data)| <= 22
    ensures var s := AuxArgs(data, info);
            var n := |CStr(data)|;
            |s| == n + 9 && s[..n] == CStr(data) && s[n] == 44 && s[n + 3] == 58 && s[n + 6] == 58 &&
            ParseHex2(s[n + 1], s[n + 2]) == info.busId &&
            ParseHex2(s[n + 4], s[n + 5]) == info.devId &&
            ParseHex2(s[n + 7], s[n + 8]) == info.funcId
  {
    var c, t := CStr(data), DeviceSuffix(info);
    SuffixNamesDevice(info);
    assert AuxArgs(data, info) == c + t;
    forall i | 0 <= i < 9 ensures (c + t)[|c| + i] == t[i] {
    }
  }

  /** The suffix is a comma and the three numbers in hex, colon-separated. */
  lemma SuffixNamesDevice(info: DeviceInfo)
    ensures var t := DeviceSuffix(info);
            t[0] == 44 && t[3] == 58 && t[6] == 58 &&
            ParseHex2(t[1], t[2]) == info.busId &&
            ParseHex2(t[4], t[5]) == info.devId &&
            ParseHex2(t[7], t[8]) == info.funcId
  {
    var b, d, f := Hex2(info.busId), Hex2(info.devId), Hex2(info.funcId);
    assert DeviceSuffix(info) == [44, b[0], b[1], 58, d[0], d[1], 58, f[0], f[1]];
    Hex2RoundTrip(info.busId);
    Hex2RoundTrip(info.devId);
    Hex2RoundTrip(info.funcId);
  }

  // The callbacks.

  /** pci_rpc_reply_ok. */
  method ReplyOk(ch: Channel, req: Msg) returns (st: Status)
    modifies ch
    ensures st == ch.writeStatus
    ensures ch.sent == old(ch.sent) + (if ch.writeStatus == Ok then [OkReply(req.txid)] else [])
    ensures ch.closed == old(ch.closed)
  {
    st := ch.Write(OkReply(req.txid));
  }

  /** The status of the callback's own kernel or root protocol call. */
  function KernelStatus(h: Handler, k: Kernel): Status
  {
    match h
    case ResetDevice => k.resetStatus
    case EnableBusMaster => k.busMasterStatus
    case GetAuxdata => k.auxStatus
    case GetBti => k.btiStatus
  }

  /** Whether the callback's own kernel call succeeded. */
  predicate KernelOk(h: Handler, k: Kernel)
  {
    KernelStatus(h, k) == Ok
  }

  /** The status a callback hands back to kpci_rxrpc: the kernel's failure,
      else the status of its reply's write, except that kpci_get_bti
      reports success once it holds the handle, whether or not the reply
      went out. */
  function Outcome(h: Handler, k: Kernel, writeStatus: Status): Status
  {
    if !KernelOk(h, k) then KernelStatus(h, k)
    else if h == GetBti then Ok
    else writeStatus
  }

  /** The reply a callback writes itself, when the kernel call succeeded. */
  function OwnReply(h: Handler, txid: nat, k: Kernel): Reply
  {
    match h
    case ResetDevice => OkReply(txid)
    case EnableBusMaster => OkReply(txid)
    case GetAuxdata => Reply(txid, Ok, k.auxActual, k.auxData, [])
    case GetBti => Reply(txid, Ok, 0, [], [k.bti])
  }

  /** A callback fails exactly when its kernel call fails or, for the
      callbacks other than kpci_get_bti, when its reply cannot be written;
      a kernel failure is handed back unchanged. */
  lemma OutcomeFails(h: Handler, k: Kernel, w: Status)
    ensures !KernelOk(h, k) ==> Outcome(h, k, w) == KernelStatus(h, k) != Ok
    ensures KernelOk(h, k) ==> (Outcome(h, k, w) == Ok <==> (w == Ok || h == GetBti))
  {
  }

  /** kpci_reset_device. */
  method KpciResetDevice(req: Msg, k: Kernel, ch: Channel) returns (st: Status)
    modifies ch
    ensures st == Outcome(ResetDevice, k, ch.writeStatus)
    ensures ch.sent == old(ch.sent) +
              (if KernelOk(ResetDevice, k) && ch.writeStatus == Ok then [OwnReply(ResetDevice, req.txid, k)] else [])
    ensures ch.closed == old(ch.closed)
  {
    if k.resetStatus != Ok {
      return k.resetStatus;
    }
    st := ReplyOk(ch, req);
  }

  /** kpci_enable_bus_master: `enable` is what it asks the kernel for, the
      first data byte read as a bool. */
  method KpciEnableBusMaster(req: Msg, k: Kernel, ch: Channel) returns (st: Status, enable: bool)
    requires req.WellFormed()
    modifies ch
    ensures enable <==> req.data[0] != 0
    ensures st == Outcome(EnableBusMaster, k, ch.writeStatus)
    ensures ch.sent == old(ch.sent) +
              (if KernelOk(EnableBusMaster, k) && ch.writeStatus == Ok then [OwnReply(EnableBusMaster, req.txid, k)] else [])
    ensures ch.closed == old(ch.closed)
  {
    enable := req.data[0] != 0;
    if k.busMasterStatus != Ok {
      return k.busMasterStatus, enable;
    }
    st := ReplyOk(ch, req);
  }

  /** kpci_get_auxdata: `args` is the string it asks the root protocol
      about. */
  method KpciGetAuxdata(req: Msg, info: DeviceInfo, k: Kernel, ch: Channel) returns (st: Status, args: seq<bv8>)
    modifies ch
    ensures args == AuxArgs(req.data, info)
    ensures st == Outcome(GetAuxdata, k, ch.writeStatus)
    ensures ch.sent == old(ch.sent) +
              (if KernelOk(GetAuxdata, k) && ch.writeStatus == Ok then [OwnReply(GetAuxdata, req.txid, k)] else [])
    ensures ch.closed == old(ch.closed)
  {
    args := AuxArgs(req.data, info);
    if k.auxStatus != Ok {
      return k.auxStatus, args;
    }
    st := ch.Write(Reply(req.txid, Ok, k.auxActual, k.auxData, []));
  }

  /** kpci_get_bti: `bdf` is the id it asks the root protocol for. When the
      reply cannot be written, the handle is closed. */
  method KpciGetBti(req: Msg, info: DeviceInfo, k: Kernel, ch: Channel) returns (st: Status, bdf: bv32)
    modifies ch
    ensures bdf == Bdf(info)
    ensures st == Outcome(GetBti, k, ch.writeStatus)
    ensures ch.sent == old(ch.sent) +
              (if KernelOk(GetBti, k) && ch.writeStatus == Ok then [OwnReply(GetBti, req.txid, k)] else [])
    ensures ch.closed == old(ch.closed) +
              (if KernelOk(GetBti, k) && ch.writeStatus != Ok then [k.bti] else [])
  {
    bdf := Bdf(info);
    if k.btiStatus != Ok {
      return k.btiStatus, bdf;
    }
    var w := ch.Write(Reply(req.txid, Ok, 0, [], [k.bti]));
    if w != Ok {
      ch.Close(k.bti);
    }
    st := Ok;
  }

  /** Run the callback `h`. */
  method Call(h: Handler, req: Msg, info: DeviceInfo, k: Kernel, ch: Channel) returns (st: Status)
    requires req.WellFormed()
    modifies ch
    ensures st == Outcome(h, k, ch.writeStatus)
    ensures ch.sent == old(ch.sent) +
              (if KernelOk(h, k) && ch.writeStatus == Ok then [OwnReply(h, req.txid, k)] else [])
    ensures ch.closed == old(ch.closed) +
              (if h == GetBti && KernelOk(h, k) && ch.writeStatus != Ok then [k.bti] else [])
  {
    match h {
      case ResetDevice => st := KpciResetDevice(req, k, ch);
      case EnableBusMaster => var enable; st, enable := KpciEnableBusMaster(req, k, ch);
      case GetAuxdata => var args; st, args := KpciGetAuxdata(req, info, k, ch);
      case GetBti => var bdf; st, bdf := KpciGetBti(req, info, k, ch);
    }
  }

  /** The request was read whole. */
  predicate Accepted(readStatus: Status, actualBytes: nat)
  {
    readStatus == Ok && actualBytes == MSG_SIZE
  }

  /** The replies kpci_rxrpc writes for an accepted request on a channel
      whose writes succeed or fail as `w` says. */
  function Replies(req: Msg, k: Kernel, w: Status): seq<Reply>
  {
    if w != Ok then []
    else match Lookup(req.ordinal)
      case None => [ErrorReply(req.txid, ErrNotSupported)]
      case Some(h) =>
        if !KernelOk(h, k) then [ErrorReply(req.txid, Outcome(h, k, w))]
        else [OwnReply(h, req.txid, k)]
  }

  /** The status kpci_rxrpc returns for an accepted request. */
  function RxrpcStatus(req: Msg, k: Kernel, w: Status): Status
  {
    match Lookup(req.ordinal)
    case None => w
    case Some(h) => if Outcome(h, k, w) == Ok then Ok else w
  }

  /** kpci_rxrpc: read a request, dispatch it, and turn a missing callback
      or a callback's failure into an error reply. What zx_channel_read
      returns (status, byte count, message) is given. */
  method Rxrpc(ch: Channel, info: DeviceInfo, k: Kernel, readStatus: Status, actualBytes: nat, req: Msg)
    returns (st: Status)
    requires req.WellFormed()
    modifies ch
    ensures readStatus != Ok ==> st == readStatus && ch.sent == old(ch.sent) && ch.closed == old(ch.closed)
    ensures readStatus == Ok && actualBytes != MSG_SIZE ==>
              st == ErrInternal && ch.sent == old(ch.sent) && ch.closed == old(ch.closed)
    ensures Accepted(readStatus, actualBytes) ==>
              st == RxrpcStatus(req, k, ch.writeStatus) &&
              ch.sent == old(ch.sent) + Replies(req, k, ch.writeStatus)
    ensures Accepted(readStatus, actualBytes) ==>
              ch.closed == old(ch.closed) +
                (if Lookup(req.ordinal) == Some(GetBti) && k.btiStatus == Ok && ch.writeStatus != Ok then [k.bti] else [])
  {
    if readStatus != Ok {
      return readStatus;
    }
    if actualBytes != MSG_SIZE {
      return ErrInternal;
    }
    var op := req.ordinal;
    var h := Lookup(op);
    if h.None? {
      st := ch.Write(ErrorReply(req.txid, ErrNotSupported));
      return;
    }
    st := Call(h.value, req, info, k, ch);
    if st != Ok {
      st := ch.Write(ErrorReply(req.txid, st));
    }
  }

  /** Whether an accepted request was served: it has a callback and the
      callback's kernel call succeeded. */
  predicate Served(req: Msg, k: Kernel)
  {
    Lookup(req.ordinal).Some? && KernelOk(Lookup(req.ordinal).value, k)
  }

  /** On a channel whose writes succeed, every accepted request gets
      exactly one reply and kpci_rxrpc reports success. The reply echoes
      the transaction id; its ordinal is OK exactly when the request was
      served, and otherwise it is NOT_SUPPORTED for an ordinal without a
      callback, or the callback's kernel failure. */
  lemma OneReplyPerRequest(req: Msg, k: Kernel)
    ensures var rs := Replies(req, k, Ok);
            |rs| == 1 && rs[0].txid == req.txid && RxrpcStatus(req, k, Ok) == Ok &&
            (rs[0].ordinal == Ok <==> Served(req, k)) &&
            (Lookup(req.ordinal).None? ==> rs[0].ordinal == ErrNotSupported) &&
            (Lookup(req.ordinal).Some? && !Served(req, k) ==>
               rs[0].ordinal == KernelStatus(Lookup(req.ordinal).value, k))
  {
    match Lookup(req.ordinal) {
      case None =>
      case Some(h) => OutcomeFails(h, k, Ok);
    }
  }

  /** On a channel whose writes fail nothing is sent, and kpci_rxrpc
      reports the write failure, except for a BTI request whose BTI was
      obtained: that one reports success and its handle is closed. */
  lemma BrokenChannel(req: Msg, k: Kernel, w: Status)
    requires w != Ok
    ensures Replies(req, k, w) == []
    ensures RxrpcStatus(req, k, w) == if Lookup(req.ordinal) == Some(GetBti) && k.btiStatus == Ok then Ok else w
  {
    match Lookup(req.ordinal) {
      case None =>
      case Some(h) => OutcomeFails(h, k, w);
    }
  }
}
