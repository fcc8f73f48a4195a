// The proxy devhost side of the PCI protocol (system/dev/bus/pci/protocol.c):
// requests are sent to the top devhost over the RPC channel and their
// responses checked; resources are fetched and mapped; the capability list of
// the configuration space is walked with a bound. The syscalls these
// operations make are given as their results.
module PciProtocol {
  import opened Zx
  import opened Kpci

  function Zeros(n: nat): (z: seq<bv8>)
    ensures |z| == n && forall i :: 0 <= i < n ==> z[i] == 0
  {
    seq(n, _ => 0)
  }

  // Requests and responses.

  /** What zx_channel_call hands back: its status, the number of bytes
      read and the response with the handles that came with it (at most
      the one handle the call makes room for). */
  datatype CallResult = CallResult(status: Status, actualBytes: nat, resp: Reply)

  /** The request of kpci_op_enable_bus_master: the flag in the first data
      byte. */
  function EnableBusMasterRequest(txid: nat, enable: bool): (m: Msg)
    ensures m.WellFormed() && m.txid == txid && m.ordinal == PCI_OP_ENABLE_BUS_MASTER
  {
    Msg(txid, PCI_OP_ENABLE_BUS_MASTER, 0, 0, [if enable then 1 else 0] + Zeros(PCI_MAX_DATA - 1))
  }

  /** The request of kpci_op_reset_device. */
  function ResetDeviceRequest(txid: nat): (m: Msg)
    ensures m.WellFormed() && m.txid == txid && m.ordinal == PCI_OP_RESET_DEVICE
  {
    Msg(txid, PCI_OP_RESET_DEVICE, 0, 0, Zeros(PCI_MAX_DATA))
  }

  /** The request of kpci_op_get_bti. */
  function GetBtiRequest(txid: nat): (m: Msg)
    ensures m.WellFormed() && m.txid == txid && m.ordinal == PCI_OP_GET_BTI
  {
    Msg(txid, PCI_OP_GET_BTI, 0, 0, Zeros(PCI_MAX_DATA))
  }

  /** The request of kpci_op_get_auxdata: the argument string in the data,
      its length in `datalen` and the caller's buffer size in `outlen`. */
  function AuxdataRequest(txid: nat, args: seq<bv8>, bytes: nat): (m: Msg)
    requires |args| <= PCI_MAX_DATA
    ensures m.WellFormed() && m.txid == txid && m.ordinal == PCI_OP_GET_AUXDATA
    ensures m.outlen == bytes && m.datalen == |args| && m.data[..|args|] == args
  {
    Msg(txid, PCI_OP_GET_AUXDATA, bytes, |args|, args + Zeros(PCI_MAX_DATA - |args|))
  }

  /** The top devhost reads back the flag the proxy sent. */
  lemma EnableFlagRoundTrip(txid: nat, enable: bool)
    ensures (EnableBusMasterRequest(txid, enable).data[0] != 0) <==> enable
  {
  }

  /** The top devhost reads back the argument string the proxy sent, as
      long as it holds no NUL (strlen stops at the first one). */
  lemma {:induction false} AuxdataArgsRoundTrip(txid: nat, args: seq<bv8>, bytes: nat)
    requires |args| <= PCI_MAX_DATA && forall i :: 0 <= i < |args| ==> args[i] != 0
    ensures CStr(AuxdataRequest(txid, args, bytes).data) == args
  {
    CStrOfPadded(args, PCI_MAX_DATA - |args|);
  }

  lemma {:induction false} CStrOfPadded(args: seq<bv8>, n: nat)
    requires forall i :: 0 <= i < |args| ==> args[i] != 0
    ensures CStr(args + Zeros(n)) == args
  {
    if args == [] {
      assert [] + Zeros(n) == Zeros(n);
    } else {
      assert (args + Zeros(n))[1..] == args[1..] + Zeros(n);
      CStrOfPadded(args[1..], n);
    }
  }

  /** The status kpci_op_enable_bus_master and kpci_op_reset_device
      return: the call's failure, INTERNAL for a response of the wrong
      size, else the status the top devhost put in the response. */
  function ProxyStatus(c: CallResult): (s: Status)
    ensures c.status != Ok ==> s == c.status
    ensures c.status == Ok && c.actualBytes != MSG_SIZE ==> s == ErrInternal
    ensures c.status == Ok && c.actualBytes == MSG_SIZE ==> s == c.resp.ordinal
  {
    if c.status != Ok then c.status
    else if c.actualBytes != MSG_SIZE then ErrInternal
    else c.resp.ordinal
  }

  /** A request the top devhost answered whole on a working channel comes
      back to the proxy as OK exactly when it was served; otherwise the
      proxy returns NOT_SUPPORTED or the kernel's failure there. */
  lemma ProxyRoundTrip(req: Msg, k: Kernel)
    ensures var c := CallResult(Ok, MSG_SIZE, Replies(req, k, Ok)[0]);
            (ProxyStatus(c) == Ok <==> Served(req, k)) &&
            (Lookup(req.ordinal).None? ==> ProxyStatus(c) == ErrNotSupported) &&
            (Lookup(req.ordinal).Some? && !Served(req, k) ==>
               ProxyStatus(c) == KernelStatus(Lookup(req.ordinal).value, k))
  {
    OneReplyPerRequest(req, k);
  }

  /** What kpci_op_get_bti ends with: its status, the handle it hands out
      and the handle it closes. */
  datatype BtiOutcome = BtiOutcome(status: Status, handle: Option<nat>, closed: Option<nat>)

  /** kpci_op_get_bti. */
  function ProxyGetBti(c: CallResult): (r: BtiOutcome)
    requires |c.resp.handles| <= 1
    ensures c.status != Ok ==> r == BtiOutcome(c.status, None, None)
    ensures c.status == Ok && c.actualBytes != MSG_SIZE ==> r.status == ErrInternal && r.handle.None?
    ensures r.handle.Some? <==>
              c.status == Ok && c.actualBytes == MSG_SIZE && c.resp.ordinal == Ok && |c.resp.handles| == 1
    ensures r.handle.Some? ==> r.status == Ok && r.handle.value == c.resp.handles[0]
    ensures c.status == Ok && c.actualBytes == MSG_SIZE && c.resp.ordinal != Ok ==> r.status == c.resp.ordinal
    ensures c.status == Ok && c.actualBytes == MSG_SIZE && c.resp.ordinal == Ok && c.resp.handles == [] ==>
              r.status == ErrInternal
    ensures c.status == Ok && |c.resp.handles| == 1 ==>
              (r.handle.Some? <==> r.closed.None?) && (r.closed.Some? ==> r.closed.value == c.resp.handles[0])
    ensures c.resp.handles == [] ==> r.closed.None?
  {
    if c.status != Ok then BtiOutcome(c.status, None, None)
    else if c.actualBytes != MSG_SIZE then
      BtiOutcome(ErrInternal, None, if |c.resp.handles| == 1 then Some(c.resp.handles[0]) else None)
    else if c.resp.ordinal == Ok then
      (if |c.resp.handles| != 1 then BtiOutcome(ErrInternal, None, None)
       else BtiOutcome(Ok, Some(c.resp.handles[0]), None))
    else BtiOutcome(c.resp.ordinal, None, if |c.resp.handles| == 1 then Some(c.resp.handles[0]) else None)
  }

  /** A BTI the top devhost obtained reaches the proxy's caller over a
      working channel; a failure there reaches it as that failure, with no
      handle. */
  lemma BtiRoundTrip(txid: nat, k: Kernel)
    ensures var c := CallResult(Ok, MSG_SIZE, Replies(GetBtiRequest(txid), k, Ok)[0]);
            var r := ProxyGetBti(c);
            (k.btiStatus == Ok ==> r == BtiOutcome(Ok, Some(k.bti), None)) &&
            (k.btiStatus != Ok ==> r == BtiOutcome(k.btiStatus, None, None))
  {
  }

  /** What kpci_op_get_auxdata ends with: its status, the request it sent
      (none when it stopped before the call), the bytes it copied into the
      caller's buffer and the count stored through `actual`. */
  datatype AuxOutcome = AuxOutcome(status: Status, request: Option<Msg>, copied: seq<bv8>, actual: Option<nat>)

  /** The first `n` bytes of a response's data array. */
  function DataPrefix(data: seq<bv8>, n: nat): (d: seq<bv8>)
    ensures |d| == n
    ensures n <= |data| ==> d == data[..n]
  {
    if n <= |data| then data[..n] else data + Zeros(n - |data|)
  }

  /** kpci_op_get_auxdata in the proxy build: `rpcchValid` says whether the
      device has an RPC channel, `args` is the argument string up to its
      NUL, `bytes` the size of the caller's buffer and `wantActual` whether
      the caller passed somewhere to store the count. */
  function ProxyGetAuxdata(rpcchValid: bool, txid: nat, args: seq<bv8>, bytes: nat, wantActual: bool,
                           c: CallResult): (r: AuxOutcome)
    ensures !rpcchValid ==> r == AuxOutcome(ErrNotSupported, None, [], None)
    ensures rpcchValid && |args| > PCI_MAX_DATA ==> r == AuxOutcome(ErrInvalidArgs, None, [], None)
    ensures rpcchValid && |args| <= PCI_MAX_DATA ==> r.request == Some(AuxdataRequest(txid, args, bytes))
    ensures r.status == Ok <==>
              rpcchValid && |args| <= PCI_MAX_DATA && c.status == Ok && c.actualBytes == MSG_SIZE &&
              c.resp.ordinal == Ok && c.resp.datalen <= bytes
    ensures r.status == Ok ==> r.copied == DataPrefix(c.resp.data, c.resp.datalen) && |r.copied| <= bytes
    ensures r.status == Ok && wantActual ==> r.actual == Some(c.resp.datalen)
    ensures r.status != Ok || !wantActual ==> r.actual.None?
    ensures r.status != Ok ==> r.copied == []
    ensures (rpcchValid && |args| <= PCI_MAX_DATA && c.status == Ok && c.actualBytes == MSG_SIZE &&
             c.resp.ordinal == Ok && c.resp.datalen > bytes) ==> r.status == ErrBufferTooSmall
  {
    if !rpcchValid then AuxOutcome(ErrNotSupported, None, [], None)
    else if |args| > PCI_MAX_DATA then AuxOutcome(ErrInvalidArgs, None, [], None)
    else
      var req := Some(AuxdataRequest(txid, args, bytes));
      if c.status != Ok then AuxOutcome(c.status, req, [], None)
      else if c.actualBytes != MSG_SIZE then AuxOutcome(ErrInternal, req, [], None)
      else if c.resp.ordinal != Ok then AuxOutcome(c.resp.ordinal, req, [], None)
      else if c.resp.datalen > bytes then AuxOutcome(ErrBufferTooSmall, req, [], None)
      else AuxOutcome(Ok, req, DataPrefix(c.resp.data, c.resp.datalen),
                      if wantActual then Some(c.resp.datalen) else None)
  }

  /** End to end: the proxy's argument string reaches the root protocol
      followed by the device's bus, device and function, and the bytes the
      root protocol produced reach the proxy's caller when they fit. */
  lemma AuxdataEndToEnd(txid: nat, args: seq<bv8>, bytes: nat, info: DeviceInfo, k: Kernel)
    requires |args| <= 22 && forall i :: 0 <= i < |args| ==> args[i] != 0
    requires k.auxStatus == Ok && k.auxActual <= bytes && |k.auxData| == k.auxActual
    ensures var req := AuxdataRequest(txid, args, bytes);
            AuxArgs(req.data, info) == args + DeviceSuffix(info) &&
            var c := CallResult(Ok, MSG_SIZE, Replies(req, k, Ok)[0]);
            var r := ProxyGetAuxdata(true, txid, args, bytes, true, c);
            r.status == Ok && r.copied == k.auxData && r.actual == Some(k.auxActual)
  {
    AuxdataArgsRoundTrip(txid, args, bytes);
  }

  // The capability list.

  /** A device's configuration space as zx_pci_config_read sees it: the
      offsets it is given are masked to 12 bits, so 4096 bytes. */
  predicate ConfigSpace(cfg: seq<nat>)
  {
    |cfg| == 4096 && forall i :: 0 <= i < |cfg| ==> cfg[i] < 256
  }

  /** The offset of the byte after `at`, as the uint8_t parameter of
      kpci_op_config_read receives it: `at + 1` wraps to 0 after 255. */
  function NextByte(at: nat): (n: nat)
    requires at < 256
    ensures n < 256
    ensures at < 255 ==> n == at + 1
    ensures at == 255 ==> n == 0
  {
    (at + 1) % 256
  }

  /** The capability entries a walk from `cap` visits with `fuel` steps
      left: it stops at a zero pointer or when the fuel runs out. */
  function Entries(cfg: seq<nat>, cap: nat, fuel: nat): (es: seq<nat>)
    requires ConfigSpace(cfg) && cap < 256
    ensures |es| <= fuel
    ensures forall i :: 0 <= i < |es| ==> 0 < es[i] < 256
    decreases fuel
  {
    if cap == 0 || fuel == 0 then []
    else [cap] + Entries(cfg, cfg[NextByte(cap)], fuel - 1)
  }

  /** The entry a walk from `cap` with `fuel` steps left returns. */
  function Walk(cfg: seq<nat>, cap: nat, ty: nat, fuel: nat): nat
    requires ConfigSpace(cfg) && cap < 256
    decreases fuel
  {
    if cap == 0 || fuel == 0 then 0
    else if cfg[cap] == ty then cap
    else Walk(cfg, cfg[NextByte(cap)], ty, fuel - 1)
  }

  /** No entry of `es` has type `ty`. */
  predicate NoneOfType(cfg: seq<nat>, es: seq<nat>, ty: nat)
    requires ConfigSpace(cfg) && forall i :: 0 <= i < |es| ==> es[i] < 256
  {
    forall i :: 0 <= i < |es| ==> cfg[es[i]] != ty
  }

  /** The walk returns the first visited entry of the requested type, or 0
      when no visited entry has it. */
  lemma WalkFindsFirst(cfg: seq<nat>, cap: nat, ty: nat, fuel: nat)
    requires ConfigSpace(cfg) && cap < 256
    ensures Walk(cfg, cap, ty, fuel) == 0 <==> NoneOfType(cfg, Entries(cfg, cap, fuel), ty)
    ensures Walk(cfg, cap, ty, fuel) != 0 ==>
              exists k :: 0 <= k < |Entries(cfg, cap, fuel)| && Entries(cfg, cap, fuel)[k] == Walk(cfg, cap, ty, fuel) &&
                          cfg[Walk(cfg, cap, ty, fuel)] == ty && NoneOfType(cfg, Entries(cfg, cap, fuel)[..k], ty)
  {
    WalkZeroIffNone(cfg, cap, ty, fuel);
    WalkFoundIsFirst(cfg, cap, ty, fuel);
  }

  lemma {:induction false} WalkZeroIffNone(cfg: seq<nat>, cap: nat, ty: nat, fuel: nat)
    requires ConfigSpace(cfg) && cap < 256
    ensures Walk(cfg, cap, ty, fuel) == 0 <==> NoneOfType(cfg, Entries(cfg, cap, fuel), ty)
    decreases fuel
  {
    if cap != 0 && fuel != 0 {
      var next := cfg[NextByte(cap)];
      WalkZeroIffNone(cfg, next, ty, fuel - 1);
      var es := Entries(cfg, cap, fuel);
      var rest := Entries(cfg, next, fuel - 1);
      assert es == [cap] + rest;
      if cfg[cap] == ty {
        assert cfg[es[0]] == ty;
      } else if NoneOfType(cfg, rest, ty) {
        forall i | 0 <= i < |es|
          ensures cfg[es[i]] != ty
        {
          if i > 0 {
            assert es[i] == rest[i - 1];
          }
        }
      } else {
        var i :| 0 <= i < |rest| && cfg[rest[i]] == ty;
        assert es[i + 1] == rest[i];
        assert cfg[es[i + 1]] == ty;
      }
    }
  }

  lemma {:induction false} WalkFoundIsFirst(cfg: seq<nat>, cap: nat, ty: nat, fuel: nat)
    requires ConfigSpace(cfg) && cap < 256
    ensures Walk(cfg, cap, ty, fuel) != 0 ==>
              exists k :: 0 <= k < |Entries(cfg, cap, fuel)| && Entries(cfg, cap, fuel)[k] == Walk(cfg, cap, ty, fuel) &&
                          cfg[Walk(cfg, cap, ty, fuel)] == ty && NoneOfType(cfg, Entries(cfg, cap, fuel)[..k], ty)
    decreases fuel
  {
    if cap != 0 && fuel != 0 {
      var next := cfg[NextByte(cap)];
      var es := Entries(cfg, cap, fuel);
      var rest := Entries(cfg, next, fuel - 1);
      assert es == [cap] + rest;
      if cfg[cap] != ty {
        WalkFoundIsFirst(cfg, next, ty, fuel - 1);
        var r := Walk(cfg, next, ty, fuel - 1);
        if r != 0 {
          var k :| 0 <= k < |rest| && rest[k] == r && cfg[r] == ty && NoneOfType(cfg, rest[..k], ty);
          assert es[k + 1] == r;
          assert es[..k + 1] == [cap] + rest[..k];
        }
      } else {
        assert es[0] == cap && es[..0] == [];
      }
    }
  }

  /** kpci_op_get_next_capability: from the pointer stored after the
      capability at `offset`, follow the list until an entry of type `ty`,
      a zero pointer, or 64 entries. Every offset passed to the config read
      is a uint8_t, so the pointer after offset 255 is read from byte 0. */
  method GetNextCapability(cfg: seq<nat>, offset: nat, ty: nat) returns (r: nat)
    requires ConfigSpace(cfg) && offset < 256
    ensures r == Walk(cfg, cfg[NextByte(offset)], ty, 64)
  {
    var capOffset := cfg[NextByte(offset)];
    var limit := 64;
    while capOffset != 0 && limit != 0
      invariant capOffset < 256
      invariant Walk(cfg, capOffset, ty, limit) == Walk(cfg, cfg[NextByte(offset)], ty, 64)
      decreases limit
    {
      limit := limit - 1;
      var typeId := cfg[capOffset];
      if typeId == ty {
        return capOffset;
      }
      capOffset := cfg[NextByte(capOffset)];
    }
    r := 0;
  }

  /** The walk looks at no more than 64 entries, even on a list whose
      pointers form a cycle: a capability that points at itself and has the
      wrong type ends the walk with 0. */
  lemma WalkBounded(cfg: seq<nat>, offset: nat, ty: nat)
    requires ConfigSpace(cfg) && offset < 256
    ensures |Entries(cfg, cfg[NextByte(offset)], 64)| <= 64
    ensures var c := cfg[NextByte(offset)];
            c != 0 && cfg[NextByte(c)] == c && cfg[c] != ty ==> Walk(cfg, c, ty, 64) == 0
  {
    var c := cfg[NextByte(offset)];
    if c != 0 && cfg[NextByte(c)] == c && cfg[c] != ty {
      SelfLoop(cfg, c, ty, 64);
    }
  }

  /** The pointer after the last byte of the 256-byte header region is byte
      0: from offset 255 the walk starts at whatever byte 0 holds, so a zero
      there ends it at once, whatever byte 256 holds. */
  lemma WalkAfterLastByte(cfg: seq<nat>, ty: nat)
    requires ConfigSpace(cfg)
    ensures Entries(cfg, cfg[NextByte(255)], 64) == Entries(cfg, cfg[0], 64)
    ensures cfg[0] == 0 ==> Walk(cfg, cfg[NextByte(255)], ty, 64) == 0
  {
    assert NextByte(255) == 0;
  }

  lemma {:induction false} SelfLoop(cfg: seq<nat>, c: nat, ty: nat, fuel: nat)
    requires ConfigSpace(cfg) && 0 < c < 256 && cfg[NextByte(c)] == c && cfg[c] != ty
    ensures Walk(cfg, c, ty, fuel) == 0
    decreases fuel
  {
    if fuel > 0 {
      SelfLoop(cfg, c, ty, fuel - 1);
    }
  }

  // Resources.

  /** The kinds of zx_pci_resource_t. */
  datatype ResourceKind = Unused | Mmio | Pio

  /** zx_pci_resource_t: its kind, size and the VMO handle of an MMIO
      resource. */
  datatype Resource = Resource(kind: ResourceKind, size: nat, mmioHandle: nat)

  /** PCI_RESOURCE_BAR_0 and PCI_RESOURCE_BAR_5 (pinned by the source's
      static asserts). */
  const PCI_RESOURCE_BAR_0: nat := 0
  const PCI_RESOURCE_BAR_5: nat := 5

  /** PCI_RESOURCE_CONFIG and PCI_RESOURCE_COUNT, which come from a header
      this model does not include; the config id lies past BAR 5. */
  datatype ResourceIds = ResourceIds(config: nat, count: nat)
  {
    predicate Valid()
    {
      PCI_RESOURCE_BAR_5 < config < count
    }
  }

  /** What the kernel answers: zx_pci_get_bar and zx_pci_get_config
      (status and resource), zx_mmap_device_io, and whether the build is
      for x86-64. */
  datatype PciKernel = PciKernel(barStatus: Status, bar: Resource, configStatus: Status, config: Resource,
                                 ioStatus: Status, x86: bool)

  /** do_resource_bookkeeping: PIO needs the I/O bitmap on x86 and is not
      supported elsewhere; other resources need nothing. */
  function Bookkeeping(res: Option<Resource>, kern: PciKernel): (s: Status)
    ensures res.None? ==> s == ErrInvalidArgs
    ensures res.Some? && res.value.kind != Pio ==> s == Ok
    ensures res.Some? && res.value.kind == Pio ==> s == if kern.x86 then kern.ioStatus else ErrNotSupported
  {
    match res
    case None => ErrInvalidArgs
    case Some(r) =>
      if r.kind == Pio then (if kern.x86 then kern.ioStatus else ErrNotSupported) else Ok
  }

  /** kpci_op_get_resource: the status and the resource left in the
      caller's `out_res`, which held `prior` before (` outNull` is a null
      pointer). An id between BAR 5 and the config id makes no kernel call
      and leaves `prior` in place. */
  function GetResource(ids: ResourceIds, resId: nat, outNull: bool, prior: Resource, kern: PciKernel):
    (r: (Status, Resource))
    requires ids.Valid()
    ensures outNull || resId >= ids.count ==> r == (ErrInvalidArgs, prior)
    ensures !outNull && resId <= PCI_RESOURCE_BAR_5 ==>
              r.1 == kern.bar && r.0 == (if kern.barStatus != Ok then kern.barStatus else Bookkeeping(Some(kern.bar), kern))
    ensures !outNull && resId == ids.config ==>
              r.1 == kern.config &&
              r.0 == (if kern.configStatus != Ok then kern.configStatus else Bookkeeping(Some(kern.config), kern))
    ensures !outNull && PCI_RESOURCE_BAR_5 < resId < ids.count && resId != ids.config ==>
              r == (Bookkeeping(Some(prior), kern), prior)
  {
    if outNull || resId >= ids.count then (ErrInvalidArgs, prior)
    else
      var got: (Status, Resource) :=
        if resId <= PCI_RESOURCE_BAR_5 then (kern.barStatus, kern.bar)
        else if resId == ids.config then (kern.configStatus, kern.config)
        else (Ok, prior);
      if got.0 != Ok then got else (Bookkeeping(Some(got.1), kern), got.1)
  }

  /** The flags kpci_op_map_resource maps with: always read and MAP_RANGE,
      write for a BAR. */
  datatype MapFlags = MapFlags(read: bool, write: bool, mapRange: bool)

  /** The zx_vmar_map request: length and flags. */
  datatype MapRequest = MapRequest(len: nat, flags: MapFlags)

  /** What the kernel answers kpci_op_map_resource: zx_vmo_set_cache_policy
      and zx_vmar_map (status and address). */
  datatype MapKernel = MapKernel(cacheStatus: Status, mapStatus: Status, vaddr: nat)

  /** What kpci_op_map_resource ends with: its status, whether it set the
      cache policy, the mapping it asked for, the handle it closed, and the
      address, size and handle it hands out. */
  datatype MapOutcome = MapOutcome(status: Status, cacheSet: bool, request: Option<MapRequest>,
                                   closed: Option<nat>, out: Option<(nat, nat, nat)>)

  /** kpci_op_map_resource; `outsNull` says one of the output pointers is
      null. */
  function MapResource(ids: ResourceIds, resId: nat, outsNull: bool, prior: Resource,
                       kern: PciKernel, mk: MapKernel): (r: MapOutcome)
    requires ids.Valid()
  {
    if outsNull then MapOutcome(ErrInvalidArgs, false, None, None, None)
    else
      var got := GetResource(ids, resId, false, prior, kern);
      var res := got.1;
      if got.0 != Ok then MapOutcome(got.0, false, None, None, None)
      else if res.kind == Pio then MapOutcome(ErrWrongType, false, None, None, None)
      else
        var bar := resId <= PCI_RESOURCE_BAR_5;
        if bar && mk.cacheStatus != Ok then MapOutcome(mk.cacheStatus, true, None, Some(res.mmioHandle), None)
        else
          var req := MapRequest(RoundUp(res.size, PAGE_SIZE), MapFlags(true, bar, true));
          if mk.mapStatus != Ok then MapOutcome(mk.mapStatus, bar, Some(req), Some(res.mmioHandle), None)
          else MapOutcome(Ok, bar, Some(req), None, Some((mk.vaddr, res.size, res.mmioHandle)))
  }

  /** A PIO resource is never mapped: WRONG_TYPE, with nothing asked of
      the kernel. */
  lemma MapRefusesPio(ids: ResourceIds, resId: nat, prior: Resource, kern: PciKernel, mk: MapKernel)
    requires ids.Valid()
    requires GetResource(ids, resId, false, prior, kern).0 == Ok
    requires GetResource(ids, resId, false, prior, kern).1.kind == Pio
    ensures MapResource(ids, resId, false, prior, kern, mk) == MapOutcome(ErrWrongType, false, None, None, None)
  {
  }

  /** A mapping covers the resource's size rounded up to whole pages, is
      always readable, and is writable (with the driver's cache policy set
      first) exactly when the resource is a BAR; the config space is mapped
      read-only. */
  lemma MapFlagsByResource(ids: ResourceIds, resId: nat, prior: Resource, kern: PciKernel, mk: MapKernel)
    requires ids.Valid()
    ensures var r := MapResource(ids, resId, false, prior, kern, mk);
            var res := GetResource(ids, resId, false, prior, kern).1;
            r.request.Some? ==>
              r.request.value.len == RoundUp(res.size, PAGE_SIZE) &&
              r.request.value.len % PAGE_SIZE == 0 && res.size <= r.request.value.len &&
              r.request.value.flags.read && r.request.value.flags.mapRange &&
              (r.request.value.flags.write <==> resId <= PCI_RESOURCE_BAR_5) &&
              (r.cacheSet <==> resId <= PCI_RESOURCE_BAR_5) &&
              (resId == ids.config ==> !r.request.value.flags.write)
  {
  }

  /** Once a mappable resource was obtained its VMO handle is either handed
      out (on success) or closed (on every failure), never both; no handle
      is touched before that. */
  lemma MapHandleNeverLeaks(ids: ResourceIds, resId: nat, outsNull: bool, prior: Resource, kern: PciKernel,
                            mk: MapKernel)
    requires ids.Valid()
    ensures var r := MapResource(ids, resId, outsNull, prior, kern, mk);
            var got := GetResource(ids, resId, false, prior, kern);
            (!outsNull && got.0 == Ok && got.1.kind != Pio ==>
               (r.out.Some? <==> r.closed.None?) && (r.closed.Some? ==> r.closed.value == got.1.mmioHandle) &&
               (r.out.Some? <==> r.status == Ok) &&
               (r.out.Some? ==> r.out.value == (mk.vaddr, got.1.size, got.1.mmioHandle))) &&
            (outsNull || got.0 != Ok || got.1.kind == Pio ==> r.closed.None? && r.out.None? && r.status != Ok)
  {
  }
}
