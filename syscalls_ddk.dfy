// The driver-development syscalls of syscalls_ddk.cpp that validate their
// arguments before handing them to kernel objects: sys_vmo_create_contiguous,
// sys_iommu_create and sys_bti_pin. Handle lookups, resource validation,
// allocation and copies to and from user memory are oracles: each is a
// parameter giving its status.
module SyscallsDdk {
  import opened Zx
  import opened IommuIface
  import opened PinnedMemory
  import opened BusTxnInitiator

  // ---------------------------------------------------------------------------
  // sys_vmo_create_contiguous (syscalls_ddk.cpp:119-175)

  /** ROUNDUP_PAGE_SIZE on a 64-bit size_t: the sum wraps before it is
      masked down to a page multiple. */
  function RoundUpPage64(size: nat): (r: nat)
    requires size < U64_MOD
    ensures r < U64_MOD && r % PAGE_SIZE == 0
    ensures size + PAGE_SIZE - 1 < U64_MOD ==> r == RoundUp(size, PAGE_SIZE)
    ensures size + PAGE_SIZE - 1 >= U64_MOD ==> r == 0
  {
    var s := Add64(size, PAGE_SIZE - 1);
    if size + PAGE_SIZE - 1 < U64_MOD then
      DivModUnique(s, PAGE_SIZE, CeilDiv(size, PAGE_SIZE), s - CeilDiv(size, PAGE_SIZE) * PAGE_SIZE);
      MultipleMod(s / PAGE_SIZE, PAGE_SIZE);
      s / PAGE_SIZE * PAGE_SIZE
    else
      assert s == size + PAGE_SIZE - 1 - U64_MOD;
      DivModUnique(s, PAGE_SIZE, 0, s);
      0
  }

  /** The alignment sys_vmo_create_contiguous uses: 0 stands for
      PAGE_SIZE_SHIFT; anything below the page shift or beyond the width of
      a uint64_t is refused. */
  function ContiguousAlignment(alignmentLog2: nat): (r: Result<nat>)
    ensures r.Success? <==> alignmentLog2 == 0 || PAGE_SIZE_SHIFT <= alignmentLog2 < 64
    ensures r.Success? ==> r.value == (if alignmentLog2 == 0 then PAGE_SIZE_SHIFT else alignmentLog2)
    ensures r.Failure? ==> r.status == ErrInvalidArgs
  {
    var a := if alignmentLog2 == 0 then PAGE_SIZE_SHIFT else alignmentLog2;
    if a < PAGE_SIZE_SHIFT || a >= 64 then Failure(ErrInvalidArgs) else Success(a)
  }

  /** The contiguous VM object a successful call creates. */
  datatype ContiguousVmo = ContiguousVmo(size: nat, alignmentLog2: nat)

  /** The outcomes of the calls sys_vmo_create_contiguous makes. */
  datatype VmoCreateOracle = VmoCreateOracle(
    resource: Status, create: Status, commit: Status, committed: nat,
    dispatcher: Status, handleOk: bool, copyOut: Status)

  /** sys_vmo_create_contiguous as written: the size is checked for zero
      before it is rounded, and the rounding may wrap to zero. */
  function VmoCreateContiguousAsWritten(size: nat, alignmentLog2: nat, o: VmoCreateOracle): (r: Result<ContiguousVmo>)
    requires size < U64_MOD
  {
    if size == 0 then Failure(ErrInvalidArgs)
    else if ContiguousAlignment(alignmentLog2).Failure? then Failure(ErrInvalidArgs)
    else if o.resource != Ok then Failure(o.resource)
    else
      var rounded := RoundUpPage64(size);
      VmoCreateRest(rounded, ContiguousAlignment(alignmentLog2).value, o)
  }

  /** What follows the rounding: create the object, commit all of it, make
      the handle and copy it out. */
  function VmoCreateRest(rounded: nat, alignment: nat, o: VmoCreateOracle): (r: Result<ContiguousVmo>)
    ensures r.Success? ==> r.value == ContiguousVmo(rounded, alignment) && rounded <= o.committed
    ensures o.create == Ok && (o.commit != Ok || o.committed < rounded) ==> r == Failure(ErrNoMemory)
  {
    if o.create != Ok then Failure(o.create)
    else if o.commit != Ok || o.committed < rounded then Failure(ErrNoMemory)
    else if o.dispatcher != Ok then Failure(o.dispatcher)
    else if !o.handleOk then Failure(ErrNoMemory)
    else if o.copyOut != Ok then Failure(ErrInvalidArgs)
    else Success(ContiguousVmo(rounded, alignment))
  }

  /** A size within a page of 2^64 passes the zero check and rounds to an
      empty object, which the commit check then cannot catch. */
  lemma VmoCreateContiguousWrapsToEmpty(o: VmoCreateOracle)
    requires o.resource == Ok && o.create == Ok && o.commit == Ok && o.dispatcher == Ok
    requires o.handleOk && o.copyOut == Ok
    ensures VmoCreateContiguousAsWritten(U64_MOD - 1, 0, o) == Success(ContiguousVmo(0, PAGE_SIZE_SHIFT))
  {
  }

  /** sys_vmo_create_contiguous with the rounding checked: a size that does
      not round up within 64 bits is refused with OUT_OF_RANGE. */
  function VmoCreateContiguous(size: nat, alignmentLog2: nat, o: VmoCreateOracle): (r: Result<ContiguousVmo>)
    requires size < U64_MOD
  {
    if size == 0 then Failure(ErrInvalidArgs)
    else if ContiguousAlignment(alignmentLog2).Failure? then Failure(ErrInvalidArgs)
    else if o.resource != Ok then Failure(o.resource)
    else if size + PAGE_SIZE - 1 >= U64_MOD then Failure(ErrOutOfRange)
    else VmoCreateRest(RoundUpPage64(size), ContiguousAlignment(alignmentLog2).value, o)
  }

  /** A created object is never empty, covers the requested size in whole
      pages, and was committed in full; a zero size and a bad alignment are
      refused first. */
  lemma VmoCreateContiguousSound(size: nat, alignmentLog2: nat, o: VmoCreateOracle)
    requires size < U64_MOD
    ensures var r := VmoCreateContiguous(size, alignmentLog2, o);
            (size == 0 ==> r == Failure(ErrInvalidArgs)) &&
            (size != 0 && !(alignmentLog2 == 0 || PAGE_SIZE_SHIFT <= alignmentLog2 < 64) ==>
               r == Failure(ErrInvalidArgs)) &&
            (r.Success? ==>
               r.value.size == RoundUp(size, PAGE_SIZE) && 0 < r.value.size && size <= r.value.size &&
               r.value.size % PAGE_SIZE == 0 && r.value.size <= o.committed &&
               r.value.alignmentLog2 == (if alignmentLog2 == 0 then PAGE_SIZE_SHIFT else alignmentLog2))
  {
  }

  /** The corrected call differs from the one as written only where the
      rounding wraps. */
  lemma VmoCreateContiguousCorrectsOnlyWrap(size: nat, alignmentLog2: nat, o: VmoCreateOracle)
    requires size < U64_MOD && size + PAGE_SIZE - 1 < U64_MOD
    ensures VmoCreateContiguous(size, alignmentLog2, o) == VmoCreateContiguousAsWritten(size, alignmentLog2, o)
  {
  }

  // ---------------------------------------------------------------------------
  // sys_iommu_create (syscalls_ddk.cpp:286-328)

  /** The outcomes of the calls sys_iommu_create makes; the IOMMU's own
      Create is `create`. */
  datatype IommuCreateOracle = IommuCreateOracle(
    resource: Status, allocOk: bool, copyIn: Status, create: Status, copyOut: Status)

  /** A descriptor longer than ZX_IOMMU_MAX_DESC_LEN (`maxDescLen`, from a
      header that is not part of this model) is refused before it is copied
      in; the rest passes the statuses of the calls through in order. */
  function IommuCreate(descLen: nat, maxDescLen: nat, o: IommuCreateOracle): (r: Status)
    ensures o.resource != Ok ==> r == o.resource
    ensures o.resource == Ok && descLen > maxDescLen ==> r == ErrInvalidArgs
    ensures r == Ok <==> o.resource == Ok && descLen <= maxDescLen && o.allocOk &&
                         o.copyIn == Ok && o.create == Ok && o.copyOut == Ok
  {
    if o.resource != Ok then o.resource
    else if descLen > maxDescLen then ErrInvalidArgs
    else if !o.allocOk then ErrNoMemory
    else if o.copyIn != Ok then o.copyIn
    else if o.create != Ok then o.create
    else if o.copyOut != Ok then ErrInvalidArgs
    else Ok
  }

  // ---------------------------------------------------------------------------
  // sys_bti_pin (syscalls_ddk.cpp:394-473)

  /** A permission request as sys_bti_pin tests it: whether it holds
      ZX_VM_FLAG_PERM_READ, _WRITE and _EXECUTE, and whether it holds any
      other bit. The flag values come from a header that is not part of this
      model; they are distinct single bits, so the request is exactly these
      four facts. */
  datatype PermRequest = PermRequest(read: bool, write: bool, execute: bool, other: bool)

  /** The rights of the VM object's handle that sys_bti_pin tests:
      ZX_RIGHT_READ, _WRITE, _EXECUTE and _MAP. */
  datatype VmoRights = VmoRights(read: bool, write: bool, execute: bool, mapRight: bool)

  /** A permission asked for whose right the handle lacks. */
  predicate Denied(p: PermRequest, rights: VmoRights) {
    (p.read && !rights.read) || (p.write && !rights.write) || (p.execute && !rights.execute)
  }

  /** The IOMMU flags of the permissions asked for, or-ed together in the
      order read, write, execute from none. */
  function IommuFlags(p: PermRequest, io: IommuPerms): bv32 {
    var r := if p.read then Or(0, io.read) else 0;
    var w := if p.write then Or(r, io.write) else r;
    if p.execute then Or(w, io.execute) else w
  }

  function Or(a: bv32, b: bv32): bv32 { a | b }

  /** The permission translation of sys_bti_pin: ACCESS_DENIED for a
      permission without its right, then INVALID_ARGS for any bit that is no
      permission, else the IOMMU flags of the permissions asked for. */
  function TranslatePerms(p: PermRequest, rights: VmoRights, io: IommuPerms): (r: Result<bv32>)
    ensures r == Failure(ErrAccessDenied) <==> Denied(p, rights)
    ensures r == Failure(ErrInvalidArgs) <==> !Denied(p, rights) && p.other
    ensures r.Success? <==> !Denied(p, rights) && !p.other
  {
    if Denied(p, rights) then Failure(ErrAccessDenied)
    else if p.other then Failure(ErrInvalidArgs)
    else Success(IommuFlags(p, io))
  }

  /** The translation as sys_bti_pin runs it: read, write and execute in
      turn, each checked against its right, added to the IOMMU flags and
      cleared from the request, and then nothing may be left. */
  method TranslatePermsInPlace(perms: PermRequest, rights: VmoRights, io: IommuPerms)
    returns (status: Status, iommuPerms: bv32)
    ensures var r := TranslatePerms(perms, rights, io);
            (status == Ok <==> r.Success?) && (r.Success? ==> iommuPerms == r.value) &&
            (r.Failure? ==> status == r.status)
  {
    var left := perms;
    iommuPerms := 0;
    if left.read {
      if !rights.read {
        return ErrAccessDenied, 0;
      }
      iommuPerms := Or(iommuPerms, io.read);
      left := left.(read := false);
    }
    if left.write {
      if !rights.write {
        return ErrAccessDenied, 0;
      }
      iommuPerms := Or(iommuPerms, io.write);
      left := left.(write := false);
    }
    if left.execute {
      if !rights.execute {
        return ErrAccessDenied, 0;
      }
      iommuPerms := Or(iommuPerms, io.execute);
      left := left.(execute := false);
    }
    if left != PermRequest(false, false, false, false) {
      return ErrInvalidArgs, 0;
    }
    status := Ok;
  }

  /** The outcomes of the calls sys_bti_pin makes besides the pin itself:
      the two handle lookups, the kernel buffer for the extents, and the
      two copies out to user memory. */
  datatype BtiPinOracle = BtiPinOracle(
    btiLookup: Status, vmoLookup: Status, bufAllocOk: bool, copyExtents: Status, copyCount: Status)

  /** The checks sys_bti_pin makes before it pins anything, and the IOMMU
      flags they yield. */
  function BtiPinChecks(offset: nat, perms: PermRequest, rights: VmoRights, flags: IommuPerms,
                        o: BtiPinOracle): (r: Result<bv32>)
    ensures !PageAligned(offset) ==> r == Failure(ErrInvalidArgs)
    ensures PageAligned(offset) && o.btiLookup == Ok && o.vmoLookup == Ok && !rights.mapRight ==>
              r == Failure(ErrAccessDenied)
    ensures (PageAligned(offset) && o.btiLookup == Ok && o.vmoLookup == Ok && rights.mapRight &&
             Denied(perms, rights)) ==> r == Failure(ErrAccessDenied)
    ensures (PageAligned(offset) && o.btiLookup == Ok && o.vmoLookup == Ok && rights.mapRight &&
             !Denied(perms, rights) && perms.other) ==> r == Failure(ErrInvalidArgs)
    ensures r.Success? ==> r == TranslatePerms(perms, rights, flags) && o.bufAllocOk && PageAligned(offset)
  {
    if !PageAligned(offset) then Failure(ErrInvalidArgs)
    else if o.btiLookup != Ok then Failure(o.btiLookup)
    else if o.vmoLookup != Ok then Failure(o.vmoLookup)
    else if !rights.mapRight then Failure(ErrAccessDenied)
    else
      var t := TranslatePerms(perms, rights, flags);
      if t.Failure? then t
      else if !o.bufAllocOk then Failure(ErrNoMemory)
      else t
  }

  /** sys_bti_pin: check the arguments, pin through the BTI into a kernel
      buffer of `extentsLen` extents, and copy the extents and their count
      out. `extents` is what the user receives; after a failed copy it is
      the extents that were pinned and released again. */
  method BtiPin(bti: Bti, vmo: Vmo, offset: nat, size: nat, perms: PermRequest, rights: VmoRights,
                flags: IommuPerms, extentsLen: nat, o: BtiPinOracle,
                pages: seq<nat>, pinStatus: Status, arrayAllocOk: bool, pmoAllocOk: bool)
    returns (status: Status, extents: seq<Extent>)
    requires bti.Valid() && |pages| == NumPages(size) && size > 0
    modifies bti, vmo, set p | p in bti.pinned :: p, set p | p in bti.pinned :: p.vmo
    ensures bti.Valid()
    ensures var c := BtiPinChecks(offset, perms, rights, flags, o);
            (c.Failure? ==> status == c.status && bti.pinned == old(bti.pinned)) &&
            (c.Success? ==> status == PinAndCopyOutcome(bti, pages, size, c.value, pinStatus, arrayAllocOk,
                                                        pmoAllocOk, extentsLen, o, old(bti.zeroHandles)))
    ensures status != Ok ==> multiset(bti.Views()) == multiset(old(bti.Views()))
    ensures status != Ok && extents !in old(bti.Views()) ==> bti.pinned == old(bti.pinned)
    ensures status == Ok ==>
              var m := MapRange(bti.io, bti.busTxnId, pages, size, Contiguous(pages),
                                BtiPinChecks(offset, perms, rights, flags, o).value);
              BtiPinChecks(offset, perms, rights, flags, o).Success? &&
              extents == m.extents && |extents| <= extentsLen && bti.Views() == old(bti.Views()) + [extents]
  {
    extents := [];
    if !PageAligned(offset) {
      return ErrInvalidArgs, [];
    }
    if o.btiLookup != Ok {
      return o.btiLookup, [];
    }
    if o.vmoLookup != Ok {
      return o.vmoLookup, [];
    }
    if !rights.mapRight {
      return ErrAccessDenied, [];
    }
    var iommuPerms;
    status, iommuPerms := TranslatePermsInPlace(perms, rights, flags);
    if status != Ok {
      return;
    }
    if !o.bufAllocOk {
      return ErrNoMemory, [];
    }
    status, extents := PinIntoBuffer(bti, vmo, offset, size, iommuPerms, extentsLen, o,
                                     pages, pinStatus, arrayAllocOk, pmoAllocOk);
  }

  /** The kernel buffer of `extentsLen` extents is allocated; pin into it and
      copy out. */
  method PinIntoBuffer(bti: Bti, vmo: Vmo, offset: nat, size: nat, iommuPerms: bv32, extentsLen: nat,
                       o: BtiPinOracle, pages: seq<nat>, pinStatus: Status, arrayAllocOk: bool, pmoAllocOk: bool)
    returns (status: Status, extents: seq<Extent>)
    requires bti.Valid() && |pages| == NumPages(size) && size > 0 && PageAligned(offset)
    modifies bti, vmo, set p | p in bti.pinned :: p, set p | p in bti.pinned :: p.vmo
    ensures bti.Valid()
    ensures status == PinAndCopyOutcome(bti, pages, size, iommuPerms, pinStatus, arrayAllocOk, pmoAllocOk,
                                        extentsLen, o, old(bti.zeroHandles))
    ensures status != Ok ==> multiset(bti.Views()) == multiset(old(bti.Views()))
    ensures status != Ok && extents !in old(bti.Views()) ==> bti.pinned == old(bti.pinned)
    ensures status == Ok ==>
              var m := MapRange(bti.io, bti.busTxnId, pages, size, Contiguous(pages), iommuPerms);
              extents == m.extents && |extents| <= extentsLen && bti.Views() == old(bti.Views()) + [extents]
  {
    ghost var views := bti.Views();
    var buf := new Extent[extentsLen];
    assert bti.Views() == views;
    status, extents := PinAndCopy(bti, vmo, offset, size, iommuPerms, buf, o,
                                  pages, pinStatus, arrayAllocOk, pmoAllocOk);
  }

  /** How the pin-and-copy half of sys_bti_pin ends. */
  function PinAndCopyOutcome(bti: Bti, pages: seq<nat>, size: nat, iommuPerms: bv32, pinStatus: Status,
                             arrayAllocOk: bool, pmoAllocOk: bool, extentsLen: nat, o: BtiPinOracle,
                             zeroHandles: bool): Status
    requires |pages| > 0
  {
    var pin := bti.PinOutcome(pages, size, iommuPerms, pinStatus, arrayAllocOk, pmoAllocOk, extentsLen);
    if zeroHandles then ErrBadState
    else if pin != Ok then pin
    else if o.copyExtents != Ok then o.copyExtents
    else o.copyCount
  }

  /** The second half of sys_bti_pin: pin, then copy out; a failed copy
      unpins the extents just pinned, so every failure leaves the BTI holding
      the same extent lists as before. It holds the very same list unless an
      earlier PMO had exactly the new extents, in which case that one is
      released instead. */
  method PinAndCopy(bti: Bti, vmo: Vmo, offset: nat, size: nat, iommuPerms: bv32, buf: array<Extent>,
                    o: BtiPinOracle, pages: seq<nat>, pinStatus: Status, arrayAllocOk: bool, pmoAllocOk: bool)
    returns (status: Status, extents: seq<Extent>)
    requires bti.Valid() && |pages| == NumPages(size) && size > 0 && PageAligned(offset)
    requires forall k :: 0 <= k < |bti.pinned| ==> bti.pinned[k].extents != buf
    modifies bti, vmo, buf, set p | p in bti.pinned :: p, set p | p in bti.pinned :: p.vmo
    ensures bti.Valid()
    ensures status == PinAndCopyOutcome(bti, pages, size, iommuPerms, pinStatus, arrayAllocOk, pmoAllocOk,
                                        buf.Length, o, old(bti.zeroHandles))
    ensures status != Ok ==> multiset(bti.Views()) == multiset(old(bti.Views()))
    ensures status != Ok && extents !in old(bti.Views()) ==> bti.pinned == old(bti.pinned)
    ensures status == Ok ==>
              var m := MapRange(bti.io, bti.busTxnId, pages, size, Contiguous(pages), iommuPerms);
              extents == m.extents && |extents| <= buf.Length && bti.Views() == old(bti.Views()) + [extents]
  {
    ghost var before, views := bti.pinned, bti.Views();
    var actual;
    status, actual := bti.Pin(vmo, offset, size, iommuPerms, buf, pages, pinStatus, arrayAllocOk, pmoAllocOk);
    extents := [];
    if status != Ok {
      assert bti.Views() == views;
      return;
    }
    extents := buf[..actual];
    ghost var last := bti.pinned[|before|];
    assert bti.pinned == before + [last];
    status := CopyOutOrUnpin(bti, before, last, views, extents, o);
  }

  /** Copy the extents and their count out; when either copy fails, unpin
      the extents just pinned again. */
  method CopyOutOrUnpin(bti: Bti, ghost before: seq<Pmo>, ghost last: Pmo, ghost views: seq<seq<Extent>>,
                        e: seq<Extent>, o: BtiPinOracle) returns (status: Status)
    requires bti.Valid() && !bti.zeroHandles && |before| == |views|
    requires bti.pinned == before + [last]
    requires bti.Views() == views + [e]
    modifies bti, set p | p in before :: p, set p | p in before :: p.vmo, last, last.vmo
    ensures bti.Valid()
    ensures status == (if o.copyExtents != Ok then o.copyExtents else o.copyCount)
    ensures status == Ok ==> bti.Views() == views + [e]
    ensures status != Ok ==> multiset(bti.Views()) == multiset(views)
    ensures status != Ok && e !in views ==> bti.pinned == before
  {
    status := if o.copyExtents != Ok then o.copyExtents else o.copyCount;
    if status != Ok {
      assert forall p | p in bti.pinned :: p in before || p == last;
      assert bti.pinned[..|before|] == before;
      UnpinAfterFailedCopy(bti, before, views, e);
    }
  }

  /** The extents just pinned could not be copied out: unpin them again. */
  method UnpinAfterFailedCopy(bti: Bti, ghost before: seq<Pmo>, ghost views: seq<seq<Extent>>,
                              e: seq<Extent>)
    requires bti.Valid() && !bti.zeroHandles && |before| == |views|
    requires |bti.pinned| == |before| + 1 && bti.pinned[..|before|] == before
    requires bti.Views() == views + [e]
    modifies bti, set p | p in bti.pinned :: p, set p | p in bti.pinned :: p.vmo
    ensures bti.Valid()
    ensures multiset(bti.Views()) == multiset(views)
    ensures e !in views ==> bti.pinned == before
  {
    assert bti.pinned == before + [bti.pinned[|before|]];
    PinThenUnpin(before, views, bti.pinned[|before|], e);
    assert e in bti.Views();
    var _ := bti.Unpin(e);
  }
}
