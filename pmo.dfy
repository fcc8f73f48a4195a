// The pinned memory object (pinned_memory_object.cpp): a pinned range of a VM
// object, mapped into an IOMMU for a bus transaction id. A physically
// contiguous range is mapped as one run; any other range page by page, each
// page giving one extent. The VM object's page lookup is an oracle: the
// physical address of every page of the range, in order.
module PinnedMemory {
  import opened Zx
  import opened IommuIface

  /** PinnedMemoryObject::Extent: a device address and a page count. */
  datatype Extent = Extent(base: nat, pages: nat)

  /** A range of a VM object, in bytes. */
  datatype PinRange = PinRange(offset: nat, size: nat)

  /** One Unmap request sent to the IOMMU. */
  datatype UnmapCall = UnmapCall(vaddr: nat, size: nat)

  /** The VM object as pinning sees it: its outstanding pins. */
  class Vmo {
    var pins: multiset<PinRange>

    constructor()
      ensures pins == multiset{}
    {
      pins := multiset{};
    }

    /** VmObject::Pin; `outcome` is whether the pages could be committed and
        pinned. */
    method Pin(r: PinRange, outcome: Status) returns (status: Status)
      modifies this
      ensures status == outcome
      ensures pins == if outcome == Ok then old(pins) + multiset{r} else old(pins)
    {
      if outcome == Ok {
        pins := pins + multiset{r};
      }
      status := outcome;
    }

    method Unpin(r: PinRange)
      modifies this
      ensures pins == old(pins) - multiset{r}
    {
      pins := pins - multiset{r};
    }
  }

  /** Pages in a range of `size` bytes: ROUNDUP(size, PAGE_SIZE) / PAGE_SIZE. */
  function NumPages(size: nat): nat { RoundUp(size, PAGE_SIZE) / PAGE_SIZE }

  /** Each page after the first starts where the one before it ends (the
      expected address is a uint64 sum). */
  predicate Contiguous(pages: seq<nat>) {
    forall i :: 0 < i < |pages| ==> pages[i] == Add64(pages[i - 1], PAGE_SIZE)
  }

  /** The check_contiguous callback driven over every page by
      VmObject::Lookup, which stops at the first page the callback refuses. */
  method CheckContiguous(pages: seq<nat>) returns (status: Status)
    ensures status == Ok <==> Contiguous(pages)
    ensures status != Ok ==> status == ErrNotFound
  {
    var expected := 0;
    status := Ok;
    var i := 0;
    while i < |pages| && status == Ok
      invariant 0 <= i <= |pages|
      invariant status == Ok ==> Contiguous(pages[..i]) && (i > 0 ==> expected == Add64(pages[i - 1], PAGE_SIZE))
      invariant status != Ok ==> status == ErrNotFound && !Contiguous(pages)
      decreases |pages| - i, if status == Ok then 1 else 0
    {
      if i != 0 && pages[i] != expected {
        status := ErrNotFound;
      } else {
        expected := Add64(pages[i], PAGE_SIZE);
        i := i + 1;
      }
    }
    if status == Ok {
      assert pages[..i] == pages;
    }
  }

  /** What mapping a set of pages yields: the status and the extents mapped. */
  datatype Mapping = Mapping(status: Status, extents: seq<Extent>)

  /** Map each page on its own, in order, stopping at the first refusal:
      one single-page extent per page mapped. */
  function MapEach(io: IommuOps, busTxnId: nat, pages: seq<nat>, perms: bv32): (m: Mapping)
    ensures |m.extents| <= |pages|
    ensures m.status == Ok ==> |m.extents| == |pages|
    ensures m.status != Ok ==>
              |m.extents| < |pages| &&
              io.mapRange(busTxnId, pages[|m.extents|], PAGE_SIZE, perms).status == m.status
    ensures forall k :: 0 <= k < |m.extents| ==>
              io.mapRange(busTxnId, pages[k], PAGE_SIZE, perms).status == Ok &&
              m.extents[k] == Extent(io.mapRange(busTxnId, pages[k], PAGE_SIZE, perms).vaddr, 1)
    decreases |pages|
  {
    if pages == [] then Mapping(Ok, [])
    else
      var m := MapEach(io, busTxnId, pages[..|pages| - 1], perms);
      if m.status != Ok then m
      else
        var r := io.mapRange(busTxnId, pages[|pages| - 1], PAGE_SIZE, perms);
        if r.status != Ok then Mapping(r.status, m.extents)
        else Mapping(Ok, m.extents + [Extent(r.vaddr, 1)])
  }

  /** Once a prefix of the pages failed, the rest are never mapped. */
  lemma {:induction false} MapEachStops(io: IommuOps, busTxnId: nat, pages: seq<nat>, perms: bv32, n: nat)
    requires n <= |pages| && MapEach(io, busTxnId, pages[..n], perms).status != Ok
    ensures MapEach(io, busTxnId, pages, perms) == MapEach(io, busTxnId, pages[..n], perms)
    decreases |pages| - n
  {
    if n < |pages| {
      MapEachStops(io, busTxnId, pages, perms, n + 1);
      assert pages[..n + 1][..n] == pages[..n];
    } else {
      assert pages[..n] == pages;
    }
  }

  /** The outcome of mapping a pinned range: a contiguous range is one run
      from its first page, rounded up to whole pages, and yields a single
      extent; any other range is mapped page by page. A failure of the single
      run leaves no extent. */
  function MapRange(io: IommuOps, busTxnId: nat, pages: seq<nat>, size: nat, contiguous: bool,
                    perms: bv32): (m: Mapping)
    requires |pages| > 0
    ensures m.status == Ok ==> |m.extents| == (if contiguous then 1 else |pages|)
    ensures contiguous && m.status != Ok ==> m.extents == []
    ensures contiguous ==> m.status == io.mapRange(busTxnId, pages[0], RoundUp(size, PAGE_SIZE), perms).status
  {
    if contiguous then
      var r := io.mapRange(busTxnId, pages[0], RoundUp(size, PAGE_SIZE), perms);
      if r.status != Ok then Mapping(r.status, [])
      else Mapping(Ok, [Extent(r.vaddr, 1)])
    else MapEach(io, busTxnId, pages, perms)
  }

  /** The Unmap requests for a list of extents, one per extent. */
  function UnmapCalls(es: seq<Extent>): (r: seq<UnmapCall>)
    ensures |r| == |es|
    ensures forall k :: 0 <= k < |es| ==> r[k] == UnmapCall(es[k].base, es[k].pages * PAGE_SIZE)
  {
    if es == [] then []
    else UnmapCalls(es[..|es| - 1]) + [UnmapCall(es[|es| - 1].base, es[|es| - 1].pages * PAGE_SIZE)]
  }

  /** The first error among the IOMMU's answers to a list of Unmap requests. */
  function FirstError(io: IommuOps, busTxnId: nat, calls: seq<UnmapCall>): (r: Status)
    ensures r == Ok <==> forall k :: 0 <= k < |calls| ==> io.unmap(busTxnId, calls[k].vaddr, calls[k].size) == Ok
    ensures r != Ok ==>
              exists k :: 0 <= k < |calls| && io.unmap(busTxnId, calls[k].vaddr, calls[k].size) == r &&
                forall j :: 0 <= j < k ==> io.unmap(busTxnId, calls[j].vaddr, calls[j].size) == Ok
  {
    if calls == [] then Ok
    else
      var first := FirstError(io, busTxnId, calls[..|calls| - 1]);
      if first != Ok then first
      else io.unmap(busTxnId, calls[|calls| - 1].vaddr, calls[|calls| - 1].size)
  }

  class Pmo {
    const io: IommuOps
    const busTxnId: nat
    const vmo: Vmo
    const range: PinRange
    const contiguous: bool
    /** The physical address of each page of the range, as Lookup reports it. */
    const pages: seq<nat>
    const extents: array<Extent>
    var extentsLen: nat
    /** The Unmap requests this object sent to the IOMMU. */
    var unmaps: seq<UnmapCall>

    /** The extent array has one slot for a contiguous range and one per
        page otherwise, and the first extentsLen slots are in use. */
    ghost predicate Valid()
      reads this
    {
      |pages| == NumPages(range.size) && |pages| > 0 &&
      extents.Length == (if contiguous then 1 else |pages|) &&
      extentsLen <= extents.Length
    }

    function MappedExtents(): seq<Extent>
      reads this, extents
      requires extentsLen <= extents.Length
    {
      extents[..extentsLen]
    }

    constructor(io: IommuOps, busTxnId: nat, vmo: Vmo, range: PinRange, contiguous: bool,
                pages: seq<nat>, extents: array<Extent>)
      ensures this.io == io && this.busTxnId == busTxnId && this.vmo == vmo && this.range == range
      ensures this.contiguous == contiguous && this.pages == pages && this.extents == extents
      ensures extentsLen == 0 && unmaps == []
    {
      this.io := io;
      this.busTxnId := busTxnId;
      this.vmo := vmo;
      this.range := range;
      this.contiguous := contiguous;
      this.pages := pages;
      this.extents := extents;
      extentsLen := 0;
      unmaps := [];
    }

    /** IommuMapPage: map one page and record its extent in slot `num`. */
    method IommuMapPage(num: nat, pa: nat, perms: bv32) returns (status: Status, num': nat)
      requires num < extents.Length
      modifies extents
      ensures var r := io.mapRange(busTxnId, pa, PAGE_SIZE, perms);
              status == r.status &&
              (r.status != Ok ==> num' == num && extents[..] == old(extents[..])) &&
              (r.status == Ok ==> num' == num + 1 && extents[..] == old(extents[..])[num := Extent(r.vaddr, 1)])
    {
      var r := io.mapRange(busTxnId, pa, PAGE_SIZE, perms);
      if r.status != Ok {
        return r.status, num;
      }
      extents[num] := Extent(r.vaddr, 1);
      return Ok, num + 1;
    }

    /** One callback of the page-by-page Lookup: pages [0, i) are mapped,
        page i is next. */
    method MapPageStep(i: nat, num: nat, perms: bv32) returns (status: Status, num': nat)
      requires Valid() && !contiguous && i < |pages|
      requires MapEach(io, busTxnId, pages[..i], perms).status == Ok && num == i
      requires extents[..num] == MapEach(io, busTxnId, pages[..i], perms).extents
      modifies extents
      ensures var m := MapEach(io, busTxnId, pages[..i + 1], perms);
              status == m.status && num' == |m.extents| && extents[..num'] == m.extents
    {
      assert pages[..i + 1][..i] == pages[..i];
      ghost var before := extents[..num];
      status, num' := IommuMapPage(num, pages[i], perms);
      if status == Ok {
        assert extents[..num'] == before + [extents[num]];
      } else {
        assert extents[..num'] == before;
      }
    }

    /** VmObject::Lookup driving IommuMapPage over every page of the range,
        stopping at the first page whose callback fails. */
    method MapPages(perms: bv32) returns (status: Status, num: nat)
      requires Valid() && !contiguous
      modifies extents
      ensures var m := MapEach(io, busTxnId, pages, perms);
              status == m.status && num == |m.extents| && num <= extents.Length &&
              extents[..num] == m.extents
    {
      status, num := Ok, 0;
      var i := 0;
      while i < |pages| && status == Ok
        invariant 0 <= i <= |pages| && num <= i
        invariant status == Ok ==> MapEach(io, busTxnId, pages[..i], perms).status == Ok && num == i
        invariant status == Ok ==> extents[..num] == MapEach(io, busTxnId, pages[..i], perms).extents
        invariant status != Ok ==> MapEach(io, busTxnId, pages, perms) == Mapping(status, extents[..num])
        decreases |pages| - i, if status == Ok then 1 else 0
      {
        status, num := MapPageStep(i, num, perms);
        if status != Ok {
          MapEachStops(io, busTxnId, pages, perms, i + 1);
        } else {
          i := i + 1;
        }
      }
      if status == Ok {
        assert pages[..i] == pages;
      }
    }

    /** MapIntoIommu: map the whole range at once when it is contiguous,
        otherwise page by page; when a page fails, what was already mapped is
        unmapped again and the error is returned. */
    method MapIntoIommu(perms: bv32) returns (status: Status)
      requires Valid() && extentsLen == 0
      modifies this, extents
      ensures Valid()
      ensures var m := MapRange(io, busTxnId, pages, range.size, contiguous, perms);
              status == m.status &&
              (status == Ok ==> MappedExtents() == m.extents && unmaps == old(unmaps)) &&
              (status != Ok ==> extentsLen == 0) &&
              (status != Ok ==> unmaps == old(unmaps) + (if contiguous then [] else UnmapCalls(m.extents)))
    {
      if contiguous {
        var paddr := pages[0];
        var r := io.mapRange(busTxnId, paddr, RoundUp(range.size, PAGE_SIZE), perms);
        if r.status != Ok {
          return r.status;
        }
        extents[0] := Extent(r.vaddr, 1);
        extentsLen := 1;
        return Ok;
      }
      var num;
      status, num := MapPages(perms);
      extentsLen := num;
      if status != Ok {
        var err := UnmapFromIommu();
      }
    }

    /** UnmapFromIommu: unmap every extent even after an error, report the
        first error, and leave no extent, so that a second call does nothing. */
    method UnmapFromIommu() returns (status: Status)
      requires Valid()
      modifies this
      ensures Valid() && extentsLen == 0
      ensures old(extentsLen) == 0 ==> status == Ok && unmaps == old(unmaps)
      ensures old(extentsLen) != 0 && contiguous ==>
                unmaps == old(unmaps) + [UnmapCall(extents[0].base, RoundUp(range.size, PAGE_SIZE))] &&
                status == io.unmap(busTxnId, extents[0].base, RoundUp(range.size, PAGE_SIZE))
      ensures old(extentsLen) != 0 && !contiguous ==>
                var calls := UnmapCalls(extents[..old(extentsLen)]);
                unmaps == old(unmaps) + calls && status == FirstError(io, busTxnId, calls)
    {
      if extentsLen == 0 {
        return Ok;
      }
      status := Ok;
      if contiguous {
        status := io.unmap(busTxnId, extents[0].base, RoundUp(range.size, PAGE_SIZE));
        unmaps := unmaps + [UnmapCall(extents[0].base, RoundUp(range.size, PAGE_SIZE))];
      } else {
        ghost var before := unmaps;
        var i := 0;
        while i < extentsLen
          invariant 0 <= i <= extentsLen && Valid() && extentsLen == old(extentsLen)
          invariant unmaps == before + UnmapCalls(extents[..i])
          invariant status == FirstError(io, busTxnId, UnmapCalls(extents[..i]))
        {
          var call := UnmapCall(extents[i].base, extents[i].pages * PAGE_SIZE);
          assert extents[..i + 1][..i] == extents[..i];
          var err := io.unmap(busTxnId, call.vaddr, call.size);
          unmaps := unmaps + [call];
          if err != Ok && status == Ok {
            status := err;
          }
          i := i + 1;
        }
      }
      extentsLen := 0;
    }

    /** The destructor: unmap, then drop the pin on the VM object. */
    method Destroy() returns (status: Status)
      requires Valid()
      modifies this, vmo
      ensures Valid() && extentsLen == 0
      ensures vmo.pins == old(vmo.pins) - multiset{range}
    {
      status := UnmapFromIommu();
      vmo.Unpin(range);
    }

    /** PinnedMemoryObject::Create: pin the range, test its contiguity, size
        the extent array, build the object and map it. `pages` is what
        Lookup reports for the range, `pinStatus` the outcome of the pin,
        `arrayAllocOk` and `pmoAllocOk` whether the two allocations succeed.
        Every failure leaves the VM object's pins as they were: before the
        object exists the pin is undone directly, afterwards the destructor
        undoes it. */
    static method Create(io: IommuOps, busTxnId: nat, vmo: Vmo, offset: nat, size: nat, perms: bv32,
                         pages: seq<nat>, pinStatus: Status, arrayAllocOk: bool, pmoAllocOk: bool)
      returns (status: Status, pmo: Pmo?)
      requires |pages| == NumPages(size) && size > 0
      modifies vmo
      ensures pinStatus != Ok ==> status == pinStatus
      ensures pinStatus == Ok && !(arrayAllocOk && pmoAllocOk) ==> status == ErrNoMemory
      ensures pinStatus == Ok && arrayAllocOk && pmoAllocOk ==>
                status == MapRange(io, busTxnId, pages, size, Contiguous(pages), perms).status
      ensures status != Ok ==> pmo == null && vmo.pins == old(vmo.pins)
      ensures status == Ok ==>
                pmo != null && fresh(pmo) && fresh(pmo.extents) && pmo.Valid() &&
                pmo.vmo == vmo && pmo.range == PinRange(offset, size) &&
                pmo.contiguous == Contiguous(pages) && pmo.pages == pages &&
                pmo.io == io && pmo.busTxnId == busTxnId &&
                pmo.MappedExtents() == MapRange(io, busTxnId, pages, size, Contiguous(pages), perms).extents &&
                vmo.pins == old(vmo.pins) + multiset{PinRange(offset, size)}
    {
      pmo := null;
      var range := PinRange(offset, size);
      status := vmo.Pin(range, pinStatus);
      if status != Ok {
        return;
      }
      var lookup := CheckContiguous(pages);
      var isContiguous := lookup == Ok;
      var numPages := if isContiguous then 1 else NumPages(size);
      if !arrayAllocOk {
        vmo.Unpin(range);
        return ErrNoMemory, null;
      }
      var pageArray := new Extent[numPages];
      if !pmoAllocOk {
        vmo.Unpin(range);
        return ErrNoMemory, null;
      }
      var p := new Pmo(io, busTxnId, vmo, range, isContiguous, pages, pageArray);
      status := p.MapIntoIommu(perms);
      if status != Ok {
        var _ := p.Destroy();
        return status, null;
      }
      pmo := p;
    }
  }
}
