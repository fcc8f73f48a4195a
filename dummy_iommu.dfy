// The dummy IOMMU (dummy_iommu.cpp): no translation at all. Map checks its
// arguments and returns the physical address itself as the device address.
module DummyIommu {
  import opened Zx
  import opened IommuIface

  /** DummyIommu::Create: the descriptor must be exactly a
      zx_iommu_desc_dummy_t, whose size `descSize` comes from a header that
      is not part of this model; `allocOk` is whether the object could be
      allocated. */
  function Create(descLen: nat, descSize: nat, allocOk: bool): (r: Status)
    ensures r == Ok <==> descLen == descSize && allocOk
    ensures descLen != descSize ==> r == ErrInvalidArgs
    ensures descLen == descSize && !allocOk ==> r == ErrNoMemory
  {
    if descLen != descSize then ErrInvalidArgs
    else if !allocOk then ErrNoMemory
    else Ok
  }

  /** Every bus transaction id is accepted. */
  function IsValidBusTxnId(busTxnId: nat): (r: bool)
    ensures r
  {
    true
  }

  /** DummyIommu::Map: succeeds exactly on a page-aligned address and size
      with a non-empty set of permissions that has no bit outside read, write
      and execute, and then maps the range to itself. */
  function Map(paddr: nat, size: nat, perms: bv32, flags: IommuPerms): (r: MapResult)
    ensures r.status == Ok <==>
              PageAligned(paddr) && PageAligned(size) && perms != 0 && perms & !flags.All() == 0
    ensures r.status == Ok ==> r.vaddr == paddr
    ensures r.status != Ok ==> r.status == ErrInvalidArgs
  {
    if !PageAligned(paddr) || !PageAligned(size) then MapResult(ErrInvalidArgs, 0)
    else if perms & !flags.All() != 0 then MapResult(ErrInvalidArgs, 0)
    else if perms == 0 then MapResult(ErrInvalidArgs, 0)
    else MapResult(Ok, paddr)
  }

  /** DummyIommu::Unmap fails only on unaligned arguments. */
  function Unmap(vaddr: nat, size: nat): (r: Status)
    ensures r == Ok <==> PageAligned(vaddr) && PageAligned(size)
    ensures r != Ok ==> r == ErrInvalidArgs
  {
    if !PageAligned(vaddr) || !PageAligned(size) then ErrInvalidArgs else Ok
  }

  /** ClearMappingsForBusTxnId has nothing to clear. */
  function ClearMappingsForBusTxnId(busTxnId: nat): (r: Status)
    ensures r == Ok
  {
    Ok
  }

  /** The dummy IOMMU behind the interface the pinning code sees. */
  function Ops(flags: IommuPerms): (io: IommuOps)
    ensures forall id :: io.isValidBusTxnId(id)
  {
    IommuOps((id: nat) => IsValidBusTxnId(id),
             (id: nat, paddr: nat, size: nat, perms: bv32) => Map(paddr, size, perms, flags),
             (id: nat, vaddr: nat, size: nat) => Unmap(vaddr, size))
  }
}
