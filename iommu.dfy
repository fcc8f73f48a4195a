// The IOMMU interface as the pinning code calls it (dev/iommu.h is not part of
// this model): whether a bus transaction id is valid, Map, which yields the
// device address of a physical range, and Unmap.
module IommuIface {
  import opened Zx

  /** The three permission flags of Iommu::Map. Their values live in a header
      that is not part of this model; they are single distinct bits. */
  datatype IommuPerms = IommuPerms(read: bv32, write: bv32, execute: bv32)
  {
    predicate WellFormed() {
      read != 0 && write != 0 && execute != 0 &&
      read & (read - 1) == 0 && write & (write - 1) == 0 && execute & (execute - 1) == 0 &&
      read & write == 0 && read & execute == 0 && write & execute == 0
    }

    function All(): bv32 { read | write | execute }
  }

  /** What Iommu::Map returns: a status and, when it is ZX_OK, the device
      address written through its out-parameter. */
  datatype MapResult = MapResult(status: Status, vaddr: nat)

  /** An IOMMU: `mapRange(busTxnId, paddr, size, perms)` is the outcome of
      Map, `unmap(busTxnId, vaddr, size)` the status of Unmap. */
  datatype IommuOps = IommuOps(
    isValidBusTxnId: nat -> bool,
    mapRange: (nat, nat, nat, bv32) -> MapResult,
    unmap: (nat, nat, nat) -> Status)
}
