// The bus transaction id decoding of the Intel IOMMU driver (iommu_impl.h):
// a PCI requester id, bus number in bits 15..8 and device/function in 7..0.
module IntelIommu {

  /** BITS_SHIFT(x, high, low): bits high..low of x, shifted down. */
  function BitsShift(x: bv64, high: nat, low: nat): bv64
    requires low <= high < 63
  {
    (x >> low) & ((1 << (high - low + 1)) - 1)
  }

  /** decode_bus_txn_id: the bus number and the device/function byte. */
  function DecodeBusTxnId(busTxnId: bv64): (r: (bv8, bv8))
    ensures r.0 as bv64 == (busTxnId >> 8) & 0xFF
    ensures r.1 as bv64 == busTxnId & 0xFF
  {
    ((BitsShift(busTxnId, 15, 8) as bv8), (BitsShift(busTxnId, 7, 0) as bv8))
  }

  /** Bits above 15 do not affect the decoding. */
  lemma DecodeIgnoresHighBits(a: bv64, b: bv64)
    requires a & 0xFFFF == b & 0xFFFF
    ensures DecodeBusTxnId(a) == DecodeBusTxnId(b)
  {
    assert (a >> 8) & 0xFF == ((a & 0xFFFF) >> 8) & 0xFF;
    assert (b >> 8) & 0xFF == ((b & 0xFFFF) >> 8) & 0xFF;
    assert a & 0xFF == (a & 0xFFFF) & 0xFF;
    assert b & 0xFF == (b & 0xFFFF) & 0xFF;
  }

  /** The PCI bus/device/function packing (bus << 8) | (dev << 3) | func. */
  function PackBdf(bus: bv64, dev: bv64, func: bv64): bv64 {
    (bus << 8) | (dev << 3) | func
  }

  /** Decoding a packed id gives back the bus and the device/function byte. */
  lemma DecodePackedBdf(bus: bv64, dev: bv64, func: bv64)
    requires bus < 256 && dev < 32 && func < 8
    ensures DecodeBusTxnId(PackBdf(bus, dev, func)).0 as bv64 == bus
    ensures DecodeBusTxnId(PackBdf(bus, dev, func)).1 as bv64 == (dev << 3) | func
  {
  }
}
