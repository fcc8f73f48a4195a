// The minfs on-disk format: the superblock, the inode record, where an inode
// lives in the inode table, superblock validation at mount time (including the
// reconciliation of the superblock's slice counts with the volume manager),
// the non-FVM layout chosen by mkfs, and the host-side range-checked block read.
module MinfsFormat {
  import opened Zx

  // Format constants. The numeric values are those of the minfs format header.
  const BLOCK_SIZE: nat := 8192
  const BLOCK_BITS: nat := BLOCK_SIZE * 8
  const INODE_SIZE: nat := 256
  const INODES_PER_BLOCK: nat := BLOCK_SIZE / INODE_SIZE
  const DIRECT: nat := 16
  const INDIRECT: nat := 31
  const DOUBLY_INDIRECT: nat := 1
  const DIRECT_PER_INDIRECT: nat := BLOCK_SIZE / 4
  const ROOT_INO: nat := 1
  const MAGIC0: nat := 0x0021_5346_6e69_4d21
  const MAGIC1: nat := 0x3850_00d3_d3d3_d304
  const VERSION: nat := 6
  // First block of each region in a volume-manager-backed (FVM) minfs.
  const FVM_INODE_BM_START: nat := 0x10000
  const FVM_DATA_BM_START: nat := 0x20000
  const FVM_INODE_START: nat := 0x30000
  const FVM_DATA_START: nat := 0x40000
  // Inodes mkfs gives a filesystem that is not backed by the volume manager.
  const MKFS_INODES: nat := 32768

  /** minfs_info_t, the superblock. The flags word is split into its two bits. */
  datatype Info = Info(
    magic0: nat, magic1: nat, version: nat,
    clean: bool, fvm: bool,
    blockSize: nat, inodeSize: nat,
    blockCount: nat, inodeCount: nat,
    allocBlockCount: nat, allocInodeCount: nat,
    ibmBlock: nat, abmBlock: nat, inoBlock: nat, datBlock: nat,
    sliceSize: nat, vsliceCount: nat,
    ibmSlices: nat, abmSlices: nat, inoSlices: nat, datSlices: nat)
  {
    /** Every field holds a value of its on-disk width (uint32, sizes uint64). */
    predicate InRange() {
      blockCount < U32_MOD && inodeCount < U32_MOD &&
      allocBlockCount < U32_MOD && allocInodeCount < U32_MOD &&
      ibmBlock < U32_MOD && abmBlock < U32_MOD && inoBlock < U32_MOD && datBlock < U32_MOD &&
      ibmSlices < U32_MOD && abmSlices < U32_MOD && inoSlices < U32_MOD && datSlices < U32_MOD &&
      vsliceCount < U64_MOD && sliceSize < U64_MOD
    }
  }

  /** minfs_inode_t, restricted to the fields the allocator reads. */
  datatype Inode = Inode(
    magic: nat, size: nat, blockCount: nat, linkCount: nat, direntCount: nat,
    dnum: seq<nat>, inum: seq<nat>, dinum: seq<nat>)
  {
    predicate WellShaped() {
      |dnum| == DIRECT && |inum| == INDIRECT && |dinum| == DOUBLY_INDIRECT
    }
  }

  // ---------------------------------------------------------------------------
  // Where an inode lives (InodeSync and VnodeGet, minfs.cpp:197-217, 640-646)

  /** Block of the inode table, relative to the table, holding inode `ino`. */
  function InodeBlock(ino: nat): nat { ino / INODES_PER_BLOCK }

  /** Byte offset of inode `ino` within its block. */
  function InodeOffset(ino: nat): nat { (ino % INODES_PER_BLOCK) * INODE_SIZE }

  /** The record fits in its block and the (block, offset) pair identifies the
      inode, so two distinct inodes never share bytes of the table. */
  lemma InodeLocationInjective(ino: nat)
    ensures InodeOffset(ino) + INODE_SIZE <= BLOCK_SIZE
    ensures InodeOffset(ino) % INODE_SIZE == 0
    ensures InodeBlock(ino) * INODES_PER_BLOCK + InodeOffset(ino) / INODE_SIZE == ino
  {
    var k := ino % INODES_PER_BLOCK;
    assert InodeOffset(ino) == k * 256;
    DivModUnique(k * 256, 256, k, 0);
  }

  lemma InodeLocationsDisjoint(a: nat, b: nat)
    requires a != b
    ensures InodeBlock(a) != InodeBlock(b) || InodeOffset(a) != InodeOffset(b)
  {
    InodeLocationInjective(a);
    InodeLocationInjective(b);
  }

  // ---------------------------------------------------------------------------
  // The volume manager as the superblock check sees it

  /** An extend_request_t sent with FVMExtend or FVMShrink. */
  datatype FvmRequest = Extend(offset: nat, length: nat) | Shrink(offset: nat, length: nat)

  /** One entry of the vslice query response. */
  datatype VsliceRange = VsliceRange(isAllocated: bool, count: nat)

  /** Answers of the volume manager: the FVMQuery reply, the vslice query reply
      and whether it grants a given extend or shrink request. */
  datatype Fvm = Fvm(queryOk: bool, sliceSize: nat, vsliceQueryOk: bool,
                     ranges: seq<VsliceRange>, grants: FvmRequest -> bool)
  {
    /** A slice holds at least one minfs block, so that the blocks-per-slice
        count the superblock check divides by is positive. */
    predicate WellFormed() { queryOk ==> sliceSize >= BLOCK_SIZE }
  }

  /** The outcome of minfs_check_info: a status and the requests it sent. */
  datatype CheckOutcome = CheckOutcome(status: Status, requests: seq<FvmRequest>)

  /** One of the four regions being reconciled: its first virtual slice, the
      number of slices the superblock expects and what the manager reported. */
  datatype Region = Region(start: nat, expected: nat, reported: VsliceRange)

  /** The request the check makes for one region, or None when it agrees. */
  function RegionRequest(rg: Region): Option<FvmRequest> {
    if !rg.reported.isAllocated then Some(Extend(rg.start, rg.expected))
    else if rg.reported.count < rg.expected then
      Some(Extend(rg.start + rg.reported.count, rg.expected - rg.reported.count))
    else if rg.reported.count > rg.expected then
      Some(Shrink(rg.start + rg.expected, rg.reported.count - rg.expected))
    else None
  }

  /** Slices a region holds, counted from its start, as the manager reports them. */
  function Held(rg: Region): nat { if rg.reported.isAllocated then rg.reported.count else 0 }

  /** Slices held after a granted request. */
  function AfterRequest(held: nat, req: Option<FvmRequest>): int {
    match req
    case None => held
    case Some(Extend(_, n)) => held + n
    case Some(Shrink(_, n)) => held - n
  }

  /** A granted request leaves the region holding exactly the slices the
      superblock expects, and it only touches the region's tail: an extend starts
      where the held slices end, a shrink frees the slices past the expected end. */
  lemma RegionReconciled(rg: Region)
    ensures AfterRequest(Held(rg), RegionRequest(rg)) == rg.expected
    ensures RegionRequest(rg).Some? && RegionRequest(rg).value.Extend? ==>
              RegionRequest(rg).value.offset == rg.start + Held(rg)
    ensures RegionRequest(rg).Some? && RegionRequest(rg).value.Shrink? ==>
              RegionRequest(rg).value.offset == rg.start + rg.expected &&
              RegionRequest(rg).value.offset + RegionRequest(rg).value.length ==
                rg.start + rg.reported.count
    ensures RegionRequest(rg).None? <==> (rg.reported.isAllocated && rg.reported.count == rg.expected)
  {
  }

  /** The reconciliation loop of minfs_check_info (minfs.cpp:113-148): regions
      in order, stopping at the first refused request. */
  function Reconcile(regions: seq<Region>, grants: FvmRequest -> bool): (r: CheckOutcome)
    ensures r.status == Ok || r.status == ErrIoDataIntegrity
    ensures |r.requests| <= |regions|
    ensures r.status == Ok <==> forall q :: q in r.requests ==> grants(q)
  {
    if regions == [] then CheckOutcome(Ok, [])
    else
      match RegionRequest(regions[0])
      case None => Reconcile(regions[1..], grants)
      case Some(q) =>
        if grants(q) then
          var rest := Reconcile(regions[1..], grants);
          CheckOutcome(rest.status, [q] + rest.requests)
        else CheckOutcome(ErrIoDataIntegrity, [q])
  }

  /** When every request is granted, the requests are exactly those of the
      regions that disagree, in region order. */
  function PendingRequests(regions: seq<Region>): seq<FvmRequest> {
    if regions == [] then []
    else
      (match RegionRequest(regions[0]) case None => [] case Some(q) => [q])
      + PendingRequests(regions[1..])
  }

  lemma {:induction false} ReconcileAllGranted(regions: seq<Region>, grants: FvmRequest -> bool)
    requires forall q :: q in PendingRequests(regions) ==> grants(q)
    ensures Reconcile(regions, grants) == CheckOutcome(Ok, PendingRequests(regions))
  {
    if regions != [] {
      var rest := PendingRequests(regions[1..]);
      assert forall q :: q in rest ==> q in PendingRequests(regions);
      ReconcileAllGranted(regions[1..], grants);
    }
  }

  lemma ReconcileUnfold(regions: seq<Region>, i: nat, grants: FvmRequest -> bool)
    requires i < |regions|
    ensures Reconcile(regions[i..], grants) ==
              match RegionRequest(regions[i])
              case None => Reconcile(regions[i + 1..], grants)
              case Some(q) =>
                if grants(q) then
                  var rest := Reconcile(regions[i + 1..], grants);
                  CheckOutcome(rest.status, [q] + rest.requests)
                else CheckOutcome(ErrIoDataIntegrity, [q])
  {
    assert regions[i..][0] == regions[i];
    assert regions[i..][1..] == regions[i + 1..];
  }

  function Prefixed(requests: seq<FvmRequest>, out: CheckOutcome): CheckOutcome {
    CheckOutcome(out.status, requests + out.requests)
  }

  /** The same loop written as the source writes it. */
  method ReconcileSlices(regions: seq<Region>, grants: FvmRequest -> bool)
    returns (status: Status, requests: seq<FvmRequest>)
    ensures CheckOutcome(status, requests) == Reconcile(regions, grants)
  {
    var i := 0;
    requests := [];
    while i < |regions|
      invariant 0 <= i <= |regions|
      invariant Reconcile(regions, grants) == Prefixed(requests, Reconcile(regions[i..], grants))
    {
      ReconcileUnfold(regions, i, grants);
      var rest := Reconcile(regions[i + 1..], grants);
      var req := RegionRequest(regions[i]);
      if req.Some? {
        if !grants(req.value) {
          return ErrIoDataIntegrity, requests + [req.value];
        }
        assert requests + ([req.value] + rest.requests) == (requests + [req.value]) + rest.requests;
        requests := requests + [req.value];
      }
      i := i + 1;
    }
    assert regions[i..] == [];
    assert requests + [] == requests;
    status := Ok;
  }

  /** The four regions in the order the check queries them. */
  function Regions(info: Info, blocksPerSlice: nat, ranges: seq<VsliceRange>): seq<Region>
    requires blocksPerSlice > 0 && |ranges| == 4
  {
    [Region(FVM_INODE_BM_START / blocksPerSlice, info.ibmSlices, ranges[0]),
     Region(FVM_DATA_BM_START / blocksPerSlice, info.abmSlices, ranges[1]),
     Region(FVM_INODE_START / blocksPerSlice, info.inoSlices, ranges[2]),
     Region(FVM_DATA_START / blocksPerSlice, info.datSlices, ranges[3])]
  }

  // ---------------------------------------------------------------------------
  // Capacity of the slices the superblock claims (minfs.cpp:150-191)

  /** The slices of each region hold the structure they carry, the regions do
      not run into each other, and the data region is addressable by a blk_t. */
  predicate SlicesHoldLayout(info: Info, bps: nat) {
    CeilDiv(info.inodeCount, BLOCK_BITS) <= info.ibmSlices * bps &&
    info.ibmSlices * bps + info.ibmBlock < info.abmBlock &&
    CeilDiv(info.blockCount, BLOCK_BITS) <= info.abmSlices * bps &&
    info.abmSlices * bps + info.abmBlock < info.inoBlock &&
    CeilDiv(info.inodeCount, INODES_PER_BLOCK) <= info.inoSlices * bps &&
    info.inoSlices * bps + info.inoBlock < info.datBlock &&
    info.blockCount <= info.datSlices * bps &&
    info.datSlices * bps + info.datBlock <= U32_MAX &&
    info.blockCount > 1
  }

  function CapacityCheck(info: Info, bps: nat): (r: Status)
    ensures r == Ok || r == ErrInvalidArgs
    ensures r == Ok <==> SlicesHoldLayout(info, bps)
  {
    if CeilDiv(info.inodeCount, BLOCK_BITS) > info.ibmSlices * bps then ErrInvalidArgs
    else if info.ibmSlices * bps + info.ibmBlock >= info.abmBlock then ErrInvalidArgs
    else if CeilDiv(info.blockCount, BLOCK_BITS) > info.abmSlices * bps then ErrInvalidArgs
    else if info.abmSlices * bps + info.abmBlock >= info.inoBlock then ErrInvalidArgs
    else if CeilDiv(info.inodeCount, INODES_PER_BLOCK) > info.inoSlices * bps then ErrInvalidArgs
    else if info.inoSlices * bps + info.inoBlock >= info.datBlock then ErrInvalidArgs
    else if info.blockCount > info.datSlices * bps then ErrInvalidArgs
    else if info.datSlices * bps + info.datBlock > U32_MAX then ErrInvalidArgs
    else if info.blockCount <= 1 then ErrInvalidArgs
    else Ok
  }

  /** As written: `(count + per - 1) / per` with a uint32_t count and uint32_t
      constants, so the numerator wraps modulo 2^32 before the division. */
  function NeededAsWritten(count: nat, per: nat): (r: nat)
    requires per > 0
    ensures r <= CeilDiv(count, per)
    ensures count + per - 1 < U32_MOD ==> r == CeilDiv(count, per)
  {
    var sum := Add32(count, per - 1);
    DivMono(sum, count + per - 1, per);
    assert count + per - 1 < U32_MOD ==> sum == count + per - 1;
    assert CeilDiv(count, per) == (count + per - 1) / per;
    sum / per
  }

  /** The three structure-size tests of the capacity check as the source
      computes them, with the wrapping roundings. */
  predicate SlicesHoldLayoutAsWritten(info: Info, bps: nat) {
    NeededAsWritten(info.inodeCount, BLOCK_BITS) <= info.ibmSlices * bps &&
    info.ibmSlices * bps + info.ibmBlock < info.abmBlock &&
    NeededAsWritten(info.blockCount, BLOCK_BITS) <= info.abmSlices * bps &&
    info.abmSlices * bps + info.abmBlock < info.inoBlock &&
    NeededAsWritten(info.inodeCount, INODES_PER_BLOCK) <= info.inoSlices * bps &&
    info.inoSlices * bps + info.inoBlock < info.datBlock &&
    info.blockCount <= info.datSlices * bps &&
    info.datSlices * bps + info.datBlock <= U32_MAX &&
    info.blockCount > 1
  }

  /** An FVM superblock claiming 2^32 - 1 inodes with one inode-bitmap slice
      and one inode-table slice of one block each passes the test as written:
      both roundings wrap to 0 blocks needed, where 65536 bitmap blocks and
      2^27 table blocks are needed. */
  lemma CapacityAsWrittenWraps()
    ensures var info := Info(MAGIC0, MAGIC1, VERSION, true, true, BLOCK_SIZE, INODE_SIZE,
                             2, U32_MAX, 0, 0, 0x10000, 0x20000, 0x30000, 0x40000,
                             BLOCK_SIZE, 5, 1, 1, 1, 2);
            info.InRange() &&
            SlicesHoldLayoutAsWritten(info, 1) && !SlicesHoldLayout(info, 1)
  {
    assert Add32(U32_MAX, BLOCK_BITS - 1) == BLOCK_BITS - 2;
    assert Add32(U32_MAX, INODES_PER_BLOCK - 1) == INODES_PER_BLOCK - 2;
  }

  /** The corrected test holds exactly when its slices hold one bitmap bit per
      inode and per data block and one table record per inode, and it never
      admits a superblock the test as written refuses; the two agree whenever
      no rounding wraps. */
  lemma SlicesHoldLayoutMeansRoom(info: Info, bps: nat)
    ensures SlicesHoldLayout(info, bps) ==>
              info.inodeCount <= info.ibmSlices * bps * BLOCK_BITS &&
              info.blockCount <= info.abmSlices * bps * BLOCK_BITS &&
              info.inodeCount <= info.inoSlices * bps * INODES_PER_BLOCK &&
              SlicesHoldLayoutAsWritten(info, bps)
    ensures info.inodeCount + BLOCK_BITS - 1 < U32_MOD &&
            info.blockCount + BLOCK_BITS - 1 < U32_MOD ==>
              (SlicesHoldLayout(info, bps) <==> SlicesHoldLayoutAsWritten(info, bps))
  {
    if SlicesHoldLayout(info, bps) {
      RoomFromNeeded(info.inodeCount, BLOCK_BITS, info.ibmSlices * bps);
      RoomFromNeeded(info.blockCount, BLOCK_BITS, info.abmSlices * bps);
      RoomFromNeeded(info.inodeCount, INODES_PER_BLOCK, info.inoSlices * bps);
    }
  }

  /** Blocks enough for the rounded-up count hold the count. */
  lemma RoomFromNeeded(count: nat, per: nat, blocks: nat)
    requires per > 0 && CeilDiv(count, per) <= blocks
    ensures count <= blocks * per
  {
    MulMono(CeilDiv(count, per), blocks, per);
  }

  // ---------------------------------------------------------------------------
  // Does a non-FVM filesystem fit its device? (minfs.cpp:69-73)

  /** As written: dat_block + block_count is a uint32 sum and wraps. */
  predicate FitsDeviceAsWritten(info: Info, maxBlk: nat) {
    Add32(info.datBlock, info.blockCount) <= maxBlk
  }

  /** As intended: the data region ends within the device. */
  predicate FitsDevice(info: Info, maxBlk: nat) {
    info.datBlock + info.blockCount <= maxBlk
  }

  /** A superblock whose data region lies far past a 100-block device passes
      the check as written, because the sum wraps around to 1. */
  lemma FitsDeviceAsWrittenWraps()
    ensures var info := Info(MAGIC0, MAGIC1, VERSION, true, false, BLOCK_SIZE, INODE_SIZE,
                             2, 32, 0, 0, 8, 16, 24, U32_MAX, 0, 0, 0, 0, 0, 0);
            FitsDeviceAsWritten(info, 100) && !FitsDevice(info, 100) && info.InRange()
  {
  }

  /** The corrected test admits exactly the superblocks whose every data block
      is a block of the device, and it never admits more than the test as written. */
  lemma FitsDeviceMeansInDevice(info: Info, maxBlk: nat)
    requires FitsDevice(info, maxBlk)
    ensures info.blockCount > 0 ==> info.datBlock + info.blockCount - 1 < maxBlk
    ensures FitsDeviceAsWritten(info, maxBlk)
  {
  }

  // ---------------------------------------------------------------------------
  // minfs_check_info (minfs.cpp:50-195), on the Fuchsia build

  function FormatCheck(info: Info): (r: Status)
    ensures r == Ok <==> (info.magic0 == MAGIC0 && info.magic1 == MAGIC1 &&
                          info.version == VERSION &&
                          info.blockSize == BLOCK_SIZE && info.inodeSize == INODE_SIZE)
    ensures r == Ok || r == ErrInvalidArgs
  {
    if info.magic0 != MAGIC0 || info.magic1 != MAGIC1 then ErrInvalidArgs
    else if info.version != VERSION then ErrInvalidArgs
    else if info.blockSize != BLOCK_SIZE || info.inodeSize != INODE_SIZE then ErrInvalidArgs
    else Ok
  }

  function CheckInfo(info: Info, maxBlk: nat, fvm: Fvm): (r: CheckOutcome)
    requires fvm.WellFormed()
    ensures FormatCheck(info) != Ok ==> r == CheckOutcome(FormatCheck(info), [])
    ensures !info.fvm ==> r.requests == []
    ensures !info.fvm && FormatCheck(info) == Ok ==>
              (r.status == Ok <==> FitsDevice(info, maxBlk))
    ensures r.status == Ok ==> FormatCheck(info) == Ok
    ensures r.status == Ok && info.fvm ==>
              fvm.queryOk && fvm.vsliceQueryOk && info.sliceSize == fvm.sliceSize &&
              |fvm.ranges| == 4 &&
              SlicesHoldLayout(info, info.sliceSize / BLOCK_SIZE) &&
              (forall q :: q in r.requests ==> fvm.grants(q))
  {
    if FormatCheck(info) != Ok then CheckOutcome(FormatCheck(info), [])
    else if !info.fvm then
      CheckOutcome(if FitsDevice(info, maxBlk) then Ok else ErrInvalidArgs, [])
    else if !fvm.queryOk then CheckOutcome(ErrUnavailable, [])
    else if info.sliceSize != fvm.sliceSize then CheckOutcome(ErrBadState, [])
    else if !fvm.vsliceQueryOk then CheckOutcome(ErrUnavailable, [])
    else if |fvm.ranges| != 4 then CheckOutcome(ErrBadState, [])
    else
      var bps := info.sliceSize / BLOCK_SIZE;
      var rec := Reconcile(Regions(info, bps, fvm.ranges), fvm.grants);
      if rec.status != Ok then rec
      else CheckOutcome(CapacityCheck(info, bps), rec.requests)
  }

  // ---------------------------------------------------------------------------
  // The non-FVM layout of minfs_mkfs (minfs.cpp:1017-1038)

  /** The block-count-dependent part of the layout mkfs writes; the rest of the
      superblock is fixed. */
  function Formatted(blockCount: nat, abmBlock: nat, inoBlock: nat, datBlock: nat): Info {
    Info(MAGIC0, MAGIC1, VERSION, true, false, BLOCK_SIZE, INODE_SIZE,
         blockCount, MKFS_INODES, 0, 0, 8, abmBlock, inoBlock, datBlock, 0, 0, 0, 0, 0, 0)
  }

  function MkfsInodeBlocks(): nat { CeilDiv(MKFS_INODES, INODES_PER_BLOCK) }
  function MkfsInodeBitmapBlocks(): nat { CeilDiv(MKFS_INODES, BLOCK_BITS) }
  function MkfsNonDataBlocks(): nat { 8 + RoundUp(MkfsInodeBitmapBlocks(), 8) + MkfsInodeBlocks() }

  lemma MkfsNonDataBlocksValue()
    ensures MkfsInodeBitmapBlocks() == 1 && MkfsInodeBlocks() == 1024 && MkfsNonDataBlocks() == 1040
  {
    CeilDivValue(MKFS_INODES, BLOCK_BITS, 1);
    CeilDivValue(MKFS_INODES, INODES_PER_BLOCK, 1024);
    CeilDivValue(1, 8, 1);
  }

  /** The layout as written, in uint32 arithmetic: abmblks rounds with a sum
      that wraps on a device of MKFS_WRAP_BLOCKS blocks or more, and
      block_count = dat_block_count - round_up(abmblks, 8) is a difference
      that underflows on a device only slightly larger than the metadata. */
  function MkfsLayoutAsWritten(blocks: nat): Result<Info>
    requires blocks < U32_MOD
  {
    if MkfsNonDataBlocks() >= blocks then Failure(ErrInvalidArgs)
    else
      var datBlockCount := blocks - MkfsNonDataBlocks();
      var abmblks := NeededAsWritten(datBlockCount, BLOCK_BITS);
      var abm := 8 + RoundUp(MkfsInodeBitmapBlocks(), 8);
      var ino := abm + RoundUp(abmblks, 8);
      Success(Formatted(Sub32(datBlockCount, RoundUp(abmblks, 8)), abm, ino, ino + MkfsInodeBlocks()))
  }

  /** A 1041-block device: the data area is one block, the rounded block bitmap
      takes eight, and block_count wraps to 2^32 - 7 with the data region
      starting past the end of the device. */
  lemma MkfsLayoutAsWrittenUnderflows()
    ensures MkfsLayoutAsWritten(1041).Success?
    ensures MkfsLayoutAsWritten(1041).value.blockCount == U32_MOD - 7
    ensures MkfsLayoutAsWritten(1041).value.datBlock > 1041
  {
    MkfsNonDataBlocksValue();
    CeilDivValue(1, BLOCK_BITS, 1);
    CeilDivValue(1, 8, 1);
  }

  /** The smallest device on which dat_block_count + kMinfsBlockBits - 1
      passes 2^32 - 1, with the 1040 metadata blocks of the non-FVM layout. */
  const MKFS_WRAP_BLOCKS: nat := U32_MOD - 64495

  /** From MKFS_WRAP_BLOCKS blocks on, abmblks as written wraps to 0: the block
      bitmap gets no block, block_count is the whole data area and the inode
      table starts where the block bitmap does. */
  lemma MkfsLayoutAsWrittenWraps(blocks: nat)
    requires MKFS_WRAP_BLOCKS <= blocks < U32_MOD
    ensures MkfsLayoutAsWritten(blocks).Success?
    ensures var info := MkfsLayoutAsWritten(blocks).value;
            info.blockCount == blocks - MkfsNonDataBlocks() &&
            info.blockCount + BLOCK_BITS - 1 >= U32_MOD &&
            info.inoBlock == info.abmBlock
  {
    MkfsNonDataBlocksValue();
    var datBlockCount := blocks - MkfsNonDataBlocks();
    Add32Wraps(datBlockCount, BLOCK_BITS - 1);
    var sum := Add32(datBlockCount, BLOCK_BITS - 1);
    DivModUnique(sum, BLOCK_BITS, 0, sum);
    assert NeededAsWritten(datBlockCount, BLOCK_BITS) == 0;
    assert RoundUp(0, 8) == 0;
  }

  /** The corrected layout also refuses a device whose data area cannot hold
      its own rounded block bitmap plus one block. */
  function MkfsLayout(blocks: nat): (r: Result<Info>)
    ensures r.Failure? ==> r.status == ErrInvalidArgs
  {
    if MkfsNonDataBlocks() >= blocks then Failure(ErrInvalidArgs)
    else
      var datBlockCount := blocks - MkfsNonDataBlocks();
      var abmblks := CeilDiv(datBlockCount, BLOCK_BITS);
      if datBlockCount <= RoundUp(abmblks, 8) then Failure(ErrInvalidArgs)
      else
        var abm := 8 + RoundUp(MkfsInodeBitmapBlocks(), 8);
        var ino := abm + RoundUp(abmblks, 8);
        Success(Formatted(datBlockCount - RoundUp(abmblks, 8), abm, ino, ino + MkfsInodeBlocks()))
  }

  /** The corrected layout fills the device exactly, orders the regions
      superblock, inode bitmap, block bitmap, inode table, data, sizes each
      bitmap for the objects it tracks, and passes the mount-time check. */
  lemma MkfsLayoutSound(blocks: nat, fvm: Fvm)
    requires fvm.WellFormed()
    requires MkfsLayout(blocks).Success?
    ensures var info := MkfsLayout(blocks).value;
            info.datBlock + info.blockCount == blocks &&
            info.ibmBlock + MkfsInodeBitmapBlocks() <= info.abmBlock &&
            info.abmBlock + CeilDiv(info.blockCount, BLOCK_BITS) <= info.inoBlock &&
            info.inoBlock + MkfsInodeBlocks() == info.datBlock &&
            info.blockCount >= 1 &&
            CheckInfo(info, blocks, fvm).status == Ok
  {
    var datBlockCount := blocks - MkfsNonDataBlocks();
    var abmblks := CeilDiv(datBlockCount, BLOCK_BITS);
    var info := MkfsLayout(blocks).value;
    assert info.blockCount <= datBlockCount;
    CeilDivMono(info.blockCount, datBlockCount, BLOCK_BITS);
  }

  lemma CeilDivMono(a: nat, b: nat, d: nat)
    requires d > 0 && a <= b
    ensures CeilDiv(a, d) <= CeilDiv(b, d)
  {
    if CeilDiv(a, d) > CeilDiv(b, d) {
      MulMono(CeilDiv(b, d) + 1, CeilDiv(a, d), d);
      assert false;
    }
  }

  /** Below MKFS_WRAP_BLOCKS the corrected layout agrees with the layout as
      written whenever it succeeds; on any device it refuses only devices
      where the subtraction as written underflows or leaves no data block. */
  lemma MkfsLayoutCorrectsOnlyUnderflow(blocks: nat)
    requires blocks < U32_MOD
    ensures MkfsLayout(blocks).Success? && blocks < MKFS_WRAP_BLOCKS ==>
              MkfsLayoutAsWritten(blocks) == MkfsLayout(blocks)
    ensures MkfsLayout(blocks).Failure? && MkfsLayoutAsWritten(blocks).Success? ==>
              MkfsLayoutAsWritten(blocks).value.datBlock +
              MkfsLayoutAsWritten(blocks).value.blockCount != blocks ||
              MkfsLayoutAsWritten(blocks).value.blockCount == 0
  {
    MkfsNonDataBlocksValue();
    if blocks >= MKFS_WRAP_BLOCKS {
      MkfsLayoutLargeDevice(blocks);
    }
  }

  /** From MKFS_WRAP_BLOCKS blocks on, the corrected layout gives the block
      bitmap its full 65536 blocks and leaves a block count whose bitmap
      rounding no longer wraps. */
  lemma MkfsLayoutLargeDevice(blocks: nat)
    requires MKFS_WRAP_BLOCKS <= blocks < U32_MOD
    ensures MkfsLayout(blocks).Success?
    ensures MkfsLayout(blocks).value.inoBlock - MkfsLayout(blocks).value.abmBlock == 65536
    ensures MkfsLayout(blocks).value.blockCount + BLOCK_BITS - 1 < U32_MOD
  {
    MkfsNonDataBlocksValue();
    var datBlockCount := blocks - MkfsNonDataBlocks();
    CeilDivValue(U32_MOD - (BLOCK_BITS - 1), BLOCK_BITS, 65536);
    CeilDivValue(U32_MOD, BLOCK_BITS, 65536);
    CeilDivMono(U32_MOD - (BLOCK_BITS - 1), datBlockCount, BLOCK_BITS);
    CeilDivMono(datBlockCount, U32_MOD, BLOCK_BITS);
    assert CeilDiv(datBlockCount, BLOCK_BITS) == 65536;
    CeilDivValue(65536, 8, 8192);
  }

  // ---------------------------------------------------------------------------
  // Minfs::ReadBlk (minfs.cpp:1164-1173), host build

  datatype ReadOutcome = OutOfRange | ZeroFilled | DeviceRead(block: nat)

  /** A read past the region's hard limit fails, one past the soft limit
      (the extent holds fewer blocks than the structure) yields zeros, others
      read the device block `start + bno`. */
  function ReadBlk(bno: nat, start: nat, softMax: nat, hardMax: nat): (r: ReadOutcome)
    ensures r == OutOfRange <==> bno >= hardMax
    ensures r == ZeroFilled <==> softMax <= bno < hardMax
    ensures r.DeviceRead? ==> bno < softMax && bno < hardMax && r.block - start == bno
  {
    if bno >= hardMax then OutOfRange
    else if bno >= softMax then ZeroFilled
    else DeviceRead(start + bno)
  }
}
