// minfs_mkfs: choosing the geometry of a new filesystem (on a plain device
// or on slices of the volume manager), giving the slices back when a step
// fails, and writing the root directory, the two bitmaps, the inode table and
// the superblock.
module MinfsMkfs {
  import opened Zx
  import opened MinfsFormat
  import B = MinfsBitmap

  /** The contents mkfs gives a block it writes. */
  datatype BlockImage =
    | RootDirBlock                  // the "." and ".." entries of the root directory
    | BitmapBlock(bits: seq<bool>)  // one block's worth of a bitmap's storage
    | ZeroBlock
    | RootInodeBlock                // inode table block 0 with the root inode filled in
    | InfoBlock(info: Info)         // the superblock

  datatype BlockWrite = BlockWrite(bno: nat, image: BlockImage)

  /** The superblock chosen, its status, and the requests sent to the volume
      manager while choosing it. */
  datatype Geometry = Geometry(status: Status, info: Info, requests: seq<FvmRequest>)

  /** The -1 that minfs_mkfs returns for volume-manager failures. */
  const MKFS_FAILED: Status := Other(-1)

  // ---------------------------------------------------------------------------
  // minfs_free_slices (minfs.cpp:916-944)

  /** Give back every region's slices that the superblock records. */
  function FreeSlices(info: Info): (r: seq<FvmRequest>)
    requires info.fvm ==> info.sliceSize >= BLOCK_SIZE
    ensures !info.fvm ==> r == []
    ensures forall q :: q in r ==> q.Shrink?
    ensures info.fvm ==>
              (Shrink(FVM_INODE_BM_START / (info.sliceSize / BLOCK_SIZE), info.ibmSlices) in r <==> info.ibmSlices != 0) &&
              (Shrink(FVM_DATA_START / (info.sliceSize / BLOCK_SIZE), info.datSlices) in r <==> info.datSlices != 0)
  {
    if !info.fvm then []
    else
      var bps := info.sliceSize / BLOCK_SIZE;
      (if info.ibmSlices != 0 then [Shrink(FVM_INODE_BM_START / bps, info.ibmSlices)] else []) +
      (if info.abmSlices != 0 then [Shrink(FVM_DATA_BM_START / bps, info.abmSlices)] else []) +
      (if info.inoSlices != 0 then [Shrink(FVM_INODE_START / bps, info.inoSlices)] else []) +
      (if info.datSlices != 0 then [Shrink(FVM_DATA_START / bps, info.datSlices)] else [])
  }

  // ---------------------------------------------------------------------------
  // The geometry (minfs.cpp:947-1045)

  /** The superblock of a volume-manager-backed filesystem before any slice
      is allocated: the regions at their fixed starts, no slices yet. */
  function FvmBase(sliceSize: nat): Info {
    Info(MAGIC0, MAGIC1, VERSION, true, true, BLOCK_SIZE, INODE_SIZE, 0, 0, 0, 0,
         FVM_INODE_BM_START, FVM_DATA_BM_START, FVM_INODE_START, FVM_DATA_START,
         sliceSize, 0, 0, 0, 0, 0)
  }

  /** The four one-slice extends mkfs asks for, in order: inode bitmap, block
      bitmap, inode table, data. */
  function FvmExtends(bps: nat): seq<FvmRequest>
    requires bps > 0
  {
    [Extend(FVM_INODE_BM_START / bps, 1), Extend(FVM_DATA_BM_START / bps, 1),
     Extend(FVM_INODE_START / bps, 1), Extend(FVM_DATA_START / bps, 1)]
  }

  /** The superblock after the first `k` regions got their slice. */
  function WithSlices(base: Info, k: nat): (info: Info)
    requires k <= 4
  {
    base.(ibmSlices := if k >= 1 then 1 else 0, abmSlices := if k >= 2 then 1 else 0,
          inoSlices := if k >= 3 then 1 else 0, datSlices := if k >= 4 then 1 else 0)
  }

  /** The number of leading extends the volume manager grants, up to the
      first refusal. */
  function Granted(reqs: seq<FvmRequest>, grants: FvmRequest -> bool): (k: nat)
    ensures k <= |reqs|
    ensures forall i :: 0 <= i < k ==> grants(reqs[i])
    ensures k < |reqs| ==> !grants(reqs[k])
  {
    if reqs == [] || !grants(reqs[0]) then 0 else 1 + Granted(reqs[1..], grants)
  }

  /** Slice allocation on the volume manager: a slice size that is not a
      block multiple fails before any request; otherwise each region gets one
      slice, and after a refusal the slices obtained so far are given back.
      On success the filesystem spans one slice of inodes and one of blocks,
      each count truncated to 32 bits. A slice size of 0 would divide by
      zero and is not allowed. */
  function FvmGeometry(fvm: Fvm): (g: Geometry)
    requires fvm.queryOk && fvm.sliceSize > 0
    ensures g.status == Ok ==> g.info.fvm && g.info.sliceSize == fvm.sliceSize && fvm.sliceSize >= BLOCK_SIZE
  {
    var base := FvmBase(fvm.sliceSize);
    if fvm.sliceSize % BLOCK_SIZE != 0 then Geometry(MKFS_FAILED, base, [])
    else
      var bps := fvm.sliceSize / BLOCK_SIZE;
      var reqs := FvmExtends(bps);
      var k := Granted(reqs, fvm.grants);
      if k < 4 then
        Geometry(MKFS_FAILED, WithSlices(base, k), reqs[..k + 1] + FreeSlices(WithSlices(base, k)))
      else
        var sliced := WithSlices(base, 4);
        Geometry(Ok, sliced.(vsliceCount := 5,
                             inodeCount := (fvm.sliceSize / INODE_SIZE) % U32_MOD,
                             blockCount := (fvm.sliceSize / BLOCK_SIZE) % U32_MOD), reqs)
  }

  /** The geometry of minfs_mkfs: on the volume manager when it answers the
      query, otherwise the layout over the whole device. */
  function MkfsGeometry(fvm: Fvm, maxBlk: nat): (g: Geometry)
    requires fvm.queryOk ==> fvm.sliceSize > 0
    ensures g.status == Ok ==> (g.info.fvm <==> fvm.queryOk)
    ensures g.status == Ok && g.info.fvm ==> g.info.sliceSize >= BLOCK_SIZE
  {
    if fvm.queryOk then FvmGeometry(fvm)
    else
      match MkfsLayout(maxBlk)
      case Failure(st) => Geometry(st, Formatted(0, 0, 0, 0), [])
      case Success(info) => Geometry(Ok, info, [])
  }

  /** On the volume manager, mkfs either obtains all four slices (and then
      sub-divides nothing else), or gives back exactly the slices it obtained,
      which are those of the regions before the one refused. */
  lemma {:induction false} FvmGeometryReleasesWhatItTook(fvm: Fvm)
    requires fvm.queryOk && fvm.sliceSize > 0 && fvm.sliceSize % BLOCK_SIZE == 0
    ensures var g := FvmGeometry(fvm);
            var reqs := FvmExtends(fvm.sliceSize / BLOCK_SIZE);
            (g.status == Ok <==> forall i :: 0 <= i < 4 ==> fvm.grants(reqs[i])) &&
            (g.status == Ok ==>
               g.requests == reqs && g.info.vsliceCount == 5 &&
               g.info.ibmSlices == 1 && g.info.abmSlices == 1 &&
               g.info.inoSlices == 1 && g.info.datSlices == 1) &&
            (g.status != Ok ==>
               exists k :: 0 <= k < 4 && !fvm.grants(reqs[k]) &&
                 (forall i :: 0 <= i < k ==> fvm.grants(reqs[i])) &&
                 g.requests == reqs[..k + 1] +
                   seq(k, i requires 0 <= i < k => Shrink(reqs[i].offset, 1)))
  {
    var reqs := FvmExtends(fvm.sliceSize / BLOCK_SIZE);
    var k := Granted(reqs, fvm.grants);
    var g := FvmGeometry(fvm);
    if k < 4 {
      var shrinks := seq(k, i requires 0 <= i < k => Shrink(reqs[i].offset, 1));
      assert FreeSlices(WithSlices(FvmBase(fvm.sliceSize), k)) == shrinks;
      assert g.requests == reqs[..k + 1] + shrinks;
    }
  }

  // ---------------------------------------------------------------------------
  // The two bitmaps (minfs.cpp:1047-1093)

  /** RawBitmap::Set(lo, hi): the range must lie in the usable bits, else the
      bitmap is refused and unchanged. */
  function SetRange(bm: B.Bitmap, lo: nat, hi: nat): (r: B.Bitmap)
    requires bm.Valid() && lo <= hi
    ensures r.Valid() && r.size == bm.size && |r.storage| == |bm.storage|
    ensures forall i :: 0 <= i < |bm.storage| ==>
              r.storage[i] == (bm.storage[i] || (hi <= bm.size && lo <= i < hi))
    decreases hi - lo
  {
    if hi > bm.size || lo == hi then bm
    else SetRange(B.Set(bm, lo), lo + 1, hi)
  }

  /** A fresh bitmap of `n` usable bits over whole blocks of storage. */
  function Fresh(n: nat): (bm: B.Bitmap)
    ensures bm.Valid() && bm.size == n && |bm.storage| == CeilDiv(n, BLOCK_BITS) * BLOCK_BITS
    ensures forall i :: 0 <= i < |bm.storage| ==> !bm.storage[i]
  {
    B.Shrink(B.Reset(RoundUp(n, BLOCK_BITS)), n)
  }

  /** The block bitmap mkfs writes: data blocks 0 (the null block) and 1 (the
      root directory) taken, when there are two of them. */
  function FormattedBlockMap(blocks: nat): (bm: B.Bitmap)
    ensures bm.Valid() && bm.size == blocks && |bm.storage| == CeilDiv(blocks, BLOCK_BITS) * BLOCK_BITS
    ensures forall i :: 0 <= i < |bm.storage| ==> bm.storage[i] == (i < 2 && 2 <= blocks)
  {
    SetRange(Fresh(blocks), 0, 2)
  }

  /** The inode bitmap mkfs writes: inode 0 (never used) and the root inode
      taken, each when it is a usable inode. */
  function FormattedInodeMap(inodes: nat): (bm: B.Bitmap)
    ensures bm.Valid() && bm.size == inodes && |bm.storage| == CeilDiv(inodes, BLOCK_BITS) * BLOCK_BITS
    ensures forall i :: 0 <= i < |bm.storage| ==>
              bm.storage[i] == ((i == 0 && 1 <= inodes) || (i == ROOT_INO && ROOT_INO + 1 <= inodes))
  {
    SetRange(SetRange(Fresh(inodes), 0, 1), ROOT_INO, ROOT_INO + 1)
  }

  /** fbl::round_up(n, kMinfsBlockBits) on a uint32_t: the storage mkfs
      resets a bitmap of `n` bits to. The sum wraps once n + 65535 passes
      2^32 - 1, and the rounding is then 0. */
  function BitmapStorageAsWritten(n: nat): (r: nat)
    ensures r < U32_MOD && r % BLOCK_BITS == 0
    ensures n + BLOCK_BITS - 1 < U32_MOD ==> r == RoundUp(n, BLOCK_BITS)
    ensures n < U32_MOD <= n + BLOCK_BITS - 1 ==> r == 0
  {
    var sum := Add32(n, BLOCK_BITS - 1);
    RoundingSumWraps(n);
    MultipleMod(sum / BLOCK_BITS, BLOCK_BITS);
    (sum / BLOCK_BITS) * BLOCK_BITS
  }

  lemma RoundingSumWraps(n: nat)
    ensures n < U32_MOD <= n + BLOCK_BITS - 1 ==> Add32(n, BLOCK_BITS - 1) / BLOCK_BITS == 0
  {
    if n < U32_MOD <= n + BLOCK_BITS - 1 {
      Add32Wraps(n, BLOCK_BITS - 1);
      var sum := Add32(n, BLOCK_BITS - 1);
      DivModUnique(sum, BLOCK_BITS, 0, sum);
    }
  }

  /** Whether Shrink(n) on the storage Reset gave succeeds: the usable bits
      must fit the storage, which holds for a uint32_t `n` exactly when the
      rounding does not wrap. */
  predicate ShrinkFits(n: nat): (r: bool)
    ensures n < U32_MOD ==> (r <==> n + BLOCK_BITS - 1 < U32_MOD)
    ensures r ==> n < U32_MOD && BitmapStorageAsWritten(n) == RoundUp(n, BLOCK_BITS)
  {
    n <= BitmapStorageAsWritten(n)
  }

  // ---------------------------------------------------------------------------
  // What mkfs writes (minfs.cpp:1078-1127)

  /** The first `n` blocks of `bits`, written to consecutive blocks from
      `start`. */
  function BitmapWrites(start: nat, bits: seq<bool>, n: nat): (r: seq<BlockWrite>)
    requires n * BLOCK_BITS <= |bits|
    ensures |r| == n
    ensures forall k :: 0 <= k < n ==>
              r[k] == BlockWrite(start + k, BitmapBlock(bits[k * BLOCK_BITS..(k + 1) * BLOCK_BITS]))
  {
    if n == 0 then []
    else BitmapWrites(start, bits, n - 1) +
         [BlockWrite(start + n - 1, BitmapBlock(bits[(n - 1) * BLOCK_BITS..n * BLOCK_BITS]))]
  }

  /** `n` zero blocks from `start`. */
  function ZeroWrites(start: nat, n: nat): (r: seq<BlockWrite>)
    ensures |r| == n && forall k :: 0 <= k < n ==> r[k] == BlockWrite(start + k, ZeroBlock)
  {
    if n == 0 then [] else ZeroWrites(start, n - 1) + [BlockWrite(start + n - 1, ZeroBlock)]
  }

  /** Blocks of storage of a bitmap of `n` usable bits. */
  function BitmapBlocks(n: nat): nat { CeilDiv(n, BLOCK_BITS) }

  /** The block bitmap's blocks as mkfs writes them. */
  function AbmWrites(info: Info): seq<BlockWrite> {
    BitmapWrites(info.abmBlock, FormattedBlockMap(info.blockCount).storage, BitmapBlocks(info.blockCount))
  }

  /** The inode bitmap's blocks as mkfs writes them. */
  function IbmWrites(info: Info): seq<BlockWrite> {
    BitmapWrites(info.ibmBlock, FormattedInodeMap(info.inodeCount).storage, BitmapBlocks(info.inodeCount))
  }

  /** The writes of a successful mkfs, in order: the root directory in data
      block 1, every block of the block bitmap, every block of the inode
      bitmap, the zeroed inode table, the inode table's first block again with
      the root inode, and last the superblock. */
  function MkfsWrites(info: Info): (r: seq<BlockWrite>)
  {
    [BlockWrite(info.datBlock + 1, RootDirBlock)] + (AbmWrites(info) + (IbmWrites(info) +
    (ZeroWrites(info.inoBlock, CeilDiv(info.inodeCount, INODES_PER_BLOCK)) +
     [BlockWrite(info.inoBlock, RootInodeBlock), BlockWrite(0, InfoBlock(info))])))
  }

  /** Block n of the block bitmap goes to abm_block + n and holds, at bit j,
      whether data block n * bits + j is reserved by mkfs; the blocks written
      are the BitmapBlocks(block_count) blocks the mount reads back
      (minfs.cpp:776-777). */
  lemma AbmWrittenAsReadBack(info: Info, n: nat, j: nat)
    requires n < BitmapBlocks(info.blockCount) && j < BLOCK_BITS
    ensures var w := MkfsWrites(info)[1 + n];
            w.bno == info.abmBlock + n && w.image.BitmapBlock? && |w.image.bits| == BLOCK_BITS &&
            w.image.bits[j] == (n * BLOCK_BITS + j < 2 && 2 <= info.blockCount)
  {
    AbmWriteAt(info, n);
    AbmBlockBit(info, n, j);
  }

  lemma AbmBlockBit(info: Info, n: nat, j: nat)
    requires n < BitmapBlocks(info.blockCount) && j < BLOCK_BITS
    ensures var w := AbmWrites(info)[n];
            w.bno == info.abmBlock + n && w.image.BitmapBlock? && |w.image.bits| == BLOCK_BITS &&
            w.image.bits[j] == (n * BLOCK_BITS + j < 2 && 2 <= info.blockCount)
  {
    var bm := FormattedBlockMap(info.blockCount);
    BitmapWriteBit(info.abmBlock, bm.storage, BitmapBlocks(info.blockCount), n, j);
  }

  /** Block n of the inode bitmap goes to ibm_block + n and holds, at bit j,
      whether inode n * bits + j is reserved by mkfs. */
  lemma IbmWrittenAsReadBack(info: Info, n: nat, j: nat)
    requires n < BitmapBlocks(info.inodeCount) && j < BLOCK_BITS
    ensures var w := MkfsWrites(info)[1 + BitmapBlocks(info.blockCount) + n];
            w.bno == info.ibmBlock + n && w.image.BitmapBlock? && |w.image.bits| == BLOCK_BITS &&
            w.image.bits[j] == ((n * BLOCK_BITS + j == 0 && 1 <= info.inodeCount) ||
                                (n * BLOCK_BITS + j == ROOT_INO && ROOT_INO + 1 <= info.inodeCount))
  {
    IbmWriteAt(info, n);
    IbmBlockBit(info, n, j);
  }

  lemma IbmBlockBit(info: Info, n: nat, j: nat)
    requires n < BitmapBlocks(info.inodeCount) && j < BLOCK_BITS
    ensures var w := IbmWrites(info)[n];
            w.bno == info.ibmBlock + n && w.image.BitmapBlock? && |w.image.bits| == BLOCK_BITS &&
            w.image.bits[j] == ((n * BLOCK_BITS + j == 0 && 1 <= info.inodeCount) ||
                                (n * BLOCK_BITS + j == ROOT_INO && ROOT_INO + 1 <= info.inodeCount))
  {
    var bm := FormattedInodeMap(info.inodeCount);
    BitmapWriteBit(info.ibmBlock, bm.storage, BitmapBlocks(info.inodeCount), n, j);
  }

  lemma AbmWriteAt(info: Info, n: nat)
    requires n < BitmapBlocks(info.blockCount)
    ensures 1 + n < |MkfsWrites(info)| && MkfsWrites(info)[1 + n] == AbmWrites(info)[n]
  {
  }

  lemma IbmWriteAt(info: Info, n: nat)
    requires n < BitmapBlocks(info.inodeCount)
    ensures var k := 1 + BitmapBlocks(info.blockCount) + n;
            k < |MkfsWrites(info)| && MkfsWrites(info)[k] == IbmWrites(info)[n]
  {
    var rest := ZeroWrites(info.inoBlock, CeilDiv(info.inodeCount, INODES_PER_BLOCK)) +
                [BlockWrite(info.inoBlock, RootInodeBlock), BlockWrite(0, InfoBlock(info))];
    var tail := AbmWrites(info) + (IbmWrites(info) + rest);
    assert MkfsWrites(info)[1 + BitmapBlocks(info.blockCount) + n] == tail[BitmapBlocks(info.blockCount) + n];
  }

  /** Bit j of the n-th block written from a bitmap is bit n * bits + j of
      the bitmap. */
  lemma BitmapWriteBit(start: nat, bits: seq<bool>, count: nat, n: nat, j: nat)
    requires count * BLOCK_BITS <= |bits| && n < count && j < BLOCK_BITS
    ensures n * BLOCK_BITS + j < |bits|
    ensures var w := BitmapWrites(start, bits, count)[n];
            w.bno == start + n && w.image.BitmapBlock? && |w.image.bits| == BLOCK_BITS &&
            w.image.bits[j] == bits[n * BLOCK_BITS + j]
  {
    MulMono(n + 1, count, BLOCK_BITS);
    assert bits[n * BLOCK_BITS..(n + 1) * BLOCK_BITS][j] == bits[n * BLOCK_BITS + j];
  }

  // ---------------------------------------------------------------------------
  // minfs_mkfs (minfs.cpp:946-1129)

  /** One of the bitmap write loops: the first `count` blocks of `bits`, each
      written to the next block from `start`. */
  method WriteBitmap(start: nat, bits: seq<bool>, count: nat) returns (writes: seq<BlockWrite>)
    requires count * BLOCK_BITS <= |bits|
    ensures writes == BitmapWrites(start, bits, count)
  {
    writes := [];
    var n := 0;
    while n < count
      invariant 0 <= n <= count
      invariant writes == BitmapWrites(start, bits, n)
    {
      writes := writes + [BlockWrite(start + n, BitmapBlock(bits[n * BLOCK_BITS..(n + 1) * BLOCK_BITS]))];
      n := n + 1;
    }
  }

  /** The inode-table loop: `count` zero blocks from `start`. */
  method WriteZeroes(start: nat, count: nat) returns (writes: seq<BlockWrite>)
    ensures writes == ZeroWrites(start, count)
  {
    writes := [];
    var n := 0;
    while n < count
      invariant 0 <= n <= count
      invariant writes == ZeroWrites(start, n)
    {
      writes := writes + [BlockWrite(start + n, ZeroBlock)];
      n := n + 1;
    }
  }

  /** Format a device. `fvm` is the volume manager's answers, `maxBlk` the
      device's block count when there is no volume manager, `abmReset` and
      `ibmReset` the outcomes of allocating the two bitmaps' storage, and
      `shrinkRefused` the error a bitmap's Shrink returns when the usable bits
      exceed its storage. Returns the status, the superblock written, the
      volume-manager requests and the block writes, in order. */
  method Mkfs(fvm: Fvm, maxBlk: nat, abmReset: Status, ibmReset: Status, shrinkRefused: Status)
    returns (status: Status, info: Info, requests: seq<FvmRequest>, writes: seq<BlockWrite>)
    requires (fvm.queryOk ==> fvm.sliceSize > 0) && maxBlk < U32_MOD && shrinkRefused != Ok
    ensures var g := MkfsGeometry(fvm, maxBlk);
            (g.status != Ok ==> status == g.status && requests == g.requests && writes == []) &&
            (g.status == Ok && abmReset != Ok ==>
               status == abmReset && requests == g.requests + FreeSlices(g.info) && writes == []) &&
            (g.status == Ok && abmReset == Ok && ibmReset != Ok ==>
               status == ibmReset && requests == g.requests + FreeSlices(g.info) && writes == []) &&
            (g.status == Ok && abmReset == Ok && ibmReset == Ok &&
             !(ShrinkFits(g.info.blockCount) && ShrinkFits(g.info.inodeCount)) ==>
               status == shrinkRefused && requests == g.requests + FreeSlices(g.info) && writes == []) &&
            (g.status == Ok && abmReset == Ok && ibmReset == Ok &&
             ShrinkFits(g.info.blockCount) && ShrinkFits(g.info.inodeCount) ==>
               status == Ok && requests == g.requests &&
               info == g.info.(allocBlockCount := 1, allocInodeCount := 1) &&
               writes == MkfsWrites(info))
  {
    writes := [];
    var g := MkfsGeometry(fvm, maxBlk);
    status, info, requests := g.status, g.info, g.requests;
    if status != Ok {
      return;
    }
    if abmReset != Ok {
      return abmReset, info, requests + FreeSlices(info), [];
    }
    if ibmReset != Ok {
      return ibmReset, info, requests + FreeSlices(info), [];
    }
    if !ShrinkFits(info.blockCount) || !ShrinkFits(info.inodeCount) {
      return shrinkRefused, info, requests + FreeSlices(info), [];
    }
    info, writes := Format(info);
  }

  /** The part of mkfs after the geometry is settled and the bitmaps'
      storage is allocated: reserve the first blocks and inodes, then write
      everything out. */
  method Format(geometry: Info) returns (info: Info, writes: seq<BlockWrite>)
    requires ShrinkFits(geometry.blockCount) && ShrinkFits(geometry.inodeCount)
    ensures info == geometry.(allocBlockCount := geometry.allocBlockCount + 1,
                              allocInodeCount := geometry.allocInodeCount + 1)
    ensures writes == MkfsWrites(info)
  {
    info := geometry;
    var root := [BlockWrite(info.datBlock + 1, RootDirBlock)];
    var abm, ibm := FormatMaps(info);
    info := info.(allocInodeCount := info.allocInodeCount + 1);
    info := info.(allocBlockCount := info.allocBlockCount + 1);
    var abmWrites := WriteBitmap(info.abmBlock, abm.storage, BitmapBlocks(info.blockCount));
    var ibmWrites := WriteBitmap(info.ibmBlock, ibm.storage, BitmapBlocks(info.inodeCount));
    var inoWrites := WriteZeroes(info.inoBlock, CeilDiv(info.inodeCount, INODES_PER_BLOCK));
    var fixups := [BlockWrite(info.inoBlock, RootInodeBlock), BlockWrite(0, InfoBlock(info))];
    writes := root + (abmWrites + (ibmWrites + (inoWrites + fixups)));
  }

  /** The two bitmaps, reset to their uint32 storage size and shrunk to the
      block and inode counts, once mkfs has reserved inode 0, the root inode
      and the first two data blocks. */
  method FormatMaps(info: Info) returns (abm: B.Bitmap, ibm: B.Bitmap)
    requires ShrinkFits(info.blockCount) && ShrinkFits(info.inodeCount)
    ensures abm == FormattedBlockMap(info.blockCount) && ibm == FormattedInodeMap(info.inodeCount)
  {
    abm := B.Reset(BitmapStorageAsWritten(info.blockCount));
    ibm := B.Reset(BitmapStorageAsWritten(info.inodeCount));
    abm := B.Shrink(abm, info.blockCount);
    ibm := B.Shrink(ibm, info.inodeCount);
    ibm := SetRange(ibm, 0, 1);
    ibm := SetRange(ibm, ROOT_INO, ROOT_INO + 1);
    abm := SetRange(abm, 0, 2);
  }

  // ---------------------------------------------------------------------------
  // The block-bitmap write as written (minfs.cpp:1029-1030, 1051, 1096-1100)

  /** The write loop as written runs over `abmblks`, the bitmap size computed
      from the data area before the bitmap's own blocks were subtracted, while
      the bitmap's storage holds BitmapBlocks(block_count) blocks. */
  function MkfsAbmWriteCountAsWritten(blocks: nat): nat
    requires MkfsNonDataBlocks() < blocks
  {
    NeededAsWritten(blocks - MkfsNonDataBlocks(), BLOCK_BITS)
  }

  /** On a 66579-block device the data area is 65539 blocks, `abmblks` is 2,
      the block count is 65531 and its bitmap has one block of storage: the
      loop as written reads a second block past the end of the bitmap. */
  lemma MkfsAbmWriteOverreads()
    ensures MkfsLayout(66579).Success?
    ensures MkfsLayout(66579).value.blockCount == 65531
    ensures BitmapBlocks(MkfsLayout(66579).value.blockCount) == 1
    ensures MkfsAbmWriteCountAsWritten(66579) == 2
  {
    MkfsNonDataBlocksValue();
    CeilDivValue(65539, BLOCK_BITS, 2);
    CeilDivValue(2, 8, 1);
    CeilDivValue(65531, BLOCK_BITS, 1);
  }

  /** The corrected loop writes exactly the bitmap's storage blocks and these
      are the blocks the mount reads: BitmapBlocks(block_count) blocks from
      abm_block, which fit in the region the layout reserved. */
  lemma MkfsAbmWriteFits(blocks: nat, fvm: Fvm)
    requires !fvm.queryOk && blocks < U32_MOD
    requires MkfsGeometry(fvm, blocks).status == Ok
    ensures var info := MkfsGeometry(fvm, blocks).info;
            BitmapBlocks(info.blockCount) * BLOCK_BITS == |FormattedBlockMap(info.blockCount).storage| &&
            info.abmBlock + BitmapBlocks(info.blockCount) <= info.inoBlock &&
            (blocks < MKFS_WRAP_BLOCKS ==> BitmapBlocks(info.blockCount) <= MkfsAbmWriteCountAsWritten(blocks))
  {
    MkfsLayoutSound(blocks, fvm);
    var info := MkfsLayout(blocks).value;
    CeilDivMono(info.blockCount, blocks - MkfsNonDataBlocks(), BLOCK_BITS);
    if blocks < MKFS_WRAP_BLOCKS {
      MkfsNonDataBlocksValue();
      assert MkfsAbmWriteCountAsWritten(blocks) == CeilDiv(blocks - MkfsNonDataBlocks(), BLOCK_BITS);
    }
  }

  // ---------------------------------------------------------------------------
  // The bitmap roundings on a large device (minfs.cpp:1033, 1057, 1067-1071)

  /** As written, a plain device of MKFS_WRAP_BLOCKS blocks or more gets a
      block count whose uint32 bitmap rounding wraps to 0, so the block
      bitmap's Shrink fails and mkfs refuses the device. */
  lemma MkfsAsWrittenRefusesLargeDevice(blocks: nat)
    requires MKFS_WRAP_BLOCKS <= blocks < U32_MOD
    ensures MkfsLayoutAsWritten(blocks).Success?
    ensures BitmapStorageAsWritten(MkfsLayoutAsWritten(blocks).value.blockCount) == 0
    ensures !ShrinkFits(MkfsLayoutAsWritten(blocks).value.blockCount)
  {
    MkfsLayoutAsWrittenWraps(blocks);
    MkfsNonDataBlocksValue();
  }

  /** With the corrected layout neither bitmap's Shrink fails on a plain
      device: Mkfs either refuses the geometry or a bitmap allocation, or
      formats the device. */
  lemma MkfsLayoutShrinks(blocks: nat)
    requires blocks < U32_MOD && MkfsLayout(blocks).Success?
    ensures ShrinkFits(MkfsLayout(blocks).value.blockCount)
    ensures ShrinkFits(MkfsLayout(blocks).value.inodeCount)
  {
    MkfsNonDataBlocksValue();
    if blocks >= MKFS_WRAP_BLOCKS {
      MkfsLayoutLargeDevice(blocks);
    }
  }
}
