// The allocator state of a mounted minfs and the effect of each allocator
// operation on it, as functions of the prior state. The imperative methods of
// the Minfs class (module Minfs) are proved to produce exactly these effects.
module MinfsState {
  import opened Zx
  import opened MinfsFormat
  import B = MinfsBitmap

  /** The in-memory buffer a write-back entry copies from. */
  datatype Source = InodeBitmapBuf | BlockBitmapBuf | InodeTableBuf | SuperblockBuf

  /** One WriteTxn::Enqueue(buffer, block within buffer, device block, count). */
  datatype TxnEntry = TxnEntry(source: Source, rel: nat, dev: nat, count: nat)

  function SuperblockEntry(): TxnEntry { TxnEntry(SuperblockBuf, 0, 0, 1) }

  function InodeBitmapEntry(info: Info, ino: nat): TxnEntry {
    TxnEntry(InodeBitmapBuf, ino / BLOCK_BITS, info.ibmBlock + ino / BLOCK_BITS, 1)
  }

  function BlockBitmapEntry(abmBlock: nat, bno: nat): TxnEntry {
    TxnEntry(BlockBitmapBuf, bno / BLOCK_BITS, abmBlock + bno / BLOCK_BITS, 1)
  }

  function InodeTableEntry(info: Info, ino: nat): TxnEntry {
    TxnEntry(InodeTableBuf, InodeBlock(ino), InodeBlock(ino) + info.inoBlock, 1)
  }

  /** Answers of the collaborators that growing the volume depends on: the
      volume manager's extend, the write-back work allocation, and the growth
      of the bitmap storage and of the inode table mapping. */
  datatype GrowEnv = GrowEnv(extendOk: bool, workAllocOk: bool, bitmapGrowOk: bool, tableGrowOk: bool)

  /** The fields of Minfs the allocator reads and writes. `work` holds the
      write-back work items the filesystem submitted; `fvmLog` the extend
      requests it sent to the volume manager. */
  datatype FsState = FsState(
    info: Info, inodeMap: B.Bitmap, blockMap: B.Bitmap, inodeTable: seq<Inode>,
    ibmblks: nat, abmblks: nat, work: seq<seq<TxnEntry>>, fvmLog: seq<FvmRequest>)
  {
    /** The bitmaps expose exactly the superblock's inode and block counts,
        every usable inode has a slot in the inode table, and a volume-backed
        filesystem has slices of at least one block. */
    ghost predicate Valid() {
      inodeMap.Valid() && blockMap.Valid() && info.InRange() &&
      inodeMap.size == info.inodeCount && blockMap.size == info.blockCount &&
      info.inodeCount <= |inodeTable| &&
      (info.fvm ==> info.sliceSize >= BLOCK_SIZE)
    }
  }

  const ZERO_INODE: Inode := Inode(0, 0, 0, 0, 0, [], [], [])

  function ZeroInodes(n: nat): (r: seq<Inode>)
    ensures |r| == n && forall i :: 0 <= i < n ==> r[i] == ZERO_INODE
  {
    if n == 0 then [] else ZeroInodes(n - 1) + [ZERO_INODE]
  }

  datatype Grown = Grown(status: Status, state: FsState)

  // ---------------------------------------------------------------------------
  // Minfs::AddInodes (minfs.cpp:380-448)

  /** The inode count after one more inode-table slice, in uint32 arithmetic. */
  function InodesAfterGrowth(info: Info): nat {
    Mul32(Add32(info.inoSlices, 1), (info.sliceSize / INODE_SIZE) % U32_MOD)
  }

  function InodeExtendRequest(info: Info): FvmRequest
    requires info.sliceSize >= BLOCK_SIZE
  {
    Extend(FVM_INODE_START / (info.sliceSize / BLOCK_SIZE) + info.inoSlices, 1)
  }

  /** The outcome of every check AddInodes makes before it touches the table,
      and the resized inode bitmap when they all pass. */
  datatype InodeGrowthPlan = Refused(status: Status, sent: bool) | Resized(inodes: nat, bm: B.Bitmap)

  function PlanInodeGrowth(s: FsState, env: GrowEnv): (p: InodeGrowthPlan)
    requires s.Valid()
    ensures p.Resized? ==> p.bm.Valid() && p.bm.size == p.inodes && p.inodes < U32_MOD
  {
    if !s.info.fvm then Refused(ErrNoSpace, false)
    else
      var bps := s.info.sliceSize / BLOCK_SIZE;
      var inodes := InodesAfterGrowth(s.info);
      if CeilDiv(inodes, BLOCK_BITS) > bps then Refused(ErrNoSpace, false)
      else if !env.extendOk then Refused(ErrNoSpace, true)
      else if !env.workAllocOk then Refused(ErrNoMemory, true)
      else if !env.bitmapGrowOk || RoundUp(inodes, BLOCK_BITS) < s.inodeMap.size then Refused(ErrNoSpace, true)
      else Resized(inodes, B.Shrink(B.Grow(s.inodeMap, RoundUp(inodes, BLOCK_BITS)), inodes))
  }

  function InodeTableRecords(inodes: nat): nat { CeilDiv(inodes, INODES_PER_BLOCK) * INODES_PER_BLOCK }

  function InodeBitmapEntries(info: Info, inodes: nat): seq<TxnEntry> {
    var ibmblks := CeilDiv(inodes, BLOCK_BITS);
    var ibmblksOld := CeilDiv(info.inodeCount, BLOCK_BITS);
    if ibmblks > ibmblksOld
    then [TxnEntry(InodeBitmapBuf, ibmblksOld, info.ibmBlock + ibmblksOld, ibmblks - ibmblksOld)]
    else []
  }

  /** AddInodes as written: when the inode table cannot grow, the inode bitmap
      has already been resized and is left so. */
  function AddInodesAsWritten(s: FsState, env: GrowEnv): (r: Grown)
    requires s.Valid()
  {
    var p := PlanInodeGrowth(s, env);
    var sent := if p.Refused? && !p.sent then s
                else s.(fvmLog := s.fvmLog + [InodeExtendRequest(s.info)]);
    if p.Refused? then Grown(p.status, sent)
    else if !env.tableGrowOk || InodeTableRecords(p.inodes) < |s.inodeTable| then
      Grown(ErrNoSpace, sent.(inodeMap := p.bm))
    else AddInodesCommit(s, sent, p.inodes, p.bm)
  }

  /** AddInodes with the failure of the inode table growth leaving the bitmap
      as it was, like every other failure of the operation. */
  function AddInodes(s: FsState, env: GrowEnv): (r: Grown)
    requires s.Valid()
    ensures r.state.Valid()
    ensures r.status == Ok || r.status == ErrNoSpace || r.status == ErrNoMemory
    ensures !s.info.fvm ==> r == Grown(ErrNoSpace, s)
    ensures r.status != Ok ==> r.state == s || r.state == s.(fvmLog := s.fvmLog + [InodeExtendRequest(s.info)])
  {
    var p := PlanInodeGrowth(s, env);
    var sent := if p.Refused? && !p.sent then s
                else s.(fvmLog := s.fvmLog + [InodeExtendRequest(s.info)]);
    if p.Refused? then Grown(p.status, sent)
    else if !env.tableGrowOk || InodeTableRecords(p.inodes) < |s.inodeTable| then Grown(ErrNoSpace, sent)
    else AddInodesCommit(s, sent, p.inodes, p.bm)
  }

  /** A successful AddInodes extends the inode table by one slice: the request
      was sent to the volume manager, the superblock counts the new slice and
      its inodes, allocated inodes stay allocated, the new ones are free, the
      existing inode records are kept, and the grown part of the inode bitmap
      and the superblock are staged for write-back. */
  lemma AddInodesGrowth(s: FsState, env: GrowEnv)
    requires s.Valid() && AddInodes(s, env).status == Ok
    ensures var r := AddInodes(s, env).state;
            s.info.fvm &&
            r.info == s.info.(vsliceCount := Add64(s.info.vsliceCount, 1),
                              inoSlices := Add32(s.info.inoSlices, 1),
                              inodeCount := InodesAfterGrowth(s.info)) &&
            r.fvmLog == s.fvmLog + [InodeExtendRequest(s.info)] &&
            r.blockMap == s.blockMap &&
            r.work == s.work + [InodeBitmapEntries(s.info, InodesAfterGrowth(s.info)) + [SuperblockEntry()]] &&
            s.inodeMap.size <= |r.inodeMap.storage| &&
            (forall i :: 0 <= i < s.inodeMap.size ==> r.inodeMap.storage[i] == s.inodeMap.storage[i]) &&
            (forall i :: s.inodeMap.size <= i < r.inodeMap.size ==> !r.inodeMap.storage[i]) &&
            r.inodeTable[..|s.inodeTable|] == s.inodeTable
  {
    assert PlanInodeGrowth(s, env).Resized?;
  }

  function AddInodesCommit(s: FsState, sent: FsState, inodes: nat, bm: B.Bitmap): (r: Grown)
    requires s.Valid() && bm.Valid() && bm.size == inodes && inodes < U32_MOD
    requires InodeTableRecords(inodes) >= |s.inodeTable|
    requires sent.info == s.info && sent.inodeMap == s.inodeMap && sent.blockMap == s.blockMap
    requires sent.inodeTable == s.inodeTable && sent.work == s.work && sent.ibmblks == s.ibmblks
    requires sent.abmblks == s.abmblks && s.info.fvm
    ensures r.state.Valid()
  {
    var records := InodeTableRecords(inodes);
    Grown(Ok, sent.(
      info := s.info.(vsliceCount := Add64(s.info.vsliceCount, 1),
                      inoSlices := Add32(s.info.inoSlices, 1),
                      inodeCount := inodes),
      inodeMap := bm,
      inodeTable := s.inodeTable + ZeroInodes(records - |s.inodeTable|),
      ibmblks := CeilDiv(inodes, BLOCK_BITS),
      work := s.work + [InodeBitmapEntries(s.info, inodes) + [SuperblockEntry()]]))
  }

  /** On a volume whose inode table mapping cannot grow, AddInodes as written
      fails yet leaves the inode bitmap exposing more inodes than the superblock
      counts and than the table has slots for, so a later InoNew can hand out an
      inode whose record lies past the end of the table. */
  lemma AddInodesAsWrittenBreaksInvariant(s: FsState, env: GrowEnv)
    requires s.Valid() && s.info.fvm
    requires PlanInodeGrowth(s, env).Resized?
    requires !env.tableGrowOk && |s.inodeTable| < InodesAfterGrowth(s.info)
    ensures AddInodesAsWritten(s, env).status == ErrNoSpace
    ensures !AddInodesAsWritten(s, env).state.Valid()
    ensures AddInodesAsWritten(s, env).state.inodeMap.size > |AddInodesAsWritten(s, env).state.inodeTable|
    ensures AddInodes(s, env).state.inodeMap == s.inodeMap
  {
  }

  /** The two versions differ only on that failure. */
  lemma AddInodesAgreesElsewhere(s: FsState, env: GrowEnv)
    requires s.Valid() && env.tableGrowOk
    requires InodeTableRecords(InodesAfterGrowth(s.info)) >= |s.inodeTable|
    ensures AddInodesAsWritten(s, env) == AddInodes(s, env)
  {
  }

  /** On a superblock whose inode count matches its inode slices, a successful
      AddInodes adds one slice's worth of inodes (absent uint32 wrap-around). */
  lemma AddInodesAddsOneSlice(s: FsState, env: GrowEnv)
    requires s.Valid() && AddInodes(s, env).status == Ok
    requires s.info.inodeCount == s.info.inoSlices * (s.info.sliceSize / INODE_SIZE)
    requires (s.info.inoSlices + 1) * (s.info.sliceSize / INODE_SIZE) < U32_MOD
    ensures AddInodes(s, env).state.info.inodeCount == s.info.inodeCount + s.info.sliceSize / INODE_SIZE
    ensures AddInodes(s, env).state.inodeMap.size > s.inodeMap.size
  {
    var per := s.info.sliceSize / INODE_SIZE;
    OneMoreSlice(s.info.inoSlices, per);
    AddInodesGrowth(s, env);
  }

  lemma OneMoreSlice(n: nat, per: nat)
    requires n < U32_MOD && per >= 1 && (n + 1) * per < U32_MOD
    ensures Mul32(Add32(n, 1), per % U32_MOD) == n * per + per
  {
    MulMono(1, n + 1, per);
    assert n + 1 <= (n + 1) * per by { MulMono(1, per, n + 1); }
    assert (n + 1) * per == n * per + per;
  }

  // ---------------------------------------------------------------------------
  // Minfs::AddBlocks (minfs.cpp:450-511)

  /** The block count after one more data slice, cast to uint32. */
  function BlocksAfterGrowth(info: Info): nat
    requires info.sliceSize >= BLOCK_SIZE
  {
    ((info.datSlices + 1) * (info.sliceSize / BLOCK_SIZE)) % U32_MOD
  }

  function DataExtendRequest(info: Info): FvmRequest
    requires info.sliceSize >= BLOCK_SIZE
  {
    Extend(FVM_DATA_START / (info.sliceSize / BLOCK_SIZE) + info.datSlices, 1)
  }

  function BlockBitmapEntries(info: Info, blocks: nat): seq<TxnEntry> {
    var abmblks := CeilDiv(blocks, BLOCK_BITS);
    var abmblksOld := CeilDiv(info.blockCount, BLOCK_BITS);
    if abmblks > abmblksOld
    then [TxnEntry(BlockBitmapBuf, abmblksOld, info.abmBlock + abmblksOld, abmblks - abmblksOld)]
    else []
  }

  function AddBlocks(s: FsState, env: GrowEnv): (r: Grown)
    requires s.Valid()
    ensures r.state.Valid()
    ensures r.status == Ok || r.status == ErrNoSpace || r.status == ErrNoMemory
    ensures !s.info.fvm ==> r == Grown(ErrNoSpace, s)
    ensures r.status != Ok ==> r.state == s || r.state == s.(fvmLog := s.fvmLog + [DataExtendRequest(s.info)])
  {
    if !s.info.fvm then Grown(ErrNoSpace, s)
    else
      var bps := s.info.sliceSize / BLOCK_SIZE;
      var blocks := BlocksAfterGrowth(s.info);
      var abmblks := CeilDiv(blocks, BLOCK_BITS);
      var sent := s.(fvmLog := s.fvmLog + [DataExtendRequest(s.info)]);
      if abmblks > bps then Grown(ErrNoSpace, s)
      else if !env.extendOk then Grown(ErrNoSpace, sent)
      else if !env.workAllocOk then Grown(ErrNoMemory, sent)
      else if !env.bitmapGrowOk || RoundUp(blocks, BLOCK_BITS) < s.blockMap.size then Grown(ErrNoSpace, sent)
      else
        var bm := B.Shrink(B.Grow(s.blockMap, RoundUp(blocks, BLOCK_BITS)), blocks);
        Grown(Ok, sent.(
          info := s.info.(vsliceCount := Add64(s.info.vsliceCount, 1),
                          datSlices := Add32(s.info.datSlices, 1),
                          blockCount := blocks),
          blockMap := bm,
          abmblks := abmblks,
          work := s.work + [BlockBitmapEntries(s.info, blocks) + [SuperblockEntry()]]))
  }

  /** A successful AddBlocks adds one data slice: the request was sent, the
      superblock counts the slice and its blocks, allocated blocks stay
      allocated, the new ones are free, and the grown part of the block bitmap
      and the superblock are staged for write-back. */
  lemma AddBlocksGrowth(s: FsState, env: GrowEnv)
    requires s.Valid() && AddBlocks(s, env).status == Ok
    ensures var r := AddBlocks(s, env).state;
            s.info.fvm &&
            r.info == s.info.(vsliceCount := Add64(s.info.vsliceCount, 1),
                              datSlices := Add32(s.info.datSlices, 1),
                              blockCount := BlocksAfterGrowth(s.info)) &&
            r.fvmLog == s.fvmLog + [DataExtendRequest(s.info)] &&
            r.inodeMap == s.inodeMap && r.inodeTable == s.inodeTable &&
            r.abmblks == CeilDiv(BlocksAfterGrowth(s.info), BLOCK_BITS) &&
            r.work == s.work + [BlockBitmapEntries(s.info, BlocksAfterGrowth(s.info)) + [SuperblockEntry()]] &&
            s.blockMap.size <= |r.blockMap.storage| &&
            (forall i :: 0 <= i < s.blockMap.size ==> r.blockMap.storage[i] == s.blockMap.storage[i]) &&
            (forall i :: s.blockMap.size <= i < r.blockMap.size ==> !r.blockMap.storage[i])
  {
  }

  // ---------------------------------------------------------------------------
  // Allocation (InoNew, minfs.cpp:513-560; BlockNew, minfs.cpp:676-712)

  /** Result of an allocation: status, the inode or block number, the new
      state and the entries added to the caller's transaction. */
  datatype Alloc = Alloc(status: Status, value: nat, state: FsState, txn: seq<TxnEntry>)

  /** Status of RawBitmap::Find when no clear bit is in range. */
  const FIND_NOT_FOUND: Status := ErrNoResources

  function TakeInode(s: FsState, ino: nat, inode: Inode): (r: Alloc)
    requires s.Valid() && ino < s.inodeMap.size
    ensures r.state.Valid()
  {
    Alloc(Ok, ino,
          s.(inodeMap := B.Set(s.inodeMap, ino),
             info := s.info.(allocInodeCount := Add32(s.info.allocInodeCount, 1)),
             inodeTable := s.inodeTable[ino := inode]),
          [InodeTableEntry(s.info, ino), InodeBitmapEntry(s.info, ino), SuperblockEntry()])
  }

  function InoNew(s: FsState, inode: Inode, env: GrowEnv): (r: Alloc)
    requires s.Valid()
    ensures r.state.Valid()
  {
    match B.FindClear(s.inodeMap, 0, s.inodeMap.size)
    case Some(ino) => TakeInode(s, ino, inode)
    case None =>
      var g := AddInodes(s, env);
      if g.status != Ok then Alloc(g.status, 0, g.state, [])
      else
        match B.FindClear(g.state.inodeMap, s.inodeMap.size, g.state.inodeMap.size)
        case None => Alloc(FIND_NOT_FOUND, 0, g.state, [])
        case Some(ino) => TakeInode(g.state, ino, inode)
  }

  /** The inode bitmap, counter, record and staged entries after InoNew
      takes inode `ino`. */
  ghost predicate TookInode(s: FsState, r: Alloc, inode: Inode)
    requires s.Valid()
  {
    r.status == Ok &&
    r.value < r.state.inodeMap.size &&
    (r.value < s.inodeMap.size ==> !s.inodeMap.storage[r.value]) &&
    r.value < |r.state.inodeMap.storage| && r.state.inodeMap.storage[r.value] &&
    (forall j :: 0 <= j < s.inodeMap.size && j != r.value ==>
       j < |r.state.inodeMap.storage| && r.state.inodeMap.storage[j] == s.inodeMap.storage[j]) &&
    r.state.info.allocInodeCount == Add32(s.info.allocInodeCount, 1) &&
    r.value < |r.state.inodeTable| && r.state.inodeTable[r.value] == inode &&
    r.txn == [InodeTableEntry(s.info, r.value), InodeBitmapEntry(s.info, r.value), SuperblockEntry()]
  }

  lemma TakeFreeInode(s: FsState, ino: nat, inode: Inode)
    requires s.Valid() && ino < s.inodeMap.size && !s.inodeMap.storage[ino]
    ensures TookInode(s, TakeInode(s, ino, inode), inode)
  {
  }

  lemma TakeGrownInode(s: FsState, env: GrowEnv, ino: nat, inode: Inode)
    requires s.Valid() && AddInodes(s, env).status == Ok
    requires var g := AddInodes(s, env).state;
             s.inodeMap.size <= ino < g.inodeMap.size
    ensures TookInode(s, TakeInode(AddInodes(s, env).state, ino, inode), inode)
  {
    AddInodesGrowth(s, env);
  }

  /** A successful InoNew takes an inode that was free (or beyond the old end
      of a grown bitmap), marks it, counts it, stores its record, and stages
      the inode block, the bitmap block and the superblock; nothing else in
      the inode bitmap changes. A failure allocates nothing. */
  lemma InoNewAllocatesFreeInode(s: FsState, inode: Inode, env: GrowEnv)
    requires s.Valid()
    ensures InoNew(s, inode, env).status == Ok ==> TookInode(s, InoNew(s, inode, env), inode)
    ensures var r := InoNew(s, inode, env);
            r.status != Ok ==>
              r.txn == [] && r.state.info.allocInodeCount == s.info.allocInodeCount &&
              (forall j :: 0 <= j < s.inodeMap.size ==>
                 j < |r.state.inodeMap.storage| && r.state.inodeMap.storage[j] == s.inodeMap.storage[j])
  {
    var f := B.FindClear(s.inodeMap, 0, s.inodeMap.size);
    if f.Some? {
      TakeFreeInode(s, f.value, inode);
    } else {
      var g := AddInodes(s, env);
      if g.status == Ok {
        AddInodesGrowth(s, env);
        var f2 := B.FindClear(g.state.inodeMap, s.inodeMap.size, g.state.inodeMap.size);
        if f2.Some? {
          TakeGrownInode(s, env, f2.value, inode);
        }
      }
    }
  }

  /** When a free inode exists, InoNew takes the lowest-numbered one and does
      not grow the volume. */
  lemma InoNewFirstFit(s: FsState, inode: Inode, env: GrowEnv, j: nat)
    requires s.Valid() && j < s.inodeMap.size && !s.inodeMap.storage[j]
    ensures InoNew(s, inode, env).status == Ok
    ensures InoNew(s, inode, env).value <= j
    ensures forall k :: 0 <= k < InoNew(s, inode, env).value ==> s.inodeMap.storage[k]
    ensures InoNew(s, inode, env).state.work == s.work
  {
  }

  /** A filesystem not backed by the volume manager reports ZX_ERR_NO_SPACE
      once every inode is taken, and changes nothing. */
  lemma InoNewFullNonFvm(s: FsState, inode: Inode, env: GrowEnv)
    requires s.Valid() && !s.info.fvm
    requires forall j :: 0 <= j < s.inodeMap.size ==> s.inodeMap.storage[j]
    ensures InoNew(s, inode, env) == Alloc(ErrNoSpace, 0, s, [])
  {
  }

  /** The rollback InoNew would run if writing the inode back failed: clearing
      the bit and decrementing the counter restore the bitmap and the
      superblock exactly. */
  lemma InoNewRollbackRestores(s: FsState, ino: nat, inode: Inode)
    requires s.Valid() && ino < s.inodeMap.size && !s.inodeMap.storage[ino]
    ensures var t := TakeInode(s, ino, inode).state;
            B.Clear(t.inodeMap, ino) == s.inodeMap &&
            Sub32(t.info.allocInodeCount, 1) == s.info.allocInodeCount
  {
    B.ClearUndoesSet(s.inodeMap, ino);
  }

  function TakeBlock(s: FsState, bno: nat): (r: Alloc)
    requires s.Valid() && bno < s.blockMap.size
    ensures r.state.Valid()
  {
    Alloc(Ok, bno,
          s.(blockMap := B.Set(s.blockMap, bno),
             info := s.info.(allocBlockCount := Add32(s.info.allocBlockCount, 1))),
          [BlockBitmapEntry(s.info.abmBlock, bno), SuperblockEntry()])
  }

  /** The search order of BlockNew: from the hint to the end, then from the
      start up to the hint. */
  function FindFromHint(bm: B.Bitmap, hint: nat): (r: Option<nat>)
    requires bm.Valid()
  {
    match B.FindClear(bm, hint, bm.size)
    case Some(b) => Some(b)
    case None => B.FindClear(bm, 0, hint)
  }

  function BlockNew(s: FsState, hint: nat, env: GrowEnv): (r: Alloc)
    requires s.Valid()
    ensures r.state.Valid()
  {
    match FindFromHint(s.blockMap, hint)
    case Some(bno) => TakeBlock(s, bno)
    case None =>
      var g := AddBlocks(s, env);
      if g.status != Ok then Alloc(g.status, 0, g.state, [])
      else
        match B.FindClear(g.state.blockMap, s.blockMap.size, g.state.blockMap.size)
        case None => Alloc(FIND_NOT_FOUND, 0, g.state, [])
        case Some(bno) => TakeBlock(g.state, bno)
  }

  /** BlockNew takes the first free block at or after the hint; only when
      there is none does it wrap and take the first free block below the hint,
      and it grows the volume only when no block at all is free. */
  lemma BlockNewHonoursHint(s: FsState, hint: nat, env: GrowEnv, j: nat)
    requires s.Valid() && j < s.blockMap.size && !s.blockMap.storage[j]
    ensures var r := BlockNew(s, hint, env);
            r.status == Ok && r.value < s.blockMap.size && !s.blockMap.storage[r.value] &&
            r.state.work == s.work &&
            (hint <= j ==> hint <= r.value <= j) &&
            (hint <= r.value ==> forall k :: hint <= k < r.value ==> s.blockMap.storage[k]) &&
            (r.value < hint ==> forall k :: hint <= k < s.blockMap.size ==> s.blockMap.storage[k]) &&
            (r.value < hint ==> forall k :: 0 <= k < r.value ==> s.blockMap.storage[k])
  {
  }

  function FreeBlock(s: FsState, bno: nat): (r: Alloc)
    requires s.Valid() && 0 < bno < s.blockMap.size
    ensures r.state.Valid()
  {
    Alloc(Ok, bno,
          s.(blockMap := B.Clear(s.blockMap, bno),
             info := s.info.(allocBlockCount := Sub32(s.info.allocBlockCount, 1))),
          [BlockBitmapEntry(s.info.abmBlock, bno), SuperblockEntry()])
  }

  /** Allocating a block and freeing it again leaves the block bitmap and the
      allocated-block counter as they were. */
  lemma BlockNewThenFree(s: FsState, hint: nat, env: GrowEnv)
    requires s.Valid()
    requires FindFromHint(s.blockMap, hint).Some? && FindFromHint(s.blockMap, hint).value != 0
    ensures var a := BlockNew(s, hint, env);
            a.status == Ok && 0 < a.value < a.state.blockMap.size &&
            FreeBlock(a.state, a.value).state == s
  {
    var a := BlockNew(s, hint, env);
    B.ClearUndoesSet(s.blockMap, a.value);
  }

  // ---------------------------------------------------------------------------
  // Releasing an inode's blocks (InoFree, minfs.cpp:261-378)

  /** The non-zero entries of a pointer array, in order. */
  function NonZero(ptrs: seq<nat>): (r: seq<nat>)
    ensures forall k :: 0 <= k < |r| ==> r[k] != 0 && r[k] in ptrs
    ensures |r| <= |ptrs|
    ensures (forall k :: 0 <= k < |ptrs| ==> ptrs[k] == 0) ==> r == []
    decreases |ptrs|
  {
    if ptrs == [] then []
    else
      var init := ptrs[..|ptrs| - 1];
      assert forall b :: b in init ==> b in ptrs;
      NonZero(init) + (if ptrs[|ptrs| - 1] == 0 then [] else [ptrs[|ptrs| - 1]])
  }

  /** Blocks released for a run of indirect pointers: each indirect block's
      data blocks, then the indirect block itself. `rd(b)` is the content of
      pointer block b. */
  function IndirectRelease(rd: nat -> seq<nat>, ptrs: seq<nat>): seq<nat>
    decreases |ptrs|
  {
    if ptrs == [] then []
    else
      var p := ptrs[|ptrs| - 1];
      IndirectRelease(rd, ptrs[..|ptrs| - 1]) + (if p == 0 then [] else NonZero(rd(p)) + [p])
  }

  /** Blocks released for a run of doubly-indirect pointers. */
  function DoublyRelease(rd: nat -> seq<nat>, ptrs: seq<nat>): seq<nat>
    decreases |ptrs|
  {
    if ptrs == [] then []
    else
      var p := ptrs[|ptrs| - 1];
      DoublyRelease(rd, ptrs[..|ptrs| - 1]) + (if p == 0 then [] else IndirectRelease(rd, rd(p)) + [p])
  }

  /** Every block an inode owns, in the order InoFree releases them: direct
      blocks, then each indirect tree bottom-up, then each doubly-indirect tree
      bottom-up. */
  function ReleaseOrder(inode: Inode, rd: nat -> seq<nat>): seq<nat> {
    NonZero(inode.dnum) + IndirectRelease(rd, inode.inum) + DoublyRelease(rd, inode.dinum)
  }

  /** The first doubly-indirect slot that points at an indirect block: the
      point where LoadIndirectWithinDoublyIndirect is first called. */
  function FirstLoad(rd: nat -> seq<nat>, ptrs: seq<nat>, from: nat): (r: Option<nat>)
    requires from <= |ptrs|
    ensures r.Some? ==> from <= r.value < |ptrs| && ptrs[r.value] != 0 && NonZero(rd(ptrs[r.value])) != []
    ensures r.Some? ==> forall k :: from <= k < r.value ==> ptrs[k] == 0 || NonZero(rd(ptrs[k])) == []
    ensures r.None? ==> forall k :: from <= k < |ptrs| ==> ptrs[k] == 0 || NonZero(rd(ptrs[k])) == []
    decreases |ptrs| - from
  {
    if from == |ptrs| then None
    else if ptrs[from] != 0 && NonZero(rd(ptrs[from])) != [] then Some(from)
    else FirstLoad(rd, ptrs, from + 1)
  }

  datatype Walk = Walk(status: Status, freed: seq<nat>)

  /** What InoFree releases when the indirect-block cache can fail to load:
      `initStatus` answers every InitIndirectVmo, `loadStatus` every
      LoadIndirectWithinDoublyIndirect. A failure stops the walk. */
  function FreeWalk(inode: Inode, rd: nat -> seq<nat>, initStatus: Status, loadStatus: Status): Walk {
    var direct := NonZero(inode.dnum);
    if initStatus != Ok && NonZero(inode.inum) != [] then Walk(initStatus, direct)
    else
      var throughIndirect := direct + IndirectRelease(rd, inode.inum);
      if initStatus != Ok && NonZero(inode.dinum) != [] then Walk(initStatus, throughIndirect)
      else if loadStatus != Ok && FirstLoad(rd, inode.dinum, 0).Some? then
        Walk(loadStatus, throughIndirect + DoublyRelease(rd, inode.dinum[..FirstLoad(rd, inode.dinum, 0).value]))
      else Walk(Ok, ReleaseOrder(inode, rd))
  }

  lemma {:induction false} DoublyReleaseWithoutIndirect(rd: nat -> seq<nat>, ptrs: seq<nat>)
    requires forall k :: 0 <= k < |ptrs| ==> ptrs[k] == 0 || NonZero(rd(ptrs[k])) == []
    ensures DoublyRelease(rd, ptrs) == NonZero(ptrs)
    decreases |ptrs|
  {
    if ptrs != [] {
      var p := ptrs[|ptrs| - 1];
      DoublyReleaseWithoutIndirect(rd, ptrs[..|ptrs| - 1]);
      if p != 0 {
        NoIndirectBlocks(rd, rd(p));
      }
    }
  }

  lemma {:induction false} NoIndirectBlocks(rd: nat -> seq<nat>, ptrs: seq<nat>)
    requires NonZero(ptrs) == []
    ensures IndirectRelease(rd, ptrs) == []
    decreases |ptrs|
  {
    if ptrs != [] {
      NoIndirectBlocks(rd, ptrs[..|ptrs| - 1]);
    }
  }

  /** The first non-zero pointer of a run comes after nothing released. */
  lemma FirstNonZero(rd: nat -> seq<nat>, ptrs: seq<nat>, n: nat, freed: seq<nat>)
    requires n < |ptrs| && ptrs[n] != 0 && NonZero(ptrs[..n]) == []
    ensures freed + IndirectRelease(rd, ptrs[..n]) == freed && NonZero(ptrs) != []
  {
    NoIndirectBlocks(rd, ptrs[..n]);
    NonZeroSnoc(ptrs, n);
    NonZeroPrefixEmpty(ptrs, n + 1);
  }

  /** The first non-zero doubly-indirect pointer comes after nothing released. */
  lemma FirstNonZeroDoubly(rd: nat -> seq<nat>, ptrs: seq<nat>, n: nat, freed: seq<nat>)
    requires n < |ptrs| && ptrs[n] != 0 && NonZero(ptrs[..n]) == []
    ensures freed + DoublyRelease(rd, ptrs[..n]) == freed && NonZero(ptrs) != []
  {
    DoublyReleaseOfZeros(rd, ptrs[..n]);
    NonZeroSnoc(ptrs, n);
    NonZeroPrefixEmpty(ptrs, n + 1);
  }

  /** InitIndirectVmo fails at the first indirect pointer: only the direct
      blocks were released. */
  lemma WalkStopsAtIndirect(inode: Inode, rd: nat -> seq<nat>, initStatus: Status, loadStatus: Status)
    requires initStatus != Ok && NonZero(inode.inum) != []
    ensures FreeWalk(inode, rd, initStatus, loadStatus) == Walk(initStatus, NonZero(inode.dnum))
  {
  }

  /** Once the indirect pointers are released, the doubly-indirect walk
      decides the outcome: the status it stops with and the blocks released
      up to there are those of FreeWalk. */
  lemma WalkAfterIndirect(inode: Inode, rd: nat -> seq<nat>, initStatus: Status, loadStatus: Status,
                          status: Status, through: seq<nat>, freed: seq<nat>)
    requires through == NonZero(inode.dnum) + IndirectRelease(rd, inode.inum)
    requires initStatus != Ok ==> NonZero(inode.inum) == []
    requires status == Ok ==> freed == through + DoublyRelease(rd, inode.dinum) &&
                              (initStatus != Ok ==> NonZero(inode.dinum) == []) &&
                              (loadStatus != Ok ==> FirstLoad(rd, inode.dinum, 0).None?)
    requires status != Ok && initStatus != Ok ==>
               status == initStatus && freed == through && NonZero(inode.dinum) != []
    requires status != Ok && initStatus == Ok ==>
               status == loadStatus && FirstLoad(rd, inode.dinum, 0).Some? &&
               freed == through + DoublyRelease(rd, inode.dinum[..FirstLoad(rd, inode.dinum, 0).value])
    ensures FreeWalk(inode, rd, initStatus, loadStatus) == Walk(status, freed)
  {
  }

  /** Whatever the loads answer, InoFree releases a prefix of the inode's
      blocks in the release order; it reports success exactly when it released
      all of them, and when the loads succeed that is what it does. */
  lemma FreeWalkIsPrefix(inode: Inode, rd: nat -> seq<nat>, initStatus: Status, loadStatus: Status)
    ensures var w := FreeWalk(inode, rd, initStatus, loadStatus);
            w.freed <= ReleaseOrder(inode, rd) &&
            (w.status == Ok || w.status == initStatus || w.status == loadStatus) &&
            (w.status == Ok ==> w.freed == ReleaseOrder(inode, rd)) &&
            (initStatus == Ok && loadStatus == Ok ==> w == Walk(Ok, ReleaseOrder(inode, rd)))
  {
    var direct := NonZero(inode.dnum);
    var indirect := IndirectRelease(rd, inode.inum);
    var doubly := DoublyRelease(rd, inode.dinum);
    var w := FreeWalk(inode, rd, initStatus, loadStatus);
    if initStatus != Ok && NonZero(inode.inum) != [] {
      assert w == Walk(initStatus, direct);
      assert ReleaseOrder(inode, rd) == direct + (indirect + doubly);
      PrefixConcat(direct, [], indirect + doubly);
    } else if initStatus != Ok && NonZero(inode.dinum) != [] {
      assert w == Walk(initStatus, direct + indirect);
      PrefixConcat(direct + indirect, [], doubly);
    } else if loadStatus != Ok && FirstLoad(rd, inode.dinum, 0).Some? {
      var n := FirstLoad(rd, inode.dinum, 0).value;
      assert w == Walk(loadStatus, direct + indirect + DoublyRelease(rd, inode.dinum[..n]));
      LoadStopIsPrefix(inode, rd, n);
    } else {
      assert w == Walk(Ok, ReleaseOrder(inode, rd));
    }
  }

  /** The blocks released before a failing load at doubly-indirect slot n
      are a prefix of the release order. */
  lemma LoadStopIsPrefix(inode: Inode, rd: nat -> seq<nat>, n: nat)
    requires n <= |inode.dinum|
    ensures NonZero(inode.dnum) + IndirectRelease(rd, inode.inum) + DoublyRelease(rd, inode.dinum[..n])
              <= ReleaseOrder(inode, rd)
  {
    DoublyReleasePrefix(rd, inode.dinum, n);
    PrefixConcat(NonZero(inode.dnum) + IndirectRelease(rd, inode.inum),
                 DoublyRelease(rd, inode.dinum[..n]), DoublyRelease(rd, inode.dinum));
  }

  lemma PrefixConcat<T>(a: seq<T>, b: seq<T>, c: seq<T>)
    requires b <= c
    ensures a + b <= a + c
  {
    assert (a + c)[..|a + b|] == a + b;
  }

  lemma {:induction false} DoublyReleasePrefix(rd: nat -> seq<nat>, ptrs: seq<nat>, n: nat)
    requires n <= |ptrs|
    ensures DoublyRelease(rd, ptrs[..n]) <= DoublyRelease(rd, ptrs)
    decreases |ptrs| - n
  {
    if n < |ptrs| {
      DoublyReleasePrefix(rd, ptrs[..|ptrs| - 1], n);
      assert ptrs[..|ptrs| - 1][..n] == ptrs[..n];
    } else {
      assert ptrs[..n] == ptrs;
    }
  }

  // One more pointer examined: the release lists of a longer prefix.

  lemma NonZeroSnoc(ptrs: seq<nat>, m: nat)
    requires m < |ptrs|
    ensures NonZero(ptrs[..m + 1]) == NonZero(ptrs[..m]) + (if ptrs[m] == 0 then [] else [ptrs[m]])
  {
    assert ptrs[..m + 1][..m] == ptrs[..m];
  }

  lemma IndirectSnoc(rd: nat -> seq<nat>, ptrs: seq<nat>, m: nat)
    requires m < |ptrs|
    ensures IndirectRelease(rd, ptrs[..m + 1]) ==
              IndirectRelease(rd, ptrs[..m]) + (if ptrs[m] == 0 then [] else NonZero(rd(ptrs[m])) + [ptrs[m]])
  {
    assert ptrs[..m + 1][..m] == ptrs[..m];
  }

  lemma DoublySnoc(rd: nat -> seq<nat>, ptrs: seq<nat>, m: nat)
    requires m < |ptrs|
    ensures DoublyRelease(rd, ptrs[..m + 1]) ==
              DoublyRelease(rd, ptrs[..m]) + (if ptrs[m] == 0 then [] else IndirectRelease(rd, rd(ptrs[m])) + [ptrs[m]])
  {
    assert ptrs[..m + 1][..m] == ptrs[..m];
  }

  /** A sequence with a non-zero entry in a prefix has non-zero entries. */
  lemma {:induction false} NonZeroPrefixEmpty(ptrs: seq<nat>, n: nat)
    requires n <= |ptrs| && NonZero(ptrs[..n]) != []
    ensures NonZero(ptrs) != []
    decreases |ptrs| - n
  {
    if n < |ptrs| {
      NonZeroSnoc(ptrs, n);
      NonZeroPrefixEmpty(ptrs, n + 1);
    } else {
      assert ptrs[..n] == ptrs;
    }
  }

  /** InitIndirectVmo fails at the first doubly-indirect pointer of an inode
      without indirect pointers. */
  lemma WalkStopsAtDoubly(inode: Inode, rd: nat -> seq<nat>, initStatus: Status, loadStatus: Status, n: nat)
    requires initStatus != Ok && NonZero(inode.inum) == []
    requires n < |inode.dinum| && inode.dinum[n] != 0 && NonZero(inode.dinum[..n]) == []
    ensures FreeWalk(inode, rd, initStatus, loadStatus) ==
              Walk(initStatus, NonZero(inode.dnum) + IndirectRelease(rd, inode.inum))
    ensures DoublyRelease(rd, inode.dinum[..n]) == []
  {
    NonZeroSnoc(inode.dinum, n);
    NonZeroPrefixEmpty(inode.dinum, n + 1);
    DoublyReleaseOfZeros(rd, inode.dinum[..n]);
  }

  lemma {:induction false} DoublyReleaseOfZeros(rd: nat -> seq<nat>, ptrs: seq<nat>)
    requires NonZero(ptrs) == []
    ensures DoublyRelease(rd, ptrs) == []
    decreases |ptrs|
  {
    if ptrs != [] {
      DoublyReleaseOfZeros(rd, ptrs[..|ptrs| - 1]);
    }
  }

  /** The first slot where FirstLoad's condition holds is what it finds. */
  lemma FirstLoadAt(rd: nat -> seq<nat>, ptrs: seq<nat>, n: nat)
    requires n < |ptrs| && ptrs[n] != 0 && NonZero(rd(ptrs[n])) != []
    requires forall k :: 0 <= k < n ==> ptrs[k] == 0 || NonZero(rd(ptrs[k])) == []
    ensures FirstLoad(rd, ptrs, 0) == Some(n)
  {
  }

  /** FirstLoad over a growing prefix: one more slot without an indirect
      entry still gives no load. */
  lemma FirstLoadSnoc(rd: nat -> seq<nat>, ptrs: seq<nat>, n: nat)
    requires n < |ptrs| && FirstLoad(rd, ptrs[..n], 0).None?
    requires ptrs[n] == 0 || NonZero(rd(ptrs[n])) == []
    ensures FirstLoad(rd, ptrs[..n + 1], 0).None?
  {
    assert ptrs[..n + 1][..n] == ptrs[..n];
  }

  /** The first slot after a load-free prefix that has an indirect entry is
      where the first load happens. */
  lemma FirstLoadAfter(rd: nat -> seq<nat>, ptrs: seq<nat>, n: nat)
    requires n < |ptrs| && FirstLoad(rd, ptrs[..n], 0).None?
    requires ptrs[n] != 0 && NonZero(rd(ptrs[n])) != []
    ensures FirstLoad(rd, ptrs, 0) == Some(n)
  {
    forall k | 0 <= k < n
      ensures ptrs[k] == 0 || NonZero(rd(ptrs[k])) == []
    {
      assert ptrs[..n][k] == ptrs[k];
    }
    FirstLoadAt(rd, ptrs, n);
  }

  /** LoadIndirectWithinDoublyIndirect fails at the first indirect block of a
      doubly-indirect tree: the trees before it were released whole, nothing
      of this one. */
  lemma WalkStopsAtLoad(inode: Inode, rd: nat -> seq<nat>, loadStatus: Status, n: nat)
    requires loadStatus != Ok && n < |inode.dinum| && inode.dinum[n] != 0
    requires forall k :: 0 <= k < n ==> inode.dinum[k] == 0 || NonZero(rd(inode.dinum[k])) == []
    requires NonZero(rd(inode.dinum[n])) != []
    ensures FreeWalk(inode, rd, Ok, loadStatus) ==
              Walk(loadStatus, NonZero(inode.dnum) + IndirectRelease(rd, inode.inum) +
                               DoublyRelease(rd, inode.dinum[..n]))
  {
    FirstLoadAt(rd, inode.dinum, n);
  }

  /** A walk that never stopped released everything. */
  lemma WalkCompletes(inode: Inode, rd: nat -> seq<nat>, initStatus: Status, loadStatus: Status)
    requires initStatus != Ok ==> NonZero(inode.inum) == [] && NonZero(inode.dinum) == []
    requires loadStatus != Ok ==>
               forall k :: 0 <= k < |inode.dinum| ==> inode.dinum[k] == 0 || NonZero(rd(inode.dinum[k])) == []
    ensures FreeWalk(inode, rd, initStatus, loadStatus) == Walk(Ok, ReleaseOrder(inode, rd))
  {
  }

  /** Superblock-counter arithmetic of repeated `alloc_*_count--` in uint32. */
  function WrapSub(x: nat, k: nat): nat { (x - k) % U32_MOD }

  lemma WrapSubCompose(x: nat, a: nat, b: nat)
    ensures WrapSub(WrapSub(x, a), b) == WrapSub(x, a + b)
  {
    var y := x - a;
    var q := y / U32_MOD;
    assert y == q * U32_MOD + y % U32_MOD;
    assert y % U32_MOD - b == (x - a - b) - q * U32_MOD;
  }

  /** Entries staged by BlockFree for each block of a list. */
  function FreeEntries(abmBlock: nat, freed: seq<nat>): seq<TxnEntry>
    decreases |freed|
  {
    if freed == [] then []
    else FreeEntries(abmBlock, freed[..|freed| - 1]) +
         [BlockBitmapEntry(abmBlock, freed[|freed| - 1]), SuperblockEntry()]
  }

  /** Every block of the list is a data block BlockFree accepts. */
  predicate BlocksInRange(size: nat, blocks: seq<nat>) {
    forall k :: 0 <= k < |blocks| ==> 0 < blocks[k] < size
  }

  predicate PointersBelow(ptrs: seq<nat>, size: nat) {
    forall k :: 0 <= k < |ptrs| && ptrs[k] != 0 ==> ptrs[k] < size
  }

  /** An indirect pointer array whose blocks and their entries are all below `size`. */
  predicate TreeBelow(rd: nat -> seq<nat>, ptrs: seq<nat>, size: nat) {
    PointersBelow(ptrs, size) &&
    forall k :: 0 <= k < |ptrs| && ptrs[k] != 0 ==> PointersBelow(rd(ptrs[k]), size)
  }

  /** Every pointer reachable from the inode names a block of the volume. */
  predicate PointersValid(inode: Inode, rd: nat -> seq<nat>, size: nat) {
    PointersBelow(inode.dnum, size) && TreeBelow(rd, inode.inum, size) &&
    PointersBelow(inode.dinum, size) &&
    forall k :: 0 <= k < |inode.dinum| && inode.dinum[k] != 0 ==> TreeBelow(rd, rd(inode.dinum[k]), size)
  }

  lemma NonZeroInRange(ptrs: seq<nat>, size: nat)
    requires PointersBelow(ptrs, size)
    ensures BlocksInRange(size, NonZero(ptrs))
  {
    var r := NonZero(ptrs);
    forall k | 0 <= k < |r| ensures 0 < r[k] < size {
      assert r[k] in ptrs;
    }
  }

  lemma {:induction false} IndirectInRange(rd: nat -> seq<nat>, ptrs: seq<nat>, size: nat)
    requires TreeBelow(rd, ptrs, size)
    ensures BlocksInRange(size, IndirectRelease(rd, ptrs))
    decreases |ptrs|
  {
    if ptrs != [] {
      var p := ptrs[|ptrs| - 1];
      IndirectInRange(rd, ptrs[..|ptrs| - 1], size);
      if p != 0 {
        NonZeroInRange(rd(p), size);
      }
    }
  }

  lemma {:induction false} DoublyInRange(rd: nat -> seq<nat>, ptrs: seq<nat>, size: nat)
    requires PointersBelow(ptrs, size)
    requires forall k :: 0 <= k < |ptrs| && ptrs[k] != 0 ==> TreeBelow(rd, rd(ptrs[k]), size)
    ensures BlocksInRange(size, DoublyRelease(rd, ptrs))
    decreases |ptrs|
  {
    if ptrs != [] {
      var p := ptrs[|ptrs| - 1];
      DoublyInRange(rd, ptrs[..|ptrs| - 1], size);
      if p != 0 {
        IndirectInRange(rd, rd(p), size);
      }
    }
  }

  /** Valid pointers make every block of the release order one BlockFree accepts. */
  lemma ReleaseOrderInRange(inode: Inode, rd: nat -> seq<nat>, size: nat)
    requires PointersValid(inode, rd, size)
    ensures BlocksInRange(size, ReleaseOrder(inode, rd))
  {
    NonZeroInRange(inode.dnum, size);
    IndirectInRange(rd, inode.inum, size);
    DoublyInRange(rd, inode.dinum, size);
  }

  /** The state after BlockFree on each block of a list. */
  function FreeBlocks(s: FsState, freed: seq<nat>): (r: FsState)
    requires s.Valid() && BlocksInRange(s.blockMap.size, freed)
    ensures r.Valid()
  {
    s.(blockMap := B.ClearAll(s.blockMap, freed),
       info := s.info.(allocBlockCount := WrapSub(s.info.allocBlockCount, |freed|)))
  }

  /** Releasing nothing changes nothing. */
  lemma FreeBlocksNone(s: FsState)
    requires s.Valid()
    ensures FreeBlocks(s, []) == s && FreeEntries(s.info.abmBlock, []) == []
  {
    assert s.info.allocBlockCount < U32_MOD;
    assert FreeBlocks(s, []).info == s.info;
  }

  /** A state and transaction reached from `s1` and `base` by BlockFree on
      each block of `freed`, with the block counter started at `total`. */
  ghost predicate WalkedTo(st: FsState, entries: seq<TxnEntry>, s1: FsState, freed: seq<nat>,
                           base: seq<TxnEntry>, total: nat, remaining: nat)
  {
    s1.Valid() && BlocksInRange(s1.blockMap.size, freed) &&
    st == FreeBlocks(s1, freed) &&
    entries == base + FreeEntries(s1.info.abmBlock, freed) &&
    remaining == WrapSub(total, |freed|)
  }

  lemma FreeBlocksStep(s: FsState, freed: seq<nat>, b: nat)
    requires s.Valid() && BlocksInRange(s.blockMap.size, freed) && 0 < b < s.blockMap.size
    ensures BlocksInRange(s.blockMap.size, freed + [b])
    ensures FreeBlocks(s, freed + [b]) == FreeBlock(FreeBlocks(s, freed), b).state
    ensures FreeEntries(s.info.abmBlock, freed + [b]) ==
              FreeEntries(s.info.abmBlock, freed) + FreeBlock(FreeBlocks(s, freed), b).txn
  {
    assert (freed + [b])[..|freed|] == freed;
    WrapSubCompose(s.info.allocBlockCount, |freed|, 1);
  }

  /** The inode bit cleared and the allocated-inode counter decremented. */
  function ClearInode(s: FsState, ino: nat): (r: FsState)
    requires s.Valid() && ino < s.inodeMap.size
    ensures r.Valid() && r.blockMap == s.blockMap && r.info.abmBlock == s.info.abmBlock
  {
    s.(inodeMap := B.Clear(s.inodeMap, ino),
       info := s.info.(allocInodeCount := Sub32(s.info.allocInodeCount, 1)))
  }

  function InoFree(s: FsState, ino: nat, inode: Inode, rd: nat -> seq<nat>,
                   initStatus: Status, loadStatus: Status): (r: Alloc)
    requires s.Valid() && ino < s.inodeMap.size
    requires PointersValid(inode, rd, s.blockMap.size)
    ensures r.state.Valid()
  {
    ReleaseOrderInRange(inode, rd, s.blockMap.size);
    var w := FreeWalk(inode, rd, initStatus, loadStatus);
    FreeWalkIsPrefix(inode, rd, initStatus, loadStatus);
    var s1 := ClearInode(s, ino);
    Alloc(w.status, ino, FreeBlocks(s1, w.freed),
          [InodeBitmapEntry(s.info, ino)] + FreeEntries(s.info.abmBlock, w.freed) +
          (if w.status == Ok then [SuperblockEntry()] else []))
  }

  /** InoFree once the walk's outcome is known. */
  lemma InoFreeOfWalk(s: FsState, ino: nat, inode: Inode, rd: nat -> seq<nat>,
                      initStatus: Status, loadStatus: Status, status: Status, freed: seq<nat>)
    requires s.Valid() && ino < s.inodeMap.size
    requires PointersValid(inode, rd, s.blockMap.size)
    requires FreeWalk(inode, rd, initStatus, loadStatus) == Walk(status, freed)
    requires BlocksInRange(s.blockMap.size, freed)
    ensures InoFree(s, ino, inode, rd, initStatus, loadStatus) ==
              Alloc(status, ino, FreeBlocks(ClearInode(s, ino), freed),
                    [InodeBitmapEntry(s.info, ino)] + FreeEntries(s.info.abmBlock, freed) +
                    (if status == Ok then [SuperblockEntry()] else []))
  {
  }

  /** Freeing an inode releases every block it owns: each is clear in the
      block bitmap afterwards, the allocated-block counter drops by the number
      released, and blocks the inode does not own keep their state. */
  lemma InoFreeReleasesAllBlocks(s: FsState, ino: nat, inode: Inode, rd: nat -> seq<nat>, b: nat)
    requires s.Valid() && ino < s.inodeMap.size
    requires PointersValid(inode, rd, s.blockMap.size)
    requires b < |s.blockMap.storage|
    ensures var r := InoFree(s, ino, inode, rd, Ok, Ok);
            r.status == Ok &&
            r.state.blockMap.storage[b] == (s.blockMap.storage[b] && b !in ReleaseOrder(inode, rd)) &&
            r.state.info.allocBlockCount == WrapSub(s.info.allocBlockCount, |ReleaseOrder(inode, rd)|) &&
            !r.state.inodeMap.storage[ino] &&
            r.txn[|r.txn| - 1] == SuperblockEntry()
  {
    FreeWalkIsPrefix(inode, rd, Ok, Ok);
    B.ClearAllEffect(B.Clear(s.inodeMap, ino), [], ino);
    var s1 := s.(inodeMap := B.Clear(s.inodeMap, ino),
                 info := s.info.(allocInodeCount := Sub32(s.info.allocInodeCount, 1)));
    ReleaseOrderInRange(inode, rd, s.blockMap.size);
    B.ClearAllEffect(s1.blockMap, ReleaseOrder(inode, rd), b);
  }

  /** An inode that owns no blocks, allocated by InoNew and then freed, leaves
      the inode bitmap, the block bitmap and the superblock as they were. */
  lemma InoNewThenFree(s: FsState, inode: Inode, env: GrowEnv, rd: nat -> seq<nat>)
    requires s.Valid()
    requires B.FindClear(s.inodeMap, 0, s.inodeMap.size).Some?
    requires PointersValid(inode, rd, s.blockMap.size) && ReleaseOrder(inode, rd) == []
    ensures var a := InoNew(s, inode, env);
            a.status == Ok && a.value < a.state.inodeMap.size &&
            var f := InoFree(a.state, a.value, inode, rd, Ok, Ok);
            f.state.inodeMap == s.inodeMap && f.state.blockMap == s.blockMap &&
            f.state.info == s.info
  {
    var a := InoNew(s, inode, env);
    B.ClearUndoesSet(s.inodeMap, a.value);
    FreeWalkIsPrefix(inode, rd, Ok, Ok);
  }

  /** The block table of the release example below: indirect block 40 holds
      pointers to 41, 42, 43 and 44 with a hole after the first; doubly
      indirect block 50 holds a hole and indirect block 60, which points at 61
      and 62. */
  function ExampleBlocks(b: nat): seq<nat>
  {
    if b == 40 then [41, 0, 42, 43, 44]
    else if b == 50 then [0, 60]
    else if b == 60 then [61, 62]
    else []
  }

  lemma ExampleDirect()
    ensures NonZero([10, 0, 11, 12]) == [10, 11, 12]
  {
    assert [10, 0, 11, 12][..3] == [10, 0, 11];
    assert [10, 0, 11][..2] == [10, 0];
    assert [10, 0][..1] == [10];
  }

  lemma ExampleIndirect()
    ensures IndirectRelease(ExampleBlocks, [0, 40]) == [41, 42, 43, 44, 40]
  {
    assert [41, 0, 42, 43, 44][..4] == [41, 0, 42, 43];
    assert [41, 0, 42, 43][..3] == [41, 0, 42];
    assert [41, 0, 42][..2] == [41, 0];
    assert [41, 0][..1] == [41];
    assert NonZero(ExampleBlocks(40)) == [41, 42, 43, 44];
    assert [0, 40][..1] == [0];
    assert IndirectRelease(ExampleBlocks, [0]) == [];
  }

  lemma ExampleDoubly()
    ensures DoublyRelease(ExampleBlocks, [50]) == [61, 62, 60, 50]
  {
    assert [61, 62][..1] == [61];
    assert NonZero(ExampleBlocks(60)) == [61, 62];
    assert [0, 60][..1] == [0];
    assert IndirectRelease(ExampleBlocks, [0]) == [];
    assert IndirectRelease(ExampleBlocks, ExampleBlocks(50)) == [61, 62, 60];
    assert [50][..0] == [];
  }

  /** A worked release: three direct blocks, one indirect block holding four
      pointers and one doubly indirect block reaching two data blocks through
      one indirect block release twelve blocks, in the order direct, indirect,
      doubly indirect with each pointer block after the blocks it holds, so
      the inode's block_count of 12 drops to zero. */
  lemma ReleaseOrderExample()
    ensures var inode := Inode(0, 0, 12, 0, 0, [10, 0, 11, 12], [0, 40], [50]);
            ReleaseOrder(inode, ExampleBlocks) ==
              [10, 11, 12, 41, 42, 43, 44, 40, 61, 62, 60, 50] &&
            |ReleaseOrder(inode, ExampleBlocks)| == inode.blockCount
  {
    var inode := Inode(0, 0, 12, 0, 0, [10, 0, 11, 12], [0, 40], [50]);
    ExampleDirect();
    ExampleIndirect();
    ExampleDoubly();
    ReleaseOrderOf(inode, ExampleBlocks, [10, 11, 12], [41, 42, 43, 44, 40], [61, 62, 60, 50]);
    ExampleConcat();
  }

  lemma ExampleConcat()
    ensures [10, 11, 12] + [41, 42, 43, 44, 40] + [61, 62, 60, 50] ==
            [10, 11, 12, 41, 42, 43, 44, 40, 61, 62, 60, 50]
  {
  }

  lemma ReleaseOrderOf(inode: Inode, rd: nat -> seq<nat>, d: seq<nat>, i: seq<nat>, dd: seq<nat>)
    requires NonZero(inode.dnum) == d && IndirectRelease(rd, inode.inum) == i
    requires DoublyRelease(rd, inode.dinum) == dd
    ensures ReleaseOrder(inode, rd) == d + i + dd
  {
  }
}
