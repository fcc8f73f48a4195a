// The mounted minfs filesystem object: its superblock copy, allocation
// bitmaps, inode table and vnode cache, updated in place by the allocator.
// Every state-changing method is proved to produce the effect the matching
// function of MinfsState describes, so the properties proved there hold of
// these methods.
module Minfs {
  import opened Zx
  import opened MinfsFormat
  import B = MinfsBitmap
  import S = MinfsState

  /** A write-back transaction: the enqueue requests made against it. */
  class WriteTxn {
    var entries: seq<S.TxnEntry>

    constructor()
      ensures entries == []
    {
      entries := [];
    }

    method Enqueue(e: S.TxnEntry)
      modifies this
      ensures entries == old(entries) + [e]
    {
      entries := entries + [e];
    }
  }

  /** The in-memory vnode of an inode. `live` is whether a strong reference can
      still be taken to it (the upgrade from the raw pointer in the cache
      succeeds); `unlinked` whether the file has no directory entry left. */
  class Vnode {
    var ino: nat
    var inode: Inode
    var live: bool
    var unlinked: bool

    constructor(ino: nat, inode: Inode)
      ensures this.ino == ino && this.inode == inode && live && !unlinked
    {
      this.ino := ino;
      this.inode := inode;
      live := true;
      unlinked := false;
    }
  }

  /** The file types VnodeNew accepts and everything else. */
  datatype VnodeType = FileType | DirType | OtherType(code: nat)

  /** Remove the entry holding object `vn`, whatever its key. */
  function EraseObject(hash: map<nat, Vnode>, vn: Vnode): (r: map<nat, Vnode>)
    ensures forall k :: k in r <==> k in hash && hash[k] != vn
    ensures forall k :: k in r ==> r[k] == hash[k]
  {
    map k | k in hash && hash[k] != vn :: hash[k]
  }

  /** Erasing a vnode that sits under its own key removes that key only. */
  lemma EraseObjectRemovesItsKey(hash: map<nat, Vnode>, vn: Vnode, ino: nat)
    requires ino in hash && hash[ino] == vn
    requires forall k :: k in hash && k != ino ==> hash[k] != vn
    ensures EraseObject(hash, vn) == hash - {ino}
  {
  }

  /** Erasing a stale vnode whose key now holds a different vnode for the same
      inode leaves that newer vnode in place. */
  lemma EraseObjectSparesSuccessor(hash: map<nat, Vnode>, stale: Vnode, ino: nat)
    requires ino in hash && hash[ino] != stale
    ensures ino in EraseObject(hash, stale) && EraseObject(hash, stale)[ino] == hash[ino]
  {
  }

  /** The disk contents the mount reads: the block bitmap, the inode bitmap
      and the inode table, bit by bit and record by record. */
  datatype Image = Image(abm: nat -> bool, ibm: nat -> bool, inodes: nat -> Inode)

  class Minfs {
    var info: Info
    var inodeMap: B.Bitmap
    var blockMap: B.Bitmap
    var inodeTable: seq<Inode>
    var ibmblks: nat
    var abmblks: nat
    var work: seq<seq<S.TxnEntry>>
    var fvmLog: seq<FvmRequest>
    var vnodeHash: map<nat, Vnode>

    function State(): S.FsState
      reads this
    {
      S.FsState(info, inodeMap, blockMap, inodeTable, ibmblks, abmblks, work, fvmLog)
    }

    ghost predicate Valid()
      reads this
    {
      State().Valid()
    }

    constructor(info: Info)
      ensures this.info == info && vnodeHash == map[] && work == [] && fvmLog == []
    {
      this.info := info;
      inodeMap := B.Reset(0);
      blockMap := B.Reset(0);
      inodeTable := [];
      ibmblks := 0;
      abmblks := 0;
      work := [];
      fvmLog := [];
      vnodeHash := map[];
    }

    // -------------------------------------------------------------------------
    // Minfs::Create (minfs.cpp:753-869)

    /** Validate the superblock, size the bitmaps and the inode table from its
        counts, and load them from the device. `setupStatus` stands for the
        memory and device-attachment steps between the sizing and the load. */
    static method Create(info: Info, maxBlk: nat, dev: Fvm, img: Image, setupStatus: Status)
      returns (status: Status, fs: Minfs?)
      requires info.InRange() && dev.WellFormed()
      ensures status == Ok <==> CheckInfo(info, maxBlk, dev).status == Ok && setupStatus == Ok
      ensures CheckInfo(info, maxBlk, dev).status != Ok ==> status == CheckInfo(info, maxBlk, dev).status
      ensures status == Ok ==>
                fs != null && fresh(fs) && fs.Valid() && fs.info == info &&
                fs.vnodeHash == map[] && fs.work == [] &&
                fs.fvmLog == CheckInfo(info, maxBlk, dev).requests &&
                fs.abmblks == CeilDiv(info.blockCount, BLOCK_BITS) &&
                fs.ibmblks == CeilDiv(info.inodeCount, BLOCK_BITS) &&
                |fs.blockMap.storage| == fs.abmblks * BLOCK_BITS &&
                |fs.inodeMap.storage| == fs.ibmblks * BLOCK_BITS &&
                (forall i :: 0 <= i < |fs.blockMap.storage| ==> fs.blockMap.storage[i] == img.abm(i)) &&
                (forall i :: 0 <= i < |fs.inodeMap.storage| ==> fs.inodeMap.storage[i] == img.ibm(i)) &&
                |fs.inodeTable| == CeilDiv(info.inodeCount, INODES_PER_BLOCK) * INODES_PER_BLOCK &&
                (forall i :: 0 <= i < |fs.inodeTable| ==> fs.inodeTable[i] == img.inodes(i))
    {
      fs := null;
      var checked := CheckInfo(info, maxBlk, dev);
      if checked.status != Ok {
        return checked.status, null;
      }
      status, fs := SizeAndLoad(info, checked.requests, img, setupStatus);
    }

    /** The part of Create after the superblock checks: the bitmaps and the
        inode table are sized from the counts and then read from `img`. */
    static method SizeAndLoad(info: Info, requests: seq<FvmRequest>, img: Image, setupStatus: Status)
      returns (status: Status, fs: Minfs?)
      requires info.InRange() && (info.fvm ==> info.sliceSize >= BLOCK_SIZE)
      ensures status == setupStatus
      ensures status == Ok ==>
                fs != null && fresh(fs) && fs.Valid() && fs.info == info &&
                fs.vnodeHash == map[] && fs.work == [] &&
                fs.fvmLog == requests &&
                fs.abmblks == CeilDiv(info.blockCount, BLOCK_BITS) &&
                fs.ibmblks == CeilDiv(info.inodeCount, BLOCK_BITS) &&
                |fs.blockMap.storage| == fs.abmblks * BLOCK_BITS &&
                |fs.inodeMap.storage| == fs.ibmblks * BLOCK_BITS &&
                (forall i :: 0 <= i < |fs.blockMap.storage| ==> fs.blockMap.storage[i] == img.abm(i)) &&
                (forall i :: 0 <= i < |fs.inodeMap.storage| ==> fs.inodeMap.storage[i] == img.ibm(i)) &&
                |fs.inodeTable| == CeilDiv(info.inodeCount, INODES_PER_BLOCK) * INODES_PER_BLOCK &&
                (forall i :: 0 <= i < |fs.inodeTable| ==> fs.inodeTable[i] == img.inodes(i))
    {
      fs := null;
      var m := new Minfs(info);
      m.fvmLog := requests;
      m.abmblks := CeilDiv(info.blockCount, BLOCK_BITS);
      m.ibmblks := CeilDiv(info.inodeCount, BLOCK_BITS);
      var inoblks := CeilDiv(info.inodeCount, INODES_PER_BLOCK);
      m.blockMap := B.Shrink(B.Reset(m.abmblks * BLOCK_BITS), info.blockCount);
      m.inodeMap := B.Shrink(B.Reset(m.ibmblks * BLOCK_BITS), info.inodeCount);
      if setupStatus != Ok {
        return setupStatus, null;
      }
      // The read transaction: both bitmaps and the inode table from disk.
      var abm := seq(m.abmblks * BLOCK_BITS, i requires 0 <= i => img.abm(i));
      var ibm := seq(m.ibmblks * BLOCK_BITS, i requires 0 <= i => img.ibm(i));
      var inodes := seq(inoblks * INODES_PER_BLOCK, i requires 0 <= i => img.inodes(i));
      assert info.blockCount <= |abm| && info.inodeCount <= |ibm| && info.inodeCount <= |inodes|;
      m.blockMap := B.Bitmap(abm, info.blockCount);
      m.inodeMap := B.Bitmap(ibm, info.inodeCount);
      m.inodeTable := inodes;
      assert m.State().Valid();
      return Ok, m;
    }

    // -------------------------------------------------------------------------
    // Small helpers (InodeSync, CountUpdate: minfs.cpp:196-213, 714-730)

    /** Store an inode record and stage its inode-table block. */
    method InodeSync(txn: WriteTxn, ino: nat, inode: Inode) returns (status: Status)
      requires ino < |inodeTable|
      modifies this, txn
      ensures status == Ok
      ensures inodeTable == old(inodeTable)[ino := inode]
      ensures txn.entries == old(txn.entries) + [S.InodeTableEntry(info, ino)]
      ensures info == old(info) && inodeMap == old(inodeMap) && blockMap == old(blockMap)
      ensures ibmblks == old(ibmblks) && abmblks == old(abmblks) && work == old(work)
      ensures fvmLog == old(fvmLog) && vnodeHash == old(vnodeHash)
    {
      inodeTable := inodeTable[ino := inode];
      txn.Enqueue(S.InodeTableEntry(info, ino));
      return Ok;
    }

    /** Stage the superblock. */
    method CountUpdate(txn: WriteTxn) returns (status: Status)
      modifies txn
      ensures status == Ok && txn.entries == old(txn.entries) + [S.SuperblockEntry()]
    {
      txn.Enqueue(S.SuperblockEntry());
      return Ok;
    }

    // -------------------------------------------------------------------------
    // Growth (AddInodes, AddBlocks: minfs.cpp:380-511)

    /** Add one inode-table slice; the inode bitmap is restored when the
        inode table cannot follow. */
    method AddInodes(env: S.GrowEnv) returns (status: Status)
      requires Valid()
      modifies this
      ensures status == S.AddInodes(old(State()), env).status
      ensures State() == S.AddInodes(old(State()), env).state
      ensures vnodeHash == old(vnodeHash)
    {
      ghost var s0 := State();
      if !info.fvm {
        return ErrNoSpace;
      }
      var bps := info.sliceSize / BLOCK_SIZE;
      var request := S.InodeExtendRequest(info);
      var inodes := S.InodesAfterGrowth(info);
      if CeilDiv(inodes, BLOCK_BITS) > bps {
        return ErrNoSpace;
      }
      fvmLog := fvmLog + [request];
      if !env.extendOk {
        return ErrNoSpace;
      }
      if !env.workAllocOk {
        return ErrNoMemory;
      }
      var wb := new WriteTxn();
      if !env.bitmapGrowOk || RoundUp(inodes, BLOCK_BITS) < inodeMap.size {
        return ErrNoSpace;
      }
      assert S.PlanInodeGrowth(s0, env).Resized?;
      status := ResizeInodes(s0, env, wb);
    }

    /** The part of AddInodes that resizes the inode bitmap and the inode
        table, once every check before it has passed. */
    method ResizeInodes(ghost s0: S.FsState, env: S.GrowEnv, wb: WriteTxn) returns (status: Status)
      requires s0.Valid() && s0.info.fvm && S.PlanInodeGrowth(s0, env).Resized?
      requires State() == s0.(fvmLog := s0.fvmLog + [S.InodeExtendRequest(s0.info)])
      requires wb.entries == []
      modifies this, wb
      ensures status == S.AddInodes(s0, env).status
      ensures State() == S.AddInodes(s0, env).state
      ensures vnodeHash == old(vnodeHash)
    {
      var inodes := S.InodesAfterGrowth(info);
      var newIbmblks := CeilDiv(inodes, BLOCK_BITS);
      var oldIbmblks := CeilDiv(info.inodeCount, BLOCK_BITS);
      var request := S.InodeExtendRequest(info);
      var saved := inodeMap;
      inodeMap := B.Grow(inodeMap, RoundUp(inodes, BLOCK_BITS));
      inodeMap := B.Shrink(inodeMap, inodes);
      if newIbmblks > oldIbmblks {
        wb.Enqueue(S.TxnEntry(S.InodeBitmapBuf, oldIbmblks, info.ibmBlock + oldIbmblks, newIbmblks - oldIbmblks));
      }
      var inoblks := CeilDiv(inodes, INODES_PER_BLOCK);
      if !env.tableGrowOk || inoblks * INODES_PER_BLOCK < |inodeTable| {
        inodeMap := saved;
        return ErrNoSpace;
      }
      assert wb.entries == S.InodeBitmapEntries(s0.info, inodes);
      ghost var bm := inodeMap;
      assert S.PlanInodeGrowth(s0, env) == S.Resized(inodes, bm);
      ghost var sent := s0.(fvmLog := s0.fvmLog + [request]);
      assert S.AddInodes(s0, env) == S.AddInodesCommit(s0, sent, inodes, bm);
      inodeTable := inodeTable + S.ZeroInodes(inoblks * INODES_PER_BLOCK - |inodeTable|);
      info := info.(vsliceCount := Add64(info.vsliceCount, 1),
                    inoSlices := Add32(info.inoSlices, 1),
                    inodeCount := inodes);
      ibmblks := newIbmblks;
      wb.Enqueue(S.SuperblockEntry());
      work := work + [wb.entries];
      return Ok;
    }

    /** Add one data slice. */
    method AddBlocks(env: S.GrowEnv) returns (status: Status)
      requires Valid()
      modifies this
      ensures status == S.AddBlocks(old(State()), env).status
      ensures State() == S.AddBlocks(old(State()), env).state
      ensures vnodeHash == old(vnodeHash)
    {
      ghost var s0 := State();
      if !info.fvm {
        return ErrNoSpace;
      }
      var bps := info.sliceSize / BLOCK_SIZE;
      var request := S.DataExtendRequest(info);
      var blocks := S.BlocksAfterGrowth(info);
      var newAbmblks := CeilDiv(blocks, BLOCK_BITS);
      if newAbmblks > bps {
        return ErrNoSpace;
      }
      fvmLog := fvmLog + [request];
      if !env.extendOk {
        return ErrNoSpace;
      }
      if !env.workAllocOk {
        return ErrNoMemory;
      }
      var wb := new WriteTxn();
      if !env.bitmapGrowOk || RoundUp(blocks, BLOCK_BITS) < blockMap.size {
        return ErrNoSpace;
      }
      CommitBlocks(wb, blocks);
      return Ok;
    }

    /** The end of AddBlocks once the slice is granted: grow the block bitmap
        to `blocks`, count the slice in the superblock, and stage the grown
        bitmap blocks and the superblock. */
    method CommitBlocks(wb: WriteTxn, blocks: nat)
      requires blockMap.Valid() && blockMap.size <= RoundUp(blocks, BLOCK_BITS) && wb.entries == []
      modifies this, wb
      ensures State() == old(State()).(
                info := old(info).(vsliceCount := Add64(old(info).vsliceCount, 1),
                                   datSlices := Add32(old(info).datSlices, 1),
                                   blockCount := blocks),
                blockMap := B.Shrink(B.Grow(old(blockMap), RoundUp(blocks, BLOCK_BITS)), blocks),
                abmblks := CeilDiv(blocks, BLOCK_BITS),
                work := old(work) + [S.BlockBitmapEntries(old(info), blocks) + [S.SuperblockEntry()]])
      ensures vnodeHash == old(vnodeHash)
    {
      var newAbmblks := CeilDiv(blocks, BLOCK_BITS);
      var oldAbmblks := CeilDiv(info.blockCount, BLOCK_BITS);
      blockMap := B.Grow(blockMap, RoundUp(blocks, BLOCK_BITS));
      blockMap := B.Shrink(blockMap, blocks);
      if newAbmblks > oldAbmblks {
        wb.Enqueue(S.TxnEntry(S.BlockBitmapBuf, oldAbmblks, info.abmBlock + oldAbmblks, newAbmblks - oldAbmblks));
      }
      assert wb.entries == S.BlockBitmapEntries(old(info), blocks);
      info := info.(vsliceCount := Add64(info.vsliceCount, 1),
                    datSlices := Add32(info.datSlices, 1),
                    blockCount := blocks);
      abmblks := newAbmblks;
      wb.Enqueue(S.SuperblockEntry());
      work := work + [wb.entries];
    }

    // -------------------------------------------------------------------------
    // Allocation (InoNew, BlockNew, BlockFree: minfs.cpp:513-560, 656-712)

    method InoNew(txn: WriteTxn, inode: Inode, env: S.GrowEnv) returns (status: Status, ino: nat)
      requires Valid()
      modifies this, txn
      ensures var r := S.InoNew(old(State()), inode, env);
              status == r.status && (status == Ok ==> ino == r.value) &&
              State() == r.state && txn.entries == old(txn.entries) + r.txn
      ensures vnodeHash == old(vnodeHash)
    {
      ino := 0;
      var found := B.FindClear(inodeMap, 0, inodeMap.size);
      if found.None? {
        var oldSize := inodeMap.size;
        status := AddInodes(env);
        if status != Ok {
          return;
        }
        found := B.FindClear(inodeMap, oldSize, inodeMap.size);
        if found.None? {
          return S.FIND_NOT_FOUND, 0;
        }
      }
      ino := found.value;
      status := TakeInode(txn, ino, inode);
    }

    /** Mark inode `ino` allocated, store its record, and stage the inode
        table block, the inode bitmap block and the superblock. */
    method TakeInode(txn: WriteTxn, ino: nat, inode: Inode) returns (status: Status)
      requires Valid() && ino < inodeMap.size
      modifies this, txn
      ensures var r := S.TakeInode(old(State()), ino, inode);
              status == r.status && State() == r.state && txn.entries == old(txn.entries) + r.txn
      ensures vnodeHash == old(vnodeHash)
    {
      inodeMap := B.Set(inodeMap, ino);
      info := info.(allocInodeCount := Add32(info.allocInodeCount, 1));
      status := InodeSync(txn, ino, inode);
      txn.Enqueue(S.InodeBitmapEntry(info, ino));
      status := CountUpdate(txn);
    }

    method BlockNew(txn: WriteTxn, hint: nat, env: S.GrowEnv) returns (status: Status, bno: nat)
      requires Valid()
      modifies this, txn
      ensures var r := S.BlockNew(old(State()), hint, env);
              status == r.status && (status == Ok ==> bno == r.value) &&
              State() == r.state && txn.entries == old(txn.entries) + r.txn
      ensures vnodeHash == old(vnodeHash)
    {
      bno := 0;
      var found := B.FindClear(blockMap, hint, blockMap.size);
      if found.None? {
        found := B.FindClear(blockMap, 0, hint);
        if found.None? {
          var oldSize := blockMap.size;
          status := AddBlocks(env);
          if status != Ok {
            return;
          }
          found := B.FindClear(blockMap, oldSize, blockMap.size);
          if found.None? {
            return S.FIND_NOT_FOUND, 0;
          }
        }
      }
      blockMap := B.Set(blockMap, found.value);
      info := info.(allocBlockCount := Add32(info.allocBlockCount, 1));
      bno := found.value;
      txn.Enqueue(S.BlockBitmapEntry(info.abmBlock, bno));
      status := CountUpdate(txn);
    }

    method BlockFree(txn: WriteTxn, bno: nat) returns (status: Status)
      requires Valid() && 0 < bno < blockMap.size
      modifies this, txn
      ensures status == Ok
      ensures State() == S.FreeBlock(old(State()), bno).state
      ensures txn.entries == old(txn.entries) + S.FreeBlock(old(State()), bno).txn
      ensures vnodeHash == old(vnodeHash)
    {
      blockMap := B.Clear(blockMap, bno);
      info := info.(allocBlockCount := Sub32(info.allocBlockCount, 1));
      txn.Enqueue(S.BlockBitmapEntry(info.abmBlock, bno));
      status := CountUpdate(txn);
    }

    /** The walk of InoFree so far: the blocks released since the inode bit
        was cleared in state `s1`, the transaction before them, and the block
        counter started at `total`. */
    ghost predicate Walked(txn: WriteTxn, s1: S.FsState, freed: seq<nat>, base: seq<S.TxnEntry>,
                           total: nat, remaining: nat)
      reads this, txn
    {
      S.WalkedTo(State(), txn.entries, s1, freed, base, total, remaining)
    }

    /** BlockFree on one more block of the walk. */
    method ReleaseBlock(txn: WriteTxn, b: nat, ghost s1: S.FsState, ghost freed: seq<nat>,
                        ghost base: seq<S.TxnEntry>, ghost total: nat, remaining: nat)
      returns (ghost freed': seq<nat>, remaining': nat)
      requires Walked(txn, s1, freed, base, total, remaining) && 0 < b < s1.blockMap.size
      modifies this, txn
      ensures freed' == freed + [b] && Walked(txn, s1, freed', base, total, remaining')
      ensures vnodeHash == old(vnodeHash)
    {
      S.FreeBlocksStep(s1, freed, b);
      S.WrapSubCompose(total, |freed|, 1);
      var _ := BlockFree(txn, b);
      freed' := freed + [b];
      remaining' := Sub32(remaining, 1);
    }

    ghost predicate RunWalked(txn: WriteTxn, s1: S.FsState, freed: seq<nat>, done: seq<nat>, freed': seq<nat>,
                              base: seq<S.TxnEntry>, total: nat, remaining: nat)
      reads this, txn
    {
      freed' == freed + S.NonZero(done) && Walked(txn, s1, freed', base, total, remaining)
    }

    /** One direct pointer: released unless it is zero. */
    method ReleaseDirect(txn: WriteTxn, p: nat, ghost s1: S.FsState, ghost freed: seq<nat>,
                         ghost base: seq<S.TxnEntry>, ghost total: nat, remaining: nat)
      returns (ghost freed': seq<nat>, remaining': nat)
      requires Walked(txn, s1, freed, base, total, remaining) && (p != 0 ==> p < s1.blockMap.size)
      modifies this, txn
      ensures freed' == freed + (if p == 0 then [] else [p]) && Walked(txn, s1, freed', base, total, remaining')
      ensures vnodeHash == old(vnodeHash)
    {
      if p == 0 {
        assert freed + [] == freed;
        return freed, remaining;
      }
      freed', remaining' := ReleaseBlock(txn, p, s1, freed, base, total, remaining);
    }

    /** Release the non-zero blocks of a pointer array, in order. */
    method ReleaseRun(txn: WriteTxn, ptrs: seq<nat>, ghost s1: S.FsState, ghost freed: seq<nat>,
                      ghost base: seq<S.TxnEntry>, ghost total: nat, remaining: nat)
      returns (ghost freed': seq<nat>, remaining': nat)
      requires Walked(txn, s1, freed, base, total, remaining) && S.PointersBelow(ptrs, s1.blockMap.size)
      modifies this, txn
      ensures freed' == freed + S.NonZero(ptrs) && Walked(txn, s1, freed', base, total, remaining')
      ensures vnodeHash == old(vnodeHash)
    {
      freed', remaining' := freed, remaining;
      var m := 0;
      AppendNothing(freed);
      while m < |ptrs|
        invariant 0 <= m <= |ptrs|
        invariant RunWalked(txn, s1, freed, ptrs[..m], freed', base, total, remaining')
        invariant vnodeHash == old(vnodeHash)
      {
        S.NonZeroSnoc(ptrs, m);
        ghost var released := S.NonZero(ptrs[..m]);
        freed', remaining' := ReleaseDirect(txn, ptrs[m], s1, freed', base, total, remaining');
        Assoc(freed, released, if ptrs[m] == 0 then [] else [ptrs[m]]);
        m := m + 1;
      }
      assert ptrs[..m] == ptrs;
    }

    /** Release one pointer block: its entries, then the block itself. */
    method ReleaseTree(txn: WriteTxn, rd: nat -> seq<nat>, p: nat,
                       ghost s1: S.FsState, ghost freed: seq<nat>,
                       ghost base: seq<S.TxnEntry>, ghost total: nat, remaining: nat)
      returns (ghost freed': seq<nat>, remaining': nat)
      requires Walked(txn, s1, freed, base, total, remaining)
      requires 0 < p < s1.blockMap.size && S.PointersBelow(rd(p), s1.blockMap.size)
      modifies this, txn
      ensures Walked(txn, s1, freed', base, total, remaining')
      ensures freed' == freed + (S.NonZero(rd(p)) + [p])
      ensures vnodeHash == old(vnodeHash)
    {
      freed', remaining' := ReleaseRun(txn, rd(p), s1, freed, base, total, remaining);
      freed', remaining' := ReleaseBlock(txn, p, s1, freed', base, total, remaining');
    }

    /** One slot of an indirect pointer array: a zero pointer is skipped; a
        non-zero one is loaded (`check` answers the load) and, when that
        succeeds, its block is released as a tree. */
    method ReleaseSlot(txn: WriteTxn, rd: nat -> seq<nat>, p: nat, check: Status,
                       ghost s1: S.FsState, ghost freed: seq<nat>,
                       ghost base: seq<S.TxnEntry>, ghost total: nat, remaining: nat)
      returns (status: Status, ghost freed': seq<nat>, remaining': nat)
      requires Walked(txn, s1, freed, base, total, remaining)
      requires p != 0 ==> p < s1.blockMap.size && S.PointersBelow(rd(p), s1.blockMap.size)
      modifies this, txn
      ensures Walked(txn, s1, freed', base, total, remaining')
      ensures status == Ok ==> (check != Ok ==> p == 0) &&
                               freed' == freed + (if p == 0 then [] else S.NonZero(rd(p)) + [p])
      ensures status != Ok ==> status == check && p != 0 && freed' == freed
      ensures vnodeHash == old(vnodeHash)
    {
      if p == 0 {
        return Ok, freed, remaining;
      }
      if check != Ok {
        return check, freed, remaining;
      }
      freed', remaining' := ReleaseTree(txn, rd, p, s1, freed, base, total, remaining);
      status := Ok;
    }

    /** Release a run of indirect pointers: each block's entries, then the
        block itself. `check` answers the cache load made before each non-zero
        pointer; a failure stops the walk at the first one, before anything of
        the run is released. */
    method ReleaseIndirect(txn: WriteTxn, rd: nat -> seq<nat>, ptrs: seq<nat>, check: Status,
                           ghost s1: S.FsState, ghost freed: seq<nat>,
                           ghost base: seq<S.TxnEntry>, ghost total: nat, remaining: nat)
      returns (status: Status, ghost freed': seq<nat>, remaining': nat)
      requires Walked(txn, s1, freed, base, total, remaining) && S.TreeBelow(rd, ptrs, s1.blockMap.size)
      modifies this, txn
      ensures Walked(txn, s1, freed', base, total, remaining')
      ensures status == Ok ==> freed' == freed + S.IndirectRelease(rd, ptrs) &&
                               (check != Ok ==> S.NonZero(ptrs) == [])
      ensures status != Ok ==> status == check && freed' == freed && S.NonZero(ptrs) != []
      ensures vnodeHash == old(vnodeHash)
    {
      freed', remaining' := freed, remaining;
      status := Ok;
      var n := 0;
      AppendNothing(freed);
      while n < |ptrs| && status == Ok
        invariant 0 <= n <= |ptrs|
        invariant status == Ok ==> freed' == freed + S.IndirectRelease(rd, ptrs[..n])
        invariant Walked(txn, s1, freed', base, total, remaining')
        invariant status == Ok ==> (check != Ok ==> S.NonZero(ptrs[..n]) == [])
        invariant status != Ok ==> status == check && freed' == freed && S.NonZero(ptrs) != []
        invariant vnodeHash == old(vnodeHash)
      {
        S.IndirectSnoc(rd, ptrs, n);
        ghost var released := S.IndirectRelease(rd, ptrs[..n]);
        status, freed', remaining' := ReleaseSlot(txn, rd, ptrs[n], check, s1, freed', base, total, remaining');
        if status != Ok {
          S.FirstNonZero(rd, ptrs, n, freed);
        } else {
          S.NonZeroSnoc(ptrs, n);
          Assoc(freed, released, if ptrs[n] == 0 then [] else S.NonZero(rd(ptrs[n])) + [ptrs[n]]);
        }
        n := n + 1;
      }
      if status == Ok {
        assert ptrs[..n] == ptrs;
      }
    }

    /** One doubly-indirect slot: a zero pointer is skipped; otherwise
        InitIndirectVmo (`init`) must succeed, then the indirect blocks it
        points at are released with `load` answering each of their loads, and
        finally the doubly-indirect block itself. */
    method ReleaseDoublySlot(txn: WriteTxn, rd: nat -> seq<nat>, p: nat, init: Status, load: Status,
                             ghost s1: S.FsState, ghost freed: seq<nat>,
                             ghost base: seq<S.TxnEntry>, ghost total: nat, remaining: nat)
      returns (status: Status, ghost freed': seq<nat>, remaining': nat)
      requires Walked(txn, s1, freed, base, total, remaining)
      requires p != 0 ==> p < s1.blockMap.size && S.TreeBelow(rd, rd(p), s1.blockMap.size)
      modifies this, txn
      ensures Walked(txn, s1, freed', base, total, remaining')
      ensures status == Ok ==> (init != Ok ==> p == 0) &&
                               (load != Ok ==> p == 0 || S.NonZero(rd(p)) == []) &&
                               freed' == freed + (if p == 0 then [] else S.IndirectRelease(rd, rd(p)) + [p])
      ensures status != Ok ==> p != 0 && freed' == freed &&
                               (init != Ok ==> status == init) &&
                               (init == Ok ==> status == load && S.NonZero(rd(p)) != [])
      ensures vnodeHash == old(vnodeHash)
    {
      if p == 0 {
        return Ok, freed, remaining;
      }
      if init != Ok {
        return init, freed, remaining;
      }
      status, freed', remaining' := ReleaseIndirect(txn, rd, rd(p), load, s1, freed, base, total, remaining);
      if status == Ok {
        freed', remaining' := ReleaseBlock(txn, p, s1, freed', base, total, remaining');
      }
    }

    /** The doubly-indirect walk after `n` slots: on success so far, the trees
        of those slots are released; after a failure, the status and what was
        released are those of the first failed InitIndirectVmo or load. */
    ghost predicate DoublyWalked(txn: WriteTxn, s1: S.FsState, rd: nat -> seq<nat>, ptrs: seq<nat>, n: nat,
                                 init: Status, load: Status, status: Status, freed: seq<nat>, freed': seq<nat>,
                                 base: seq<S.TxnEntry>, total: nat, remaining: nat)
      requires n <= |ptrs|
      reads this, txn
    {
      Walked(txn, s1, freed', base, total, remaining) &&
      (status == Ok ==> freed' == freed + S.DoublyRelease(rd, ptrs[..n]) &&
                        (init != Ok ==> S.NonZero(ptrs[..n]) == []) &&
                        (load != Ok ==> S.FirstLoad(rd, ptrs[..n], 0).None?)) &&
      (status != Ok && init != Ok ==> status == init && freed' == freed && S.NonZero(ptrs) != []) &&
      (status != Ok && init == Ok ==>
         status == load && S.FirstLoad(rd, ptrs, 0).Some? &&
         freed' == freed + S.DoublyRelease(rd, ptrs[..S.FirstLoad(rd, ptrs, 0).value]))
    }

    /** Slot `n` of the doubly-indirect walk, and the walk's standing after it. */
    method ReleaseDoublyStep(txn: WriteTxn, rd: nat -> seq<nat>, ptrs: seq<nat>, n: nat, init: Status, load: Status,
                             ghost s1: S.FsState, ghost freed: seq<nat>, ghost freed': seq<nat>,
                             ghost base: seq<S.TxnEntry>, ghost total: nat, remaining: nat)
      returns (status: Status, ghost freed'': seq<nat>, remaining': nat)
      requires n < |ptrs| && DoublyWalked(txn, s1, rd, ptrs, n, init, load, Ok, freed, freed', base, total, remaining)
      requires S.PointersBelow(ptrs, s1.blockMap.size)
      requires forall k :: 0 <= k < |ptrs| && ptrs[k] != 0 ==> S.TreeBelow(rd, rd(ptrs[k]), s1.blockMap.size)
      modifies this, txn
      ensures DoublyWalked(txn, s1, rd, ptrs, n + 1, init, load, status, freed, freed'', base, total, remaining')
      ensures vnodeHash == old(vnodeHash)
    {
      S.DoublySnoc(rd, ptrs, n);
      ghost var released := S.DoublyRelease(rd, ptrs[..n]);
      status, freed'', remaining' := ReleaseDoublySlot(txn, rd, ptrs[n], init, load, s1, freed', base, total, remaining);
      if status != Ok {
        if init != Ok {
          S.FirstNonZeroDoubly(rd, ptrs, n, freed);
        } else {
          S.FirstLoadAfter(rd, ptrs, n);
        }
      } else {
        if load != Ok {
          S.FirstLoadSnoc(rd, ptrs, n);
        }
        S.NonZeroSnoc(ptrs, n);
        Assoc(freed, released, if ptrs[n] == 0 then [] else S.IndirectRelease(rd, rd(ptrs[n])) + [ptrs[n]]);
      }
    }

    /** Release a run of doubly-indirect pointers, stopping at the first
        failed InitIndirectVmo or LoadIndirectWithinDoublyIndirect. */
    method ReleaseDoubly(txn: WriteTxn, rd: nat -> seq<nat>, ptrs: seq<nat>, init: Status, load: Status,
                         ghost s1: S.FsState, ghost freed: seq<nat>,
                         ghost base: seq<S.TxnEntry>, ghost total: nat, remaining: nat)
      returns (status: Status, ghost freed': seq<nat>, remaining': nat)
      requires Walked(txn, s1, freed, base, total, remaining) && S.PointersBelow(ptrs, s1.blockMap.size)
      requires forall k :: 0 <= k < |ptrs| && ptrs[k] != 0 ==> S.TreeBelow(rd, rd(ptrs[k]), s1.blockMap.size)
      modifies this, txn
      ensures DoublyWalked(txn, s1, rd, ptrs, |ptrs|, init, load, status, freed, freed', base, total, remaining')
      ensures vnodeHash == old(vnodeHash)
    {
      freed', remaining' := freed, remaining;
      status := Ok;
      var n := 0;
      DoublyWalkStarts(txn, s1, rd, ptrs, init, load, freed, base, total, remaining);
      while n < |ptrs| && status == Ok
        invariant 0 <= n <= |ptrs|
        invariant DoublyWalked(txn, s1, rd, ptrs, n, init, load, status, freed, freed', base, total, remaining')
        invariant vnodeHash == old(vnodeHash)
      {
        status, freed', remaining' := ReleaseDoublyStep(txn, rd, ptrs, n, init, load, s1, freed, freed', base, total, remaining');
        n := n + 1;
      }
      if status != Ok {
        DoublyFailureStands(txn, s1, rd, ptrs, n, init, load, status, freed, freed', base, total, remaining');
      }
    }

    /** Before any slot the walk has released nothing. */
    lemma DoublyWalkStarts(txn: WriteTxn, s1: S.FsState, rd: nat -> seq<nat>, ptrs: seq<nat>,
                           init: Status, load: Status, freed: seq<nat>,
                           base: seq<S.TxnEntry>, total: nat, remaining: nat)
      requires Walked(txn, s1, freed, base, total, remaining)
      ensures DoublyWalked(txn, s1, rd, ptrs, 0, init, load, Ok, freed, freed, base, total, remaining)
    {
      var none := ptrs[..0];
      assert none == [];
      assert S.DoublyRelease(rd, none) == [] && S.NonZero(none) == [] && S.FirstLoad(rd, none, 0).None?;
      AppendNothing(freed);
    }

    /** After a failure the walk's standing no longer depends on how many
        slots were looked at. */
    lemma DoublyFailureStands(txn: WriteTxn, s1: S.FsState, rd: nat -> seq<nat>, ptrs: seq<nat>, n: nat,
                              init: Status, load: Status, status: Status, freed: seq<nat>, freed': seq<nat>,
                              base: seq<S.TxnEntry>, total: nat, remaining: nat)
      requires n <= |ptrs| && status != Ok
      requires DoublyWalked(txn, s1, rd, ptrs, n, init, load, status, freed, freed', base, total, remaining)
      ensures DoublyWalked(txn, s1, rd, ptrs, |ptrs|, init, load, status, freed, freed', base, total, remaining)
    {
    }

    /** The block walk of InoFree: direct, indirect and doubly-indirect
        blocks, in that order, stopping at the first failed load. */
    method ReleaseAll(txn: WriteTxn, inode: Inode, rd: nat -> seq<nat>, initStatus: Status, loadStatus: Status,
                      ghost s1: S.FsState, ghost base: seq<S.TxnEntry>, remaining: nat)
      returns (status: Status, ghost freed: seq<nat>, remaining': nat)
      requires Walked(txn, s1, [], base, inode.blockCount, remaining)
      requires S.PointersValid(inode, rd, s1.blockMap.size)
      modifies this, txn
      ensures Walked(txn, s1, freed, base, inode.blockCount, remaining')
      ensures S.FreeWalk(inode, rd, initStatus, loadStatus) == S.Walk(status, freed)
      ensures vnodeHash == old(vnodeHash)
    {
      freed, remaining' := ReleaseRun(txn, inode.dnum, s1, [], base, inode.blockCount, remaining);
      assert freed == S.NonZero(inode.dnum);
      status, freed, remaining' := ReleaseIndirect(txn, rd, inode.inum, initStatus, s1, freed, base, inode.blockCount, remaining');
      if status == Ok {
        ghost var through := freed;
        status, freed, remaining' := ReleaseDoubly(txn, rd, inode.dinum, initStatus, loadStatus, s1, freed, base, inode.blockCount, remaining');
        assert inode.dinum[..|inode.dinum|] == inode.dinum;
        S.WalkAfterIndirect(inode, rd, initStatus, loadStatus, status, through, freed);
      } else {
        S.WalkStopsAtIndirect(inode, rd, initStatus, loadStatus);
      }
    }

    /** Free the inode bit itself and stage its inode-bitmap block. */
    method ClearInodeBit(txn: WriteTxn, ino: nat)
      requires Valid() && ino < inodeMap.size
      modifies this, txn
      ensures State() == S.ClearInode(old(State()), ino)
      ensures txn.entries == old(txn.entries) + [S.InodeBitmapEntry(old(info), ino)]
      ensures vnodeHash == old(vnodeHash)
    {
      ghost var s0 := State();
      inodeMap := B.Clear(inodeMap, ino);
      info := info.(allocInodeCount := Sub32(info.allocInodeCount, 1));
      txn.Enqueue(S.InodeBitmapEntry(info, ino));
      assert State() == S.ClearInode(s0, ino);
    }

    /** Release an inode and every block it owns. `rd(b)` is the content of
        pointer block b; `initStatus` answers InitIndirectVmo and `loadStatus`
        LoadIndirectWithinDoublyIndirect. `remaining` is the running block
        counter started at the inode's block count. */
    method InoFree(vn: Vnode, txn: WriteTxn, rd: nat -> seq<nat>, initStatus: Status, loadStatus: Status)
      returns (status: Status, remaining: nat)
      requires Valid() && vn.ino < inodeMap.size && vn.inode.blockCount < U32_MOD
      requires S.PointersValid(vn.inode, rd, blockMap.size)
      modifies this, txn
      ensures var r := S.InoFree(old(State()), vn.ino, vn.inode, rd, initStatus, loadStatus);
              status == r.status && State() == r.state && txn.entries == old(txn.entries) + r.txn
      ensures status == Ok ==> remaining == S.WrapSub(vn.inode.blockCount, |S.ReleaseOrder(vn.inode, rd)|)
      ensures vnodeHash == old(vnodeHash)
    {
      ghost var s0 := State();
      ClearInodeBit(txn, vn.ino);
      ghost var s1 := State();
      ghost var base := txn.entries;
      S.FreeBlocksNone(s1);
      assert base + [] == base;
      ghost var freed;
      status, freed, remaining := ReleaseAll(txn, vn.inode, rd, initStatus, loadStatus, s1, base, vn.inode.blockCount);
      S.InoFreeOfWalk(s0, vn.ino, vn.inode, rd, initStatus, loadStatus, status, freed);
      ghost var staged := txn.entries;
      if status == Ok {
        status := CountUpdate(txn);
      }
      ghost var tail := if status == Ok then [S.SuperblockEntry()] else [];
      ghost var head := [S.InodeBitmapEntry(s0.info, vn.ino)];
      Assoc(old(txn.entries), head, S.FreeEntries(s0.info.abmBlock, freed));
      Assoc(old(txn.entries), head + S.FreeEntries(s0.info.abmBlock, freed), tail);
    }

    // -------------------------------------------------------------------------
    // The vnode table (VnodeNew, VnodeInsert, VnodeLookup, VnodeReleaseLocked,
    // VnodeGet: minfs.cpp:562-650)

    /** Cache a vnode under its inode number; the key must be absent. */
    method VnodeInsert(vn: Vnode)
      requires vn.ino !in vnodeHash
      modifies this
      ensures vnodeHash == old(vnodeHash)[vn.ino := vn]
      ensures State() == old(State())
    {
      vnodeHash := vnodeHash[vn.ino := vn];
    }

    /** Find the cached vnode of `ino`. An entry that can no longer be
        referenced is a miss and is erased by key; an unlinked vnode is
        reported as absent but stays cached. */
    method VnodeLookup(ino: nat) returns (vn: Vnode?)
      modifies this
      ensures State() == old(State())
      ensures ino !in old(vnodeHash) ==> vn == null && vnodeHash == old(vnodeHash)
      ensures ino in old(vnodeHash) && !old(vnodeHash)[ino].live ==>
                vn == null && vnodeHash == old(vnodeHash) - {ino}
      ensures ino in old(vnodeHash) && old(vnodeHash)[ino].live ==>
                vnodeHash == old(vnodeHash) &&
                vn == (if old(vnodeHash)[ino].unlinked then null else old(vnodeHash)[ino])
    {
      if ino !in vnodeHash {
        return null;
      }
      vn := vnodeHash[ino];
      if !vn.live {
        vnodeHash := vnodeHash - {ino};
        vn := null;
      } else if vn.unlinked {
        vn := null;
      }
    }

    /** Drop a vnode that is being destroyed: by identity, so a newer vnode
        cached under the same inode number survives. */
    method VnodeReleaseLocked(vn: Vnode)
      modifies this
      ensures vnodeHash == EraseObject(old(vnodeHash), vn)
      ensures State() == old(State())
    {
      vnodeHash := EraseObject(vnodeHash, vn);
    }

    /** Open inode `ino`: the cached vnode if there is a usable one, otherwise
        a new vnode holding the inode's record from the table, cached.
        `allocOk` is whether the memory for a new vnode is available. A live
        but unlinked vnode cached for `ino` would make the insertion fail its
        assertion, so callers do not open such an inode. */
    method VnodeGet(ino: nat, allocOk: bool) returns (status: Status, vn: Vnode?)
      requires Valid()
      requires ino in vnodeHash && vnodeHash[ino].live ==> !vnodeHash[ino].unlinked
      modifies this
      ensures State() == old(State())
      ensures !(1 <= ino < info.inodeCount) ==>
                status == ErrOutOfRange && vn == null && vnodeHash == old(vnodeHash)
      ensures 1 <= ino < info.inodeCount && ino in old(vnodeHash) && old(vnodeHash)[ino].live ==>
                status == Ok && vn == old(vnodeHash)[ino] && vnodeHash == old(vnodeHash)
      ensures 1 <= ino < info.inodeCount && (ino !in old(vnodeHash) || !old(vnodeHash)[ino].live) ==>
                if allocOk then
                  status == Ok && vn != null && fresh(vn) && vn.ino == ino &&
                  vn.inode == inodeTable[ino] && vn.live && !vn.unlinked &&
                  vnodeHash == old(vnodeHash)[ino := vn]
                else
                  status == ErrNoMemory && vn == null && vnodeHash == old(vnodeHash) - {ino}
      ensures status == Ok ==> vn != null && ino in vnodeHash && vnodeHash[ino] == vn && vn.live && !vn.unlinked
    {
      if ino < 1 || ino >= info.inodeCount {
        return ErrOutOfRange, null;
      }
      vn := VnodeLookup(ino);
      if vn != null {
        return Ok, vn;
      }
      if !allocOk {
        return ErrNoMemory, null;
      }
      vn := new Vnode(ino, inodeTable[ino]);
      VnodeInsert(vn);
      status := Ok;
    }

    /** Create a file or directory: a new vnode over a newly allocated inode,
        cached under its number. `allocStatus` is the outcome of allocating
        the in-memory vnode. Every cached vnode is of an allocated inode, so
        the new inode number is not in the table. */
    method VnodeNew(txn: WriteTxn, vtype: VnodeType, inode: Inode, allocStatus: Status, env: S.GrowEnv)
      returns (status: Status, vn: Vnode?)
      requires Valid()
      requires forall k :: k in vnodeHash ==> k < inodeMap.size && inodeMap.storage[k]
      modifies this, txn
      ensures vtype.OtherType? ==>
                status == ErrInvalidArgs && vn == null &&
                State() == old(State()) && txn.entries == old(txn.entries) && vnodeHash == old(vnodeHash)
      ensures !vtype.OtherType? && allocStatus != Ok ==>
                status == allocStatus && vn == null &&
                State() == old(State()) && txn.entries == old(txn.entries) && vnodeHash == old(vnodeHash)
      ensures !vtype.OtherType? && allocStatus == Ok ==>
                var r := S.InoNew(old(State()), inode, env);
                status == r.status && State() == r.state && txn.entries == old(txn.entries) + r.txn &&
                (status == Ok ==>
                   vn != null && fresh(vn) && vn.ino == r.value && vn.inode == inode &&
                   old(vnodeHash) == vnodeHash - {vn.ino} && r.value !in old(vnodeHash) &&
                   vnodeHash == old(vnodeHash)[vn.ino := vn]) &&
                (status != Ok ==> vn == null && vnodeHash == old(vnodeHash))
    {
      if vtype.OtherType? {
        return ErrInvalidArgs, null;
      }
      if allocStatus != Ok {
        return allocStatus, null;
      }
      status, vn := AllocVnode(txn, inode, env);
    }

    /** The part of VnodeNew after the type check and the vnode allocation:
        allocate an inode and cache the new vnode under its number. */
    method AllocVnode(txn: WriteTxn, inode: Inode, env: S.GrowEnv) returns (status: Status, vn: Vnode?)
      requires Valid()
      requires forall k :: k in vnodeHash ==> k < inodeMap.size && inodeMap.storage[k]
      modifies this, txn
      ensures var r := S.InoNew(old(State()), inode, env);
              status == r.status && State() == r.state && txn.entries == old(txn.entries) + r.txn &&
              (status == Ok ==>
                 vn != null && fresh(vn) && vn.ino == r.value && vn.inode == inode &&
                 old(vnodeHash) == vnodeHash - {vn.ino} && r.value !in old(vnodeHash) &&
                 vnodeHash == old(vnodeHash)[vn.ino := vn]) &&
              (status != Ok ==> vn == null && vnodeHash == old(vnodeHash))
    {
      ghost var s0 := State();
      var ino;
      status, ino := InoNew(txn, inode, env);
      if status != Ok {
        return status, null;
      }
      S.InoNewAllocatesFreeInode(s0, inode, env);
      vn := new Vnode(ino, inode);
      VnodeInsert(vn);
    }
  }
}
