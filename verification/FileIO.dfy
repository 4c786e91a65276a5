// Reading and writing regular files.
module FileIO {
  import opened Basics
  import opened Disk
  import opened Codec
  import opened ZnsMemory
  import opened Checkpoints
  import opened LogZone
  import opened InodeBlock
  import opened InodeEntries
  import opened InodeLba
  import opened Inodes
  import opened FileData
  import opened FileWrite
  import opened FileTruncate
  import opened FileRead
  import opened FileOverlay
  import opened FileHistory

  class FileIO {
    const nvme: NvmeZnsMemoryBackend
    const log: LogZone
    const inodes: Inodes
    var dataBlocks: map<u64, Blocks>

    constructor (inodes: Inodes)
      ensures this.inodes == inodes && this.log == inodes.log && this.nvme == inodes.nvme
      ensures dataBlocks == map[]
    {
      this.inodes, this.log, this.nvme := inodes, inodes.log, inodes.nvme;
      dataBlocks := map[];
    }

    // The data blocks of an inode with the size of its entry.
    function FileOf(entry: InodeEntry): File
      reads this
    {
      File(BlocksOf(dataBlocks, entry.inode), entry.size)
    }

    // The files of the file system, for the histories of module FileHistory.
    ghost function Files(): Store
      requires FsDisk(inodes.nvme.disk)
      reads this, inodes, inodes.nvme, inodes.log, inodes.lbaMap, inodes.entries
    {
      StoreOf(inodes.State(), dataBlocks)
    }

    ghost predicate Ready()
      reads this, nvme, nvme.data, nvme.writePointers, log
    {
      log.nvme == nvme && nvme.Valid() && LogInv(nvme.disk, log.logPtr)
    }

    // lba_to_position and a read of the whole sector there.
    method ReadLba(lba: u64) returns (ok: bool, bytes: Sector)
      requires Ready()
      ensures FsDisk(nvme.disk) && (ok <==> LbaReadable(nvme.disk, lba))
      ensures ok ==> bytes == SectorAt(nvme.disk, lba) && |bytes| == SECTOR_SIZE
    {
      hide Stored;
      ok, bytes := nvme.Read(LbaZone(nvme.info, lba), LbaSector(nvme.info, lba), 0, SECTOR_SIZE);
    }

    method AssignDataBlock(ino: u64, blockNum: nat, blk: DataBlock)
      modifies `dataBlocks
      ensures dataBlocks == old(dataBlocks)[ino := BlocksOf(old(dataBlocks), ino)[blockNum := blk]]
    {
      if ino !in dataBlocks {
        dataBlocks := dataBlocks[ino := map[]];
      }
      var blocks: Blocks := dataBlocks[ino];
      blocks := blocks[blockNum := blk];
      dataBlocks := dataBlocks[ino := blocks];
    }

    method GetDataBlock(entry: InodeEntry, blockNum: nat) returns (ret: Ret, blk: DataBlock)
      requires Ready()
      ensures var r := DataBlockOf(nvme.disk, dataBlocks, entry, blockNum);
              if r.Some? then ret == RetNone && blk == r.value else ret == RetErr
      ensures entry.inode !in dataBlocks ==> ret == RetErr
      ensures entry.inode in dataBlocks && blockNum in dataBlocks[entry.inode] ==>
                ret == RetNone && blk == dataBlocks[entry.inode][blockNum]
      ensures entry.inode in dataBlocks && blockNum !in dataBlocks[entry.inode] ==>
                var r := LinkedBlock(nvme.disk, entry.dataLba, blockNum);
                if r.Some? then ret == RetNone && blk == r.value else ret == RetErr
    {
      hide DecodeDataBlock, Stored;
      blk := ZeroBlock();
      if entry.inode !in dataBlocks {
        return RetErr, blk;
      }
      if blockNum in dataBlocks[entry.inode] {
        return RetNone, dataBlocks[entry.inode][blockNum];
      }
      if blockNum == 0 {
        ret, blk := GetDataBlockImmediate(entry.dataLba);
      } else {
        ret, blk := GetDataBlockLinked(entry.dataLba, blockNum);
      }
    }

    method GetDataBlockImmediate(lba: u64) returns (ret: Ret, blk: DataBlock)
      requires Ready()
      ensures var r := LinkedBlock(nvme.disk, lba, 0);
              if r.Some? then ret == RetNone && blk == r.value else ret == RetErr
    {
      hide DecodeDataBlock, NvmeZnsMemoryBackend.Valid, LogInv;
      assert FsDisk(nvme.disk) by { LogIsFs(nvme.disk, log.logPtr); }
      var ok, bytes := ReadLba(lba);
      if !ok {
        return RetErr, ZeroBlock();
      }
      return RetNone, DecodeDataBlock(bytes);
    }

    method GetDataBlockLinked(start: u64, blockNum: nat) returns (ret: Ret, blk: DataBlock)
      requires Ready()
      ensures var r := LinkedBlock(nvme.disk, start, blockNum);
              if r.Some? then ret == RetNone && blk == r.value else ret == RetErr
    {
      hide DecodeDataBlock, NvmeZnsMemoryBackend.Valid, LogInv;
      assert FsDisk(nvme.disk) by { LogIsFs(nvme.disk, log.logPtr); }
      var lba := start;
      for i := 0 to blockNum
        invariant LinkedBlock(nvme.disk, lba, blockNum - i) == LinkedBlock(nvme.disk, start, blockNum)
      {
        var ok, bytes := ReadLba(lba);
        if !ok {
          return RetErr, ZeroBlock();
        }
        lba := DecodeDataBlock(bytes).next;
      }
      ret, blk := GetDataBlockImmediate(lba);
    }

    // Write a single sector, keeping what an existing sector has around it.
    method WriteSector(size: nat, offset: nat, curLba: u64, data: seq<byte>, junk: Sector) returns (ret: Ret, resultLba: u64)
      requires Ready() && |data| == size && |junk| == SECTOR_SIZE
      modifies log`logPtr, nvme`disk, nvme.data, nvme.writePointers
      ensures Ready()
      ensures (log.State(), ret, resultLba)
              == FileWrite.WriteSector(LogState(old(nvme.disk), old(log.logPtr)), size, offset, curLba, data, junk)
    {
      hide NvmeZnsMemoryBackend.Valid, LogInv, AppendSector, FsDisk, Merge;
      assert FsDisk(nvme.disk) by { LogIsFs(nvme.disk, log.logPtr); }
      SectorIs4096(nvme.disk);
      if offset + size > SECTOR_SIZE {
        return RetErr, 0;
      }
      var buffer := new byte[SECTOR_SIZE](i requires 0 <= i < SECTOR_SIZE => junk[i]);
      assert buffer[..] == junk;
      if curLba != 0 && size != SECTOR_SIZE && offset != 0 {
        var ok, bytes := ReadLba(curLba);
        if !ok {
          return RetErr, 0;
        }
        CopyInto(buffer, 0, bytes);
        assert buffer[..] == bytes;
      }
      ghost var base := buffer[..];
      CopyInto(buffer, offset, data);
      MergeIs(base, offset, data, buffer[..]);
      ret, resultLba := log.LogAppend(buffer[..]);
    }

    // Enter an address into the current data block; behind the last entry the
    // block is stored and the next one opened.
    method EnterSector(entry: InodeEntry, num: nat, idx: nat, cur: DataBlock, lba: u64, ghost f: File, ghost k: nat)
      returns (ret: Ret, num': nat, idx': nat, cur': DataBlock)
      requires Ready() && f.size == entry.size && idx < DATA_BLK_LBA_NUM && k == num * DATA_BLK_LBA_NUM + idx
      requires Loaded(f, BlocksOf(dataBlocks, entry.inode)[num := cur])
      modifies `dataBlocks
      ensures ret == RetNone
      ensures num' * DATA_BLK_LBA_NUM + idx' == k + 1 && idx' < DATA_BLK_LBA_NUM
      ensures k / DATA_BLK_LBA_NUM in old(BlocksOf(dataBlocks, entry.inode)[num := cur])
      ensures BlocksOf(dataBlocks, entry.inode)[num' := cur']
              == Entered(f, old(BlocksOf(dataBlocks, entry.inode)[num := cur]), k, lba)
      ensures forall x | x != entry.inode :: BlocksOf(dataBlocks, x) == BlocksOf(old(dataBlocks), x)
      ensures SameFrom(old(BlocksOf(dataBlocks, entry.inode)), BlocksOf(dataBlocks, entry.inode), num')
    {
      hide NvmeZnsMemoryBackend.Valid, LogInv, Entered, LbaAt, LinkedBlock, Loaded, FsDisk;
      LogIsFs(nvme.disk, log.logPtr);
      EnteredIs(f, BlocksOf(dataBlocks, entry.inode)[num := cur], BlocksOf(dataBlocks, entry.inode), num, idx, cur, k, lba);
      num', idx', cur' := num, idx, cur.(lbas := cur.lbas[idx := lba]);
      idx' := idx' + 1;
      if idx' >= DATA_BLK_LBA_NUM {
        AssignDataBlock(entry.inode, num', cur');
        idx' := 0;
        num' := num' + 1;
        cur' := ZeroBlock();
      }
      ret := RetNone;
      if idx' == 0 && entry.size > DATA_BLK_LBA_NUM * SECTOR_SIZE * num' {
        ret, cur' := GetDataBlock(entry, num');
      }
    }

    // One round of the sector loop: write a sector and enter its address. The
    // bytes come from the data and from the memory behind it.
    method WriteNext(entry: InodeEntry, buffer: seq<byte>, behind: seq<byte>, off: nat, bOff: nat, sSize: nat, sOff: nat,
                     num: nat, idx: nat, cur: DataBlock, junk: Sector,
                     ghost d0: Disk, ghost f: File, ghost junks: seq<Sector>, ghost news: seq<Sector>, ghost i: nat)
      returns (ret: Ret, num': nat, idx': nat, cur': DataBlock)
      requires Ready() && CountedArgs(d0, f, off, buffer, behind, junks) && off <= Sectors(f.size) * SECTOR_SIZE
      requires i < |junks| && junk == junks[i] && f.size == entry.size && off + |buffer| < U64_LIMIT
      requires news == AllAppended(FileSectors(d0, f), off, buffer, behind, junks)
      requires Cursor(off, |buffer|, i, bOff, sSize, sOff)
      requires idx < DATA_BLK_LBA_NUM && num * DATA_BLK_LBA_NUM + idx == off / SECTOR_SIZE + i
      requires Writing(d0, f, off / SECTOR_SIZE, news, i, nvme.disk, BlocksOf(dataBlocks, entry.inode)[num := cur])
      modifies `dataBlocks, log`logPtr, nvme`disk, nvme.data, nvme.writePointers
      ensures Ready() && LogGrows(old(nvme.disk), nvme.disk) && SameOutsideLog(old(nvme.disk), nvme.disk)
      ensures forall x | x != entry.inode :: BlocksOf(dataBlocks, x) == BlocksOf(old(dataBlocks), x)
      ensures ret == RetNone <==> Room(old(log.State())) > 0
      ensures ret == RetNone ==> Room(log.State()) == Room(old(log.State())) - 1
      ensures ret != RetNone ==> log.State() == old(log.State()) && dataBlocks == old(dataBlocks)
      ensures ret == RetNone ==>
                && SameFrom(old(BlocksOf(dataBlocks, entry.inode)), BlocksOf(dataBlocks, entry.inode), num')
                && num' * DATA_BLK_LBA_NUM + idx' == off / SECTOR_SIZE + i + 1 && idx' < DATA_BLK_LBA_NUM
                && Writing(d0, f, off / SECTOR_SIZE, news, i + 1, nvme.disk,
                           BlocksOf(dataBlocks, entry.inode)[num' := cur'])
    {
      hide NvmeZnsMemoryBackend.Valid, LogInv, LogGrows, SameOutsideLog, FileSectors, Writing, Loaded,
           Touched, RoundLen, FsDisk, AllAppended, Appended, Sectors,
           Entered, LbaAt, Backed, InLog, SectorAt, FileWrite.WriteSector, LinkedBlock, SameFrom;
      ghost var view, k := BlocksOf(dataBlocks, entry.inode)[num := cur], off / SECTOR_SIZE + i;
      ghost var before := log.State();
      LogIsFs(nvme.disk, log.logPtr);
      SectorWritten(d0, f, off, buffer, behind, junks, i, before, view);
      CurrentLbaOf(d0, f, off / SECTOR_SIZE, news, i, nvme.disk, view, num, idx);
      ChunkIs(off, |buffer|, i, bOff, sSize, sOff);
      var size := if sSize + sOff > SECTOR_SIZE then SECTOR_SIZE - sOff else sSize;
      var lba;
      num', idx', cur' := num, idx, cur;
      ret, lba := WriteSector(size, sOff, cur.lbas[idx], (buffer + behind)[bOff..bOff + size], junk);
      LogIsFs(nvme.disk, log.logPtr);
      if ret != RetNone {
        return;
      }
      WritingStep(d0, f, off / SECTOR_SIZE, news, i, before.d, view, nvme.disk, lba);
      ret, num', idx', cur' := EnterSector(entry, num, idx, cur, lba, f, k);
    }

    // The sector loop of write_regular, and the last data block. When the log
    // runs out the block that was being filled is dropped, and those before it
    // are not.
    method WriteData(entry: InodeEntry, buffer: seq<byte>, behind: seq<byte>, off: nat, numSectors: nat, blkNum: nat,
                     lbaIndex: nat, start: DataBlock, junk: seq<Sector>) returns (ret: Ret)
      requires Ready() && CountedArgs(nvme.disk, FileOf(entry), off, buffer, behind, junk)
      requires numSectors == |junk| && off + |buffer| < U64_LIMIT
      requires blkNum == off / SECTOR_SIZE / DATA_BLK_LBA_NUM && lbaIndex == off / SECTOR_SIZE % DATA_BLK_LBA_NUM
      requires FileOf(entry).size > 0 ==> blkNum in FileOf(entry).blocks
      requires start == StartBlock(FileOf(entry), blkNum)
      modifies `dataBlocks, log`logPtr, nvme`disk, nvme.data, nvme.writePointers
      ensures Ready() && LogGrows(old(nvme.disk), nvme.disk) && SameOutsideLog(old(nvme.disk), nvme.disk)
      ensures forall x | x != entry.inode :: BlocksOf(dataBlocks, x) == BlocksOf(old(dataBlocks), x)
      ensures ret == RetNone <==> Room(old(log.State())) >= numSectors
      ensures ret == RetNone ==>
                WroteCounted(old(nvme.disk), old(FileOf(entry)), off, buffer, behind, junk, nvme.disk,
                             File(BlocksOf(dataBlocks, entry.inode), MaxSize(entry.size, off + |buffer|)))
      ensures ret != RetNone ==>
                var i := Room(old(log.State()));
                && 0 <= i < |junk| && Room(log.State()) == 0
                && Torn(old(nvme.disk), old(FileOf(entry)), off, buffer, junk, i, nvme.disk, FileOf(entry))
    {
      hide NvmeZnsMemoryBackend.Valid, LogInv, LogGrows, SameOutsideLog, FileSectors, Writing, Loaded,
           Touched, FsDisk, AllAppended, Appended, Sectors,
           Entered, LbaAt, Backed, InLog, SectorAt, FileWrite.WriteSector, LinkedBlock, Room, Cursor,
           Torn, SameFrom;
      ghost var d0, f, first := nvme.disk, FileOf(entry), off / SECTOR_SIZE;
      var num: nat, idx: nat, cur: DataBlock := blkNum, lbaIndex, start;
      var bOff: nat, sSize: nat, sOff: nat := 0, |buffer|, off % SECTOR_SIZE;
      SectorsAfter(f.size, off, |buffer|);
      ghost var news := AllAppended(FileSectors(d0, f), off, buffer, behind, junk);
      WritingStart(d0, f, off, news);
      CursorStart(off, |buffer|);
      GrowsReflexive(d0);
      RoomStep(log.State());
      SameFromSame(f.blocks, num);
      ghost var view := f.blocks[num := cur];
      for i := 0 to numSectors
        invariant Ready() && LogGrows(d0, nvme.disk) && SameOutsideLog(d0, nvme.disk)
        invariant forall x | x != entry.inode :: BlocksOf(dataBlocks, x) == BlocksOf(old(dataBlocks), x)
        invariant num * DATA_BLK_LBA_NUM + idx == first + i && idx < DATA_BLK_LBA_NUM
        invariant Cursor(off, |buffer|, i, bOff, sSize, sOff)
        invariant Room(log.State()) == Room(old(log.State())) - i && Room(log.State()) >= 0
        invariant view == BlocksOf(dataBlocks, entry.inode)[num := cur]
        invariant SameFrom(f.blocks, BlocksOf(dataBlocks, entry.inode), num)
        invariant Writing(d0, f, first, news, i, nvme.disk, view)
      {
        ghost var before, was, n, at, block := nvme.disk, BlocksOf(dataBlocks, entry.inode), num, idx, cur;
        RoomStep(log.State());
        CurrentLbaOf(d0, f, first, news, i, before, view, n, at);
        ret, num, idx, cur := WriteNext(entry, buffer, behind, off, bOff, sSize, sOff, num, idx, cur, junk[i],
                                        d0, f, junk, news, i);
        GrowsTransitive(d0, before, nvme.disk);
        if ret != RetNone {
          WritingTorn(d0, f, off, buffer, behind, junk, i, nvme.disk, view, was, n, block);
          return RetErr;
        }
        SameFromTransitive(f.blocks, was, BlocksOf(dataBlocks, entry.inode), n, num);
        view := BlocksOf(dataBlocks, entry.inode)[num := cur];
        CursorStep(off, |buffer|, i, bOff, sSize, sOff);
        bOff := bOff + (SECTOR_SIZE - sOff);
        sSize := (sSize - (SECTOR_SIZE - sOff)) % U64_LIMIT;
        if i == 0 {
          sOff := 0;
        }
      }
      AssignDataBlock(entry.inode, num, cur);
      return RetNone;
    }

    // write_regular: the data goes to the log, the entry in memory gets the new
    // size, and nothing else changes. A write that finds no room keeps the size,
    // and of its data what reached full blocks.
    method WriteRegular(ino: u64, buffer: seq<byte>, behind: seq<byte>, off: nat, numSectors: nat, blkNum: nat, lbaIndex: nat,
                        junk: seq<Sector>) returns (ret: Ret)
      requires inodes.Ready() && inodes.log == log && inodes.nvme == nvme && log.nvme == nvme
      requires var r := LookupOf(inodes.State(), ino);
               r.Found? ==> CountedArgs(nvme.disk, FileOf(r.value.entry), off, buffer, behind, junk)
      requires numSectors == |junk| && off + |buffer| < U64_LIMIT
      requires blkNum == off / SECTOR_SIZE / DATA_BLK_LBA_NUM && lbaIndex == off / SECTOR_SIZE % DATA_BLK_LBA_NUM
      modifies `dataBlocks, inodes.entries, log`logPtr, nvme`disk, nvme.data, nvme.writePointers
      ensures inodes.Ready() && LogGrows(old(nvme.disk), nvme.disk) && SameOutsideLog(old(nvme.disk), nvme.disk)
      ensures forall x | x != ino :: BlocksOf(dataBlocks, x) == BlocksOf(old(dataBlocks), x)
      ensures forall x | x != ino || ret != RetNone :: LookupOf(inodes.State(), x) == LookupOf(old(inodes.State()), x)
      ensures ret == RetNone <==>
                LookupOf(old(inodes.State()), ino).Found? && Room(old(log.State())) >= numSectors
      ensures ret == RetNone ==>
                var r, r' := LookupOf(old(inodes.State()), ino), LookupOf(inodes.State(), ino);
                && r.Found? && r'.Found? && r'.value.name == r.value.name
                && r'.value.entry == r.value.entry.(size := MaxSize(r.value.entry.size, off + |buffer|))
                && WriteOutcome(old(nvme.disk), old(FileOf(r.value.entry)), off, buffer, behind, junk,
                                nvme.disk, FileOf(r'.value.entry))
      ensures ret != RetNone ==>
                match LookupOf(old(inodes.State()), ino)
                case Found(e) =>
                  && 0 <= Room(old(log.State())) < |junk|
                  && Torn(old(nvme.disk), old(FileOf(e.entry)), off, buffer, junk, Room(old(log.State())),
                          nvme.disk, FileOf(e.entry))
                case _ => dataBlocks == old(dataBlocks) && nvme.disk == old(nvme.disk)
      ensures FsDisk(old(nvme.disk)) && FsDisk(nvme.disk)
      ensures WriteEvent(old(Files()), ino, off, buffer, junk, ret, Room(old(log.State())), Files())
    {
      hide NvmeZnsMemoryBackend.Valid, LogInv, LogGrows, SameOutsideLog, MetaInv, LookupOf, LinkedBlock,
           Complete, FsDisk, Backed, Loaded, Touched, Torn, StoreOf, WriteEvent, Room, WroteCounted, WriteOutcome;
      ghost var m := inodes.State();
      InvLog(m);
      FoundIsProper(m, ino);
      GrowsReflexive(nvme.disk);
      var found;
      ret, found := inodes.GetInode(ino);
      if ret != RetNone {
        NoFileNoEvent(m, Files(), dataBlocks, ino, off, buffer, junk, RetErr);
        return RetErr;
      }
      var entry := found.value;
      ghost var all, d0, f := dataBlocks, nvme.disk, FileOf(entry.entry);
      StartLoaded(nvme.disk, FileOf(entry.entry), off, blkNum);
      var start := ZeroBlock();
      if entry.entry.size > 0 {
        ret, start := GetDataBlock(entry.entry, blkNum);
        if ret != RetNone {
          return RetErr;
        }
      }
      ret := WriteData(entry.entry, buffer, behind, off, numSectors, blkNum, lbaIndex, start, junk);
      GrowthKeeps(m, log.State());
      if ret != RetNone {
        FailedWriteIsEvent(m, inodes.State(), all, dataBlocks, ino, off, buffer, junk, RetErr);
        return RetErr;
      }
      entry := entry.(entry := entry.entry.(size := MaxSize(entry.entry.size, off + |buffer|)));
      CountedOutcome(d0, f, off, buffer, behind, junk, nvme.disk, FileOf(entry.entry));
      UpdateEntryKeeps(m, log.State(), entry);
      inodes.entries.UpdateInodeEntry(entry);
      WriteIsEvent(m, inodes.State(), all, dataBlocks, ino, off, buffer, behind, junk);
    }

    // The part of write() behind its lookups: the range is counted in sectors
    // and written. What comes out of a wrong count is part of WriteOutcome. The
    // flat file is overlaid when the count is right, or one too long with nothing
    // of the file behind, and the write is clean; when the log runs out after a
    // number of sectors, with what reached full data blocks.
    method Write(ino: u64, buffer: seq<byte>, behind: seq<byte>, offset: nat, append: bool, stSize: nat, junk: seq<Sector>)
      returns (ret: Ret)
      requires inodes.Ready() && inodes.log == log && inodes.nvme == nvme && log.nvme == nvme
      requires var r, off := LookupOf(inodes.State(), ino), if append then stSize else offset;
               && r.Found? && r.value.entry.size == stSize && offset <= stSize
               && FileInv(nvme.disk, FileOf(r.value.entry))
               && WholeSectors(junk)
               && |junk| == |buffer| / SECTOR_SIZE + (if (|buffer| + off) % SECTOR_SIZE != 0 then 1 else 0)
                            + (if off % (SECTOR_SIZE + |buffer|) > SECTOR_SIZE then 1 else 0)
               && |behind| == 2 * SECTOR_SIZE && off + |buffer| < U64_LIMIT
      modifies `dataBlocks, inodes.entries, log`logPtr, nvme`disk, nvme.data, nvme.writePointers
      ensures inodes.Ready() && LogGrows(old(nvme.disk), nvme.disk)
      ensures ret == RetNone <==> Room(old(log.State())) >= |junk|
      ensures var r, r' := LookupOf(old(inodes.State()), ino), LookupOf(inodes.State(), ino);
              var off := if append then stSize else offset;
              && r'.Found? && r'.value.name == r.value.name
              && r'.value.entry == (if ret != RetNone then r.value.entry
                                    else r.value.entry.(size := MaxSize(stSize, off + |buffer|)))
              && WriteResult(old(nvme.disk), old(FileOf(r.value.entry)), off, buffer, behind, junk, ret == RetNone,
                             Room(old(log.State())), nvme.disk, FileOf(r'.value.entry))
      ensures FsDisk(old(nvme.disk)) && FsDisk(nvme.disk)
      ensures WriteEvent(old(Files()), ino, if append then stSize else offset, buffer, junk, ret, Room(old(log.State())),
                         Files())
    {
      hide NvmeZnsMemoryBackend.Valid, MetaInv, LogInv, LookupOf, WriteOutcome, FileInv, LogGrows, NumSectors, Torn,
           WriteEvent, WriteResult, SameOutsideLog, StoreOf, Room, Touched, Sectors;
      var off := offset;
      if append && off != stSize {
        off := stSize;
      }
      InvLog(inodes.State());
      ghost var d, f := nvme.disk, FileOf(LookupOf(inodes.State(), ino).value.entry);
      ghost var room := Room(log.State());
      NumSectorsIs(off, |buffer|);
      NumSectorsOffByOne(off, |buffer|);
      var numSectors := |buffer| / SECTOR_SIZE;
      if (|buffer| + off) % SECTOR_SIZE != 0 {
        numSectors := numSectors + 1;
      }
      if off % (SECTOR_SIZE + |buffer|) > SECTOR_SIZE {
        numSectors := numSectors + 1;
      }
      ret := WriteRegular(ino, buffer, behind, off, numSectors, off / SECTOR_SIZE / DATA_BLK_LBA_NUM,
                          off / SECTOR_SIZE % DATA_BLK_LBA_NUM, junk);
      ghost var f' := FileOf(LookupOf(inodes.State(), ino).value.entry);
      if ret == RetNone {
        SuccessWritten(d, f, off, buffer, behind, junk, room, nvme.disk, f');
      } else {
        FailureWritten(d, f, off, buffer, behind, junk, room, nvme.disk, f');
      }
    }

    // The blocks a longer file needs are entered as empty blocks.
    method GrowBlocks(ino: u64, oldSize: nat, newSize: nat)
      requires oldSize < newSize
      modifies `dataBlocks
      ensures BlocksOf(dataBlocks, ino) == GrownBlocks(old(BlocksOf(dataBlocks, ino)), oldSize, newSize)
      ensures forall x | x != ino :: BlocksOf(dataBlocks, x) == BlocksOf(old(dataBlocks), x)
    {
      hide Emptied;
      ghost var blocks := BlocksOf(dataBlocks, ino);
      var known := oldSize / SECTOR_SIZE / DATA_BLK_LBA_NUM;
      var wanted := newSize / SECTOR_SIZE / DATA_BLK_LBA_NUM;
      wanted := wanted + if newSize / SECTOR_SIZE % DATA_BLK_LBA_NUM != 0 then 1 else 0;
      EmptiedStep(blocks, known, known);
      for i := known to wanted
        invariant BlocksOf(dataBlocks, ino) == Emptied(blocks, known, i)
        invariant forall x | x != ino :: BlocksOf(dataBlocks, x) == BlocksOf(old(dataBlocks), x)
      {
        EmptiedStep(blocks, known, i);
        AssignDataBlock(ino, i, ZeroBlock());
      }
    }

    method Ftruncate(ino: u64, size: u64) returns (ret: Ret)
      requires inodes.Ready() && inodes.log == log && inodes.nvme == nvme && log.nvme == nvme
      modifies `dataBlocks, inodes.entries
      ensures inodes.Ready()
      ensures forall x | x != ino :: BlocksOf(dataBlocks, x) == BlocksOf(old(dataBlocks), x)
      ensures forall x | x != ino || ret != RetNone :: LookupOf(inodes.State(), x) == LookupOf(old(inodes.State()), x)
      ensures match LookupOf(old(inodes.State()), ino)
              case NotFound => ret == Enoent && dataBlocks == old(dataBlocks)
              case Failed => ret == RetErr && dataBlocks == old(dataBlocks)
              case Found(e) =>
                if e.entry.kind != INO_T_FILE then ret == Eisdir && dataBlocks == old(dataBlocks)
                else
                  && ret == RetNone
                  && LookupOf(inodes.State(), ino) == Found(e.(entry := e.entry.(size := size)))
                  && var blocks, blocks' := old(BlocksOf(dataBlocks, ino)), BlocksOf(dataBlocks, ino);
                     if e.entry.size < size then Grown(blocks, blocks', e.entry.size, size) else blocks' == blocks
      ensures FsDisk(nvme.disk)
      ensures ret == RetNone && size <= LookupOf(old(inodes.State()), ino).value.entry.size && old(StoreInv(Files())) ==>
                EventStep(old(Files()), Shrink(ino, size), Files())
    {
      hide NvmeZnsMemoryBackend.Valid, LogInv, LogGrows, SameOutsideLog, MetaInv, LookupOf, Complete, FsDisk,
           GrownBlocks, StoreOf, StoreInv, EventStep, Grown;
      ghost var m := inodes.State();
      InvLog(m);
      FoundIsProper(m, ino);
      GrowsReflexive(nvme.disk);
      var found;
      ret, found := inodes.GetInode(ino);
      if ret != RetNone {
        return;
      }
      var entry := found.value;
      if entry.entry.kind != INO_T_FILE {
        return Eisdir;
      }
      if entry.entry.size < size {
        GrownExactly(BlocksOf(dataBlocks, ino), entry.entry.size, size);
        GrowBlocks(ino, entry.entry.size, size);
      }
      entry := entry.(entry := entry.entry.(size := size));
      UpdateEntryKeeps(m, log.State(), entry);
      inodes.entries.UpdateInodeEntry(entry);
      if size <= found.value.entry.size && old(StoreInv(Files())) {
        ShrinkIsEvent(m, inodes.State(), dataBlocks, ino, size);
      }
      ret := RetNone;
    }

    // read_regular. The size in stSize is the one the caller looked up before.
    method ReadRegular(ino: u64, stSize: nat, size: nat, offset: nat) returns (reply: Reply)
      requires inodes.Ready() && inodes.log == log && inodes.nvme == nvme && log.nvme == nvme
      requires var r := LookupOf(inodes.State(), ino);
               r.Found? && r.value.entry.size == stSize && FileInv(nvme.disk, FileOf(r.value.entry))
      ensures var bytes := Bytes(nvme.disk, FileOf(LookupOf(inodes.State(), ino).value.entry));
              reply == if size == 0 || |bytes| <= offset then Empty
                       else Data(bytes[offset..if offset + size < |bytes| then offset + size else |bytes|])
      ensures FsDisk(nvme.disk)
      ensures StoreInv(Files()) ==> ReadsFlatFile(Files(), ino, size, offset, reply)
    {
      hide NvmeZnsMemoryBackend.Valid, MetaInv, LogInv, LookupOf, Bytes, Backed, Loaded, StoreInv, StoreOf,
           ReadsFlatFile, ReadReply, FsDisk;
      InvLog(inodes.State());
      FoundIsProper(inodes.State(), ino);
      FileInStore(inodes.State(), dataBlocks, ino);
      var entry: Option<NamedEntry>;
      var ret;
      ret, entry := inodes.GetInode(ino);
      reply := ReadData(entry.value.entry, stSize, size, offset);
      ReplyIs(Bytes(nvme.disk, FileOf(entry.value.entry)), size, offset);
      if StoreInv(Files()) {
        ReadReturnsFlatFile(Files(), ino, size, offset, reply);
      }
    }

    // One round of the read loop: step to the next data block where the last one
    // is used up, and read the sector, unless its address is 0.
    method NextSector(entry: InodeEntry, num: nat, idx: nat, cur: DataBlock, ghost k: nat)
      returns (ret: Ret, hole: bool, num': nat, idx': nat, cur': DataBlock, bytes: Sector)
      requires Ready() && FileInv(nvme.disk, FileOf(entry)) && k < Sectors(entry.size)
      requires num * DATA_BLK_LBA_NUM + idx == k && idx <= DATA_BLK_LBA_NUM
      requires num in FileOf(entry).blocks && cur == FileOf(entry).blocks[num]
      ensures ret == RetNone && !hole
      ensures bytes == FileSectors(nvme.disk, FileOf(entry))[k] && |bytes| == SECTOR_SIZE
      ensures num' * DATA_BLK_LBA_NUM + idx' == k + 1 && idx' <= DATA_BLK_LBA_NUM
      ensures num' in FileOf(entry).blocks && cur' == FileOf(entry).blocks[num']
    {
      hide NvmeZnsMemoryBackend.Valid, LogInv, InLog, FsDisk, SectorAt, LinkedBlock, Backed, Loaded, LbaAt,
           FileSectors,
           LbaReadable;
      LogIsFs(nvme.disk, log.logPtr);
      ghost var f := FileOf(entry);
      HasBlock(nvme.disk, f, k);
      num', idx', cur', hole, bytes := num, idx, cur, false, [];
      if idx' >= DATA_BLK_LBA_NUM {
        idx' := 0;
        num' := num' + 1;
        NextNumber(num', k);
        ret, cur' := GetDataBlock(entry, num');
        if ret != RetNone {
          return;
        }
      }
      CurrentLba(f.blocks, num', idx', k);
      if cur'.lbas[idx'] == 0 {
        hole := true;
        return;
      }
      var ok;
      ok, bytes := ReadLba(cur'.lbas[idx']);
      if !ok {
        ret := RetErr;
        return;
      }
      idx' := idx' + 1;
      ret := RetNone;
    }

    // The read loop: sectors one behind the other into the buffer, until there
    // are as many bytes as asked for.
    method ReadSectors(entry: InodeEntry, offset: nat, n: nat, num: nat, start: DataBlock, readLimit: nat, buffer: array<byte>)
      returns (ret: Ret, bufferOffset: nat, ghost j: nat)
      requires Ready() && FileInv(nvme.disk, FileOf(entry)) && buffer != nvme.data
      requires offset + n <= entry.size && readLimit == n + offset % SECTOR_SIZE
      requires buffer.Length == BufferSize(n, n, offset)
      requires num == offset / SECTOR_SIZE / DATA_BLK_LBA_NUM
      requires num in FileOf(entry).blocks && start == FileOf(entry).blocks[num]
      modifies buffer
      ensures Ready() && ret == RetNone && readLimit <= bufferOffset <= buffer.Length
      ensures ReadSoFar(nvme.disk, FileOf(entry), offset / SECTOR_SIZE, buffer[..bufferOffset], j)
    {
      hide NvmeZnsMemoryBackend.Valid, LogInv, Backed, Loaded, FileSectors, ReadSoFar, Sectors, BufferSize;
      ghost var d, f, first := nvme.disk, FileOf(entry), offset / SECTOR_SIZE;
      var blockNum, index: nat, blk := num, offset / SECTOR_SIZE % DATA_BLK_LBA_NUM, start;
      bufferOffset, j := 0, 0;
      ReadNothing(d, f, first, buffer[..bufferOffset]);
      while bufferOffset < readLimit
        invariant Ready()
        invariant bufferOffset == j * SECTOR_SIZE <= buffer.Length
        invariant blockNum * DATA_BLK_LBA_NUM + index == first + j && index <= DATA_BLK_LBA_NUM
        invariant blockNum in f.blocks && blk == f.blocks[blockNum]
        invariant ReadSoFar(d, f, first, buffer[..bufferOffset], j)
      {
        NextFits(f.size, offset, n, j);
        var hole, bytes;
        ret, hole, blockNum, index, blk, bytes := NextSector(entry, blockNum, index, blk, first + j);
        if ret != RetNone {
          return;
        }
        if hole {
          break;
        }
        ReadMore(d, f, first, buffer[..bufferOffset], bytes, j);
        CopyInto(buffer, bufferOffset, bytes);
        bufferOffset := bufferOffset + SECTOR_SIZE;
        j := j + 1;
      }
      ret := RetNone;
    }

    method ReadData(entry: InodeEntry, stSize: nat, size: nat, offset: nat) returns (reply: Reply)
      requires Ready() && entry.size == stSize && FileInv(nvme.disk, FileOf(entry))
      ensures reply == ReadReply(Bytes(nvme.disk, FileOf(entry)), size, offset)
    {
      hide NvmeZnsMemoryBackend.Valid, LogInv, InLog, FsDisk, SectorAt, LinkedBlock, Backed, Loaded, Bytes, LbaAt,
           FileSectors, ReadSoFar, Sectors,
           BufferSize, LbaReadable;
      LogIsFs(nvme.disk, log.logPtr);
      var pre := Precheck(entry.size, size, offset);
      if pre == None {
        return Empty;
      }
      var n := pre.value;
      ghost var d, f := nvme.disk, FileOf(entry);
      var blockNum := offset / SECTOR_SIZE / DATA_BLK_LBA_NUM;
      var ret, blk;
      NextFits(f.size, offset, n, 0);
      HasBlock(d, f, offset / SECTOR_SIZE);
      ret, blk := GetDataBlock(entry, blockNum);
      if ret != RetNone {
        return Error;
      }
      var dataLimit := if n < stSize then n else stSize;
      var buffer := new byte[BufferSize(dataLimit, n, offset)];
      ghost var j;
      var bufferOffset;
      ret, bufferOffset, j := ReadSectors(entry, offset, n, blockNum, blk, dataLimit + offset % SECTOR_SIZE, buffer);
      if ret != RetNone {
        return Error;
      }
      ReadDone(d, f, offset, n, buffer[..bufferOffset], j);
      var from := offset % SECTOR_SIZE;
      TakeSlice(buffer[..], bufferOffset, from, n);
      return Data(buffer[from..from + if dataLimit < n then dataLimit else n]);
    }
  }
}
