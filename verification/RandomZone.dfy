// The checkpoint log and the random zone as the file system drives them.
module RandomZone {
  import opened Basics
  import opened Disk
  import opened Codec
  import opened ZnsMemory
  import opened Checkpoints
  import opened NatLog
  import opened Ring
  import opened Compaction
  import opened CompactionMeaning
  import opened CompactionRun
  import opened Rewrite
  import opened NatFlush
  import opened Mount
  import opened InodeLba
  import opened RandomZoneSteps

  class RandomZone {
    const nvme: NvmeZnsMemoryBackend
    const inodes: InodeLbaMap
    var cblockPos: Position
    var randomPos: Position
    var randomPtr: Position
    var logPos: Position

    constructor (nvme: NvmeZnsMemoryBackend, inodes: InodeLbaMap)
      ensures this.nvme == nvme && this.inodes == inodes
      ensures cblockPos == randomPos == randomPtr == logPos == Position(0, 0, 0, 0)
    {
      this.nvme, this.inodes := nvme, inodes;
      cblockPos, randomPos := Position(0, 0, 0, 0), Position(0, 0, 0, 0);
      randomPtr, logPos := Position(0, 0, 0, 0), Position(0, 0, 0, 0);
    }

    ghost predicate Ready()
      reads this, nvme, nvme.data, nvme.writePointers
    {
      nvme.Valid() && FsDisk(nvme.disk)
    }

    ghost function State(): RandomZoneState
      reads this, nvme
    {
      RandomZoneState(nvme.disk, cblockPos, randomPos, randomPtr)
    }

    // mkfs: every zone is reset, then the super block and the first checkpoint
    // are written.
    method Mkfs(superBlock: Sector) returns (ret: Ret)
      requires Ready() && |superBlock| == SECTOR_SIZE
      modifies `cblockPos, nvme`disk, nvme.data, nvme.writePointers
      ensures Ready() && nvme.disk.info == old(nvme.disk).info
      ensures ret == RetNone && cblockPos == SectorPos(CBLOCK_ZONE, 0) && Formatted(nvme.disk, superBlock)
    {
      hide Stored, EncodeCheckpoint;
      for i := 0 to nvme.info.numZones
        invariant Ready() && nvme.disk.info == old(nvme.disk).info
        invariant forall z | 0 <= z < i :: nvme.disk.zones[z] == []
      {
        var ok := nvme.Reset(i);
        if !ok {
          return RetErr;
        }
      }
      var ok, sector := nvme.Append(SUPER_ZONE, 0, superBlock);
      if !ok {
        return RetErr;
      }
      if sector != 0 {
        return RetErr;
      }
      FirstLbas(nvme.info);
      var cblock := Checkpoint(PositionToLba(nvme.info, RANDZ_ZONE, 0), PositionToLba(nvme.info, LOGZ_ZONE, 0));
      ok, sector := nvme.Append(CBLOCK_ZONE, 0, EncodeCheckpoint(cblock));
      if !ok {
        return RetErr;
      }
      if sector != 0 {
        return RetErr;
      }
      cblockPos := SectorPos(CBLOCK_ZONE, 0);
      return RetNone;
    }

    // ---- Checkpoint log --------------------------------------------------------

    // The position has to be that of a checkpoint; the other zone may hold
    // anything.
    method UpdateCheckpointBlock(randzLba: u64, logzLba: u64) returns (ret: Ret)
      requires Ready() && (cblockPos.Valid() ==> InCheckpointZone(nvme.disk, cblockPos))
      modifies `cblockPos, nvme`disk, nvme.data, nvme.writePointers
      ensures Ready()
      ensures !old(cblockPos).Valid() ==> ret == RetErr && nvme.disk == old(nvme.disk) && cblockPos == old(cblockPos)
      ensures old(cblockPos).Valid() ==>
                (CpState(nvme.disk, cblockPos), ret)
                == TryUpdate(CpState(old(nvme.disk), old(cblockPos)), Checkpoint(randzLba, logzLba))
      ensures old(cblockPos).Valid() && Tracks(old(nvme.disk), old(cblockPos)) ==>
                && ret == RetNone
                && CpState(nvme.disk, cblockPos)
                   == Update(CpState(old(nvme.disk), old(cblockPos)), Checkpoint(randzLba, logzLba))
    {
      hide Stored, CheckpointAt, LocatePos, EncodeCheckpoint;
      var tmp := cblockPos;
      if !cblockPos.Valid() {
        return RetErr;
      }
      if Tracks(nvme.disk, cblockPos) {
        TrackedUpdate(CpState(nvme.disk, cblockPos), Checkpoint(randzLba, logzLba));
      }
      if cblockPos.sector == nvme.info.zoneCapacity - 1 {
        if cblockPos.zone == CBLOCK_ZONE {
          tmp := tmp.(zone := cblockPos.zone + 1);
        } else {
          tmp := tmp.(zone := CBLOCK_ZONE);
        }
        tmp := tmp.(sector := 0);
      } else {
        tmp := tmp.(sector := tmp.sector + 1);
      }
      var ok, sector := nvme.Append(tmp.zone, tmp.offset, EncodeCheckpoint(Checkpoint(randzLba, logzLba)));
      if !ok {
        return RetErr;
      }
      if tmp.sector != sector {
        return RetErr;
      }
      if tmp.zone != cblockPos.zone {
        ok := nvme.Reset(cblockPos.zone);
        if !ok {
          return RetErr;
        }
      }
      cblockPos := tmp;
      return RetNone;
    }

    // Scan the checkpoint zones for the newest checkpoint.
    method GetCheckpointBlockLocate() returns (ret: Ret, cblock: Checkpoint)
      requires Ready()
      modifies `cblockPos
      ensures ret == (if Locate(nvme.disk).Some? then RetNone else RetErr)
      ensures ret == RetNone ==> Some(cblock) == Locate(nvme.disk) && Some(cblockPos) == LocatePos(nvme.disk)
      ensures ret != RetNone ==> cblockPos == old(cblockPos)
    {
      hide Stored, GetU64, DecodeCheckpoint;
      var d := nvme.disk;
      cblock := Checkpoint(U64_LIMIT - 1, 0);
      var zone := CBLOCK_ZONE;
      var ok, bytes := nvme.Read(CBLOCK_ZONE, 0, 0, SECTOR_SIZE);
      if !ok {
        ok, bytes := nvme.Read(CBLOCK_ZONE + 1, 0, 0, SECTOR_SIZE);
        zone := CBLOCK_ZONE + 1;
        if !ok {
          return RetErr, cblock;
        }
      }
      cblock := DecodeCheckpoint(bytes);
      var pos := Position(0, 0, 0, 0);
      var i := 0;
      while i < nvme.info.zoneCapacity
        invariant 0 <= i <= nvme.info.zoneCapacity && i <= |d.zones[zone]|
        invariant nvme.disk == d && Ready() && cblockPos == old(cblockPos)
        invariant i > 0 ==> i < nvme.info.zoneCapacity || zone != CBLOCK_ZONE || d.zones[zone + 1] == [] ==>
                    pos == SectorPos(zone, i - 1)
        invariant i == nvme.info.zoneCapacity && zone == CBLOCK_ZONE && d.zones[zone + 1] != [] ==>
                    pos == SectorPos(zone + 1, 0)
        invariant i > 0 ==> pos.zone < |d.zones| && pos.sector < |d.zones[pos.zone]| && cblock == CheckpointAt(d, pos)
      {
        ok, bytes := nvme.Read(zone, i, 0, SECTOR_SIZE);
        if !ok {
          break;
        }
        cblock := DecodeCheckpoint(bytes);
        pos := SectorPos(zone, i);
        if i == nvme.info.zoneCapacity - 1 && zone == CBLOCK_ZONE {
          ok, bytes := nvme.Read(CBLOCK_ZONE + 1, 0, 0, SECTOR_SIZE);
          if ok {
            cblock := DecodeCheckpoint(bytes);
            pos := SectorPos(CBLOCK_ZONE + 1, 0);
          }
        }
        i := i + 1;
      }
      if cblock.randzLba == U64_LIMIT - 1 {
        return RetErr, cblock;
      }
      cblockPos := pos;
      return RetNone, cblock;
    }

    // A remembered position is read as it is; as long as it tracks the log, it
    // and a scan of the device lead to the same checkpoint.
    method GetCheckpointBlock() returns (ret: Ret, cblock: Checkpoint)
      requires Ready()
      modifies `cblockPos
      ensures !old(cblockPos).Valid() ==>
                && ret == (if Locate(nvme.disk).Some? then RetNone else RetErr)
                && (ret == RetNone ==> Some(cblock) == Locate(nvme.disk) && Some(cblockPos) == LocatePos(nvme.disk))
      ensures old(cblockPos).Valid() ==> cblockPos == old(cblockPos)
      ensures old(cblockPos).Valid() && old(cblockPos).offset == 0 ==>
                var pos := old(cblockPos);
                && ret == (if nvme.disk.Readable(pos.zone, pos.sector) then RetNone else RetErr)
                && (ret == RetNone ==> cblock == CheckpointAt(nvme.disk, pos))
      ensures Tracks(nvme.disk, old(cblockPos)) ==>
                && ret == RetNone && cblockPos == old(cblockPos)
                && Some(cblockPos) == LocatePos(nvme.disk) && cblock == CheckpointAt(nvme.disk, cblockPos)
    {
      hide Stored, GetU64, DecodeCheckpoint;
      if !cblockPos.Valid() {
        ret, cblock := GetCheckpointBlockLocate();
        return;
      }
      cblock := Checkpoint(0, 0);
      var ok, bytes := nvme.Read(cblockPos.zone, cblockPos.sector, cblockPos.offset, SECTOR_SIZE);
      if !ok {
        return RetErr, cblock;
      }
      return RetNone, DecodeCheckpoint(bytes);
    }

    // ---- Ring --------------------------------------------------------------------

    // The first free sector of the ring, found by reading it from its start.
    method DetermineRandomPtr() returns (ret: Ret)
      requires Ready() && InRing(randomPos.zone) && randomPos == Position(randomPos.zone, 0, 0, randomPos.size)
      modifies `randomPtr
      ensures (randomPtr, ret) == DeterminePtr(nvme.disk, randomPos)
    {
      hide Stored, RingZone, LeadingFull;
      var start, cap := randomPos.zone, nvme.info.zoneCapacity;
      RingEnds(start);
      var endPos, cur := randomPos, randomPos;
      if cur.zone == RANDZ_ZONE {
        endPos := endPos.(zone := RANDZ_BUFF_ZONE, sector := 0);
      } else {
        endPos := endPos.(zone := cur.zone - 1, sector := cap - 1);
      }
      ghost var k := 0;
      while cur != endPos
        invariant k <= RING_ZONES && cur.sector < cap && cur.offset == 0 && cur.size == randomPos.size
        invariant k == RING_ZONES ==> cur == endPos
        invariant k < RING_ZONES ==> cur.zone == RingZone(start, k) && cur.sector <= |nvme.disk.zones[cur.zone]|
        invariant forall j | 0 <= j < k :: |nvme.disk.zones[RingZone(start, j)]| == cap
        decreases RING_ZONES - k, cap - cur.sector
      {
        var ok, bytes := nvme.Read(cur.zone, cur.sector, cur.offset, SECTOR_SIZE);
        if !ok {
          break;
        }
        NextRingZone(start, k);
        cur := cur.(sector := cur.sector + 1);
        if cur.sector == cap {
          cur := cur.(sector := 0, zone := cur.zone + 1);
          k := k + 1;
        }
        if cur.zone == RANDZ_BUFF_ZONE && endPos.zone != RANDZ_BUFF_ZONE {
          cur := cur.(zone := RANDZ_ZONE);
        }
      }
      LeadingIs(nvme.disk, start, k);
      if cur == endPos {
        randomPtr := cur.(size := 0);
        return RandzFull;
      }
      randomPtr := cur;
      return RetNone;
    }

    // Replay the ring into the map, last entry wins.
    method ReadRandomZone(inodeMap: map<u64, LbaInode>) returns (r: map<u64, LbaInode>)
      requires Ready() && InRing(randomPos.zone) && randomPos == Position(randomPos.zone, 0, 0, randomPos.size)
      ensures Lbas(r) == Lbas(inodeMap) + Replay(ReadableRing(nvme.disk, randomPos.zone))
      ensures ParentsKept(inodeMap, r)
    {
      hide Stored, RingZone, LeadingFull, Replay, DecodeNat, EntriesMap, Lbas, ReadableRing, Contents, ParentsKept;
      var start, cap := randomPos.zone, nvme.info.zoneCapacity;
      ghost var d := nvme.disk;
      ParentsSame(inodeMap);
      RingEnds(start);
      var cur := randomPos;
      r := inodeMap;
      ghost var k, done := 0, [];
      ReplayNothing(Lbas(inodeMap));
      NothingRead(d, start);
      while true
        invariant k < RING_ZONES && cur == Position(RingZone(start, k), cur.sector, 0, randomPos.size)
        invariant Ready() && nvme.disk == d
        invariant cur.sector < cap && cur.sector <= |d.zones[cur.zone]|
        invariant forall j | 0 <= j < k :: |d.zones[RingZone(start, j)]| == cap
        invariant AllBlocks(done) && done == Contents(d, start, k) + d.zones[cur.zone][..cur.sector]
        invariant Lbas(r) == Lbas(inodeMap) + Replay(done)
        invariant ParentsKept(inodeMap, r)
        decreases RING_ZONES - k, cap - cur.sector
      {
        var ok, bytes := nvme.Read(cur.zone, cur.sector, cur.offset, SECTOR_SIZE);
        if !ok {
          ReadableFrom(d, start, k, cur.sector);
          break;
        }
        var block := DecodeNat(bytes);
        ghost var before := r;
        if block.kind == RANDZ_NAT_BLK {
          r := ApplyNatBlock(block, r);
          ParentsTransitive(inodeMap, before, r);
        }
        BlockApplied(Lbas(inodeMap), Lbas(before), Lbas(r), done, bytes);
        SectorDone(d, start, k, cur.sector);
        done := done + [bytes];
        NextRingZone(start, k);
        cur := cur.(sector := cur.sector + 1);
        if cur.sector == cap {
          cur := cur.(sector := 0, zone := cur.zone + 1);
          k := k + 1;
        }
        if cur.zone == RANDZ_BUFF_ZONE {
          cur := cur.(zone := RANDZ_ZONE);
        }
        if cur == randomPos {
          ReadableFull(d, start);
          break;
        }
      }
    }

    // Enter the addresses of one block, up to its first inode 0.
    method ApplyNatBlock(block: NatBlock, inodeMap: map<u64, LbaInode>) returns (r: map<u64, LbaInode>)
      requires block.Valid()
      ensures Lbas(r) == Lbas(inodeMap) + EntriesMap(block, 0)
      ensures ParentsKept(inodeMap, r)
    {
      r := inodeMap;
      var i := 0;
      while i < NAT_BLK_INO_LBA_NUM && block.inode[i] != 0
        invariant 0 <= i <= NAT_BLK_INO_LBA_NUM
        invariant Lbas(r) + EntriesMap(block, i) == Lbas(inodeMap) + EntriesMap(block, 0)
        invariant ParentsKept(inodeMap, r)
      {
        var inode := block.inode[i];
        var cur := LbaInode(0, 0);
        if inode in r {
          cur := r[inode];
        }
        EntryStep(block, i, Lbas(r));
        ghost var before := r;
        r := r[inode := cur.(lba := block.lba[i])];
        LbasUpdate(before, inode, cur.(lba := block.lba[i]));
        i := i + 1;
      }
      assert EntriesMap(block, i) == map[];
    }

    // The next inodes of the set, in ascending order, with their addresses.
    // An inode without an address keeps the slot for the next one.
    method FillNatBlock(natSet: set<u64>, block: NatBlock) returns (rest: set<u64>, filled: NatBlock)
      requires block == EmptyNatBlock()
      ensures filled.Valid() && filled.kind == RANDZ_NAT_BLK
      ensures rest <= natSet && (filled.inode[0] != 0 ==> |rest| < |natSet|)
      ensures natSet <= inodes.inodeLbaMap.Keys && 0 !in natSet ==>
                var batch := NextBatch(natSet);
                && |batch| <= NAT_BLK_INO_LBA_NUM && Writable(batch, Lbas(inodes.inodeLbaMap))
                && filled == FilledBlock(batch, Lbas(inodes.inodeLbaMap))
                && rest == natSet - Elems(batch)
    {
      hide Ascending, FilledBlock, Inodes;
      ghost var lbas := Lbas(inodes.inodeLbaMap);
      filled := CollectEntries(natSet, block);
      rest := EraseWritten(natSet, filled);
      if natSet <= inodes.inodeLbaMap.Keys && 0 !in natSet {
        var n := Min(NAT_BLK_INO_LBA_NUM, |natSet|);
        AscendingWritable(natSet, lbas);
        WritableParts(Ascending(natSet), lbas, n);
        FilledIs(filled, Ascending(natSet), lbas, n);
        WrittenElems(Ascending(natSet)[..n], lbas);
      }
    }

    method CollectEntries(natSet: set<u64>, block: NatBlock) returns (filled: NatBlock)
      requires block == EmptyNatBlock()
      ensures filled.Valid() && filled.kind == RANDZ_NAT_BLK
      ensures filled.inode[0] != 0 ==> filled.inode[0] in natSet
      ensures natSet <= inodes.inodeLbaMap.Keys ==>
                FilledUpTo(filled, Ascending(natSet), Lbas(inodes.inodeLbaMap), Min(NAT_BLK_INO_LBA_NUM, |natSet|))
    {
      hide Ascending, FilledUpTo, Lbas, IsLeast;
      ghost var lbas := Lbas(inodes.inodeLbaMap);
      ghost var known := natSet <= inodes.inodeLbaMap.Keys;
      filled := block;
      NothingFilled(Ascending(natSet), lbas);
      var todo, i := natSet, 0;
      ghost var xs, j := Ascending(natSet), 0;
      while todo != {}
        invariant filled.Valid() && filled.kind == RANDZ_NAT_BLK
        invariant 0 <= i < NAT_BLK_INO_LBA_NUM && todo <= natSet
        invariant filled.inode[0] != 0 ==> filled.inode[0] in natSet
        invariant j <= |xs| && Ascending(todo) == xs[j..]
        invariant known ==> i == j && FilledUpTo(filled, xs, lbas, i)
        decreases todo
      {
        var nt := First(todo);
        NextOfAscending(todo, xs, j, nt);
        if known {
          assert nt in inodes.inodeLbaMap;
          FilledStep(filled, xs, inodes.inodeLbaMap, i);
        }
        todo := todo - {nt};
        j := j + 1;
        filled := filled.(inode := filled.inode[i := nt]);
        var ret, cur := inodes.GetInodeLba(nt);
        if ret != RetNone {
          continue;
        }
        filled := filled.(lba := filled.lba[i := cur.lba]);
        i := i + 1;
        if i == NAT_BLK_INO_LBA_NUM {
          break;
        }
      }
    }

    // Take the inodes of a block, up to its first inode 0, out of the set.
    method EraseWritten(natSet: set<u64>, filled: NatBlock) returns (rest: set<u64>)
      requires filled.Valid()
      ensures rest == natSet - Elems(Inodes(filled, 0))
      ensures filled.inode[0] != 0 && filled.inode[0] in natSet ==> |rest| < |natSet|
    {
      rest := natSet;
      var i := 0;
      while i < NAT_BLK_INO_LBA_NUM && filled.inode[i] != 0
        invariant 0 <= i <= NAT_BLK_INO_LBA_NUM
        invariant rest - Elems(Inodes(filled, i)) == natSet - Elems(Inodes(filled, 0))
        invariant rest <= natSet && (i > 0 ==> filled.inode[0] !in rest)
      {
        ElemsConcat([filled.inode[i]], Inodes(filled, i + 1));
        rest := rest - {filled.inode[i]};
        i := i + 1;
      }
      assert Elems(Inodes(filled, i)) == {};
      if filled.inode[0] != 0 && filled.inode[0] in natSet {
        assert rest < natSet;
        ProperSubsetSize(rest, natSet);
      }
    }

    // Append one block at random_ptr and advance it around the ring.
    method AppendRandomBlock(block: NatBlock) returns (ret: Ret)
      requires Ready() && block.Valid() && randomPtr.zone < nvme.info.numZones && randomPtr.offset == 0
      modifies `randomPtr, nvme`disk, nvme.data, nvme.writePointers
      ensures Ready()
      ensures block.kind == RANDZ_NON_BLK ==>
                ret == RetErr && randomPtr == old(randomPtr) && nvme.disk == old(nvme.disk)
      ensures block.kind != RANDZ_NON_BLK ==>
                (RingState(nvme.disk, randomPos, randomPtr), ret)
                == AppendBlock(RingState(old(nvme.disk), randomPos, old(randomPtr)), EncodeNat(block))
    {
      hide Stored, EncodeNat;
      var tmp := randomPtr;
      if block.kind == RANDZ_NON_BLK {
        return RetErr;
      }
      var ok, sector := nvme.Append(tmp.zone, tmp.offset, EncodeNat(block));
      if !ok {
        return RetErr;
      }
      if sector != tmp.sector {
        return RetErr;
      }
      tmp := tmp.(sector := tmp.sector + 1);
      if sector + 1 == nvme.info.zoneCapacity {
        tmp := tmp.(zone := tmp.zone + 1, sector := 0);
        if tmp.zone == RANDZ_BUFF_ZONE {
          tmp := tmp.(zone := RANDZ_ZONE);
        }
        if tmp.zone == randomPos.zone {
          randomPtr := randomPtr.(size := 0);
          return RandzFull;
        }
      }
      randomPtr := tmp;
      return RetNone;
    }

    // The number of blocks a set needs: the fewest that have room for it.
    method ComputeNatBlocks(natSet: set<u64>) returns (blocks: nat)
      ensures |natSet| <= NAT_BLK_INO_LBA_NUM * blocks
      ensures forall n: nat | |natSet| <= NAT_BLK_INO_LBA_NUM * n :: blocks <= n
      ensures blocks == CeilDiv(|natSet|, NAT_BLK_INO_LBA_NUM)
    {
      blocks := |natSet| / NAT_BLK_INO_LBA_NUM;
      blocks := blocks + if |natSet| % NAT_BLK_INO_LBA_NUM == 0 then 0 else 1;
    }

    // Write the inodes of the set, block by block, until it is empty or the
    // random zone is full.
    method UpdateNatBlocks(natSet: set<u64>) returns (ret: Ret, left: set<u64>)
      requires Ready() && randomPtr.zone < |nvme.disk.zones| && randomPtr.offset == 0
      modifies `randomPtr, nvme`disk, nvme.data, nvme.writePointers
      ensures Ready() && left <= natSet
      ensures natSet <= inodes.inodeLbaMap.Keys && 0 !in natSet ==>
                (RingState(nvme.disk, randomPos, randomPtr), ret, left)
                == Flush(RingState(old(nvme.disk), randomPos, old(randomPtr)), natSet, Lbas(inodes.inodeLbaMap))
    {
      hide Flush, Stored, NextBatch, Lbas, AppendBlock, EncodeNat, FilledBlock;
      ghost var lbas := Lbas(inodes.inodeLbaMap);
      ghost var known := natSet <= inodes.inodeLbaMap.Keys && 0 !in natSet;
      ghost var start := RingState(nvme.disk, randomPos, randomPtr);
      assert lbas.Keys == inodes.inodeLbaMap.Keys by { LbasKeys(inodes.inodeLbaMap); }
      left := natSet;
      while left != {}
        invariant Ready() && randomPtr.zone < |nvme.disk.zones| && randomPtr.offset == 0 && left <= natSet
        invariant known ==> Flush(RingState(nvme.disk, randomPos, randomPtr), left, lbas) == Flush(start, natSet, lbas)
        decreases |left|
      {
        ghost var r, todo := RingState(nvme.disk, randomPos, randomPtr), left;
        var block;
        left, block := FillNatBlock(left, EmptyNatBlock());
        if block.inode[0] == 0 {
          assert known ==> false by {
            if known { BatchStarts(todo, lbas, block); }
          }
          break;
        }
        PointerStaysOnDevice(r, EncodeNat(block));
        if known {
          FlushStep(r, todo, lbas);
        }
        ret := AppendRandomBlock(block);
        if ret != RetNone {
          return;
        }
      }
      if known {
        FlushNothing(RingState(nvme.disk, randomPos, randomPtr), lbas);
      }
      return RetNone, left;
    }

    // ---- Compaction ------------------------------------------------------------

    // Copy one zone to a buffer zone, up to the limit if it lies in it.
    method CopyZone(zone: nat, to: nat, limit: Position) returns (ret: Ret, stopped: bool)
      requires Ready() && InRing(zone) && RANDZ_BUFF_ZONE <= to < LOGZ_ZONE
      modifies nvme`disk, nvme.data, nvme.writePointers
      ensures Ready() && (ret == RetNone || ret == RetErr)
      ensures (nvme.disk, ret == RetNone) == Copied(old(nvme.disk), zone, to, limit)
      ensures stopped == (ret == RetNone && LimitHits(nvme.info, zone, limit))
    {
      hide Stored, CopySectors;
      ghost var d, n := nvme.disk, CopyLength(nvme.info, zone, limit);
      ghost var from, to0 := d.zones[zone], d.zones[to];
      var i := 0;
      while i < nvme.info.zoneCapacity
        invariant 0 <= i <= nvme.info.zoneCapacity && i <= n && i <= |from|
        invariant Ready() && SameElsewhere(d, nvme.disk, to)
        invariant nvme.disk.zones[to] == to0 + from[..i] && (to0 != [] ==> i == 0)
      {
        SameDisk(d, nvme.disk, to);
        CopyStops(from, to0, n, d.info.zoneCapacity, i);
        if limit.MeetsLimit(zone, i) {
          return RetNone, true;
        }
        var ok, data := nvme.Read(zone, i, 0, nvme.info.sectorSize);
        if !ok {
          return RetErr, false;
        }
        var sector;
        ok, sector := nvme.Append(to, 0, data);
        if !ok {
          return RetErr, false;
        }
        if sector != i {
          SameDisk(d, nvme.disk, to);
          return RetErr, false;
        }
        i := i + 1;
      }
      SameDisk(d, nvme.disk, to);
      CopyStops(from, to0, n, d.info.zoneCapacity, i);
      return RetNone, false;
    }

    // Copy two zones of the random zone into the random buffer.
    method BufferRandomBlocks(zone0: nat, zone1: nat, limit: Position) returns (ret: Ret)
      requires Ready()
      modifies nvme`disk, nvme.data, nvme.writePointers
      ensures Ready()
      ensures if InRing(zone0) && InRing(zone1) then (nvme.disk, ret) == CopyPair(old(nvme.disk), zone0, zone1, limit)
              else ret == RetErr && nvme.disk == old(nvme.disk)
    {
      hide Stored, Copied;
      if zone0 >= RANDZ_BUFF_ZONE || zone0 < RANDZ_ZONE {
        return RetErr;
      }
      if zone1 >= RANDZ_BUFF_ZONE || zone1 < RANDZ_ZONE {
        return RetErr;
      }
      var stopped;
      ret, stopped := CopyZone(zone0, RANDZ_BUFF_ZONE, limit);
      if ret != RetNone || stopped {
        return;
      }
      ret, stopped := CopyZone(zone1, RANDZ_BUFF_ZONE + 1, limit);
    }

    // Move the inodes of the buffered blocks that are still pending from the
    // map of pending inodes to the set to be written.
    method ProcessRandomBuffer(natSet: set<u64>, pending: map<u64, LbaInode>)
      returns (ret: Ret, found: set<u64>, rest: map<u64, LbaInode>)
      requires Ready()
      ensures var d := nvme.disk;
              ret == if |d.zones[RANDZ_BUFF_ZONE]| == |d.zones[RANDZ_BUFF_ZONE + 1]| == nvme.info.zoneCapacity
                     then RetNone else RetErr
      ensures var d := nvme.disk;
              |d.zones[RANDZ_BUFF_ZONE]| == |d.zones[RANDZ_BUFF_ZONE + 1]| == nvme.info.zoneCapacity ==>
                var mentioned := MentionedIn(d.zones[RANDZ_BUFF_ZONE] + d.zones[RANDZ_BUFF_ZONE + 1]);
                && found == natSet + mentioned * pending.Keys
                && rest == pending - mentioned
    {
      hide MentionedIn, Stored;
      ghost var d := nvme.disk;
      var b0, b1 := RANDZ_BUFF_ZONE, RANDZ_BUFF_ZONE + 1;
      ret, found, rest := ProcessZone(b0, natSet, pending);
      if ret != RetNone {
        return;
      }
      ret, found, rest := ProcessZone(b1, found, rest);
      MentionedConcat(d.zones[b0], d.zones[b1]);
    }

    method ProcessZone(zone: nat, natSet: set<u64>, pending: map<u64, LbaInode>)
      returns (ret: Ret, found: set<u64>, rest: map<u64, LbaInode>)
      requires Ready() && RANDZ_BUFF_ZONE <= zone < LOGZ_ZONE
      ensures ret == (if |nvme.disk.zones[zone]| == nvme.info.zoneCapacity then RetNone else RetErr)
      ensures ret == RetNone ==>
                var mentioned := MentionedIn(nvme.disk.zones[zone]);
                found == natSet + mentioned * pending.Keys && rest == pending - mentioned
    {
      hide Mentioned, Stored, DecodeNat;
      var d := nvme.disk;
      found, rest := natSet, pending;
      for j := 0 to nvme.info.zoneCapacity
        invariant j <= |d.zones[zone]|
        invariant found == natSet + MentionedIn(d.zones[zone][..j]) * pending.Keys
        invariant rest == pending - MentionedIn(d.zones[zone][..j])
      {
        var ok, bytes := nvme.Read(zone, j, 0, SECTOR_SIZE);
        if !ok {
          return RetErr, found, rest;
        }
        var block := DecodeNat(bytes);
        ghost var done := d.zones[zone][..j];
        assert d.zones[zone][..j + 1] == done + [bytes];
        MentionedSnoc(done, bytes);
        MentionedKind(bytes);
        if block.kind == RANDZ_NAT_BLK {
          found, rest := ProcessBlock(block, found, rest);
          MoveOn(natSet, pending, MentionedIn(done), Elems(block.inode));
        }
      }
      assert d.zones[zone][..|d.zones[zone]|] == d.zones[zone];
      return RetNone, found, rest;
    }

    method ProcessBlock(block: NatBlock, natSet: set<u64>, pending: map<u64, LbaInode>)
      returns (found: set<u64>, rest: map<u64, LbaInode>)
      requires block.Valid()
      ensures found == natSet + Elems(block.inode) * pending.Keys
      ensures rest == pending - Elems(block.inode)
    {
      found, rest := natSet, pending;
      for z := 0 to NAT_BLK_INO_LBA_NUM
        invariant found == natSet + Elems(block.inode[..z]) * pending.Keys
        invariant rest == pending - Elems(block.inode[..z])
      {
        var inode := block.inode[z];
        ElemsSnoc(block.inode, z);
        if inode in rest {
          found := found + {inode};
          rest := rest - {inode};
        }
      }
      assert block.inode[..NAT_BLK_INO_LBA_NUM] == block.inode;
    }

    method EraseRandomBuffer() returns (ret: Ret)
      requires Ready()
      modifies nvme`disk, nvme.data, nvme.writePointers
      ensures Ready() && ret == RetNone && nvme.disk == EraseBuffer(old(nvme.disk))
    {
      var ok := nvme.Reset(RANDZ_BUFF_ZONE);
      if !ok {
        return RetErr;
      }
      ok := nvme.Reset(RANDZ_BUFF_ZONE + 1);
      if !ok {
        return RetErr;
      }
      return RetNone;
    }

    // What a rewrite demands of memory and device.
    ghost predicate Rewriting()
      reads this, nvme, nvme.data, nvme.writePointers, inodes
    {
      && Ready() && State().Base()
      && 0 !in inodes.inodeLbaMap
      && PositionToLba(nvme.info, logPos.zone, logPos.sector) < U64_LIMIT
    }

    // Steps 1 and 2: copy the first two zones to the buffer and reset them.
    method EvacuatePair() returns (ret: Ret)
      requires Rewriting()
      modifies nvme`disk, nvme.data, nvme.writePointers
      ensures Ready() && InRing(randomPos.zone + 1)
      ensures var (d, copied) := CopyPair(old(nvme.disk), randomPos.zone, randomPos.zone + 1, SectorPos(RANDZ_BUFF_ZONE, 0));
              if copied == RetNone then ret == RetNone && nvme.disk == Evacuated(old(nvme.disk), randomPos.zone)
              else ret == RetErr && nvme.disk == d
    {
      hide Stored, Tracks, CheckpointAt, CopyPair;
      var zone := randomPos.zone;
      RingShift(zone, 0);
      CopyPairExactly(nvme.disk, zone);
      ret := BufferRandomBlocks(zone, zone + 1, SectorPos(RANDZ_BUFF_ZONE, 0));
      if ret != RetNone {
        return RetErr;
      }
      var ok := nvme.Reset(zone);
      if !ok {
        return RetErr;
      }
      ok := nvme.Reset(zone + 1);
      if !ok {
        return RetErr;
      }
    }

    // Step 3: the ring starts two zones further on, on the device too.
    method AdvanceStart() returns (ret: Ret)
      requires Ready() && InRing(randomPos.zone) && randomPos == Position(randomPos.zone, 0, 0, randomPos.size)
      requires Tracks(nvme.disk, cblockPos)
      requires PositionToLba(nvme.info, logPos.zone, logPos.sector) < U64_LIMIT
      requires !randomPtr.Valid() ==> randomPtr.offset == 0
      modifies `cblockPos, `randomPos, `randomPtr, nvme`disk, nvme.data, nvme.writePointers
      ensures Ready() && ret == RetNone
      ensures randomPos == old(randomPos).(zone := AdvancePair(old(randomPos).zone))
      ensures randomPtr == if old(randomPtr).Valid() then old(randomPtr) else SectorPos(old(randomPos).zone, 0)
      ensures LbaBoundOf(nvme.info, randomPos.zone)
              && CpState(nvme.disk, cblockPos)
                 == Update(CpState(old(nvme.disk), old(cblockPos)),
                           Checkpoint(PositionToLba(nvme.info, randomPos.zone, 0),
                                      PositionToLba(nvme.info, logPos.zone, logPos.sector)))
    {
      hide Stored;
      var zone := randomPos.zone;
      if randomPos.zone + 2 > RANDZ_BUFF_ZONE {
        randomPos := randomPos.(zone := RANDZ_ZONE + 1);
      } else if randomPos.zone + 2 == RANDZ_BUFF_ZONE {
        randomPos := randomPos.(zone := RANDZ_ZONE);
      } else {
        randomPos := randomPos.(zone := randomPos.zone + 2);
      }
      LbaBound(nvme.info, randomPos.zone, 0);
      ret := UpdateCheckpointBlock(PositionToLba(nvme.info, randomPos.zone, randomPos.sector),
                                   PositionToLba(nvme.info, logPos.zone, logPos.sector));
      if ret != RetNone {
        return RetErr;
      }
      if !randomPtr.Valid() {
        randomPtr := randomPtr.(zone := zone, sector := 0, size := SECTOR_SIZE);
      }
    }

    // Steps 5 and 6: write the inodes and erase the buffer. With no block to spare
    // the ring may come out full.
    method WriteFound(found: set<u64>) returns (ret: Ret)
      requires Ready() && InRing(randomPtr.zone) && randomPtr.offset == 0
      requires found <= inodes.inodeLbaMap.Keys && 0 !in inodes.inodeLbaMap
      requires CeilDiv(|found|, NAT_BLK_INO_LBA_NUM) <= N_RAND_BUFF_ZONES * nvme.info.zoneCapacity
      modifies `randomPtr, nvme`disk, nvme.data, nvme.writePointers
      ensures Ready()
      ensures Rewritable(Lbas(inodes.inodeLbaMap), found)
      ensures PendingWritten(old(State()), found, Lbas(inodes.inodeLbaMap), nvme.disk, randomPtr, ret)
    {
      hide NvmeZnsMemoryBackend.Valid, AppendAll, Lbas, CeilDiv, NewBlocks, EraseBuffer, FsDisk, RingInv,
           PendingWritten, Flush;
      ghost var p, lbas := State(), Lbas(inodes.inodeLbaMap);
      SameInfo(nvme);
      LbasKeys(inodes.inodeLbaMap);
      ZoneOnDevice(nvme.disk, randomPtr.zone);
      var blocks := ComputeNatBlocks(found);
      var available := N_RAND_BUFF_ZONES * nvme.info.zoneCapacity - blocks;
      var left;
      ret, left := UpdateNatBlocks(found);
      PendingFlushed(p, found, lbas, RingState(nvme.disk, randomPos, randomPtr), ret, left);
      if available == 0 {
        if ret == RetErr {
          return RetErr;
        }
      } else {
        if ret != RetNone {
          return RetErr;
        }
      }
      ret := EraseRandomBuffer();
    }

    // Steps 4 to 6: write the pending inodes of the buffered blocks and erase
    // the buffer.
    method RewritePending(pending: map<u64, LbaInode>) returns (ret: Ret, rest: map<u64, LbaInode>)
      requires Ready() && InRing(randomPtr.zone) && randomPtr.offset == 0
      requires pending.Keys <= inodes.inodeLbaMap.Keys && 0 !in inodes.inodeLbaMap
      requires |nvme.disk.zones[RANDZ_BUFF_ZONE]| == |nvme.disk.zones[RANDZ_BUFF_ZONE + 1]| == nvme.info.zoneCapacity
      modifies `randomPtr, nvme`disk, nvme.data, nvme.writePointers
      ensures Ready()
      ensures rest.Keys == pending.Keys - BufferedInodes(old(nvme.disk)) * pending.Keys
      ensures Rewritable(Lbas(inodes.inodeLbaMap), BufferedInodes(old(nvme.disk)) * pending.Keys)
      ensures PendingWritten(old(State()), BufferedInodes(old(nvme.disk)) * pending.Keys, Lbas(inodes.inodeLbaMap),
                             nvme.disk, randomPtr, ret)
    {
      hide NvmeZnsMemoryBackend.Valid, MentionedIn, Lbas, CeilDiv, Elems, RingInv, PendingWritten, Rewritable;
      ghost var d := nvme.disk;
      SameInfo(nvme);
      var found;
      ret, found, rest := ProcessRandomBuffer({}, pending);
      assert found == BufferedInodes(d) * pending.Keys;
      assert rest.Keys == pending.Keys - found;
      BufferedFit(d, pending.Keys);
      ret := WriteFound(found);
    }

    // One round of the rewrite.
    method RewriteRound(pending: map<u64, LbaInode>) returns (ret: Ret, rest: map<u64, LbaInode>)
      requires Rewriting() && pending.Keys <= inodes.inodeLbaMap.Keys
      modifies `cblockPos, `randomPos, `randomPtr, nvme`disk, nvme.data, nvme.writePointers
      ensures Ready() && (ret == RetNone ==> State().Base())
      ensures Rewritable(Lbas(inodes.inodeLbaMap), pending.Keys)
      ensures var logLba := PositionToLba(nvme.info, logPos.zone, logPos.sector);
              (State(), rest.Keys, ret) == TryStep(old(State()), logLba, Lbas(inodes.inodeLbaMap), pending.Keys)
    {
      hide NvmeZnsMemoryBackend.Valid, Tracks, Prepared, Evacuated, Update, CheckpointAt, MentionedIn,
           NewBlocks, AppendAll, Lbas, CeilDiv, BufferedInodes, EraseBuffer, PendingWritten, CopyPair, TryStep;
      ghost var st, logLba := State(), PositionToLba(nvme.info, logPos.zone, logPos.sector);
      ghost var lbas := Lbas(inodes.inodeLbaMap);
      LbasKeys(inodes.inodeLbaMap);
      TryStepBase(st, logLba, lbas, pending.Keys);
      EvacuatedTracks(st);
      SameInfo(nvme);
      CopyPairExactly(st.d, st.pos.zone);
      ret := EvacuatePair();
      if ret != RetNone {
        StepRefused(st, logLba, lbas, pending.Keys);
        return RetErr, pending;
      }
      ret := AdvanceStart();
      SameInfo(nvme);
      StepPrepared(st, State(), logLba);
      ghost var p := State();
      PreparedDisk(st, logLba);
      PreparedBuffer(st, logLba);
      ret, rest := RewritePending(pending);
      StepDone(st, p, State(), logLba, lbas, pending.Keys, rest.Keys, ret);
    }

    // rewrite_random_blocks_full: three rounds, whatever the random zone holds.
    // On a full ring they are a compaction.
    method RewriteRandomBlocksFull() returns (ret: Ret)
      requires Rewriting()
      modifies `cblockPos, `randomPos, `randomPtr, nvme`disk, nvme.data, nvme.writePointers
      ensures Ready()
      ensures Rewritten(old(State()), State(), ret)
      ensures ret != RetErr ==>
                && Tracks(nvme.disk, cblockPos)
                && CheckpointAt(nvme.disk, cblockPos).logzLba == PositionToLba(nvme.info, logPos.zone, logPos.sector)
    {
      hide NvmeZnsMemoryBackend.Valid, TryStep, Lbas, FsDisk, RandomZoneState.Base, Compacted, Rounds;
      var pending := inodes.inodeLbaMap;
      ghost var st, logLba := State(), PositionToLba(nvme.info, logPos.zone, logPos.sector);
      ghost var lbas := Lbas(inodes.inodeLbaMap);
      LbasKeys(inodes.inodeLbaMap);
      if st.Sound(RING_ZONES, 0) {
        FullOutcome(st, logLba, lbas);
      }
      RewriteNamesLog(st, logLba, lbas, lbas.Keys, STEPS);
      for i := 0 to STEPS
        invariant Rewriting() && logPos == old(logPos) && pending.Keys <= lbas.Keys
        invariant TryRounds(State(), logLba, lbas, pending.Keys, STEPS - i) == TryRounds(st, logLba, lbas, lbas.Keys, STEPS)
      {
        TryStepBase(State(), logLba, lbas, pending.Keys);
        ret, pending := RewriteRound(pending);
        if ret != RetNone {
          return RetErr;
        }
      }
      if !randomPtr.Valid() {
        return RandzInsufficient;
      }
      return RetNone;
    }

    // The result of a rewrite, from one state to the next.
    ghost predicate Rewritten(st: RandomZoneState, st': RandomZoneState, ret: Ret)
      requires st.Base() && 0 !in inodes.inodeLbaMap && PositionToLba(nvme.info, logPos.zone, logPos.sector) < U64_LIMIT
      reads this, inodes
    {
      var logLba, lbas := PositionToLba(nvme.info, logPos.zone, logPos.sector), Lbas(inodes.inodeLbaMap);
      && (st', ret) == TryRounds(st, logLba, lbas, lbas.Keys, STEPS)
      && (st.Sound(RING_ZONES, 0) ==>
            && Compactable(st, STEPS)
            && st' == Rounds(st, logLba, lbas, lbas.Keys, STEPS).0
            && Compacted(st, st', lbas, ret))
    }

    // rewrite_random_blocks: nothing happens on an empty ring, and with a valid
    // pointer.
    method RewriteRandomBlocks() returns (ret: Ret)
      requires Rewriting()
      modifies `cblockPos, `randomPos, `randomPtr, nvme`disk, nvme.data, nvme.writePointers
      ensures Ready()
      ensures var st := old(State());
              if !st.ptr.Valid() && st.ptr != st.pos then Rewritten(st, State(), ret)
              else ret == RetNone && State() == st
    {
      hide NvmeZnsMemoryBackend.Valid, Tracks, Lbas, Rewritten, FsDisk;
      if randomPtr == randomPos {
        return RetNone;
      }
      if !randomPtr.Valid() {
        ret := RewriteRandomBlocksFull();
        return;
      }
      return RetNone;
    }

    // The last step of fsync: write the set, rewriting the random zone if it
    // fills up on the way. On a ring with room no address gets lost, and on
    // success the ring knows the current address of the whole set. On a full
    // ring it reports success, writes nothing, and returns the set without the
    // inodes of its first block. It succeeds on a ring with room exactly when all
    // blocks fit behind the others, or behind what the rewrite of the filled ring
    // leaves, without filling it again.
    method SyncNatBlocks(natSet: set<u64>, ghost current: set<u64>, ghost k: nat, ghost s: nat)
      returns (ok: bool, left: set<u64>)
      requires Rewriting() && InRing(randomPtr.zone) && natSet <= inodes.inodeLbaMap.Keys
      requires Settled(State(), Lbas(inodes.inodeLbaMap), current, k, s)
      modifies `cblockPos, `randomPos, `randomPtr, nvme`disk, nvme.data, nvme.writePointers
      ensures Ready() && left <= natSet && InRing(randomPtr.zone)
      ensures SameOutsideMetadata(old(nvme.disk), nvme.disk)
      ensures FsDisk(nvme.disk) && InRing(randomPos.zone) && randomPos.zone == old(randomPos.zone)
      ensures k < RING_ZONES ==>
                && (exists k', s' :: Settled(State(), Lbas(inodes.inodeLbaMap), current + (natSet - left), k', s'))
                && (ok ==> left == {})
                && SyncFills(old(RingContents(nvme.disk, randomPos.zone)), RingContents(nvme.disk, randomPos.zone),
                             natSet, Lbas(inodes.inodeLbaMap), nvme.info.zoneCapacity, ok)
      ensures k == RING_ZONES ==> ok && State() == old(State()) && left == natSet - Elems(NextBatch(natSet))
    {
      hide NvmeZnsMemoryBackend.Valid, Lbas, RandomZoneState.Kept, RandomZoneState.Base, RingInv, Compacted, FsDisk,
           Flush, Current, SameOutsideMetadata, NextBatch, Rounds, TryRounds, RingContents, SyncedSize, RewrittenSize,
           CeilDiv, SyncFills;
      ghost var lbas, st0 := Lbas(inodes.inodeLbaMap), State();
      LbasKeys(inodes.inodeLbaMap);
      SameInfo(nvme);
      FullShape(st0, k, s);
      RingOf(st0, k, s);
      var ret;
      ZoneOnDevice(nvme.disk, randomPtr.zone);
      ret, left := UpdateNatBlocks(natSet);
      ghost var st1 := State();
      FlushPointer(RingState(st0.d, st0.pos, st0.ptr), natSet, lbas);
      if k == RING_ZONES {
        FlushOnFullRing(RingState(st0.d, st0.pos, st0.ptr), natSet, lbas);
        OutsideSame(st0.d);
      } else {
        FlushSize(st0, st1, lbas, natSet, ret, left, k, s);
      }
      ghost var ring, c := RingContents(st0.d, st0.pos.zone), nvme.info.zoneCapacity;
      SameInfo(nvme);
      if ret == RandzFull {
        ghost var k1, s1 := FlushSettles(st0, st1, lbas, current, natSet, ret, left, k, s);
        FullShape(st1, k1, s1);
        ret := RewriteRandomBlocks();
        ghost var st2, first := State(), left;
        ghost var k2, s2 := RewriteSettles(st1, st2, lbas, current + (natSet - left), ret);
        OutsideTransitive(st0.d, st1.d, st2.d);
        if ret != RetNone {
          SyncFilled(ring, RingContents(nvme.disk, randomPos.zone), natSet, lbas, c, false);
          return false, left;
        }
        SameInfo(nvme);
        FullShape(st2, k2, s2);
        RingOf(st2, k2, s2);
        ZoneOnDevice(nvme.disk, randomPtr.zone);
        ret, left := UpdateNatBlocks(left);
        ghost var k3, s3 := FlushSettles(st2, State(), lbas, current + (natSet - first), first, ret, left, k2, s2);
        FlushPointer(RingState(st2.d, st2.pos, st2.ptr), first, lbas);
        FlushSize(st2, State(), lbas, first, ret, left, k2, s2);
        SyncFilled(ring, RingContents(nvme.disk, randomPos.zone), natSet, lbas, c, ret == RetNone);
        OutsideTransitive(st0.d, st2.d, nvme.disk);
        assert current + (natSet - first) + (first - left) == current + (natSet - left);
        if ret != RetNone {
          return false, left;
        }
      } else if k < RING_ZONES {
        ghost var k1, s1 := FlushSettles(st0, st1, lbas, current, natSet, ret, left, k, s);
        SyncFilled(ring, RingContents(nvme.disk, randomPos.zone), natSet, lbas, c, true);
      }
      return true, left;
    }

    // ---- Mounting ----------------------------------------------------------------

    // An unwritten dirty block counts as clean.
    method VerifyDirtyblock() returns (ret: Ret)
      requires Ready()
      ensures ret == if nvme.disk.Readable(DIRTY_ZONE, 0) && nvme.disk.zones[DIRTY_ZONE][0][0] == 1 then RetErr else RetNone
    {
      var ok, bytes := nvme.Read(DIRTY_ZONE, 0, 0, SECTOR_SIZE);
      if !ok {
        return RetNone;
      }
      return if bytes[0] == 1 then RetErr else RetNone;
    }

    method WriteDirtyblock() returns (ret: Ret)
      requires Ready()
      modifies nvme`disk, nvme.data, nvme.writePointers
      ensures Ready()
      ensures var d := old(nvme.disk);
              if d.Appendable(DIRTY_ZONE)
              then
                && nvme.disk == d.Append(DIRTY_ZONE, DirtyBlock())
                && ret == if d.zones[DIRTY_ZONE] == [] then RetNone else RetErr
              else nvme.disk == d && ret == RetErr
    {
      var ok, sector := nvme.Append(DIRTY_ZONE, 0, DirtyBlock());
      if !ok {
        return RetErr;
      }
      if sector != 0 {
        return RetErr;
      }
      return RetNone;
    }

    method MarkDevice() returns (ret: Ret)
      requires Ready()
      modifies nvme`disk, nvme.data, nvme.writePointers
      ensures Ready() && (nvme.disk, ret) == MarkDirty(old(nvme.disk))
    {
      ret := VerifyDirtyblock();
      if ret != RetNone {
        return RetErr;
      }
      ret := WriteDirtyblock();
    }

    // All an unmount does to the device.
    method RemoveDirtyblock() returns (ret: Ret)
      requires Ready()
      modifies nvme`disk, nvme.data, nvme.writePointers
      ensures Ready() && ret == RetNone && nvme.disk == Unmounted(old(nvme.disk))
    {
      var ok := nvme.Reset(DIRTY_ZONE);
      if !ok {
        return RetErr;
      }
      return RetNone;
    }

    // Find the pointer; on a ring that is reported full, rewrite it first. No
    // inode has been read yet.
    method FindOrRecover() returns (ret: Ret)
      requires Ready() && InRing(randomPos.zone) && randomPos == Position(randomPos.zone, 0, 0, 0)
      requires inodes.inodeLbaMap == map[] && PositionToLba(nvme.info, logPos.zone, logPos.sector) < U64_LIMIT
      requires ReportsFull(nvme.disk, randomPos.zone) ==> Tracks(nvme.disk, cblockPos) && randomPos.zone % 2 == 0
      modifies `cblockPos, `randomPos, `randomPtr, nvme`disk, nvme.data, nvme.writePointers
      ensures Ready()
      ensures (State(), ret) == RecoverRing(old(State()), PositionToLba(nvme.info, logPos.zone, logPos.sector))
    {
      hide NvmeZnsMemoryBackend.Valid, FsDisk, Tracks, TryRounds, ReportsFull, RecoverRing, DeterminePtr;
      ghost var st, logLba := State(), PositionToLba(nvme.info, logPos.zone, logPos.sector);
      assert Lbas(inodes.inodeLbaMap) == map[] && Lbas(inodes.inodeLbaMap).Keys == {};
      RecoverySteps(st, logLba);
      ret := DetermineRandomPtr();
      if ret == RandzFull {
        ret := RewriteRandomBlocks();
        if ret != RetNone {
          return RetErr;
        }
        ret := DetermineRandomPtr();
        if ret != RetNone {
          return RetErr;
        }
      }
      return RetNone;
    }

    // The positions the newest checkpoint gives.
    method LocateZones() returns (ret: Ret)
      requires Ready() && !cblockPos.Valid() && Locate(nvme.disk).Some?
      modifies `cblockPos, `randomPos, `logPos
      ensures var c := Locate(nvme.disk).value;
              && ret == RetNone && Some(cblockPos) == LocatePos(nvme.disk)
              && randomPos == old(randomPos).(zone := LbaZone(nvme.disk.info, c.randzLba),
                                              sector := LbaSector(nvme.disk.info, c.randzLba))
              && logPos == old(logPos).(zone := LbaZone(nvme.disk.info, c.logzLba),
                                        sector := LbaSector(nvme.disk.info, c.logzLba))
              && PositionToLba(nvme.info, logPos.zone, logPos.sector) == c.logzLba
    {
      hide NvmeZnsMemoryBackend.Valid, Tracks, CheckpointAt, Locate, LocatePos;
      SameInfo(nvme);
      var cblock;
      ret, cblock := GetCheckpointBlock();
      LbaOfPosition(nvme.info, cblock.logzLba);
      randomPos := randomPos.(zone := LbaZone(nvme.info, cblock.randzLba), sector := LbaSector(nvme.info, cblock.randzLba));
      logPos := logPos.(zone := LbaZone(nvme.info, cblock.logzLba), sector := LbaSector(nvme.info, cblock.logzLba));
    }

    // run_init behind the check of the super block, up to the map of addresses.
    method RunInit() returns (ret: Ret)
      requires Ready() && Startable(nvme.disk) && inodes.inodeLbaMap == map[]
      requires cblockPos == randomPos == randomPtr == logPos == Position(0, 0, 0, 0)
      modifies this, inodes, nvme`disk, nvme.data, nvme.writePointers
      ensures Ready()
      ensures (State(), ret) == InitialState(old(nvme.disk))
      ensures ret == RetNone ==> Some(Lbas(inodes.inodeLbaMap)) == Mounted(old(nvme.disk))
      ensures var info, logzLba := nvme.info, Locate(old(nvme.disk)).value.logzLba;
              logPos == if old(nvme.disk).zones[DIRTY_ZONE] != [] then old(logPos)
                        else Position(LbaZone(info, logzLba), LbaSector(info, logzLba), 0, 0)
    {
      hide NvmeZnsMemoryBackend.Valid, FsDisk, Tracks, ReportsFull, RecoverRing, DirtyBlock, ReadableRing, Replay,
           ParentsKept, Locate, LocatePos, InitialState, MarkDirty;
      ghost var d := nvme.disk;
      InitialSteps(d, MarkDirty(d).0, MarkDirty(d).1);
      SameInfo(nvme);
      ret := MarkDevice();
      if ret != RetNone {
        return RetErr;
      }
      ret := LocateZones();
      ret := FindOrRecover();
      if ret != RetNone {
        return RetErr;
      }
      ghost var ring := Replay(ReadableRing(nvme.disk, randomPos.zone));
      assert Lbas(inodes.inodeLbaMap) == map[] && map[] + ring == ring;
      inodes.inodeLbaMap := ReadRandomZone(inodes.inodeLbaMap);
      return RetNone;
    }
  }
}
