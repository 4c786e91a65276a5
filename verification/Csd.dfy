// The offload path as methods: flattening, the call handed to a kernel, the
// kernels themselves and the read that runs one.
module Csd {
  import opened Basics
  import opened Disk
  import opened Codec
  import opened ZnsMemory
  import opened Checkpoints
  import opened LogZone
  import opened InodeBlock
  import opened FileData
  import opened FileWrite
  import opened FileRead
  import opened FileIO
  import opened Snapshots
  import opened Offload

  lemma FirstAddress(d: Disk, s: Snapshot, n: nat, off: nat)
    requires Backed(d, s.AsFile()) && 0 < n && off + n <= s.inodeData.entry.size
    ensures |CallFor(s, n, off).lbas| > 0 && CallFor(s, n, off).lbas[0] != 0
  {
    HasAddress(d, s.AsFile(), StartLba(off));
  }

  // The call for a range of a file can be run, and its sectors fit.
  lemma CallReady(d: Disk, s: Snapshot, n: nat, off: nat, size: nat)
    requires Backed(d, s.AsFile()) && 0 < n <= size && off + n <= s.inodeData.entry.size
    ensures var c := CallFor(s, n, off);
            && c.op == ReadStream && |c.lbas| > 0 && c.lbas[0] != 0
            && SectorsRead(c) <= |c.lbas| && SectorsRead(c) <= CeilDiv(size, SECTOR_SIZE)
  {
    hide InLog, SectorAt, LbaReadable, LbaAt;
    KernelReadsFile(d, s, n, off);
    FirstAddress(d, s, n, off);
  }

  lemma FirstSector(d: Disk, f: File)
    requires Backed(d, f) && f.size > 0
    ensures 0 in f.blocks
  {
    HasAddress(d, f, 0);
  }

  lemma SnapshotBlock(d: Disk, f: File, k: nat)
    requires Backed(d, f) && k < Sectors(f.size)
    ensures k / DATA_BLK_LBA_NUM in f.blocks
    ensures FsDisk(d) && LbaReadable(d, LbaAt(f.blocks, k)) && FileSectors(d, f)[k] == SectorAt(d, LbaAt(f.blocks, k))
  {
    HasAddress(d, f, k);
  }

  lemma SnapshotNext(fileSize: nat, limit: nat, j: nat)
    requires limit <= fileSize && j * SECTOR_SIZE < limit
    ensures j < Sectors(fileSize)
    ensures var room := limit + (SECTOR_SIZE - 1);
            j * SECTOR_SIZE + SECTOR_SIZE <= room - room % SECTOR_SIZE
  {
  }

  lemma AddressesStep(blocks: Blocks, start: nat, i: nat)
    requires start <= i && i / DATA_BLK_LBA_NUM in blocks
    ensures Addresses(blocks, start, i + 1)
            == Addresses(blocks, start, i) + [blocks[i / DATA_BLK_LBA_NUM].lbas[i % DATA_BLK_LBA_NUM]]
  {
  }

  lemma NextNumberIs(i: nat)
    ensures (i + 1) / DATA_BLK_LBA_NUM
            == if (i + 1) % DATA_BLK_LBA_NUM == 0 then i / DATA_BLK_LBA_NUM + 1 else i / DATA_BLK_LBA_NUM
  {
  }

  lemma AnotherSector(call: Call, cur: nat)
    requires cur * SECTOR_SIZE < Limit(call)
    ensures cur < SectorsRead(call)
  {
  }

  // The first n sectors of the call stand in memory.
  predicate InMemory(d: Disk, call: Call, bytes: seq<byte>, n: nat)
    requires Runnable(d, call)
  {
    && n <= SectorsRead(call) && |bytes| == n * SECTOR_SIZE
    && bytes == Flat(ReadSectors(d, call), n * SECTOR_SIZE)
  }

  lemma NothingInMemory(d: Disk, call: Call, bytes: seq<byte>)
    requires bytes == []
    ensures Runnable(d, call) ==> InMemory(d, call, bytes, 0)
  {
  }

  lemma CanRead(d: Disk, call: Call, cur: nat)
    requires Runnable(d, call) && cur < SectorsRead(call)
    ensures LbaReadable(d, call.lbas[cur]) && ReadSectors(d, call)[cur] == SectorAt(d, call.lbas[cur])
  {
  }

  lemma FlatSnoc(secs: seq<Sector>, n: nat)
    requires WholeSectors(secs) && n < |secs|
    ensures Flat(secs, (n + 1) * SECTOR_SIZE) == Flat(secs, n * SECTOR_SIZE) + secs[n]
  {
  }

  lemma MoreInMemory(d: Disk, call: Call, bytes: seq<byte>, sector: Sector, n: nat)
    requires Runnable(d, call) && InMemory(d, call, bytes, n) && n < SectorsRead(call)
    requires sector == ReadSectors(d, call)[n]
    ensures InMemory(d, call, bytes + sector, n + 1)
  {
    hide ReadSectors, Runnable, SectorsRead;
    FlatSnoc(ReadSectors(d, call), n);
  }

  lemma AllInMemory(d: Disk, call: Call, bytes: seq<byte>, n: nat)
    requires Runnable(d, call) && InMemory(d, call, bytes, n) && Limit(call) <= n * SECTOR_SIZE
    ensures bytes[..Limit(call)] == Flat(ReadSectors(d, call), Limit(call))
  {
  }

  lemma TakePrefix(s: seq<byte>, m: nat, n: nat)
    requires n <= m <= |s|
    ensures s[..m][..n] == s[..n]
  {
  }

  class FuseLfsCsd {
    const nvme: NvmeZnsMemoryBackend
    const io: FileIO
    const log: LogZone
    const store: SnapshotStore

    constructor (store: SnapshotStore)
      ensures this.store == store && io == store.io && log == store.io.log && nvme == store.io.nvme
    {
      this.store, io, log, nvme := store, store.io, store.io.log, store.io.nvme;
    }

    ghost predicate Ready()
      reads this, io, nvme, nvme.data, nvme.writePointers, log
    {
      io.nvme == nvme && io.log == log && io.Ready()
    }

    // The result tells whether every block was in the map; the source throws
    // where this stops.
    method FlattenDataBlocks(size: nat, off: nat, blocks: Blocks) returns (ok: bool, flat: seq<u64>)
      ensures StartLba(off) <= EndLba(size, off)
      ensures ok <==> Flattens(blocks, StartLba(off), EndLba(size, off))
      ensures ok ==> flat == Addresses(blocks, StartLba(off), EndLba(size, off))
    {
      hide LbaAt;
      var startLba := off / SECTOR_SIZE;
      var endLba := (size + off) / SECTOR_SIZE;
      if (size + off) % SECTOR_SIZE != 0 {
        endLba := endLba + 1;
      }
      var startBlock := startLba / DATA_BLK_LBA_NUM;
      flat := [];
      if startBlock !in blocks {
        return false, flat;
      }
      var cur := blocks[startBlock];
      var i := startLba;
      while i < endLba
        invariant startLba <= i <= endLba
        invariant startBlock == i / DATA_BLK_LBA_NUM && startBlock in blocks && cur == blocks[startBlock]
        invariant forall j: nat | startLba <= j < i :: NextThere(blocks, j)
        invariant flat == Addresses(blocks, startLba, i)
      {
        AddressesStep(blocks, startLba, i);
        flat := flat + [cur.lbas[i % DATA_BLK_LBA_NUM]];
        NextNumberIs(i);
        if (i + 1) % DATA_BLK_LBA_NUM == 0 {
          startBlock := startBlock + 1;
          if startBlock !in blocks {
            assert !NextThere(blocks, i);
            return false, flat;
          }
          cur := blocks[startBlock];
        }
        i := i + 1;
      }
      return true, flat;
    }

    method CreateCsdContext(snap: Snapshot, size: nat, off: nat) returns (ok: bool, call: Call)
      ensures ok <==> Flattens(snap.dataBlocks, StartLba(off), EndLba(size, off))
      ensures ok ==> call == CallFor(snap, size, off)
      ensures var e := snap.inodeData.entry;
              && call.op == ReadStream && call.size == size && call.offset == off
              && call.inode == e.inode && call.parent == e.parent && call.inodeSize == e.size
              && (call.isFile <==> e.kind == INO_T_FILE)
    {
      var flat;
      ok, flat := FlattenDataBlocks(size, off, snap.dataBlocks);
      var e := snap.inodeData.entry;
      call := Call(ReadStream, size, off, e.inode, e.parent, e.kind == INO_T_FILE, e.size, flat);
    }

    // The read kernel: sectors go one behind the other into the memory of the
    // virtual machine; a failed read leaves its bytes as they were.
    method PassthroughKernel(call: Call, memory: array<byte>) returns (status: int, data: seq<byte>)
      requires Ready()
      requires |call.lbas| > 0 && SectorsRead(call) <= |call.lbas|
      requires SectorsRead(call) * SECTOR_SIZE <= memory.Length && memory != nvme.data
      modifies memory
      ensures Ready()
      ensures status == if call.lbas[0] == 0 then -2 else if call.op != ReadStream then -3 else 0
      ensures status == 0 ==> |data| == Limit(call)
      ensures status == 0 && Runnable(nvme.disk, call) ==> data == Flat(ReadSectors(nvme.disk, call), Limit(call))
    {
      hide NvmeZnsMemoryBackend.Valid, LogInv, SectorAt, LbaReadable, FsDisk, Runnable, ReadSectors;
      LogIsFs(nvme.disk, log.logPtr);
      data := [];
      if call.lbas[0] == 0 {
        return -2, data;
      }
      if call.op != ReadStream {
        return -3, data;
      }
      var dataLimit := if call.size < call.inodeSize then call.size else call.inodeSize;
      var bufferOffset := 0;
      var cur: nat := 0;
      ghost var d, known := nvme.disk, Runnable(nvme.disk, call);
      NothingInMemory(d, call, memory[..0]);
      while bufferOffset < dataLimit
        invariant Ready() && nvme.disk == d
        invariant cur <= SectorsRead(call) && bufferOffset == cur * SECTOR_SIZE
        invariant known ==> InMemory(d, call, memory[..bufferOffset], cur)
      {
        AnotherSector(call, cur);
        var ok, bytes := io.ReadLba(call.lbas[cur]);
        if known {
          CanRead(d, call, cur);
          MoreInMemory(d, call, memory[..bufferOffset], bytes, cur);
        }
        if ok {
          CopyInto(memory, bufferOffset, bytes);
        }
        bufferOffset := bufferOffset + SECTOR_SIZE;
        cur := cur + 1;
      }
      if known {
        AllInMemory(d, call, memory[..bufferOffset], cur);
        TakePrefix(memory[..], bufferOffset, dataLimit);
      }
      return 0, memory[..dataLimit];
    }

    // read_snapshot, which is only used from the first byte on. The blocks are
    // looked up with at(), so they have to be there.
    method ReadSnapshot(size: nat, snap: Snapshot) returns (ret: Ret, data: seq<byte>)
      requires Ready() && Backed(nvme.disk, snap.AsFile())
      ensures ret == RetNone && |data| <= snap.inodeData.entry.size
      ensures var limit := if size < snap.inodeData.entry.size then size else snap.inodeData.entry.size;
              data == Bytes(nvme.disk, snap.AsFile())[..limit]
    {
      hide NvmeZnsMemoryBackend.Valid, LogInv, SectorAt, LbaReadable, Backed, FsDisk, Sectors, FileSectors, Bytes,
           LbaAt, ReadSoFar;
      LogIsFs(nvme.disk, log.logPtr);
      ghost var d, f := nvme.disk, snap.AsFile();
      data := [];
      if snap.inodeData.entry.size == 0 {
        return RetNone, data;
      }
      var dataLimit := if size < snap.inodeData.entry.size then size else snap.inodeData.entry.size;
      var blockNum, index := 0, 0;
      FirstSector(d, f);
      var blk := snap.dataBlocks[0];
      var room := dataLimit + (SECTOR_SIZE - 1);
      var buffer := new byte[room - room % SECTOR_SIZE];
      var bufferOffset := 0;
      ghost var j := 0;
      ReadNothing(d, f, 0, buffer[..0]);
      while bufferOffset < dataLimit
        invariant Ready() && nvme.disk == d
        invariant bufferOffset == j * SECTOR_SIZE <= buffer.Length
        invariant blockNum * DATA_BLK_LBA_NUM + index == j && 0 <= index <= DATA_BLK_LBA_NUM
        invariant blockNum in snap.dataBlocks && blk == snap.dataBlocks[blockNum]
        invariant ReadSoFar(d, f, 0, buffer[..bufferOffset], j)
      {
        SnapshotNext(f.size, dataLimit, j);
        SnapshotBlock(d, f, j);
        if index >= DATA_BLK_LBA_NUM {
          index := 0;
          blockNum := blockNum + 1;
          NextNumber(blockNum, j);
          blk := snap.dataBlocks[blockNum];
        }
        CurrentLba(f.blocks, blockNum, index, j);
        var ok, bytes := io.ReadLba(blk.lbas[index]);
        if !ok {
          return RetErr, [];
        }
        ReadMore(d, f, 0, buffer[..bufferOffset], bytes, j);
        CopyInto(buffer, bufferOffset, bytes);
        bufferOffset := bufferOffset + SECTOR_SIZE;
        index := index + 1;
        j := j + 1;
      }
      ReadDone(d, f, 0, dataLimit, buffer[..bufferOffset], j);
      TakePrefix(buffer[..], bufferOffset, dataLimit);
      return RetNone, buffer[..dataLimit];
    }

    // read_csd with the read kernel installed. Without a snapshot it is an
    // error; for a range the blocks of the snapshot cover it replies as many
    // bytes as a regular read, from the start of the sector the offset lies in.
    // At sector-aligned offsets that is the regular reply.
    method ReadCsd(context: Key, size: nat, off: nat, memory: array<byte>) returns (reply: Reply)
      requires Ready() && store.io == io
      requires context in store.snapshots ==> Backed(nvme.disk, store.snapshots[context].readStream.AsFile())
      requires context in store.snapshots ==> Backed(nvme.disk, store.snapshots[context].file.AsFile())
      requires CeilDiv(size, SECTOR_SIZE) * SECTOR_SIZE <= memory.Length && memory != nvme.data
      modifies memory
      ensures context !in store.snapshots ==> reply == Error
      ensures context in store.snapshots ==>
                var file, from := store.snapshots[context].file, off - off % SECTOR_SIZE;
                var fileSize := file.inodeData.entry.size;
                if size == 0 || fileSize <= off then reply == Empty
                else
                  var n := if off + size < fileSize then size else fileSize - off;
                  if Flattens(file.dataBlocks, StartLba(off), EndLba(n, off))
                  then reply == Data(Bytes(nvme.disk, file.AsFile())[from..from + n]) else reply == Error
      ensures context in store.snapshots && off % SECTOR_SIZE == 0 && reply != Error ==>
                var bytes := Bytes(nvme.disk, store.snapshots[context].file.AsFile());
                && reply == ReadReply(bytes, size, off)
                && reply == if size == 0 || |bytes| <= off then Empty
                            else Data(bytes[off..if off + size < |bytes| then off + size else |bytes|])
    {
      hide NvmeZnsMemoryBackend.Valid, LogInv, Backed, FsDisk, Runnable, ReadSectors, Flattens, Bytes, CallFor,
           SectorsRead;
      var ret, kernel := store.GetSnapshot(context, SnapReadStream);
      if ret != RetNone {
        return Error;
      }
      var code;
      ret, code := ReadSnapshot(kernel.inodeData.entry.size, kernel);
      if ret != RetNone {
        return Error;
      }
      var file;
      ret, file := store.GetSnapshot(context, SnapFile);
      if ret != RetNone {
        return Error;
      }
      PrecheckIs(file.inodeData.entry.size, size, off);
      ReplyIs(Bytes(nvme.disk, file.AsFile()), size, off);
      var pre := Precheck(file.inodeData.entry.size, size, off);
      if pre == None {
        return Empty;
      }
      var n := pre.value;
      var ok, call := CreateCsdContext(file, n, off);
      if !ok {
        return Error;
      }
      KernelBytes(nvme.disk, file, n, off);
      CallReady(nvme.disk, file, n, off, size);
      var status, data := PassthroughKernel(call, memory);
      if status < 0 {
        return Error;
      }
      reply := Data(if |data| < n then data else data[..n]);
    }
  }
}
