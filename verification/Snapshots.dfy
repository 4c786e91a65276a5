// In-memory snapshots of files and kernels: copies of an inode entry and its
// data blocks, filed under the inode and the process that asked for them.
module Snapshots {
  import opened Basics
  import opened Disk
  import opened Codec
  import opened ZnsMemory
  import opened Checkpoints
  import opened LogZone
  import opened InodeBlock
  import opened Inodes
  import opened FileData
  import opened FileWrite
  import opened FileRead
  import opened FileIO

  // csd_unique_t
  datatype Key = Key(ino: u64, pid: int)

  datatype SnapType = SnapFile | SnapReadStream | SnapWriteStream | SnapReadEvent | SnapWriteEvent

  datatype Snapshot = Snapshot(inodeData: NamedEntry, dataBlocks: Blocks) {
    function AsFile(): File {
      File(dataBlocks, inodeData.entry.size)
    }
  }

  datatype CsdSnapshot = CsdSnapshot(file: Snapshot, readStream: Snapshot, writeStream: Snapshot,
                                     readEvent: Snapshot, writeEvent: Snapshot)
  {
    function Of(t: SnapType): Snapshot {
      match t
      case SnapFile => file
      case SnapReadStream => readStream
      case SnapWriteStream => writeStream
      case SnapReadEvent => readEvent
      case SnapWriteEvent => writeEvent
    }

    function With(t: SnapType, s: Snapshot): (r: CsdSnapshot)
      ensures r.Of(t) == s
      ensures forall t' | t' != t :: r.Of(t') == Of(t')
    {
      match t
      case SnapFile => this.(file := s)
      case SnapReadStream => this.(readStream := s)
      case SnapWriteStream => this.(writeStream := s)
      case SnapReadEvent => this.(readEvent := s)
      case SnapWriteEvent => this.(writeEvent := s)
    }
  }

  predicate Stream(t: SnapType) {
    t == SnapReadStream || t == SnapWriteStream
  }

  function NoSnapshot(): Snapshot {
    Snapshot(NamedEntry(InodeEntry(0, 0, 0, 0, 0), []), map[])
  }

  function NoSnapshots(): CsdSnapshot {
    CsdSnapshot(NoSnapshot(), NoSnapshot(), NoSnapshot(), NoSnapshot(), NoSnapshot())
  }

  // The number of data blocks a snapshot copies: those with at least one sector
  // of the file.
  function BlocksNeeded(size: nat): nat {
    CeilDiv(Sectors(size), DATA_BLK_LBA_NUM)
  }

  // The first n blocks of a file.
  function Copied(blocks: Blocks, n: nat): Blocks {
    map i | i in blocks && i < n :: blocks[i]
  }

  // A snapshot of a file of this file system.
  function SnapshotOf(e: NamedEntry, blocks: Blocks): Snapshot {
    Snapshot(e, Copied(blocks, BlocksNeeded(e.entry.size)))
  }

  lemma SnapshotEntry(e: NamedEntry, blocks: Blocks)
    ensures SnapshotOf(e, blocks).inodeData == e
  {
  }

  // The copy is complete: it reads like the file it was taken from, and holds
  // exactly the blocks with sectors of the file.
  lemma SnapshotReadsLikeFile(d: Disk, e: NamedEntry, blocks: Blocks)
    requires FileInv(d, File(blocks, e.entry.size))
    ensures var s := SnapshotOf(e, blocks);
            && (forall n: nat :: n in s.dataBlocks <==> n < BlocksNeeded(e.entry.size))
            && Backed(d, s.AsFile())
            && FileSectors(d, s.AsFile()) == FileSectors(d, File(blocks, e.entry.size))
            && Bytes(d, s.AsFile()) == Bytes(d, File(blocks, e.entry.size))
  {
    hide InLog, SectorAt;
    var s, f := SnapshotOf(e, blocks), File(blocks, e.entry.size);
    forall i: nat | i < Sectors(f.size) ensures LbaAt(s.dataBlocks, i) == LbaAt(blocks, i) {
      assert i / DATA_BLK_LBA_NUM < BlocksNeeded(f.size);
    }
    assert FileSectors(d, s.AsFile()) == FileSectors(d, f);
  }

  method ComputeDataBlockNum(numLbas: nat) returns (blocks: nat)
    ensures blocks == CeilDiv(numLbas, DATA_BLK_LBA_NUM)
  {
    blocks := numLbas / DATA_BLK_LBA_NUM;
    blocks := blocks + if numLbas % DATA_BLK_LBA_NUM != 0 then 1 else 0;
  }

  lemma BlockThere(f: File, i: nat)
    requires Loaded(f, f.blocks) && i < BlocksNeeded(f.size)
    ensures i in f.blocks
    ensures Copied(f.blocks, i + 1) == Copied(f.blocks, i)[i := f.blocks[i]]
  {
  }

  class SnapshotStore {
    const io: FileIO
    const inodes: Inodes
    const log: LogZone
    const nvme: NvmeZnsMemoryBackend
    var snapshots: map<Key, CsdSnapshot>

    constructor (io: FileIO)
      ensures this.io == io && inodes == io.inodes && log == io.log && nvme == io.nvme
      ensures snapshots == map[]
    {
      this.io, inodes, log, nvme := io, io.inodes, io.log, io.nvme;
      snapshots := map[];
    }

    ghost predicate Ready()
      reads this, io, inodes, nvme, nvme.data, nvme.writePointers, log, inodes.lbaMap, inodes.entries
    {
      && io.inodes == inodes && io.log == log && io.nvme == nvme
      && inodes.log == log && inodes.nvme == nvme
      && inodes.Ready()
    }

    // An inode that is found, as a file of this file system.
    ghost predicate Intact(ino: u64)
      requires Ready()
      reads this, io, inodes, nvme, nvme.data, nvme.writePointers, log, inodes.lbaMap, inodes.entries
    {
      var r := LookupOf(inodes.State(), ino);
      r.Found? && FileInv(nvme.disk, io.FileOf(r.value.entry))
    }

    ghost function Taken(ino: u64): Snapshot
      requires Ready() && Intact(ino)
      reads this, io, inodes, nvme, nvme.data, nvme.writePointers, log, inodes.lbaMap, inodes.entries
    {
      SnapshotOf(LookupOf(inodes.State(), ino).value, BlocksOf(io.dataBlocks, ino))
    }

    // Copy the entry and the data blocks of an inode.
    method CreateSnapshot(ino: u64) returns (ret: Ret, snap: Snapshot)
      requires Ready()
      ensures Intact(ino) ==> ret == RetNone && snap == Taken(ino)
      ensures !LookupOf(inodes.State(), ino).Found? ==> ret == RetErr
      ensures ret == RetNone ==> snap.inodeData.entry.inode == ino != 0
    {
      hide NvmeZnsMemoryBackend.Valid, MetaInv, LookupOf, LinkedBlock, LogInv, Backed, FsDisk;
      ghost var m := inodes.State();
      InvLog(m);
      FoundIsProper(m, ino);
      ghost var known := Intact(ino);
      snap := NoSnapshot();
      var found;
      ret, found := inodes.GetInode(ino);
      if ret != RetNone {
        return RetErr, snap;
      }
      snap := snap.(inodeData := found.value);
      var entry := found.value.entry;
      var numLbas := entry.size / SECTOR_SIZE;
      numLbas := numLbas + if entry.size % SECTOR_SIZE != 0 then 1 else 0;
      var blocks := ComputeDataBlockNum(numLbas);
      ghost var all := BlocksOf(io.dataBlocks, ino);
      for i := 0 to blocks
        invariant snap.inodeData == found.value && found.value.entry.inode == ino != 0
        invariant known ==> snap.dataBlocks == Copied(all, i)
      {
        if known {
          BlockThere(io.FileOf(entry), i);
        }
        var db;
        ret, db := io.GetDataBlock(entry, i);
        if ret != RetNone {
          return RetErr, snap;
        }
        var copy: Blocks := snap.dataBlocks;
        copy := copy[i := db];
        snap := snap.(dataBlocks := copy);
      }
      return RetNone, snap;
    }

    // Install a kernel. A first stream kernel also takes a snapshot of the
    // file; an existing snapshot keeps the file as it is.
    method InstallKernel(context: Key, kernel: u64, snapType: SnapType) returns (ret: Ret)
      requires Ready()
      modifies `snapshots
      ensures Ready()
      ensures ret != RetNone ==> snapshots == old(snapshots)
      ensures ret == RetNone ==>
                && snapType != SnapFile
                && context in snapshots
                && snapshots == old(snapshots)[context := snapshots[context]]
                && (context in old(snapshots) ==>
                      snapshots[context] == old(snapshots)[context].With(snapType, snapshots[context].Of(snapType)))
                && (context !in old(snapshots) && (snapType == SnapReadStream || snapType == SnapWriteStream) ==>
                      snapshots[context] == NoSnapshots().(file := snapshots[context].file)
                                                         .With(snapType, snapshots[context].Of(snapType)))
                && (context !in old(snapshots) && snapType != SnapReadStream && snapType != SnapWriteStream ==>
                      snapshots[context] == NoSnapshots().With(snapType, snapshots[context].Of(snapType)))
      ensures ret == RetNone && Intact(kernel) ==> snapshots[context].Of(snapType) == Taken(kernel)
      ensures ret == RetNone && context !in old(snapshots)
              && (snapType == SnapReadStream || snapType == SnapWriteStream) ==>
                && snapshots[context].file.inodeData.entry.inode == context.ino != 0
                && (Intact(context.ino) ==> snapshots[context].file == Taken(context.ino))
      ensures snapType != SnapFile && Intact(kernel)
              && (context !in old(snapshots) && (snapType == SnapReadStream || snapType == SnapWriteStream)
                  ==> Intact(context.ino))
              ==> ret == RetNone
    {
      hide NvmeZnsMemoryBackend.Valid, MetaInv, LookupOf, FileInv, Copied;
      var snap := NoSnapshots();
      var found;
      ret, found := GetSnapshots(context);
      if ret == RetNone {
        snap := found;
      } else if Stream(snapType) {
        var file;
        ret, file := CreateSnapshot(context.ino);
        if ret != RetNone {
          return RetErr;
        }
        snap := snap.(file := file);
      }
      if snapType == SnapFile {
        return RetErr;
      }
      var copy;
      ret, copy := CreateSnapshot(kernel);
      if ret != RetNone {
        return RetErr;
      }
      snap := snap.With(snapType, copy);
      snapshots := snapshots[context := snap];
      return RetNone;
    }

    method UpdateSnapshot(context: Key, snap: Snapshot, snapType: SnapType) returns (ret: Ret)
      modifies `snapshots
      ensures ret == RetNone
      ensures snapshots == old(snapshots)[context :=
                (if context in old(snapshots) then old(snapshots)[context] else NoSnapshots()).With(snapType, snap)]
    {
      var temp := NoSnapshots();
      var found;
      ret, found := GetSnapshots(context);
      if ret == RetNone {
        temp := found;
      }
      temp := temp.With(snapType, snap);
      snapshots := snapshots[context := temp];
      return RetNone;
    }

    // A snapshot that was never taken has inode 0.
    method HasSnapshot(context: Key, snapType: SnapType) returns (r: bool)
      ensures r <==> context in snapshots && snapshots[context].Of(snapType).inodeData.entry.inode != 0
    {
      if context !in snapshots {
        return false;
      }
      return snapshots[context].Of(snapType).inodeData.entry.inode != 0;
    }

    method GetSnapshots(context: Key) returns (ret: Ret, snaps: CsdSnapshot)
      ensures ret == if context in snapshots then RetNone else RetErr
      ensures context in snapshots ==> snaps == snapshots[context]
    {
      if context !in snapshots {
        return RetErr, NoSnapshots();
      }
      return RetNone, snapshots[context];
    }

    method GetSnapshot(context: Key, snapType: SnapType) returns (ret: Ret, snap: Snapshot)
      ensures ret == if context in snapshots then RetNone else RetErr
      ensures context in snapshots ==> snap == snapshots[context].Of(snapType)
    {
      var snaps;
      ret, snaps := GetSnapshots(context);
      snap := snaps.Of(snapType);
    }

    method DeleteSnapshot(context: Key) returns (ret: Ret)
      modifies `snapshots
      ensures ret == if context in old(snapshots) then RetNone else RetErr
      ensures snapshots == old(snapshots) - {context}
    {
      if context !in snapshots {
        return RetErr;
      }
      snapshots := snapshots - {context};
      return RetNone;
    }

    // setattr_csd: a truncate of a snapshotted file only changes the snapshot.
    method TruncateSnapshot(context: Key, size: u64) returns (ret: Ret)
      modifies `snapshots
      ensures ret == if context in old(snapshots) then RetNone else RetErr
      ensures ret != RetNone ==> snapshots == old(snapshots)
      ensures ret == RetNone ==>
                var s := old(snapshots)[context].file;
                var s' := s.(inodeData := s.inodeData.(entry := s.inodeData.entry.(size := size)));
                snapshots == old(snapshots)[context := old(snapshots)[context].With(SnapFile, s')]
    {
      var snap;
      ret, snap := GetSnapshot(context, SnapFile);
      if ret != RetNone {
        return RetErr;
      }
      snap := snap.(inodeData := snap.inodeData.(entry := snap.inodeData.entry.(size := size)));
      ret := UpdateSnapshot(context, snap, SnapFile);
    }
  }
}
