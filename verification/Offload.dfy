// Reading through a kernel on the device: the addresses of a range of a
// snapshot are flattened, handed to the kernel, and the kernel reads them.
module Offload {
  import opened Basics
  import opened Disk
  import opened Codec
  import opened ZnsMemory
  import opened Checkpoints
  import opened LogZone
  import opened InodeBlock
  import opened FileData
  import opened FileWrite
  import opened FileRead
  import opened Snapshots

  const CSD_READ_STRIDE: nat := 524288

  // First sector of a range, and the first behind it.
  function StartLba(off: nat): nat {
    off / SECTOR_SIZE
  }

  function EndLba(size: nat, off: nat): nat {
    (size + off) / SECTOR_SIZE + if (size + off) % SECTOR_SIZE != 0 then 1 else 0
  }

  predicate NextThere(blocks: Blocks, i: nat) {
    (i + 1) % DATA_BLK_LBA_NUM == 0 ==> (i + 1) / DATA_BLK_LBA_NUM in blocks
  }

  // flatten_data_blocks throws exactly when it steps to a block that is not in
  // the map; it does so once too often behind the last entry of a block.
  predicate Flattens(blocks: Blocks, start: nat, end: nat) {
    && start / DATA_BLK_LBA_NUM in blocks
    && forall i: nat | start <= i < end :: NextThere(blocks, i)
  }

  function Addresses(blocks: Blocks, start: nat, end: nat): (r: seq<u64>)
    requires start <= end
    ensures |r| == end - start
    ensures forall j | 0 <= j < |r| :: r[j] == LbaAt(blocks, start + j)
  {
    seq<u64>(end - start, j requires 0 <= j < end - start => LbaAt(blocks, start + j))
  }

  // For a snapshot, and a range inside its file, flattening fails exactly when
  // the range reaches the last sector of the file and that sector is the last
  // of a block.
  lemma FlattenFailsExactly(e: NamedEntry, blocks: Blocks, size: nat, off: nat)
    requires Loaded(File(blocks, e.entry.size), blocks)
    requires size > 0 && off + size <= e.entry.size
    ensures Flattens(SnapshotOf(e, blocks).dataBlocks, StartLba(off), EndLba(size, off))
            <==> !(EndLba(size, off) == Sectors(e.entry.size) && EndLba(size, off) % DATA_BLK_LBA_NUM == 0)
  {
    var s, n := SnapshotOf(e, blocks).dataBlocks, BlocksNeeded(e.entry.size);
    var start, end, last := StartLba(off), EndLba(size, off), Sectors(e.entry.size);
    assert start < end <= last;
    assert forall i: nat :: i in s <==> i < n;
    if end == last && end % DATA_BLK_LBA_NUM == 0 {
      assert !NextThere(s, end - 1);
    } else {
      forall i: nat | start <= i < end ensures NextThere(s, i) {
        if (i + 1) % DATA_BLK_LBA_NUM == 0 {
          assert i + 1 < last;
        }
      }
    }
  }

  datatype Operation = ReadStream | WriteEvent

  // struct flfs_call with the addresses behind it.
  datatype Call = Call(op: Operation, size: nat, offset: nat, inode: u64, parent: u64, isFile: bool, inodeSize: nat,
                       lbas: seq<u64>)

  // What the kernel reads: one sector for each started sector of its limit.
  function Limit(c: Call): nat {
    if c.size < c.inodeSize then c.size else c.inodeSize
  }

  function SectorsRead(c: Call): nat {
    CeilDiv(Limit(c), SECTOR_SIZE)
  }

  predicate Runnable(d: Disk, c: Call) {
    && FsDisk(d) && SectorsRead(c) <= |c.lbas|
    && forall j | 0 <= j < SectorsRead(c) :: c.lbas[j] != 0 && LbaReadable(d, c.lbas[j])
  }

  function ReadSectors(d: Disk, c: Call): (r: seq<Sector>)
    requires Runnable(d, c)
    ensures |r| == SectorsRead(c) && WholeSectors(r)
    ensures forall j | 0 <= j < |r| :: r[j] == SectorAt(d, c.lbas[j])
  {
    seq(SectorsRead(c), j requires 0 <= j < SectorsRead(c) => SectorAt(d, c.lbas[j]))
  }

  lemma EndBehindStart(size: nat, off: nat)
    ensures StartLba(off) <= EndLba(size, off)
  {
  }

  // The call for a range of a snapshot.
  function CallFor(s: Snapshot, size: nat, off: nat): Call {
    var e := s.inodeData.entry;
    EndBehindStart(size, off);
    Call(ReadStream, size, off, e.inode, e.parent, e.kind == INO_T_FILE, e.size,
         Addresses(s.dataBlocks, StartLba(off), EndLba(size, off)))
  }

  lemma HasAddress(d: Disk, f: File, k: nat)
    requires Backed(d, f) && k < Sectors(f.size)
    ensures LbaAt(f.blocks, k) != 0 && LbaReadable(d, LbaAt(f.blocks, k))
  {
    LogLbaPositive(d, LbaAt(f.blocks, k));
  }

  // The kernel reads the sectors of the file from the one the offset lies in.
  lemma KernelReadsFile(d: Disk, s: Snapshot, size: nat, off: nat)
    requires Backed(d, s.AsFile()) && size > 0 && off + size <= s.inodeData.entry.size
    ensures var c, first := CallFor(s, size, off), StartLba(off);
            && Runnable(d, c) && Limit(c) == size
            && first + SectorsRead(c) <= Sectors(s.inodeData.entry.size)
            && ReadSectors(d, c) == FileSectors(d, s.AsFile())[first..first + SectorsRead(c)]
  {
    hide InLog, SectorAt;
    var c, f := CallFor(s, size, off), s.AsFile();
    forall j | 0 <= j < SectorsRead(c)
      ensures c.lbas[j] == LbaAt(f.blocks, StartLba(off) + j) && c.lbas[j] != 0 && LbaReadable(d, c.lbas[j])
    {
      HasAddress(d, f, StartLba(off) + j);
    }
  }

  // The first bytes the kernel read are those of the file from the start of the
  // sector the offset lies in, so at any offset inside a sector it is too early.
  lemma KernelBytes(d: Disk, s: Snapshot, size: nat, off: nat)
    requires Backed(d, s.AsFile()) && size > 0 && off + size <= s.inodeData.entry.size
    ensures var c, from := CallFor(s, size, off), off - off % SECTOR_SIZE;
            && Runnable(d, c) && Limit(c) == size <= SectorsRead(c) * SECTOR_SIZE
            && Flat(ReadSectors(d, c), size) == Bytes(d, s.AsFile())[from..from + size]
  {
    hide InLog, SectorAt, Backed, CallFor, Flat;
    KernelReadsFile(d, s, size, off);
    var c, first := CallFor(s, size, off), StartLba(off);
    assert first * SECTOR_SIZE == off - off % SECTOR_SIZE;
    FlatSlice(FileSectors(d, s.AsFile()), s.inodeData.entry.size, first, SectorsRead(c), size);
  }

  // Offloaded read equals regular read at sector-aligned offsets: what the
  // kernel read is the requested range of the file, cut at its end.
  lemma OffloadedEqualsRegular(d: Disk, s: Snapshot, size: nat, off: nat)
    requires Backed(d, s.AsFile()) && off % SECTOR_SIZE == 0
    ensures var bytes := Bytes(d, s.AsFile());
            if size == 0 || |bytes| <= off then ReadReply(bytes, size, off) == Empty
            else
              var n := if off + size < |bytes| then size else |bytes| - off;
              && Runnable(d, CallFor(s, n, off)) && Limit(CallFor(s, n, off)) == n
              && n <= SectorsRead(CallFor(s, n, off)) * SECTOR_SIZE
              && ReadReply(bytes, size, off) == Data(bytes[off..off + n])
              && Flat(ReadSectors(d, CallFor(s, n, off)), n) == bytes[off..off + n]
  {
    hide InLog, SectorAt, Backed, CallFor, Flat, Bytes, ReadSectors, ReadReply;
    var bytes := Bytes(d, s.AsFile());
    ReplyIs(bytes, size, off);
    if size > 0 && off < |bytes| {
      KernelBytes(d, s, if off + size < |bytes| then size else |bytes| - off, off);
    }
  }
}
