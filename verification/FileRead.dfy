// What reading a file comes to, and the steps of the read loop.
module FileRead {
  import opened Basics
  import opened Disk
  import opened Codec
  import opened Checkpoints
  import opened LogZone
  import opened InodeBlock
  import opened FileData
  import opened FileWrite

  // What goes back to the caller of a read.
  datatype Reply = Empty | Data(bytes: seq<byte>) | Error

  // Follow the links of data blocks on the device.
  function LinkedBlock(d: Disk, lba: nat, n: nat): Option<DataBlock>
    requires FsDisk(d)
    decreases n
  {
    if !LbaReadable(d, lba) then None
    else
      var b := DecodeDataBlock(SectorAt(d, lba));
      if n == 0 then Some(b) else LinkedBlock(d, b.next, n - 1)
  }

  // Addresses of blocks on the device, each named by the block before it, and the
  // block the last one leads to.
  predicate Chain(d: Disk, lbas: seq<nat>, b: DataBlock)
    requires FsDisk(d)
  {
    && |lbas| > 0 && LbaReadable(d, lbas[0])
    && var first := DecodeDataBlock(SectorAt(d, lbas[0]));
       if |lbas| == 1 then first == b else lbas[1] == first.next && Chain(d, lbas[1..], b)
  }

  // The n-th block is the last of the chain of n links that starts at the address,
  // and there is none if that chain breaks.
  lemma {:induction false} LinkedBlockExactly(d: Disk, lba: nat, n: nat, b: DataBlock)
    requires FsDisk(d)
    ensures LinkedBlock(d, lba, n) == Some(b) <==> exists lbas :: |lbas| == n + 1 && lbas[0] == lba && Chain(d, lbas, b)
    decreases n
  {
    hide DecodeDataBlock;
    if LbaReadable(d, lba) {
      if n == 0 {
        assert LinkedBlock(d, lba, 0) == Some(b) ==> Chain(d, [lba], b);
      } else {
        var next := DecodeDataBlock(SectorAt(d, lba)).next;
        LinkedBlockExactly(d, next, n - 1, b);
        if LinkedBlock(d, next, n - 1) == Some(b) {
          var rest :| |rest| == n && rest[0] == next && Chain(d, rest, b);
          assert ([lba] + rest)[1..] == rest;
          assert Chain(d, [lba] + rest, b);
        }
        forall lbas | |lbas| == n + 1 && lbas[0] == lba && Chain(d, lbas, b)
          ensures LinkedBlock(d, next, n - 1) == Some(b)
        {
          assert |lbas[1..]| == n && lbas[1..][0] == next && Chain(d, lbas[1..], b);
        }
      }
    }
  }

  // get_data_block: blocks in memory first, then the device, but only for
  // inodes that have blocks in memory at all.
  function DataBlockOf(d: Disk, all: map<u64, Blocks>, entry: InodeEntry, n: nat): Option<DataBlock>
    requires FsDisk(d)
  {
    if entry.inode !in all then None
    else if n in all[entry.inode] then Some(all[entry.inode][n])
    else LinkedBlock(d, entry.dataLba, n)
  }

  function BlocksOf(all: map<u64, Blocks>, ino: u64): Blocks {
    if ino in all then all[ino] else map[]
  }

  // read_precheck: what is left of a request, if anything.
  function Precheck(fileSize: nat, size: nat, offset: nat): Option<nat> {
    if fileSize < offset then None
    else
      var n := if fileSize < offset + size then fileSize - offset else size;
      if n == 0 then None else Some(n)
  }

  // A read returns the requested part of the file, cut at its end.
  function ReadReply(bytes: seq<byte>, size: nat, offset: nat): Reply {
    match Precheck(|bytes|, size, offset)
    case None => Empty
    case Some(n) => Data(bytes[offset..offset + n])
  }

  // What is left of a request is all of it, or what the file has from the offset
  // on; nothing is left of an empty one, and of one that starts at or behind the
  // end of the file.
  lemma PrecheckIs(fileSize: nat, size: nat, offset: nat)
    ensures size > 0 && offset < fileSize ==>
              Precheck(fileSize, size, offset) == Some(if offset + size < fileSize then size else fileSize - offset)
    ensures size == 0 || fileSize <= offset ==> Precheck(fileSize, size, offset) == None
  {
  }

  // So the reply ends with the request or with the file.
  lemma ReplyIs(bytes: seq<byte>, size: nat, offset: nat)
    ensures size > 0 && offset < |bytes| ==>
              ReadReply(bytes, size, offset)
              == Data(bytes[offset..if offset + size < |bytes| then offset + size else |bytes|])
    ensures size == 0 || |bytes| <= offset ==> ReadReply(bytes, size, offset) == Empty
  {
    PrecheckIs(|bytes|, size, offset);
  }

  // Length of the buffer of a read: the request with the offset into its first
  // sector, rounded up to whole sectors.
  function BufferSize(dataLimit: nat, size: nat, offset: nat): nat {
    var room := dataLimit + offset % SECTOR_SIZE + size % SECTOR_SIZE + (SECTOR_SIZE - 1);
    room - room % SECTOR_SIZE
  }

  // While bytes are missing there is another sector in the file, and room for it.
  lemma NextFits(fileSize: nat, offset: nat, n: nat, j: nat)
    requires offset + n <= fileSize && j * SECTOR_SIZE < n + offset % SECTOR_SIZE
    ensures offset / SECTOR_SIZE + j < Sectors(fileSize)
    ensures j * SECTOR_SIZE + SECTOR_SIZE <= BufferSize(n, n, offset)
  {
  }

  lemma NextNumber(n: nat, k: nat)
    requires n * DATA_BLK_LBA_NUM == k
    ensures k / DATA_BLK_LBA_NUM == n
  {
  }

  lemma TakeSlice(s: seq<byte>, m: nat, from: nat, n: nat)
    requires from + n <= m <= |s|
    ensures s[..m][from..from + n] == s[from..from + n]
  {
  }

  lemma StartLoaded(d: Disk, f: File, off: nat, n: nat)
    requires FileInv(d, f) && off <= f.size && n == off / SECTOR_SIZE / DATA_BLK_LBA_NUM
    ensures f.size > 0 ==> n in f.blocks
  {
    SectorsAfter(f.size, off, 0);
  }

  // A sector inside the file: its block is in memory and it can be read.
  lemma HasBlock(d: Disk, f: File, k: nat)
    requires FileInv(d, f) && k < Sectors(f.size)
    ensures k / DATA_BLK_LBA_NUM in f.blocks
    ensures FsDisk(d) && LbaAt(f.blocks, k) != 0 && LbaReadable(d, LbaAt(f.blocks, k))
    ensures FileSectors(d, f)[k] == SectorAt(d, LbaAt(f.blocks, k))
  {
    LogLbaPositive(d, LbaAt(f.blocks, k));
  }

  // j sectors of the file, from sector first on.
  predicate ReadSoFar(d: Disk, f: File, first: nat, bytes: seq<byte>, j: nat)
    requires Backed(d, f)
  {
    && |bytes| == j * SECTOR_SIZE && (j > 0 ==> first + j <= Sectors(f.size))
    && forall i: nat | i < |bytes| :: bytes[i] == FileSectors(d, f)[first + i / SECTOR_SIZE][i % SECTOR_SIZE]
  }

  lemma ReadNothing(d: Disk, f: File, first: nat, bytes: seq<byte>)
    requires Backed(d, f) && bytes == []
    ensures ReadSoFar(d, f, first, bytes, 0)
  {
  }

  lemma ReadMore(d: Disk, f: File, first: nat, bytes: seq<byte>, sector: Sector, j: nat)
    requires Backed(d, f) && ReadSoFar(d, f, first, bytes, j)
    requires first + j < Sectors(f.size) && sector == FileSectors(d, f)[first + j]
    ensures ReadSoFar(d, f, first, bytes + sector, j + 1)
  {
    hide Backed, Loaded, FileSectors;
  }

  lemma ReadByte(d: Disk, f: File, offset: nat, i: nat, bytes: seq<byte>, j: nat)
    requires Backed(d, f) && ReadSoFar(d, f, offset / SECTOR_SIZE, bytes, j)
    requires offset + i < f.size && offset % SECTOR_SIZE + i < |bytes|
    ensures bytes[offset % SECTOR_SIZE + i] == Bytes(d, f)[offset + i]
  {
    hide Backed, Loaded, FileSectors, Sectors;
    var o := offset % SECTOR_SIZE;
    assert offset / SECTOR_SIZE + (o + i) / SECTOR_SIZE == (offset + i) / SECTOR_SIZE;
    assert (o + i) % SECTOR_SIZE == (offset + i) % SECTOR_SIZE;
  }

  lemma ReadDone(d: Disk, f: File, offset: nat, n: nat, bytes: seq<byte>, j: nat)
    requires Backed(d, f) && ReadSoFar(d, f, offset / SECTOR_SIZE, bytes, j)
    requires offset + n <= f.size && offset % SECTOR_SIZE + n <= |bytes|
    ensures bytes[offset % SECTOR_SIZE..offset % SECTOR_SIZE + n] == Bytes(d, f)[offset..offset + n]
  {
    hide Backed, Loaded, FileSectors, Sectors, ReadSoFar;
    var o := offset % SECTOR_SIZE;
    var r, whole := bytes[o..o + n], Bytes(d, f);
    forall i | 0 <= i < n ensures r[i] == whole[offset..offset + n][i] {
      ReadByte(d, f, offset, i, bytes, j);
    }
  }
}
