// The contents of a file: bytes in sectors of the log, found through data
// blocks of 511 addresses each, and what writing a range of bytes makes of
// them.
module FileData {
  import opened Basics
  import opened Disk
  import opened Codec
  import opened Checkpoints
  import opened LogZone

  type Blocks = map<nat, DataBlock>

  // What the file system knows of a file: its data blocks and its size.
  datatype File = File(blocks: Blocks, size: nat)

  function Sectors(size: nat): nat {
    CeilDiv(size, SECTOR_SIZE)
  }

  // The address of the i-th sector, 0 when there is none.
  function LbaAt(blocks: Blocks, i: nat): u64
  {
    if i / DATA_BLK_LBA_NUM in blocks then blocks[i / DATA_BLK_LBA_NUM].lbas[i % DATA_BLK_LBA_NUM] else 0
  }

  // Every sector of the file is in the log.
  predicate Backed(d: Disk, f: File) {
    FsDisk(d) && forall i: nat | i < Sectors(f.size) :: InLog(d, LbaAt(f.blocks, i))
  }

  // Blocks are there up to the one behind the last full block.
  predicate Loaded(f: File, blocks: Blocks) {
    f.size > 0 ==> forall n: nat | n <= Sectors(f.size) / DATA_BLK_LBA_NUM :: n in blocks
  }

  // A file of this file system between two operations.
  predicate FileInv(d: Disk, f: File) {
    Backed(d, f) && Loaded(f, f.blocks)
  }

  function FileSectors(d: Disk, f: File): (r: seq<Sector>)
    requires Backed(d, f)
    ensures |r| == Sectors(f.size)
    ensures forall i | 0 <= i < |r| :: |r[i]| == SECTOR_SIZE && r[i] == SectorAt(d, LbaAt(f.blocks, i))
  {
    seq(Sectors(f.size), i requires 0 <= i < Sectors(f.size) => SectorAt(d, LbaAt(f.blocks, i)))
  }

  predicate WholeSectors(secs: seq<Sector>) {
    forall i | 0 <= i < |secs| :: |secs[i]| == SECTOR_SIZE
  }

  // The first bytes of a run of sectors.
  function Flat(secs: seq<Sector>, size: nat): (r: seq<byte>)
    requires WholeSectors(secs) && size <= |secs| * SECTOR_SIZE
    ensures |r| == size
    ensures forall i | 0 <= i < size :: r[i] == secs[i / SECTOR_SIZE][i % SECTOR_SIZE]
  {
    seq(size, i requires 0 <= i < size => secs[i / SECTOR_SIZE][i % SECTOR_SIZE])
  }

  // A run of the sectors is a range of the bytes.
  lemma FlatSlice(secs: seq<Sector>, total: nat, first: nat, m: nat, size: nat)
    requires WholeSectors(secs) && total <= |secs| * SECTOR_SIZE && first + m <= |secs|
    requires size <= m * SECTOR_SIZE && first * SECTOR_SIZE + size <= total
    ensures WholeSectors(secs[first..first + m])
    ensures Flat(secs[first..first + m], size) == Flat(secs, total)[first * SECTOR_SIZE..first * SECTOR_SIZE + size]
  {
    var part, at := secs[first..first + m], first * SECTOR_SIZE;
    var r, whole := Flat(part, size), Flat(secs, total);
    forall i | 0 <= i < size ensures r[i] == whole[at..at + size][i] {
      assert whole[at..at + size][i] == whole[at + i];
      assert (at + i) / SECTOR_SIZE == first + i / SECTOR_SIZE && (at + i) % SECTOR_SIZE == i % SECTOR_SIZE;
      assert part[i / SECTOR_SIZE] == secs[first + i / SECTOR_SIZE];
    }
    assert r == whole[at..at + size];
  }

  // The file as its readers know it.
  function Bytes(d: Disk, f: File): (r: seq<byte>)
    requires Backed(d, f)
    ensures |r| == f.size
  {
    Flat(FileSectors(d, f), f.size)
  }

  // A growing log changes no file.
  lemma FileKept(d: Disk, d': Disk, f: File)
    requires Backed(d, f) && FsDisk(d') && LogGrows(d, d')
    ensures Backed(d', f)
    ensures FileSectors(d', f) == FileSectors(d, f) && Bytes(d', f) == Bytes(d, f)
  {
    hide LogGrows, InLog, SectorAt;
    forall i: nat | i < Sectors(f.size)
      ensures InLog(d', LbaAt(f.blocks, i))
    {
      GrowsKeeps(d, d', LbaAt(f.blocks, i));
    }
    var r, r' := FileSectors(d, f), FileSectors(d', f);
    forall i | 0 <= i < |r| ensures r'[i] == r[i] {
      GrowsKeeps(d, d', LbaAt(f.blocks, i));
    }
    assert r == r';
  }

  // ---- Writing ------------------------------------------------------------------

  // Number of sectors a range of bytes touches.
  function Touched(off: nat, size: nat): nat {
    CeilDiv(off % SECTOR_SIZE + size, SECTOR_SIZE)
  }

  // Where sector j of a write takes its bytes: from the first byte behind the
  // sectors before it, at the offset of the write only in its first sector.
  function ChunkAt(off: nat, j: nat): int {
    if j == 0 then 0 else j * SECTOR_SIZE - off % SECTOR_SIZE
  }

  function ChunkOff(off: nat, j: nat): nat {
    if j == 0 then off % SECTOR_SIZE else 0
  }

  function ChunkLen(off: nat, size: nat, j: nat): (n: nat)
    requires j < Touched(off, size)
    ensures 0 <= ChunkAt(off, j) && ChunkAt(off, j) + n <= size
    ensures ChunkOff(off, j) + n <= SECTOR_SIZE
  {
    var left := size - ChunkAt(off, j);
    if left + ChunkOff(off, j) > SECTOR_SIZE then SECTOR_SIZE - ChunkOff(off, j) else left
  }

  // Bytes put into a sector at an offset.
  function Merge(base: Sector, at: nat, bytes: seq<byte>): (r: Sector)
    requires |base| == SECTOR_SIZE && at + |bytes| <= SECTOR_SIZE
    ensures |r| == SECTOR_SIZE
  {
    base[..at] + bytes + base[at + |bytes|..]
  }

  // The j-th sector a write appends. Only a sector that is entered behind its
  // first byte starts out as the old sector, all others as whatever memory held.
  function NewSector(secs: seq<Sector>, off: nat, data: seq<byte>, junk: seq<Sector>, j: nat): (r: Sector)
    requires WholeSectors(secs) && WholeSectors(junk)
    requires j < Touched(off, |data|) && j < |junk| && off <= |secs| * SECTOR_SIZE
    ensures |r| == SECTOR_SIZE
  {
    var at, n := ChunkAt(off, j), ChunkLen(off, |data|, j);
    var base := if ChunkOff(off, j) != 0 then secs[off / SECTOR_SIZE] else junk[j];
    Merge(base, ChunkOff(off, j), data[at..at + n])
  }

  // Sector k of the file after a write.
  function SectorAfter(secs: seq<Sector>, off: nat, data: seq<byte>, junk: seq<Sector>, k: nat): (r: Sector)
    requires WholeSectors(secs) && WholeSectors(junk)
    requires |junk| == Touched(off, |data|) && off <= |secs| * SECTOR_SIZE
    requires k < |secs| || off / SECTOR_SIZE <= k < off / SECTOR_SIZE + |junk|
    ensures |r| == SECTOR_SIZE
  {
    var first := off / SECTOR_SIZE;
    if first <= k < first + |junk| then NewSector(secs, off, data, junk, k - first) else secs[k]
  }

  function MaxSize(size: nat, end: nat): nat {
    if size > end then size else end
  }

  // All sectors of the file after a write.
  function WriteSectors(secs: seq<Sector>, off: nat, data: seq<byte>, junk: seq<Sector>): (r: seq<Sector>)
    requires WholeSectors(secs) && WholeSectors(junk)
    requires |junk| == Touched(off, |data|) && off <= |secs| * SECTOR_SIZE
    ensures |r| == MaxSize(|secs|, off / SECTOR_SIZE + |junk|)
    ensures forall k | 0 <= k < |r| :: |r[k]| == SECTOR_SIZE && r[k] == SectorAfter(secs, off, data, junk, k)
  {
    seq(MaxSize(|secs|, off / SECTOR_SIZE + |junk|), k requires 0 <= k < MaxSize(|secs|, off / SECTOR_SIZE + |junk|) =>
      SectorAfter(secs, off, data, junk, k))
  }

  // A successful write_regular.
  predicate Wrote(d: Disk, f: File, off: nat, data: seq<byte>, junk: seq<Sector>, d': Disk, f': File)
    requires FileInv(d, f) && off <= f.size && WholeSectors(junk) && |junk| == Touched(off, |data|)
  {
    && LogGrows(d, d')
    && FileInv(d', f')
    && f'.size == MaxSize(f.size, off + |data|)
    && FileSectors(d', f') == WriteSectors(FileSectors(d, f), off, data, junk)
  }

  // The first sector of the block a write works on after i sectors.
  function OpenBlock(off: nat, i: nat): nat {
    (off / SECTOR_SIZE + i) / DATA_BLK_LBA_NUM * DATA_BLK_LBA_NUM
  }

  function TornSector(secs: seq<Sector>, off: nat, data: seq<byte>, junk: seq<Sector>, i: nat, k: nat): (r: Sector)
    requires WholeSectors(secs) && WholeSectors(junk) && k < |secs|
    requires i < |junk| && i <= Touched(off, |data|) && off <= |secs| * SECTOR_SIZE
    ensures |r| == SECTOR_SIZE
  {
    var first := off / SECTOR_SIZE;
    if first <= k < OpenBlock(off, i) then NewSector(secs, off, data, junk, k - first) else secs[k]
  }

  // A write that failed after i sectors: the data blocks that were filled are
  // those of the file now, the block it was working on is not.
  function TornSectors(secs: seq<Sector>, off: nat, data: seq<byte>, junk: seq<Sector>, i: nat): (r: seq<Sector>)
    requires WholeSectors(secs) && WholeSectors(junk)
    requires i < |junk| && i <= Touched(off, |data|) && off <= |secs| * SECTOR_SIZE
    ensures |r| == |secs|
    ensures forall k | 0 <= k < |r| :: |r[k]| == SECTOR_SIZE && r[k] == TornSector(secs, off, data, junk, i, k)
  {
    seq(|secs|, k requires 0 <= k < |secs| => TornSector(secs, off, data, junk, i, k))
  }

  // The size of the file is that of its sectors again.
  lemma SectorsAfter(size: nat, off: nat, n: nat)
    requires off <= size
    ensures off <= Sectors(size) * SECTOR_SIZE
    ensures Sectors(MaxSize(size, off + n)) == MaxSize(Sectors(size), off / SECTOR_SIZE + Touched(off, n))
  {
  }

  // A write_regular that ran out of room after i sectors.
  predicate Torn(d: Disk, f: File, off: nat, data: seq<byte>, junk: seq<Sector>, i: nat, d': Disk, f': File)
    requires FileInv(d, f) && off <= f.size && WholeSectors(junk) && i < |junk| && i <= Touched(off, |data|)
  {
    && LogGrows(d, d')
    && FileInv(d', f')
    && f'.size == f.size
    && (SectorsAfter(f.size, off, |data|);
        FileSectors(d', f') == TornSectors(FileSectors(d, f), off, data, junk, i))
  }

  // The flat file with a write laid over it.
  function Overlay(bytes: seq<byte>, off: nat, data: seq<byte>): (r: seq<byte>)
    requires off <= |bytes|
    ensures |r| == MaxSize(|bytes|, off + |data|)
  {
    bytes[..off] + data + if off + |data| <= |bytes| then bytes[off + |data|..] else []
  }

  // A write that leaves no byte of the old file in a sector it starts anew: it
  // reaches the end of the file, or ends on a sector boundary, or starts inside
  // a sector and stays in it.
  predicate CleanWrite(size: nat, off: nat, n: nat) {
    || off + n >= size
    || (off + n) % SECTOR_SIZE == 0
    || (off % SECTOR_SIZE != 0 && off % SECTOR_SIZE + n <= SECTOR_SIZE)
  }

  // Behind the written range, in the last sector touched, unless that is also
  // a first sector entered behind its first byte.
  predicate Spoiled(off: nat, n: nat, i: nat) {
    && off + n <= i < (off / SECTOR_SIZE + Touched(off, n)) * SECTOR_SIZE
    && !(off % SECTOR_SIZE != 0 && Touched(off, n) == 1)
  }

  // One byte of a sector a write appends.
  lemma ByteOfNewSector(secs: seq<Sector>, off: nat, data: seq<byte>, junk: seq<Sector>, j: nat, b: nat)
    requires WholeSectors(secs) && WholeSectors(junk) && b < SECTOR_SIZE
    requires j < Touched(off, |data|) && j < |junk| && off <= |secs| * SECTOR_SIZE
    ensures var i := (off / SECTOR_SIZE + j) * SECTOR_SIZE + b;
            var r := NewSector(secs, off, data, junk, j)[b];
            && (off <= i < off + |data| ==> r == data[i - off])
            && (!(off <= i < off + |data|) && ChunkOff(off, j) != 0 ==>
                  off / SECTOR_SIZE < |secs| && r == secs[off / SECTOR_SIZE][b])
            && (!(off <= i < off + |data|) && ChunkOff(off, j) == 0 ==> r == junk[j][b])
  {
  }

  // The byte at position i of the file after a write, case by case.
  lemma ByteAfterWrite(secs: seq<Sector>, size: nat, off: nat, data: seq<byte>, junk: seq<Sector>, i: nat)
    requires WholeSectors(secs) && WholeSectors(junk) && |secs| == Sectors(size)
    requires |junk| == Touched(off, |data|) && off <= size && i < MaxSize(size, off + |data|)
    ensures off <= |secs| * SECTOR_SIZE
    ensures var r := WriteSectors(secs, off, data, junk);
            var k, b, first := i / SECTOR_SIZE, i % SECTOR_SIZE, off / SECTOR_SIZE;
            && k < |r|
            && (off <= i < off + |data| ==> r[k][b] == data[i - off])
            && (Spoiled(off, |data|, i) ==> first <= k < first + |junk| && r[k][b] == junk[k - first][b])
            && (!(off <= i < off + |data|) && !Spoiled(off, |data|, i) ==> k < |secs| && r[k][b] == secs[k][b])
  {
    hide NewSector;
    SectorsAfter(size, off, |data|);
    var k, b, first := i / SECTOR_SIZE, i % SECTOR_SIZE, off / SECTOR_SIZE;
    if first <= k < first + |junk| {
      ByteOfNewSector(secs, off, data, junk, k - first, b);
    }
  }

  function NewBytes(secs: seq<Sector>, size: nat, off: nat, data: seq<byte>, junk: seq<Sector>): seq<byte>
    requires WholeSectors(secs) && WholeSectors(junk) && |secs| == Sectors(size)
    requires |junk| == Touched(off, |data|) && off <= size
  {
    SectorsAfter(size, off, |data|);
    Flat(WriteSectors(secs, off, data, junk), MaxSize(size, off + |data|))
  }

  lemma OverlayAt(bytes: seq<byte>, off: nat, data: seq<byte>, i: nat)
    requires off <= |bytes| && i < MaxSize(|bytes|, off + |data|)
    ensures off <= i < off + |data| ==> Overlay(bytes, off, data)[i] == data[i - off]
    ensures !(off <= i < off + |data|) ==> i < |bytes| && Overlay(bytes, off, data)[i] == bytes[i]
  {
  }

  lemma CleanSpoilsNothing(size: nat, off: nat, n: nat, i: nat)
    requires off <= size && i < MaxSize(size, off + n) && CleanWrite(size, off, n)
    ensures !Spoiled(off, n, i)
  {
  }

  // A clean write overlays the flat file, whatever memory held before.
  lemma CleanWriteOverlays(secs: seq<Sector>, size: nat, off: nat, data: seq<byte>, junk: seq<Sector>)
    requires WholeSectors(secs) && WholeSectors(junk) && |secs| == Sectors(size)
    requires |junk| == Touched(off, |data|) && off <= size && CleanWrite(size, off, |data|)
    ensures NewBytes(secs, size, off, data, junk) == Overlay(Flat(secs, size), off, data)
  {
    hide Overlay, CleanWrite, Spoiled, SectorAfter;
    var r, o := NewBytes(secs, size, off, data, junk), Overlay(Flat(secs, size), off, data);
    forall i | 0 <= i < |r| ensures r[i] == o[i] {
      ByteAfterWrite(secs, size, off, data, junk, i);
      CleanSpoilsNothing(size, off, |data|, i);
      OverlayAt(Flat(secs, size), off, data, i);
    }
    assert r == o;
  }

  // The byte behind an unclean write lies in the last sector it touches.
  lemma EndOfWrite(size: nat, off: nat, n: nat)
    requires off <= size && !CleanWrite(size, off, n)
    ensures Touched(off, n) > 0 && Spoiled(off, n, off + n)
    ensures (off + n) / SECTOR_SIZE == off / SECTOR_SIZE + Touched(off, n) - 1
  {
  }

  // A write that is not clean does not: the byte behind the written range becomes
  // whatever memory held.
  lemma UncleanWriteSpoils(secs: seq<Sector>, size: nat, off: nat, data: seq<byte>, junk: seq<Sector>)
    requires WholeSectors(secs) && WholeSectors(junk) && |secs| == Sectors(size)
    requires |junk| == Touched(off, |data|) && off <= size && !CleanWrite(size, off, |data|)
    ensures var i := off + |data|;
            && |junk| > 0 && i < size
            && NewBytes(secs, size, off, data, junk)[i] == junk[|junk| - 1][i % SECTOR_SIZE]
            && Overlay(Flat(secs, size), off, data)[i] == secs[i / SECTOR_SIZE][i % SECTOR_SIZE]
  {
    hide Overlay, SectorAfter;
    var i := off + |data|;
    ByteAfterWrite(secs, size, off, data, junk, i);
    OverlayAt(Flat(secs, size), off, data, i);
    EndOfWrite(size, off, |data|);
  }

  // Exactly the clean writes overlay the file for every content of memory.
  lemma OverlayExactlyWhenClean(secs: seq<Sector>, size: nat, off: nat, data: seq<byte>)
    requires WholeSectors(secs) && |secs| == Sectors(size) && off <= size
    ensures CleanWrite(size, off, |data|)
            <==> forall junk | WholeSectors(junk) && |junk| == Touched(off, |data|) ::
                   NewBytes(secs, size, off, data, junk) == Overlay(Flat(secs, size), off, data)
  {
    hide NewBytes, Overlay, CleanWrite, Flat;
    if CleanWrite(size, off, |data|) {
      forall junk | WholeSectors(junk) && |junk| == Touched(off, |data|)
        ensures NewBytes(secs, size, off, data, junk) == Overlay(Flat(secs, size), off, data)
      {
        CleanWriteOverlays(secs, size, off, data, junk);
      }
    } else {
      var i := off + |data|;
      var spoilt: Sector := seq(SECTOR_SIZE, _ => if size > i && secs[i / SECTOR_SIZE][i % SECTOR_SIZE] == 0 then 1 else 0);
      var junk := seq(Touched(off, |data|), _ => spoilt);
      UncleanWriteSpoils(secs, size, off, data, junk);
    }
  }

  // Bytes of a write that are in the filled blocks when it fails after i sectors.
  function TornLength(off: nat, n: nat, i: nat): (m: nat)
    ensures m <= n
  {
    Min(n, if OpenBlock(off, i) * SECTOR_SIZE > off then OpenBlock(off, i) * SECTOR_SIZE - off else 0)
  }

  // A failed write leaves no byte of the old file in a sector it started anew:
  // its last sector is not among those of the filled blocks, or the write is
  // clean. The last sector can be among them only when the sector that found no
  // room was one too many.
  predicate CleanTorn(size: nat, off: nat, n: nat, i: nat) {
    OpenBlock(off, i) < off / SECTOR_SIZE + Touched(off, n) || CleanWrite(size, off, n)
  }

  lemma OpenBlockBelow(off: nat, i: nat)
    ensures OpenBlock(off, i) <= off / SECTOR_SIZE + i
  {
  }

  lemma TornPrefix(off: nat, n: nat, i: nat)
    requires i <= Touched(off, n)
    ensures OpenBlock(off, i) <= off / SECTOR_SIZE + i
    ensures i < Touched(off, n) ==> OpenBlock(off, i) < off / SECTOR_SIZE + Touched(off, n)
    ensures OpenBlock(off, i) < off / SECTOR_SIZE + Touched(off, n) ==>
              OpenBlock(off, i) * SECTOR_SIZE <= off + TornLength(off, n, i)
    ensures OpenBlock(off, i) == off / SECTOR_SIZE + Touched(off, n) ==>
              TornLength(off, n, i) == n || OpenBlock(off, i) * SECTOR_SIZE <= off
  {
    hide OpenBlock;
    assert OpenBlock(off, i) <= off / SECTOR_SIZE + i by { OpenBlockBelow(off, i); }
  }

  lemma TornByte(secs: seq<Sector>, size: nat, off: nat, data: seq<byte>, junk: seq<Sector>, i: nat, p: nat)
    requires WholeSectors(secs) && WholeSectors(junk) && |secs| == Sectors(size)
    requires i < |junk| && i <= Touched(off, |data|) && off <= size && off <= |secs| * SECTOR_SIZE && p < size
    requires CleanTorn(size, off, |data|, i)
    ensures TornSector(secs, off, data, junk, i, p / SECTOR_SIZE)[p % SECTOR_SIZE]
            == if off <= p < off + TornLength(off, |data|, i) then data[p - off] else secs[p / SECTOR_SIZE][p % SECTOR_SIZE]
  {
    hide NewSector, OpenBlock, CleanWrite;
    var k, b, first := p / SECTOR_SIZE, p % SECTOR_SIZE, off / SECTOR_SIZE;
    TornPrefix(off, |data|, i);
    if first <= k < OpenBlock(off, i) {
      ByteOfNewSector(secs, off, data, junk, k - first, b);
      if OpenBlock(off, i) == first + Touched(off, |data|) {
        CleanSpoilsNothing(size, off, |data|, p);
      }
    }
  }

  // A write that fails leaves the flat file with a prefix of the data laid over
  // it, cut at the old size, whatever memory held: the prefix ends with a data
  // block, or with the data.
  lemma TornOverlays(secs: seq<Sector>, size: nat, off: nat, data: seq<byte>, junk: seq<Sector>, i: nat)
    requires WholeSectors(secs) && WholeSectors(junk) && |secs| == Sectors(size)
    requires i < |junk| && i <= Touched(off, |data|) && off <= size && CleanTorn(size, off, |data|, i)
    ensures off <= |secs| * SECTOR_SIZE
    ensures Flat(TornSectors(secs, off, data, junk, i), size)
            == Overlay(Flat(secs, size), off, data[..TornLength(off, |data|, i)])[..size]
  {
    hide Overlay, TornSector, Touched, OpenBlock, CleanTorn;
    SectorsAfter(size, off, |data|);
    var bytes, front := Flat(secs, size), data[..TornLength(off, |data|, i)];
    var r, o := Flat(TornSectors(secs, off, data, junk, i), size), Overlay(bytes, off, front);
    forall p | 0 <= p < size ensures r[p] == o[p] {
      TornByte(secs, size, off, data, junk, i, p);
      OverlayAt(bytes, off, front, p);
    }
    assert r == o[..size];
  }

  // The flat file behind a failed write.
  function TornBytes(secs: seq<Sector>, size: nat, off: nat, data: seq<byte>, junk: seq<Sector>, i: nat): seq<byte>
    requires WholeSectors(secs) && WholeSectors(junk) && |secs| == Sectors(size)
    requires i < |junk| && i <= Touched(off, |data|) && off <= size
  {
    SectorsAfter(size, off, |data|);
    Flat(TornSectors(secs, off, data, junk, i), size)
  }

  // Otherwise the byte behind the data becomes whatever memory held.
  lemma TornSpoils(secs: seq<Sector>, size: nat, off: nat, data: seq<byte>, junk: seq<Sector>, i: nat)
    requires WholeSectors(secs) && WholeSectors(junk) && |secs| == Sectors(size)
    requires i < |junk| && i <= Touched(off, |data|) && off <= size && !CleanTorn(size, off, |data|, i)
    ensures var p, last := off + |data|, Touched(off, |data|) - 1;
            && p < size && 0 <= last < |junk|
            && TornBytes(secs, size, off, data, junk, i)[p] == junk[last][p % SECTOR_SIZE]
            && Overlay(Flat(secs, size), off, data[..TornLength(off, |data|, i)])[..size][p]
               == secs[p / SECTOR_SIZE][p % SECTOR_SIZE]
  {
    hide NewSector, OpenBlock, Overlay;
    SectorsAfter(size, off, |data|);
    EndOfWrite(size, off, |data|);
    OpenBlockBelow(off, i);
    var p, first := off + |data|, off / SECTOR_SIZE;
    ByteOfNewSector(secs, off, data, junk, p / SECTOR_SIZE - first, p % SECTOR_SIZE);
    OverlayAt(Flat(secs, size), off, data[..TornLength(off, |data|, i)], p);
  }

  lemma TornBytesIs(secs: seq<Sector>, size: nat, off: nat, data: seq<byte>, junk: seq<Sector>, i: nat)
    requires WholeSectors(secs) && WholeSectors(junk) && |secs| == Sectors(size)
    requires i < |junk| && i <= Touched(off, |data|) && off <= size && off <= |secs| * SECTOR_SIZE
    ensures TornBytes(secs, size, off, data, junk, i) == Flat(TornSectors(secs, off, data, junk, i), size)
  {
  }

  // So these are exactly the failed writes that overlay the file for every
  // content of memory.
  lemma TornExactlyWhenClean(secs: seq<Sector>, size: nat, off: nat, data: seq<byte>, i: nat)
    requires WholeSectors(secs) && |secs| == Sectors(size) && i <= Touched(off, |data|) && off <= size
    ensures CleanTorn(size, off, |data|, i)
            <==> forall junk | WholeSectors(junk) && |junk| == i + 1 ::
                   TornBytes(secs, size, off, data, junk, i)
                   == Overlay(Flat(secs, size), off, data[..TornLength(off, |data|, i)])[..size]
  {
    hide TornBytes, Overlay, CleanTorn, Flat, TornLength;
    if CleanTorn(size, off, |data|, i) {
      forall junk | WholeSectors(junk) && |junk| == i + 1
        ensures TornBytes(secs, size, off, data, junk, i)
                == Overlay(Flat(secs, size), off, data[..TornLength(off, |data|, i)])[..size]
      {
        TornOverlays(secs, size, off, data, junk, i);
        TornBytesIs(secs, size, off, data, junk, i);
      }
    } else {
      var p := off + |data|;
      var spoilt: Sector := seq(SECTOR_SIZE, _ => if size > p && secs[p / SECTOR_SIZE][p % SECTOR_SIZE] == 0 then 1 else 0);
      var junk := seq(i + 1, _ => spoilt);
      TornSpoils(secs, size, off, data, junk, i);
    }
  }
}
