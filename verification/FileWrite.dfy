// The steps of a write: one sector after the other is appended to the log and
// entered into the data blocks of the file.
module FileWrite {
  import opened Basics
  import opened Disk
  import opened Codec
  import opened Checkpoints
  import opened LogZone
  import opened FileData

  predicate ExtraSector(off: nat, size: nat) {
    off % (SECTOR_SIZE + size) > SECTOR_SIZE
  }

  // The number of sectors write() hands to write_regular.
  function NumSectors(off: nat, size: nat): nat {
    size / SECTOR_SIZE
    + (if (size + off) % SECTOR_SIZE != 0 then 1 else 0)
    + (if ExtraSector(off, size) then 1 else 0)
  }

  lemma NumSectorsIs(off: nat, size: nat)
    ensures NumSectors(off, size)
            == size / SECTOR_SIZE + (if (size + off) % SECTOR_SIZE != 0 then 1 else 0)
               + (if off % (SECTOR_SIZE + size) > SECTOR_SIZE then 1 else 0)
  {
  }

  // It is never off by more than one.
  lemma NumSectorsOffByOne(off: nat, size: nat)
    ensures NumSectors(off, size) + (if off % SECTOR_SIZE + size % SECTOR_SIZE >= SECTOR_SIZE then 1 else 0)
            == Touched(off, size) + if ExtraSector(off, size) then 1 else 0
  {
    hide ExtraSector;
    var o, q, r := off % SECTOR_SIZE, size / SECTOR_SIZE, size % SECTOR_SIZE;
    var p := off / SECTOR_SIZE;
    assert size + off == (p + q) * SECTOR_SIZE + (o + r);
    assert o + size == q * SECTOR_SIZE + (o + r);
  }

  // It is the number of sectors the range touches exactly when the remainder it
  // tests last answers whether the tail of the range runs over a sector boundary.
  // It is one too many when only the remainder says so, and one too few when only
  // the tail does.
  lemma NumSectorsExact(off: nat, size: nat)
    ensures var extra := off % (SECTOR_SIZE + size) > SECTOR_SIZE;
            var crosses := off % SECTOR_SIZE + size % SECTOR_SIZE >= SECTOR_SIZE;
            && (NumSectors(off, size) == Touched(off, size) <==> (extra <==> crosses))
            && (NumSectors(off, size) == Touched(off, size) + 1 <==> extra && !crosses)
            && (NumSectors(off, size) + 1 == Touched(off, size) <==> !extra && crosses)
    ensures Touched(off, size) == (off % SECTOR_SIZE + size + SECTOR_SIZE - 1) / SECTOR_SIZE
  {
    NumSectorsOffByOne(off, size);
  }

  // A short write across a boundary misses its second sector, and a write of
  // two sectors at 8192 gets a third one.
  lemma NumSectorsMiscounts()
    ensures NumSectors(4000, 200) == 1 && Touched(4000, 200) == 2
    ensures NumSectors(8192, 8192) == 3 && Touched(8192, 8192) == 2
  {
  }

  // write_sector; junk is what the allocated buffer holds before it is filled.
  function WriteSector(log: LogState, size: nat, offset: nat, curLba: u64, data: seq<byte>, junk: Sector): (LogState,
                       Ret, nat)
    requires LogInv(log.d, log.ptr) && |data| == size && |junk| == SECTOR_SIZE
  {
    if offset + size > SECTOR_SIZE then (log, RetErr, 0)
    else if curLba != 0 && size != SECTOR_SIZE && offset != 0 then
      if !LbaReadable(log.d, curLba) then (log, RetErr, 0)
      else AppendSector(log, Merge(SectorAt(log.d, curLba), offset, data))
    else AppendSector(log, Merge(junk, offset, data))
  }

  lemma SectorIs4096(d: Disk)
    requires FsDisk(d)
    ensures d.Valid() && d.info.sectorSize == SECTOR_SIZE
  {
  }

  lemma MergeIs(base: Sector, at: nat, bytes: seq<byte>, r: Sector)
    requires |base| == |r| == SECTOR_SIZE && at + |bytes| <= SECTOR_SIZE
    requires r[..at + |bytes|] == base[..at] + bytes && r[at + |bytes|..] == base[at + |bytes|..]
    ensures r == Merge(base, at, bytes)
  {
    assert r == r[..at + |bytes|] + r[at + |bytes|..];
  }

  predicate WriteArgs(d: Disk, f: File, off: nat, data: seq<byte>, junk: seq<Sector>) {
    && FileInv(d, f) && off <= f.size
    && WholeSectors(junk) && |junk| == Touched(off, |data|)
  }

  // A write that may be handed a number of sectors that is not the number it
  // touches. When there is one too many, the last one is filled from behind the
  // data.
  predicate CountedArgs(d: Disk, f: File, off: nat, data: seq<byte>, behind: seq<byte>, junk: seq<Sector>) {
    && FileInv(d, f) && off <= f.size
    && WholeSectors(junk) && |junk| <= Touched(off, |data|) + 1
    && |behind| == 2 * SECTOR_SIZE
  }

  // Bytes the j-th sector of a write takes, the one too many included.
  function RoundLen(off: nat, size: nat, j: nat): (n: nat)
    requires j <= Touched(off, size)
    ensures 0 <= ChunkAt(off, j) && ChunkAt(off, j) + n <= size + 2 * SECTOR_SIZE
    ensures j < Touched(off, size) ==> ChunkAt(off, j) + n <= size
    ensures ChunkOff(off, j) + n <= SECTOR_SIZE
  {
    if j < Touched(off, size) then ChunkLen(off, size, j)
    else if (off + size) % SECTOR_SIZE == 0 then 0 else SECTOR_SIZE
  }

  // The j-th sector a write appends.
  function Appended(secs: seq<Sector>, off: nat, data: seq<byte>, behind: seq<byte>, junk: seq<Sector>,
                    j: nat): (r: Sector)
    requires WholeSectors(secs) && WholeSectors(junk) && |behind| == 2 * SECTOR_SIZE
    requires j < |junk| <= Touched(off, |data|) + 1 && off <= |secs| * SECTOR_SIZE
    ensures |r| == SECTOR_SIZE
  {
    if j < Touched(off, |data|) then NewSector(secs, off, data, junk, j)
    else
      var at, n := ChunkAt(off, j), RoundLen(off, |data|, j);
      Merge(junk[j], 0, (data + behind)[at..at + n])
  }

  function AllAppended(secs: seq<Sector>, off: nat, data: seq<byte>, behind: seq<byte>,
                       junk: seq<Sector>): (r: seq<Sector>)
    requires WholeSectors(secs) && WholeSectors(junk) && |behind| == 2 * SECTOR_SIZE
    requires |junk| <= Touched(off, |data|) + 1 && off <= |secs| * SECTOR_SIZE
    ensures |r| == |junk| && WholeSectors(r)
    ensures forall j | 0 <= j < |r| :: r[j] == Appended(secs, off, data, behind, junk, j)
  {
    seq(|junk|, j requires 0 <= j < |junk| => Appended(secs, off, data, behind, junk, j))
  }

  // Sector k of a file is in the log and holds these bytes.
  predicate Written(d: Disk, view: Blocks, k: nat, bytes: Sector) {
    InLog(d, LbaAt(view, k)) && SectorAt(d, LbaAt(view, k)) == bytes
  }

  // After i of the new sectors of a write that starts in sector first: those are
  // in the log and in the blocks, all other sectors of the file are where they
  // were, and behind the new ones no address appears.
  ghost predicate Writing(d0: Disk, f: File, first: nat, news: seq<Sector>, i: nat, d: Disk, view: Blocks) {
    && LogGrows(d0, d) && FsDisk(d) && i <= |news|
    && (forall k: nat | k < Sectors(f.size) && !(first <= k < first + i) :: LbaAt(view, k) == LbaAt(f.blocks, k))
    && (forall k: nat | first + i <= k :: LbaAt(view, k) == LbaAt(f.blocks, k) || LbaAt(view, k) == 0)
    && (forall j: nat | j < i :: Written(d, view, first + j, news[j]))
    && Loaded(f, view)
    && (forall n: nat | n <= (first + i) / DATA_BLK_LBA_NUM :: n in view)
  }

  // The block a write starts in.
  function StartBlock(f: File, n: nat): DataBlock
    requires f.size > 0 ==> n in f.blocks
  {
    if f.size > 0 then f.blocks[n] else ZeroBlock()
  }

  lemma WritingStart(d: Disk, f: File, off: nat, news: seq<Sector>)
    requires FileInv(d, f) && off <= f.size
    ensures var n := off / SECTOR_SIZE / DATA_BLK_LBA_NUM;
            && (f.size > 0 ==> n in f.blocks)
            && Writing(d, f, off / SECTOR_SIZE, news, 0, d, f.blocks[n := StartBlock(f, n)])
  {
    SectorsAfter(f.size, off, 0);
  }

  lemma GrowsReflexive(d: Disk)
    ensures LogGrows(d, d) && SameOutsideLog(d, d)
  {
  }

  // The sector a write enters behind its first byte is an old sector of the file.
  lemma EnteredBehind(d0: Disk, f: File, off: nat, news: seq<Sector>, d: Disk, view: Blocks)
    requires FileInv(d0, f) && off <= f.size && Writing(d0, f, off / SECTOR_SIZE, news, 0, d, view)
    requires off % SECTOR_SIZE != 0
    ensures off / SECTOR_SIZE < Sectors(f.size)
    ensures var lba := LbaAt(view, off / SECTOR_SIZE);
            lba != 0 && FsDisk(d) && LbaReadable(d, lba) && SectorAt(d, lba) == FileSectors(d0, f)[off / SECTOR_SIZE]
  {
    hide LogGrows, Written;
    var lba := LbaAt(view, off / SECTOR_SIZE);
    GrowsKeeps(d0, d, lba);
    LogLbaPositive(d, lba);
  }

  // What write_sector appends is the sector the file should have, or the one
  // too many.
  lemma AppendsNewSector(d0: Disk, f: File, off: nat, data: seq<byte>, behind: seq<byte>, junk: seq<Sector>, i: nat,
                         log: LogState, view: Blocks)
    requires CountedArgs(d0, f, off, data, behind, junk) && i < |junk| && off <= Sectors(f.size) * SECTOR_SIZE
    requires Writing(d0, f, off / SECTOR_SIZE, AllAppended(FileSectors(d0, f), off, data, behind, junk), i, log.d, view)
    requires LogInv(log.d, log.ptr)
    ensures var at, n := ChunkAt(off, i), RoundLen(off, |data|, i);
            && FsDisk(log.d)
            && WriteSector(log, n, ChunkOff(off, i), LbaAt(view, off / SECTOR_SIZE + i), (data + behind)[at..at + n], junk[i])
               == AppendSector(log, Appended(FileSectors(d0, f), off, data, behind, junk, i))
  {
    hide LogInv, LogGrows, Merge, Written, AppendSector, InLog, Loaded, Backed, Writing, FileSectors;
    LogIsFs(log.d, log.ptr);
    var at, n := ChunkAt(off, i), RoundLen(off, |data|, i);
    if i < Touched(off, |data|) {
      assert (data + behind)[at..at + n] == data[at..at + n];
    }
    if ChunkOff(off, i) != 0 {
      assert i == 0;
      EnteredBehind(d0, f, off, AllAppended(FileSectors(d0, f), off, data, behind, junk), log.d, view);
    }
  }

  // One sector of a write: it fails without a trace, or the sector is in the
  // log with the bytes it should have.
  lemma SectorWritten(d0: Disk, f: File, off: nat, data: seq<byte>, behind: seq<byte>, junk: seq<Sector>, i: nat,
                      log: LogState, view: Blocks)
    requires CountedArgs(d0, f, off, data, behind, junk) && i < |junk| && off <= Sectors(f.size) * SECTOR_SIZE
    requires Writing(d0, f, off / SECTOR_SIZE, AllAppended(FileSectors(d0, f), off, data, behind, junk), i, log.d, view)
    requires LogInv(log.d, log.ptr)
    ensures var at, n := ChunkAt(off, i), RoundLen(off, |data|, i);
            var (log', ret, lba) := WriteSector(log, n, ChunkOff(off, i), LbaAt(view, off / SECTOR_SIZE + i),
                                                (data + behind)[at..at + n], junk[i]);
            && LogInv(log'.d, log'.ptr) && LogGrows(log.d, log'.d) && SameOutsideLog(log.d, log'.d)
            && ret == (if Room(log) > 0 then RetNone else RetErr)
            && (ret != RetNone ==> log' == log)
            && (ret == RetNone ==>
                  && Room(log') == Room(log) - 1
                  && InLog(log'.d, lba)
                  && SectorAt(log'.d, lba) == Appended(FileSectors(d0, f), off, data, behind, junk, i))
  {
    hide LogInv, LogGrows, Merge, SameOutsideLog, WriteSector, AppendSector, InLog, Writing, Backed, Loaded, SectorAt,
         RoundLen, Touched, Room, Appended, AllAppended, FileSectors;
    GrowsReflexive(log.d);
    AppendsNewSector(d0, f, off, data, behind, junk, i, log, view);
    AppendSectorStep(log, Appended(FileSectors(d0, f), off, data, behind, junk, i));
  }

  // The blocks after sector i went to an address: the address is entered, and
  // behind the last entry of a block the next block is opened.
  function Entered(f: File, view: Blocks, k: nat, lba: u64): Blocks
    requires k / DATA_BLK_LBA_NUM in view
    requires Loaded(f, view)
  {
    var n, idx := k / DATA_BLK_LBA_NUM, k % DATA_BLK_LBA_NUM;
    var view1 := view[n := view[n].(lbas := view[n].lbas[idx := lba])];
    if idx + 1 < DATA_BLK_LBA_NUM then view1
    else view1[n + 1 := if f.size > DATA_BLK_LBA_NUM * SECTOR_SIZE * (n + 1) then view1[n + 1] else ZeroBlock()]
  }

  lemma CurrentLba(view: Blocks, n: nat, idx: nat, k: nat)
    requires n * DATA_BLK_LBA_NUM + idx == k && idx < DATA_BLK_LBA_NUM && n in view
    ensures k / DATA_BLK_LBA_NUM == n && k % DATA_BLK_LBA_NUM == idx
    ensures LbaAt(view, k) == view[n].lbas[idx]
  {
  }

  lemma CurrentLbaOf(d0: Disk, f: File, first: nat, news: seq<Sector>, i: nat, d: Disk, view: Blocks, n: nat, idx: nat)
    requires Writing(d0, f, first, news, i, d, view)
    requires n * DATA_BLK_LBA_NUM + idx == first + i && idx < DATA_BLK_LBA_NUM
    ensures Loaded(f, view) && n in view && n == (first + i) / DATA_BLK_LBA_NUM
    ensures LbaAt(view, first + i) == view[n].lbas[idx]
  {
    hide Loaded, Written, LogGrows;
  }

  // What entering an address does, with the current block held apart from the
  // others.
  lemma EnteredIs(f: File, view: Blocks, blocks: Blocks, n: nat, idx: nat, cur: DataBlock, k: nat, lba: u64)
    requires n * DATA_BLK_LBA_NUM + idx == k && idx < DATA_BLK_LBA_NUM
    requires view == blocks[n := cur]
    requires Loaded(f, view)
    ensures k / DATA_BLK_LBA_NUM in view
    ensures var cur' := cur.(lbas := cur.lbas[idx := lba]);
            var blocks' := blocks[n := cur'];
            && (idx + 1 < DATA_BLK_LBA_NUM ==> Entered(f, view, k, lba) == blocks')
            && (idx + 1 == DATA_BLK_LBA_NUM ==>
                  if f.size > DATA_BLK_LBA_NUM * SECTOR_SIZE * (n + 1)
                  then n + 1 in blocks' && Entered(f, view, k, lba) == blocks'[n + 1 := blocks'[n + 1]]
                  else Entered(f, view, k, lba) == blocks'[n + 1 := ZeroBlock()])
  {
    CurrentLba(view, n, idx, k);
    if f.size > DATA_BLK_LBA_NUM * SECTOR_SIZE * (n + 1) {
      assert n + 1 <= Sectors(f.size) / DATA_BLK_LBA_NUM;
      assert n + 1 in view;
    }
  }

  // The running offset into the data, the bytes left, in 64 bits, and the offset
  // into the sector, before sector i is written.
  predicate Cursor(off: nat, size: nat, i: nat, at: nat, left: nat, sOff: nat) {
    && sOff == ChunkOff(off, i)
    && (i <= Touched(off, size) ==> at == ChunkAt(off, i) && left == (size - at) % U64_LIMIT)
  }

  lemma CursorStart(off: nat, size: nat)
    requires size < U64_LIMIT
    ensures Cursor(off, size, 0, 0, size, off % SECTOR_SIZE)
  {
  }

  // What is left wraps around behind the end of the data; the next sector then
  // takes nothing, or a whole sector.
  lemma ChunkIs(off: nat, size: nat, i: nat, at: nat, left: nat, sOff: nat)
    requires i <= Touched(off, size) && off + size < U64_LIMIT && Cursor(off, size, i, at, left, sOff)
    ensures RoundLen(off, size, i) == if left + sOff > SECTOR_SIZE then SECTOR_SIZE - sOff else left
  {
    if i == Touched(off, size) && (off + size) % SECTOR_SIZE != 0 {
      assert at - SECTOR_SIZE < size < at;
      assert left == size - at + U64_LIMIT;
    }
  }

  lemma CursorStep(off: nat, size: nat, i: nat, at: nat, left: nat, sOff: nat)
    requires i <= Touched(off, size) && off + size < U64_LIMIT && Cursor(off, size, i, at, left, sOff)
    ensures sOff <= SECTOR_SIZE
    ensures Cursor(off, size, i + 1, at + (SECTOR_SIZE - sOff), (left - (SECTOR_SIZE - sOff)) % U64_LIMIT,
                   if i == 0 then 0 else sOff)
  {
    if i < Touched(off, size) {
      assert 0 <= size - at < U64_LIMIT;
    }
  }

  lemma EnteredAt(f: File, view: Blocks, k: nat, lba: u64, m: nat)
    requires k / DATA_BLK_LBA_NUM in view
    requires Loaded(f, view)
    ensures var view' := Entered(f, view, k, lba);
            && (m == k ==> LbaAt(view', m) == lba)
            && (m != k && (m < k || m < Sectors(f.size)) ==> LbaAt(view', m) == LbaAt(view, m))
            && (m != k ==> LbaAt(view', m) == LbaAt(view, m) || LbaAt(view', m) == 0)
            && (forall n: nat | n in view || n == (k + 1) / DATA_BLK_LBA_NUM :: n in view')
  {
  }

  lemma WrittenKept(d: Disk, d': Disk, view: Blocks, view': Blocks, k: nat, bytes: Sector)
    requires Written(d, view, k, bytes) && FsDisk(d') && LogGrows(d, d') && LbaAt(view', k) == LbaAt(view, k)
    ensures Written(d', view', k, bytes)
  {
    GrowsKeeps(d, d', LbaAt(view, k));
  }

  lemma StepWritten(d0: Disk, f: File, first: nat, news: seq<Sector>, i: nat, d: Disk, view: Blocks, d': Disk,
                    lba: u64, j: nat)
    requires Writing(d0, f, first, news, i, d, view) && j <= i < |news|
    requires LogGrows(d, d') && FsDisk(d') && InLog(d', lba) && SectorAt(d', lba) == news[i]
    ensures (first + i) / DATA_BLK_LBA_NUM in view
    ensures Written(d', Entered(f, view, first + i, lba), first + j, news[j])
  {
    hide LogGrows, Entered;
    var view' := Entered(f, view, first + i, lba);
    EnteredAt(f, view, first + i, lba, first + j);
    if j < i {
      WrittenKept(d, d', view, view', first + j, news[j]);
    }
  }

  lemma WritingStep(d0: Disk, f: File, first: nat, news: seq<Sector>, i: nat, d: Disk, view: Blocks, d': Disk, lba: u64)
    requires Writing(d0, f, first, news, i, d, view) && i < |news|
    requires LogGrows(d, d') && FsDisk(d') && InLog(d', lba) && SectorAt(d', lba) == news[i]
    ensures (first + i) / DATA_BLK_LBA_NUM in view && Loaded(f, view)
    ensures Writing(d0, f, first, news, i + 1, d', Entered(f, view, first + i, lba))
  {
    hide LogGrows, Entered, Written;
    GrowsTransitive(d0, d, d');
    var view' := Entered(f, view, first + i, lba);
    forall k: nat | k < Sectors(f.size) && !(first <= k < first + i + 1)
      ensures LbaAt(view', k) == LbaAt(f.blocks, k)
    {
      EnteredAt(f, view, first + i, lba, k);
    }
    forall k: nat | first + i + 1 <= k
      ensures LbaAt(view', k) == LbaAt(f.blocks, k) || LbaAt(view', k) == 0
    {
      EnteredAt(f, view, first + i, lba, k);
    }
    forall j: nat | j <= i ensures Written(d', view', first + j, news[j]) {
      StepWritten(d0, f, first, news, i, d, view, d', lba, j);
    }
    EnteredAt(f, view, first + i, lba, 0);
  }

  lemma WrittenIs(d: Disk, view: Blocks, k: nat, bytes: Sector)
    requires Written(d, view, k, bytes)
    ensures InLog(d, LbaAt(view, k)) && SectorAt(d, LbaAt(view, k)) == bytes
  {
  }

  // Sectors of the file a write did not touch.
  lemma OldWritten(d0: Disk, f: File, first: nat, news: seq<Sector>, i: nat, d: Disk, view: Blocks, k: nat)
    requires Backed(d0, f) && Writing(d0, f, first, news, i, d, view)
    requires k < Sectors(f.size) && !(first <= k < first + i)
    ensures Written(d, view, k, FileSectors(d0, f)[k])
  {
    hide LogGrows, InLog;
    WrittenKept(d0, d, f.blocks, view, k, FileSectors(d0, f)[k]);
  }

  // A file all of whose sectors are known.
  lemma DoneSectors(d: Disk, f: File, secs: seq<Sector>)
    requires FsDisk(d) && |secs| == Sectors(f.size)
    requires forall k: nat | k < |secs| :: Written(d, f.blocks, k, secs[k])
    ensures Backed(d, f) && FileSectors(d, f) == secs
  {
    hide InLog, SectorAt;
    forall k: nat | k < |secs| ensures InLog(d, LbaAt(f.blocks, k)) {
      WrittenIs(d, f.blocks, k, secs[k]);
    }
    forall k: nat | k < |secs| ensures FileSectors(d, f)[k] == secs[k] {
      WrittenIs(d, f.blocks, k, secs[k]);
    }
    assert FileSectors(d, f) == secs;
  }

  // The result of a write with any number of sectors.
  ghost predicate WroteCounted(d: Disk, f: File, off: nat, data: seq<byte>, behind: seq<byte>, junk: seq<Sector>,
                               d': Disk, f': File)
    requires CountedArgs(d, f, off, data, behind, junk)
  {
    && f'.size == MaxSize(f.size, off + |data|)
    && (SectorsAfter(f.size, off, |data|);
        Writing(d, f, off / SECTOR_SIZE, AllAppended(FileSectors(d, f), off, data, behind, junk), |junk|, d', f'.blocks))
  }

  // The sectors appended are those a write with the right number appends.
  lemma AppendedIsNew(secs: seq<Sector>, off: nat, data: seq<byte>, behind: seq<byte>, junk: seq<Sector>,
                      exact: seq<Sector>,
                      k: nat)
    requires WholeSectors(secs) && WholeSectors(junk) && WholeSectors(exact) && |behind| == 2 * SECTOR_SIZE
    requires |exact| == Touched(off, |data|) && off <= |secs| * SECTOR_SIZE && |junk| <= |exact| + 1
    requires off / SECTOR_SIZE <= k < off / SECTOR_SIZE + |exact| && k < off / SECTOR_SIZE + |junk|
    requires exact[k - off / SECTOR_SIZE] == junk[k - off / SECTOR_SIZE]
    ensures Appended(secs, off, data, behind, junk, k - off / SECTOR_SIZE) == SectorAfter(secs, off, data, exact, k)
  {
  }

  lemma OldSector(secs: seq<Sector>, off: nat, data: seq<byte>, junk: seq<Sector>, k: nat)
    requires WholeSectors(secs) && WholeSectors(junk)
    requires |junk| == Touched(off, |data|) && off <= |secs| * SECTOR_SIZE
    requires k < |secs| && !(off / SECTOR_SIZE <= k < off / SECTOR_SIZE + |junk|)
    ensures SectorAfter(secs, off, data, junk, k) == secs[k]
  {
  }

  // With the right number of sectors the write is complete.
  lemma WritingDone(d0: Disk, f: File, off: nat, data: seq<byte>, behind: seq<byte>, junk: seq<Sector>, d: Disk,
                    f': File)
    requires CountedArgs(d0, f, off, data, behind, junk) && WroteCounted(d0, f, off, data, behind, junk, d, f')
    requires |junk| == Touched(off, |data|)
    ensures Wrote(d0, f, off, data, junk, d, f')
  {
    hide InLog, LogGrows, SectorAt, Written, Touched, FileSectors, Appended, AllAppended, SectorAfter,
         WriteSectors;
    SectorsAfter(f.size, off, |data|);
    var secs, first := FileSectors(d0, f), off / SECTOR_SIZE;
    var news, r := AllAppended(secs, off, data, behind, junk), WriteSectors(secs, off, data, junk);
    forall k: nat | k < |r| ensures Written(d, f'.blocks, k, r[k]) {
      if first <= k < first + |junk| {
        assert k == first + (k - first);
        AppendedIsNew(secs, off, data, behind, junk, junk, k);
      } else {
        OldWritten(d0, f, first, news, |junk|, d, f'.blocks, k);
        OldSector(secs, off, data, junk, k);
      }
    }
    DoneSectors(d, f', r);
  }

  // With one sector too many, the sector behind the write is overwritten, too,
  // if it belongs to the file.
  ghost predicate WroteStray(d: Disk, f: File, off: nat, data: seq<byte>, junk: seq<Sector>, stray: Sector, d': Disk,
                             f': File)
    requires WriteArgs(d, f, off, data, junk)
  {
    SectorsAfter(f.size, off, |data|);
    var r, next := WriteSectors(FileSectors(d, f), off, data, junk), off / SECTOR_SIZE + |junk|;
    && LogGrows(d, d')
    && FileInv(d', f')
    && f'.size == MaxSize(f.size, off + |data|)
    && FileSectors(d', f') == if next < |r| then r[next := stray] else r
  }

  lemma WritingStray(d0: Disk, f: File, off: nat, data: seq<byte>, behind: seq<byte>, junk: seq<Sector>, d: Disk,
                     f': File)
    requires CountedArgs(d0, f, off, data, behind, junk) && WroteCounted(d0, f, off, data, behind, junk, d, f')
    requires |junk| == Touched(off, |data|) + 1
    ensures off <= Sectors(f.size) * SECTOR_SIZE
    ensures WriteArgs(d0, f, off, data, junk[..|junk| - 1])
    ensures WroteStray(d0, f, off, data, junk[..|junk| - 1],
                       Appended(FileSectors(d0, f), off, data, behind, junk, |junk| - 1), d, f')
  {
    hide InLog, LogGrows, SectorAt, Written, Touched, FileSectors, Appended, AllAppended, SectorAfter,
         WriteSectors;
    SectorsAfter(f.size, off, |data|);
    var secs, first, exact := FileSectors(d0, f), off / SECTOR_SIZE, junk[..|junk| - 1];
    var news, r := AllAppended(secs, off, data, behind, junk), WriteSectors(secs, off, data, exact);
    var next := first + |exact|;
    var r' := if next < |r| then r[next := news[|exact|]] else r;
    forall k: nat | k < |r'| ensures Written(d, f'.blocks, k, r'[k]) {
      if first <= k < next {
        assert k == first + (k - first);
        AppendedIsNew(secs, off, data, behind, junk, exact, k);
      } else if k == next {
        assert k == first + |exact|;
      } else {
        OldWritten(d0, f, first, news, |junk|, d, f'.blocks, k);
        OldSector(secs, off, data, exact, k);
      }
    }
    DoneSectors(d, f', r');
  }

  // A write that reaches the last sector of the file has nothing behind it to
  // overwrite.
  lemma StrayBehindEnd(d: Disk, f: File, off: nat, data: seq<byte>, junk: seq<Sector>, stray: Sector, d': Disk,
                       f': File)
    requires WriteArgs(d, f, off, data, junk) && WroteStray(d, f, off, data, junk, stray, d', f')
    ensures Sectors(f.size) <= off / SECTOR_SIZE + |junk| ==> Wrote(d, f, off, data, junk, d', f')
  {
    hide FileSectors, WriteSectors, LogGrows, Backed, Loaded;
    SectorsAfter(f.size, off, |data|);
  }

  // With one sector too few, the last sector is not written: the file keeps what
  // it had there, and when it had nothing there it is left without an address.
  ghost predicate WroteShort(d: Disk, f: File, off: nat, data: seq<byte>, junk: seq<Sector>, d': Disk, f': File)
    requires WriteArgs(d, f, off, data, junk) && |junk| > 0
  {
    SectorsAfter(f.size, off, |data|);
    var secs, last := FileSectors(d, f), off / SECTOR_SIZE + |junk| - 1;
    && LogGrows(d, d') && FsDisk(d')
    && f'.size == MaxSize(f.size, off + |data|)
    && if last < |secs| then
         FileInv(d', f') && FileSectors(d', f') == WriteSectors(secs, off, data, junk)[last := secs[last]]
       else
         LbaAt(f'.blocks, last) == 0 || LbaAt(f'.blocks, last) == LbaAt(f.blocks, last)
  }

  lemma WritingShort(d0: Disk, f: File, off: nat, data: seq<byte>, behind: seq<byte>, junk: seq<Sector>, unused: Sector,
                     d: Disk, f': File)
    requires CountedArgs(d0, f, off, data, behind, junk) && WroteCounted(d0, f, off, data, behind, junk, d, f')
    requires |junk| + 1 == Touched(off, |data|) && |unused| == SECTOR_SIZE
    ensures WriteArgs(d0, f, off, data, junk + [unused])
    ensures WroteShort(d0, f, off, data, junk + [unused], d, f')
  {
    hide InLog, LogGrows, SectorAt, Written, Touched, FileSectors, Appended, AllAppended, SectorAfter,
         WriteSectors;
    SectorsAfter(f.size, off, |data|);
    var secs, first, exact := FileSectors(d0, f), off / SECTOR_SIZE, junk + [unused];
    var news, last := AllAppended(secs, off, data, behind, junk), first + |junk|;
    if last < |secs| {
      var r := WriteSectors(secs, off, data, exact)[last := secs[last]];
      forall k: nat | k < |r| ensures Written(d, f'.blocks, k, r[k]) {
        if first <= k < last {
          assert k == first + (k - first);
          AppendedIsNew(secs, off, data, behind, junk, exact, k);
        } else {
          OldWritten(d0, f, first, news, |junk|, d, f'.blocks, k);
          if k != last {
            OldSector(secs, off, data, exact, k);
          }
        }
      }
      DoneSectors(d, f', r);
    }
  }

  // What a successful write makes of a file, by how its sectors were counted.
  ghost predicate WriteOutcome(d: Disk, f: File, off: nat, data: seq<byte>, behind: seq<byte>, junk: seq<Sector>,
                               d': Disk, f': File)
    requires CountedArgs(d, f, off, data, behind, junk)
  {
    var t := Touched(off, |data|);
    SectorsAfter(f.size, off, |data|);
    && (|junk| == t ==> Wrote(d, f, off, data, junk, d', f'))
    && (|junk| == t + 1 ==>
          WroteStray(d, f, off, data, junk[..t], Appended(FileSectors(d, f), off, data, behind, junk, t), d', f'))
    && (|junk| + 1 == t ==> WroteShort(d, f, off, data, junk + [Zeros(SECTOR_SIZE)], d', f'))
  }

  lemma CountedOutcome(d: Disk, f: File, off: nat, data: seq<byte>, behind: seq<byte>, junk: seq<Sector>, d': Disk,
                       f': File)
    requires CountedArgs(d, f, off, data, behind, junk) && WroteCounted(d, f, off, data, behind, junk, d', f')
    ensures WriteOutcome(d, f, off, data, behind, junk, d', f')
  {
    hide WroteCounted, Wrote, WroteStray, WroteShort, Touched, Appended;
    var t := Touched(off, |data|);
    SectorsAfter(f.size, off, |data|);
    if |junk| == t {
      WritingDone(d, f, off, data, behind, junk, d', f');
    } else if |junk| == t + 1 {
      WritingStray(d, f, off, data, behind, junk, d', f');
    } else if |junk| + 1 == t {
      WritingShort(d, f, off, data, behind, junk, Zeros(SECTOR_SIZE), d', f');
    }
  }

  // From block n on the same blocks, those that are missing included.
  ghost predicate SameFrom(a: Blocks, b: Blocks, n: nat) {
    forall m: nat | m >= n :: (m in a <==> m in b) && (m in a ==> a[m] == b[m])
  }

  lemma SameFromSame(a: Blocks, n: nat)
    ensures SameFrom(a, a, n)
  {
  }

  lemma SameFromTransitive(a: Blocks, b: Blocks, c: Blocks, n: nat, m: nat)
    requires SameFrom(a, b, n) && SameFrom(b, c, m) && n <= m
    ensures SameFrom(a, c, m)
  {
  }

  lemma TornWritten(d0: Disk, f: File, off: nat, data: seq<byte>, behind: seq<byte>, junk: seq<Sector>, i: nat,
                    d: Disk, view: Blocks, blocks: Blocks, n: nat, cur: DataBlock, k: nat)
    requires CountedArgs(d0, f, off, data, behind, junk) && i < |junk| && off <= Sectors(f.size) * SECTOR_SIZE
    requires Writing(d0, f, off / SECTOR_SIZE, AllAppended(FileSectors(d0, f), off, data, behind, junk), i, d, view)
    requires view == blocks[n := cur] && n == (off / SECTOR_SIZE + i) / DATA_BLK_LBA_NUM
    requires SameFrom(f.blocks, blocks, n) && k < Sectors(f.size)
    ensures Written(d, blocks, k, TornSector(FileSectors(d0, f), off, data, junk, i, k))
  {
    hide NewSector, LogGrows, Touched, InLog, FileSectors, Merge;
    var first, news := off / SECTOR_SIZE, AllAppended(FileSectors(d0, f), off, data, behind, junk);
    if k / DATA_BLK_LBA_NUM >= n {
      assert LbaAt(blocks, k) == LbaAt(f.blocks, k);
      assert k >= n * DATA_BLK_LBA_NUM;
      WrittenKept(d0, d, f.blocks, blocks, k, FileSectors(d0, f)[k]);
    } else {
      assert LbaAt(blocks, k) == LbaAt(view, k);
      if k >= first {
        assert k == first + (k - first) && k - first < i;
        WrittenKept(d, d, view, blocks, k, news[k - first]);
      } else {
        WrittenKept(d0, d, f.blocks, blocks, k, FileSectors(d0, f)[k]);
      }
    }
  }

  // When the log runs out after i sectors, the block the write was working on
  // is dropped.
  lemma WritingTorn(d0: Disk, f: File, off: nat, data: seq<byte>, behind: seq<byte>, junk: seq<Sector>, i: nat,
                    d: Disk, view: Blocks, blocks: Blocks, n: nat, cur: DataBlock)
    requires CountedArgs(d0, f, off, data, behind, junk) && i < |junk| && off <= Sectors(f.size) * SECTOR_SIZE
    requires Writing(d0, f, off / SECTOR_SIZE, AllAppended(FileSectors(d0, f), off, data, behind, junk), i, d, view)
    requires view == blocks[n := cur] && n == (off / SECTOR_SIZE + i) / DATA_BLK_LBA_NUM
    requires SameFrom(f.blocks, blocks, n)
    ensures Torn(d0, f, off, data, junk, i, d, File(blocks, f.size))
  {
    hide NewSector, InLog, LogGrows, SectorAt, Written, Touched, TornSector, FileSectors, AllAppended;
    var f', secs := File(blocks, f.size), FileSectors(d0, f);
    var r := TornSectors(secs, off, data, junk, i);
    forall k: nat | k < |r| ensures Written(d, blocks, k, r[k]) {
      TornWritten(d0, f, off, data, behind, junk, i, d, view, blocks, n, cur, k);
    }
    forall m: nat | f.size > 0 && m <= Sectors(f.size) / DATA_BLK_LBA_NUM ensures m in blocks {
      assert m < n ==> m in view;
    }
    DoneSectors(d, f', r);
  }
}
