// The entropy kernel: a histogram of the bytes of the sectors it reads, and
// the histogram of a whole file put together from strides.
module Entropy {
  import opened Basics
  import opened Disk
  import opened Codec
  import opened ZnsMemory
  import opened Checkpoints
  import opened LogZone
  import opened InodeBlock
  import opened FileData
  import opened FileRead
  import opened FileIO
  import opened Snapshots
  import opened Offload
  import opened Csd

  const BINS: nat := 256
  const U32_LIMIT: nat := 0x1_0000_0000

  function Count(bytes: seq<byte>, b: nat): (n: nat)
    ensures n <= |bytes|
  {
    if bytes == [] then 0
    else Count(bytes[..|bytes| - 1], b) + if bytes[|bytes| - 1] == b then 1 else 0
  }

  function Hist(bytes: seq<byte>): (h: seq<nat>)
    ensures |h| == BINS
    ensures forall b | 0 <= b < BINS :: h[b] == Count(bytes, b)
  {
    seq(BINS, b requires 0 <= b < BINS => Count(bytes, b))
  }

  function Add(g: seq<nat>, h: seq<nat>): (r: seq<nat>)
    requires |g| == |h| == BINS
    ensures |r| == BINS
    ensures forall b | 0 <= b < BINS :: r[b] == g[b] + h[b]
  {
    seq(BINS, b requires 0 <= b < BINS => g[b] + h[b])
  }

  function Sum(h: seq<nat>): nat {
    if h == [] then 0 else Sum(h[..|h| - 1]) + h[|h| - 1]
  }

  lemma CountSnoc(bytes: seq<byte>, c: byte, b: nat)
    ensures Count(bytes + [c], b) == Count(bytes, b) + if c == b then 1 else 0
  {
    assert (bytes + [c])[..|bytes|] == bytes;
  }

  // One more byte is one more in its bin.
  lemma HistSnoc(bytes: seq<byte>, c: byte)
    ensures Hist(bytes + [c]) == Hist(bytes)[c := Hist(bytes)[c] + 1]
  {
    var g, h := Hist(bytes + [c]), Hist(bytes)[c := Hist(bytes)[c] + 1];
    forall b | 0 <= b < BINS ensures g[b] == h[b] {
      CountSnoc(bytes, c, b);
    }
    assert g == h;
  }

  lemma {:induction false} CountConcat(x: seq<byte>, y: seq<byte>, b: nat)
    ensures Count(x + y, b) == Count(x, b) + Count(y, b)
    decreases |y|
  {
    if y == [] {
      assert x + y == x;
    } else {
      var c := y[|y| - 1];
      assert x + y == (x + y[..|y| - 1]) + [c];
      CountSnoc(x + y[..|y| - 1], c, b);
      CountConcat(x, y[..|y| - 1], b);
    }
  }

  lemma HistConcat(x: seq<byte>, y: seq<byte>)
    ensures Hist(x + y) == Add(Hist(x), Hist(y))
  {
    var g, h := Hist(x + y), Add(Hist(x), Hist(y));
    forall b | 0 <= b < BINS ensures g[b] == h[b] {
      CountConcat(x, y, b);
    }
    assert g == h;
  }

  lemma {:induction false} SumUpdate(h: seq<nat>, i: nat)
    requires i < |h|
    ensures Sum(h[i := h[i] + 1]) == Sum(h) + 1
    decreases |h|
  {
    var front, last := h[..|h| - 1], h[|h| - 1];
    var h' := h[i := h[i] + 1];
    if i == |h| - 1 {
      assert h'[..|h| - 1] == front;
    } else {
      SumUpdate(front, i);
      assert h'[..|h| - 1] == front[i := front[i] + 1];
    }
  }

  lemma {:induction false} SumOfZeros(h: seq<nat>)
    requires forall i | 0 <= i < |h| :: h[i] == 0
    ensures Sum(h) == 0
    decreases |h|
  {
    if h != [] {
      SumOfZeros(h[..|h| - 1]);
    }
  }

  // Conservation: every byte is counted in exactly one bin.
  lemma {:induction false} HistConserves(bytes: seq<byte>)
    ensures Sum(Hist(bytes)) == |bytes|
    decreases |bytes|
  {
    if bytes == [] {
      SumOfZeros(Hist(bytes));
    } else {
      var front, c := bytes[..|bytes| - 1], bytes[|bytes| - 1];
      assert bytes == front + [c];
      HistSnoc(front, c);
      HistConserves(front);
      SumUpdate(Hist(front), c);
    }
  }

  // All bytes of the sectors a call reads, also those behind its limit.
  function KernelBytesOf(d: Disk, c: Call): (r: seq<byte>)
    requires Runnable(d, c)
    ensures |r| == SectorsRead(c) * SECTOR_SIZE
  {
    Flat(ReadSectors(d, c), SectorsRead(c) * SECTOR_SIZE)
  }

  // The bins of one run of the kernel sum up to the bytes of the sectors read.
  lemma BinsConserve(d: Disk, c: Call)
    requires Runnable(d, c)
    ensures Sum(Hist(KernelBytesOf(d, c))) == SECTOR_SIZE * CeilDiv(Limit(c), SECTOR_SIZE)
  {
    HistConserves(KernelBytesOf(d, c));
  }

  // ---- Strides --------------------------------------------------------------------

  // What one read of a stride covers.
  function StrideSize(fileSize: nat, i: nat): nat {
    if fileSize < i * CSD_READ_STRIDE + CSD_READ_STRIDE then
      if fileSize < i * CSD_READ_STRIDE then 0 else fileSize - i * CSD_READ_STRIDE
    else CSD_READ_STRIDE
  }

  function Steps(fileSize: nat): nat {
    CeilDiv(fileSize, CSD_READ_STRIDE)
  }

  lemma StrideBounds(size: nat, i: nat)
    requires i < Steps(size)
    ensures var off, n := i * CSD_READ_STRIDE, StrideSize(size, i);
            && 0 < n <= CSD_READ_STRIDE && off + n <= size
            && (n < CSD_READ_STRIDE ==> off + n == size)
            && (i + 1 == Steps(size) ==> off + n == size)
            && (i + 1 < Steps(size) ==> n == CSD_READ_STRIDE)
  {
  }

  const STRIDE_SECTORS: nat := 128

  // Strides start on sectors, and only the last one reaches the last sector.
  lemma StrideSectors(size: nat, i: nat)
    requires i < Steps(size)
    ensures var off, n := i * CSD_READ_STRIDE, StrideSize(size, i);
            && 0 < n && off + n <= size
            && StartLba(off) == i * STRIDE_SECTORS
            && EndLba(n, off) == i * STRIDE_SECTORS + CeilDiv(n, SECTOR_SIZE) <= Sectors(size)
            && (EndLba(n, off) == Sectors(size) <==> i + 1 == Steps(size))
            && (i + 1 < Steps(size) ==> CeilDiv(n, SECTOR_SIZE) == STRIDE_SECTORS)
  {
    hide StrideSize, Steps;
    StrideBounds(size, i);
    var off, n := i * CSD_READ_STRIDE, StrideSize(size, i);
    assert off == i * STRIDE_SECTORS * SECTOR_SIZE;
    if i + 1 < Steps(size) {
      StrideBounds(size, i + 1);
      assert (i + 1) * CSD_READ_STRIDE == (i + 1) * STRIDE_SECTORS * SECTOR_SIZE;
    }
  }

  // All bytes of the sectors of a file, also those behind its end.
  function Whole(d: Disk, f: File): (r: seq<byte>)
    requires Backed(d, f)
    ensures |r| == Sectors(f.size) * SECTOR_SIZE
  {
    Flat(FileSectors(d, f), Sectors(f.size) * SECTOR_SIZE)
  }

  // The kernel reads the sectors of a stride as they stand in the file.
  lemma StrideIsRange(d: Disk, s: Snapshot, i: nat)
    requires Backed(d, s.AsFile()) && i < Steps(s.inodeData.entry.size)
    ensures var size := s.inodeData.entry.size;
            var off, n := i * CSD_READ_STRIDE, StrideSize(size, i);
            var from, to := i * STRIDE_SECTORS * SECTOR_SIZE, EndLba(n, off) * SECTOR_SIZE;
            && Runnable(d, CallFor(s, n, off)) && from <= to <= Sectors(size) * SECTOR_SIZE
            && KernelBytesOf(d, CallFor(s, n, off)) == Whole(d, s.AsFile())[from..to]
  {
    hide InLog, SectorAt, Backed, CallFor, Flat, FileSectors, ReadSectors, Runnable;
    var size := s.inodeData.entry.size;
    var off, n := i * CSD_READ_STRIDE, StrideSize(size, i);
    StrideSectors(size, i);
    KernelReadsFile(d, s, n, off);
    var m := SectorsRead(CallFor(s, n, off));
    FlatSlice(FileSectors(d, s.AsFile()), Sectors(size) * SECTOR_SIZE, i * STRIDE_SECTORS, m, m * SECTOR_SIZE);
  }

  // What an offloaded read of a stride leads to: no kernel runs when flattening
  // the addresses throws.
  function StrideBytes(d: Disk, s: Snapshot, i: nat): Option<seq<byte>>
    requires Backed(d, s.AsFile()) && i < Steps(s.inodeData.entry.size)
  {
    var off, n := i * CSD_READ_STRIDE, StrideSize(s.inodeData.entry.size, i);
    StrideIsRange(d, s, i);
    if Flattens(s.dataBlocks, StartLba(off), EndLba(n, off)) then Some(KernelBytesOf(d, CallFor(s, n, off))) else None
  }

  // The bins accumulated over the first strides, if all of them were read.
  function Accumulated(d: Disk, s: Snapshot, i: nat): (h: Option<seq<nat>>)
    requires Backed(d, s.AsFile()) && i <= Steps(s.inodeData.entry.size)
    ensures h.Some? ==> |h.value| == BINS
  {
    if i == 0 then Some(seq(BINS, _ => 0))
    else
      var before, bytes := Accumulated(d, s, i - 1), StrideBytes(d, s, i - 1);
      if before.Some? && bytes.Some? then Some(Add(before.value, Hist(bytes.value))) else None
  }

  function Covered(size: nat, i: nat): nat {
    if i < Steps(size) then i * STRIDE_SECTORS * SECTOR_SIZE else Sectors(size) * SECTOR_SIZE
  }

  lemma CoveredStep(size: nat, i: nat)
    requires i < Steps(size)
    ensures Covered(size, i) == i * STRIDE_SECTORS * SECTOR_SIZE
    ensures Covered(size, i + 1) == EndLba(StrideSize(size, i), i * CSD_READ_STRIDE) * SECTOR_SIZE
    ensures Covered(size, i) <= Covered(size, i + 1) <= Sectors(size) * SECTOR_SIZE
  {
    hide Steps, StrideSize;
    StrideSectors(size, i);
  }

  lemma NothingCounted(bytes: seq<byte>, h: seq<nat>)
    requires bytes == [] && |h| == BINS && forall b | 0 <= b < BINS :: h[b] == 0
    ensures h == Hist(bytes)
  {
  }

  lemma StepsOfNothing(size: nat)
    ensures Covered(size, 0) == 0
    ensures Steps(size) == 0 <==> size == 0
    ensures Covered(size, Steps(size)) == Sectors(size) * SECTOR_SIZE
  {
  }

  lemma {:induction false} AccumulatedSoFar(d: Disk, s: Snapshot, i: nat)
    requires Backed(d, s.AsFile()) && i <= Steps(s.inodeData.entry.size)
    requires forall j: nat | j < i :: StrideBytes(d, s, j).Some?
    ensures Covered(s.inodeData.entry.size, i) <= Sectors(s.inodeData.entry.size) * SECTOR_SIZE
    ensures Accumulated(d, s, i) == Some(Hist(Whole(d, s.AsFile())[..Covered(s.inodeData.entry.size, i)]))
  {
    hide Backed, CallFor, Flat, Whole, ReadSectors, Runnable, KernelBytesOf, Flattens, Steps, StrideSize, Covered;
    var size, whole := s.inodeData.entry.size, Whole(d, s.AsFile());
    if i == 0 {
      StepsOfNothing(size);
      NothingCounted(whole[..Covered(size, 0)], Accumulated(d, s, 0).value);
    } else {
      AccumulatedSoFar(d, s, i - 1);
      StrideIsRange(d, s, i - 1);
      CoveredStep(size, i - 1);
      var from, to := Covered(size, i - 1), Covered(size, i);
      assert StrideBytes(d, s, i - 1) == Some(whole[from..to]);
      assert whole[..to] == whole[..from] + whole[from..to];
      HistConcat(whole[..from], whole[from..to]);
    }
  }

  // Every stride is read but the last of a file whose last sector ends a block.
  lemma StrideFlattens(d: Disk, e: NamedEntry, blocks: Blocks, i: nat)
    requires FileInv(d, File(blocks, e.entry.size)) && Backed(d, SnapshotOf(e, blocks).AsFile()) && i < Steps(e.entry.size)
    ensures StrideBytes(d, SnapshotOf(e, blocks), i).Some?
            <==> !(i + 1 == Steps(e.entry.size) && Sectors(e.entry.size) % DATA_BLK_LBA_NUM == 0)
  {
    hide InLog, Backed, Steps, StrideSize, CallFor, KernelBytesOf, Flattens, Loaded;
    var off, n := i * CSD_READ_STRIDE, StrideSize(e.entry.size, i);
    StrideSectors(e.entry.size, i);
    FlattenFailsExactly(e, blocks, n, off);
    SnapshotEntry(e, blocks);
  }

  lemma WholeIsBytes(d: Disk, f: File)
    requires Backed(d, f)
    ensures f.size % SECTOR_SIZE == 0 ==> Whole(d, f) == Bytes(d, f)
    ensures f.size % SECTOR_SIZE != 0 ==> |Whole(d, f)| != |Bytes(d, f)|
  {
    hide Backed, Flat;
  }

  // A snapshot read in strides: all of them come back if and only if the file is
  // empty or its number of sectors is no multiple of the entries of a data block.
  // Their bins then sum up to the histogram of all its sectors, which is that of
  // the file if and only if the file ends on a sector.
  lemma StridesMakeTheWhole(d: Disk, e: NamedEntry, blocks: Blocks)
    requires FileInv(d, File(blocks, e.entry.size))
    ensures Backed(d, SnapshotOf(e, blocks).AsFile()) && SnapshotOf(e, blocks).inodeData == e
    ensures var f, bins := File(blocks, e.entry.size), Accumulated(d, SnapshotOf(e, blocks), Steps(e.entry.size));
            && (bins.Some? <==> f.size == 0 || Sectors(f.size) % DATA_BLK_LBA_NUM != 0)
            && (bins.Some? ==> bins.value == Hist(Whole(d, f)) && Sum(bins.value) == Sectors(f.size) * SECTOR_SIZE)
            && (bins == Some(Hist(Bytes(d, f))) <==> bins.Some? && f.size % SECTOR_SIZE == 0)
  {
    hide InLog, Backed, Flat, FileSectors, Bytes, Hist, StrideBytes, Steps, Covered, Loaded;
    var s, f, steps := SnapshotOf(e, blocks), File(blocks, e.entry.size), Steps(e.entry.size);
    SnapshotReadsLikeFile(d, e, blocks);
    SnapshotEntry(e, blocks);
    StepsOfNothing(f.size);
    forall i: nat | i < steps
      ensures StrideBytes(d, s, i).Some? <==> !(i + 1 == steps && Sectors(f.size) % DATA_BLK_LBA_NUM == 0)
    {
      StrideFlattens(d, e, blocks, i);
    }
    if f.size == 0 || Sectors(f.size) % DATA_BLK_LBA_NUM != 0 {
      AccumulatedSoFar(d, s, steps);
      var whole := Whole(d, f);
      assert whole[..|whole|] == whole;
      WholeIsBytes(d, f);
      HistConserves(whole);
      HistConserves(Bytes(d, f));
    } else {
      assert StrideBytes(d, s, steps - 1).None?;
    }
  }

  // ---- The kernel -------------------------------------------------------------------

  // Bins are 32 bits wide.
  function Wrapped(h: seq<nat>): (r: seq<nat>)
    requires |h| == BINS
    ensures |r| == BINS && forall b | 0 <= b < BINS :: r[b] == h[b] % U32_LIMIT
  {
    seq(BINS, b requires 0 <= b < BINS => h[b] % U32_LIMIT)
  }

  lemma NoWrap(bytes: seq<byte>)
    requires |bytes| < U32_LIMIT
    ensures Wrapped(Hist(bytes)) == Hist(bytes)
  {
    var h := Hist(bytes);
    forall b | 0 <= b < BINS ensures h[b] < U32_LIMIT {
      assert h[b] == Count(bytes, b);
    }
    assert Wrapped(h) == h;
  }

  // Bins after counting more bytes.
  function Counted(bins: seq<nat>, bytes: seq<byte>): (r: seq<nat>)
    requires |bins| == BINS
    ensures |r| == BINS
    ensures forall b | 0 <= b < BINS :: r[b] == if Count(bytes, b) == 0 then bins[b] else (bins[b] + Count(bytes, b)) % U32_LIMIT
  {
    seq(BINS, b requires 0 <= b < BINS => if Count(bytes, b) == 0 then bins[b] else (bins[b] + Count(bytes, b)) % U32_LIMIT)
  }

  lemma CountedNothing(bins: seq<nat>, bytes: seq<byte>)
    requires |bins| == BINS && bytes == []
    ensures Counted(bins, bytes) == bins
  {
  }

  lemma ModSum(a: nat, b: nat)
    ensures (a % U32_LIMIT + b) % U32_LIMIT == (a + b) % U32_LIMIT
    ensures a % U32_LIMIT % U32_LIMIT == a % U32_LIMIT
  {
  }

  lemma CountedSnoc(bins: seq<nat>, bytes: seq<byte>, c: byte)
    requires |bins| == BINS
    ensures var r := Counted(bins, bytes);
            Counted(bins, bytes + [c]) == r[c := (r[c] + 1) % U32_LIMIT]
  {
    hide Counted, Count;
    var r := Counted(bins, bytes);
    var x, y := Counted(bins, bytes + [c]), r[c := (r[c] + 1) % U32_LIMIT];
    forall b | 0 <= b < BINS ensures x[b] == y[b] {
      CountSnoc(bytes, c, b);
      if b == c {
        ModSum(bins[b] + Count(bytes, b), 1);
      }
    }
    assert x == y;
  }

  // The bins hold the histogram of the first n sectors.
  predicate Binned(d: Disk, c: Call, bins: seq<nat>, n: nat)
    requires Runnable(d, c)
  {
    && n <= SectorsRead(c) && |bins| == BINS
    && bins == Wrapped(Hist(Flat(ReadSectors(d, c), n * SECTOR_SIZE)))
  }

  lemma NothingBinned(d: Disk, c: Call, bins: seq<nat>)
    requires Runnable(d, c) && |bins| == BINS && forall b | 0 <= b < BINS :: bins[b] == 0
    ensures Binned(d, c, bins, 0)
  {
    hide ReadSectors;
    NothingCounted(Flat(ReadSectors(d, c), 0), bins);
    assert bins == Wrapped(bins);
  }

  // Wrapping on the way gives what wrapping at the end gives.
  lemma WrapLater(h: seq<nat>, bytes: seq<byte>)
    requires |h| == BINS
    ensures Counted(Wrapped(h), bytes) == Wrapped(Add(h, Hist(bytes)))
  {
    var x, y := Counted(Wrapped(h), bytes), Wrapped(Add(h, Hist(bytes)));
    forall b | 0 <= b < BINS ensures x[b] == y[b] {
      ModSum(h[b], Count(bytes, b));
    }
    assert x == y;
  }

  lemma MoreBinned(d: Disk, c: Call, before: seq<nat>, after: seq<nat>, sector: Sector, n: nat)
    requires Runnable(d, c) && Binned(d, c, before, n) && n < SectorsRead(c)
    requires sector == ReadSectors(d, c)[n] && after == Counted(before, sector)
    ensures Binned(d, c, after, n + 1)
  {
    hide ReadSectors, Flat, Hist, Counted, Runnable;
    var x := Flat(ReadSectors(d, c), n * SECTOR_SIZE);
    FlatSnoc(ReadSectors(d, c), n);
    HistConcat(x, sector);
    WrapLater(Hist(x), sector);
  }

  lemma AllBinned(d: Disk, c: Call, bins: seq<nat>, n: nat)
    requires Runnable(d, c) && Binned(d, c, bins, n) && Limit(c) <= n * SECTOR_SIZE
    ensures n == SectorsRead(c) && bins == Wrapped(Hist(KernelBytesOf(d, c)))
    ensures SectorsRead(c) * SECTOR_SIZE < U32_LIMIT ==> bins == Hist(KernelBytesOf(d, c))
  {
    hide ReadSectors, Runnable;
    if SectorsRead(c) * SECTOR_SIZE < U32_LIMIT {
      NoWrap(KernelBytesOf(d, c));
    }
  }

  class EntropyKernel {
    const csd: FuseLfsCsd
    const io: FileIO
    const nvme: NvmeZnsMemoryBackend
    const log: LogZone

    constructor (csd: FuseLfsCsd)
      ensures this.csd == csd && io == csd.io && nvme == csd.nvme && log == csd.log
    {
      this.csd, io, nvme, log := csd, csd.io, csd.nvme, csd.log;
    }

    ghost predicate Ready()
      reads this, csd, io, nvme, nvme.data, nvme.writePointers, log
    {
      csd.io == io && csd.nvme == nvme && csd.log == log && csd.Ready()
    }

    // bpf_read of a whole sector; the kernel does not look at its result.
    method BpfRead(lba: u64, byteBuf: array<byte>)
      requires Ready() && byteBuf.Length == SECTOR_SIZE && byteBuf != nvme.data
      modifies byteBuf
      ensures Ready() && FsDisk(nvme.disk)
      ensures LbaReadable(nvme.disk, lba) ==> byteBuf[..] == SectorAt(nvme.disk, lba)
    {
      hide NvmeZnsMemoryBackend.Valid, LogInv, SectorAt, LbaReadable;
      var ok, bytes := io.ReadLba(lba);
      if ok {
        CopyInto(byteBuf, 0, bytes);
        assert byteBuf[..] == bytes;
      }
    }

    method Run(call: Call) returns (status: int, bins: seq<nat>)
      requires Ready()
      requires |call.lbas| > 0 && SectorsRead(call) <= |call.lbas|
      ensures status == if call.lbas[0] == 0 then -2 else if call.op != ReadStream then -3 else 0
      ensures status == 0 && Runnable(nvme.disk, call) ==> bins == Wrapped(Hist(KernelBytesOf(nvme.disk, call)))
      ensures status == 0 && Runnable(nvme.disk, call) && SectorsRead(call) * SECTOR_SIZE < U32_LIMIT ==>
                bins == Hist(KernelBytesOf(nvme.disk, call))
    {
      hide NvmeZnsMemoryBackend.Valid, LogInv, SectorAt, LbaReadable, FsDisk, Runnable, ReadSectors, Hist, Flat;
      bins := [];
      if call.lbas[0] == 0 {
        return -2, bins;
      }
      if call.op != ReadStream {
        return -3, bins;
      }
      var dataLimit := if call.size < call.inodeSize then call.size else call.inodeSize;
      var bufferOffset := 0;
      var byteBuf := new byte[SECTOR_SIZE];
      var counts := new nat[BINS](_ => 0);
      var cur: nat := 0;
      ghost var d, known := nvme.disk, Runnable(nvme.disk, call);
      if known {
        NothingBinned(d, call, counts[..]);
      }
      while bufferOffset < dataLimit
        invariant Ready() && nvme.disk == d && fresh(byteBuf) && fresh(counts)
        invariant cur <= SectorsRead(call) && bufferOffset == cur * SECTOR_SIZE
        invariant known ==> Binned(d, call, counts[..], cur)
      {
        AnotherSector(call, cur);
        if known {
          CanRead(d, call, cur);
        }
        BpfRead(call.lbas[cur], byteBuf);
        ghost var before := counts[..];
        CountBytes(byteBuf, counts);
        if known {
          MoreBinned(d, call, before, counts[..], byteBuf[..], cur);
        }
        bufferOffset := bufferOffset + SECTOR_SIZE;
        cur := cur + 1;
      }
      bins := counts[..];
      if known {
        AllBinned(d, call, bins, cur);
      }
      return 0, bins;
    }

    // The inner loop: one sector into the bins.
    method CountBytes(byteBuf: array<byte>, counts: array<nat>)
      requires counts.Length == BINS && byteBuf as object != counts
      modifies counts
      ensures counts[..] == Counted(old(counts[..]), byteBuf[..])
    {
      ghost var before := counts[..];
      CountedNothing(before, byteBuf[..0]);
      for j := 0 to byteBuf.Length
        invariant counts[..] == Counted(before, byteBuf[..j])
      {
        assert byteBuf[..j + 1] == byteBuf[..j] + [byteBuf[j]];
        CountedSnoc(before, byteBuf[..j], byteBuf[j]);
        counts[byteBuf[j]] := (counts[byteBuf[j]] + 1) % U32_LIMIT;
      }
      assert byteBuf[..byteBuf.Length] == byteBuf[..];
    }
  }
}
