// Exactly when a write overlays the flat file: its sectors have to be counted
// right, and none of them may be started anew with bytes of the file in it.
module FileOverlay {
  import opened Basics
  import opened Disk
  import opened Codec
  import opened Checkpoints
  import opened LogZone
  import opened FileData
  import opened FileWrite

  // The sectors of a write come out right: they were counted right, or there is
  // nothing of the file behind them.
  predicate CountsRight(size: nat, off: nat, n: nat, count: nat) {
    || count == Touched(off, n)
    || (count == Touched(off, n) + 1 && Sectors(size) <= off / SECTOR_SIZE + Touched(off, n))
  }

  // A write of n bytes to a file of this size, with all that memory may hold.
  predicate Shapes(size: nat, off: nat, n: nat, secs: seq<Sector>, data: seq<byte>, behind: seq<byte>,
                   junk: seq<Sector>) {
    && off <= size && WholeSectors(secs) && |secs| == Sectors(size)
    && |data| == n && |behind| == 2 * SECTOR_SIZE
    && WholeSectors(junk) && |junk| == NumSectors(off, n)
  }

  lemma ShapesCount(size: nat, off: nat, n: nat)
    requires off <= size
    ensures Touched(off, n) - 1 <= NumSectors(off, n) <= Touched(off, n) + 1
    ensures NumSectors(off, n) + 1 == Touched(off, n) ==> n > 0
    ensures off <= Sectors(size) * SECTOR_SIZE
  {
    NumSectorsOffByOne(off, n);
    SectorsAfter(size, off, n);
  }

  // The sectors of the file behind a successful write; none if the write did not
  // write a sector the file did not have either.
  function SectorsLeft(size: nat, off: nat, n: nat, secs: seq<Sector>, data: seq<byte>, behind: seq<byte>,
                       junk: seq<Sector>)
    : (r: Option<seq<Sector>>)
    requires Shapes(size, off, n, secs, data, behind, junk)
    ensures r.Some? ==> WholeSectors(r.value) && |r.value| == Sectors(MaxSize(size, off + n))
  {
    ShapesCount(size, off, n);
    SectorsAfter(size, off, n);
    var t, first := Touched(off, n), off / SECTOR_SIZE;
    if |junk| == t then Some(WriteSectors(secs, off, data, junk))
    else if |junk| == t + 1 then
      var r := WriteSectors(secs, off, data, junk[..t]);
      Some(if first + t < |r| then r[first + t := Appended(secs, off, data, behind, junk, t)] else r)
    else if first + t - 1 < |secs| then
      Some(WriteSectors(secs, off, data, junk + [Zeros(SECTOR_SIZE)])[first + t - 1 := secs[first + t - 1]])
    else None
  }

  lemma OutcomeSectors(d: Disk, f: File, off: nat, data: seq<byte>, behind: seq<byte>, junk: seq<Sector>, d': Disk,
                       f': File)
    requires CountedArgs(d, f, off, data, behind, junk) && |junk| == NumSectors(off, |data|)
    requires WriteOutcome(d, f, off, data, behind, junk, d', f')
    ensures Shapes(f.size, off, |data|, FileSectors(d, f), data, behind, junk)
    ensures var r := SectorsLeft(f.size, off, |data|, FileSectors(d, f), data, behind, junk);
            r.Some? ==> FileInv(d', f') && f'.size == MaxSize(f.size, off + |data|) && FileSectors(d', f') == r.value
  {
    hide FileSectors, WriteSectors, Appended, LogGrows, Backed, Loaded, Touched;
    ShapesCount(f.size, off, |data|);
    SectorsAfter(f.size, off, |data|);
  }

  // The flat file is overlaid.
  predicate Overlays(size: nat, off: nat, n: nat, secs: seq<Sector>, data: seq<byte>, behind: seq<byte>,
                     junk: seq<Sector>)
    requires Shapes(size, off, n, secs, data, behind, junk)
  {
    var r := SectorsLeft(size, off, n, secs, data, behind, junk);
    r.Some? && Flat(r.value, MaxSize(size, off + n)) == Overlay(Flat(secs, size), off, data)
  }

  lemma RightOverlays(size: nat, off: nat, n: nat, secs: seq<Sector>, data: seq<byte>, behind: seq<byte>,
                      junk: seq<Sector>)
    requires Shapes(size, off, n, secs, data, behind, junk)
    requires CountsRight(size, off, n, NumSectors(off, n)) && CleanWrite(size, off, n)
    ensures Overlays(size, off, n, secs, data, behind, junk)
  {
    hide Overlay, WriteSectors, Flat, Appended, CleanWrite;
    ShapesCount(size, off, n);
    SectorsAfter(size, off, n);
    CleanWriteOverlays(secs, size, off, data, junk[..Touched(off, n)]);
    assert |junk| == Touched(off, n) ==> junk[..Touched(off, n)] == junk;
  }

  // The first sector behind a write is the end of the write, rounded up.
  lemma RoundedUp(off: nat, n: nat)
    ensures off / SECTOR_SIZE + Touched(off, n) == (off + n + SECTOR_SIZE - 1) / SECTOR_SIZE
  {
    var p, o := off / SECTOR_SIZE, off % SECTOR_SIZE;
    assert off + n + SECTOR_SIZE - 1 == p * SECTOR_SIZE + (o + n + SECTOR_SIZE - 1);
  }

  // The same of a write on a device.
  lemma OutcomeOverlays(d: Disk, f: File, off: nat, data: seq<byte>, behind: seq<byte>, junk: seq<Sector>, d': Disk,
                        f': File)
    requires CountedArgs(d, f, off, data, behind, junk) && |junk| == NumSectors(off, |data|)
    requires WriteOutcome(d, f, off, data, behind, junk, d', f')
    requires CountsRight(f.size, off, |data|, |junk|) && CleanWrite(f.size, off, |data|)
    ensures FileInv(d', f') && Bytes(d', f') == Overlay(Bytes(d, f), off, data)
  {
    hide FileSectors, Flat, Overlay, Backed, Loaded, WriteOutcome, CountsRight, CleanWrite, Touched, SectorsLeft;
    OutcomeSectors(d, f, off, data, behind, junk, d', f');
    RightOverlays(f.size, off, |data|, FileSectors(d, f), data, behind, junk);
  }

  // A failed write keeps what reached full data blocks: up to the first sector of
  // the block it was working on.
  lemma TornKeeps(d: Disk, f: File, off: nat, data: seq<byte>, junk: seq<Sector>, i: nat, d': Disk, f': File)
    requires FileInv(d, f) && off <= f.size && WholeSectors(junk) && i < |junk| && i <= Touched(off, |data|)
    requires Torn(d, f, off, data, junk, i, d', f')
    ensures FileInv(d', f')
    ensures var open := (off / SECTOR_SIZE + i) / DATA_BLK_LBA_NUM * DATA_BLK_LBA_NUM;
            var filled := if open * SECTOR_SIZE <= off then 0
                          else if open * SECTOR_SIZE - off < |data| then open * SECTOR_SIZE - off else |data|;
            open < (off + |data| + SECTOR_SIZE - 1) / SECTOR_SIZE || CleanWrite(f.size, off, |data|) ==>
              Bytes(d', f') == Overlay(Bytes(d, f), off, data[..filled])[..f.size]
  {
    hide LogGrows, Overlay, Touched, TornSectors, CleanWrite, FileSectors, Flat, Backed, Loaded;
    RoundedUp(off, |data|);
    SectorsAfter(f.size, off, |data|);
    if CleanTorn(f.size, off, |data|, i) {
      TornOverlays(FileSectors(d, f), f.size, off, data, junk, i);
    }
  }

  // When sectors come out right, and when a write is clean, in numbers.
  lemma RightAndClean(size: nat, off: nat, n: nat)
    ensures var extra := off % (SECTOR_SIZE + n) > SECTOR_SIZE;
            var crosses := off % SECTOR_SIZE + n % SECTOR_SIZE >= SECTOR_SIZE;
            var reachesEnd := (size + SECTOR_SIZE - 1) / SECTOR_SIZE <= (off + n + SECTOR_SIZE - 1) / SECTOR_SIZE;
            && (CountsRight(size, off, n, NumSectors(off, n))
                <==> (extra <==> crosses) || (extra && !crosses && reachesEnd))
            && (NumSectors(off, n) == Touched(off, n) + 1 <==> extra && !crosses)
            && (NumSectors(off, n) == Touched(off, n) + 1 && !reachesEnd ==>
                  Sectors(size) > off / SECTOR_SIZE + Touched(off, n))
            && (NumSectors(off, n) + 1 == Touched(off, n) <==> !extra && crosses)
    ensures CleanWrite(size, off, n)
            <==> || off + n >= size
                 || (off + n) % SECTOR_SIZE == 0
                 || (off % SECTOR_SIZE != 0 && off % SECTOR_SIZE + n <= SECTOR_SIZE)
  {
    hide NumSectors;
    NumSectorsExact(off, n);
    RoundedUp(off, n);
  }

  // The flat file behind a write: overlaid when it was counted right, or one too
  // long with nothing of the file behind, and is clean; and when it failed after
  // a number of sectors, with what reached full data blocks.
  ghost predicate WrittenFlat(d: Disk, f: File, off: nat, data: seq<byte>, done: bool, room: int, d': Disk, f': File) {
    && FileInv(d, f) && off <= f.size
    && var size, n := f.size, |data|;
    var extra := off % (SECTOR_SIZE + n) > SECTOR_SIZE;
    var crosses := off % SECTOR_SIZE + n % SECTOR_SIZE >= SECTOR_SIZE;
    var reachesEnd := (size + SECTOR_SIZE - 1) / SECTOR_SIZE <= (off + n + SECTOR_SIZE - 1) / SECTOR_SIZE;
    var clean := || off + n >= size
                 || (off + n) % SECTOR_SIZE == 0
                 || (off % SECTOR_SIZE != 0 && off % SECTOR_SIZE + n <= SECTOR_SIZE);
    var open := (off / SECTOR_SIZE + room) / DATA_BLK_LBA_NUM * DATA_BLK_LBA_NUM;
    var filled := if open * SECTOR_SIZE <= off then 0
                  else if open * SECTOR_SIZE - off < n then open * SECTOR_SIZE - off else n;
    if done then
      ((extra <==> crosses) || (extra && !crosses && reachesEnd)) && clean ==>
        FileInv(d', f') && Bytes(d', f') == Overlay(Bytes(d, f), off, data)
    else
      open < (off + n + SECTOR_SIZE - 1) / SECTOR_SIZE || clean ==>
        FileInv(d', f') && Bytes(d', f') == Overlay(Bytes(d, f), off, data[..filled])[..size]
  }

  // What a write makes of a file: all of its sectors, or those in the data blocks
  // it filled, and the flat file.
  ghost predicate WriteResult(d: Disk, f: File, off: nat, data: seq<byte>, behind: seq<byte>, junk: seq<Sector>,
                              done: bool, room: int, d': Disk, f': File)
  {
    && CountedArgs(d, f, off, data, behind, junk)
    && (if done then WriteOutcome(d, f, off, data, behind, junk, d', f')
        else 0 <= room < |junk| && Torn(d, f, off, data, junk, room, d', f'))
    && WrittenFlat(d, f, off, data, done, room, d', f')
  }

  lemma SuccessWritten(d: Disk, f: File, off: nat, data: seq<byte>, behind: seq<byte>, junk: seq<Sector>, room: int,
                       d': Disk, f': File)
    requires CountedArgs(d, f, off, data, behind, junk) && |junk| == NumSectors(off, |data|)
    requires WriteOutcome(d, f, off, data, behind, junk, d', f')
    ensures WriteResult(d, f, off, data, behind, junk, true, room, d', f')
  {
    hide NumSectors, CountsRight, CleanWrite, WriteOutcome, Bytes, Overlay, FileInv, Touched, Sectors;
    RightAndClean(f.size, off, |data|);
    if CountsRight(f.size, off, |data|, |junk|) && CleanWrite(f.size, off, |data|) {
      OutcomeOverlays(d, f, off, data, behind, junk, d', f');
    }
  }

  lemma FailureWritten(d: Disk, f: File, off: nat, data: seq<byte>, behind: seq<byte>, junk: seq<Sector>, room: int,
                       d': Disk, f': File)
    requires CountedArgs(d, f, off, data, behind, junk) && 0 <= room < |junk|
    requires Torn(d, f, off, data, junk, room, d', f')
    ensures WriteResult(d, f, off, data, behind, junk, false, room, d', f')
  {
    hide NumSectors, CountsRight, CleanWrite, Bytes, Overlay, FileInv, Torn, Touched, Sectors;
    RightAndClean(f.size, off, |data|);
    TornKeeps(d, f, off, data, junk, room, d', f');
  }

  // What shows that a write does not overlay: a file of zeros, data of one value,
  // and memory full of ones.
  function Filled(b: byte): (s: Sector)
    ensures |s| == SECTOR_SIZE && forall i | 0 <= i < SECTOR_SIZE :: s[i] == b
  {
    seq(SECTOR_SIZE, _ => b)
  }

  function Witness(size: nat, off: nat, n: nat, b: byte): (w: (seq<Sector>, seq<byte>, seq<byte>, seq<Sector>))
    requires off <= size
    ensures Shapes(size, off, n, w.0, w.1, w.2, w.3)
    ensures forall i | 0 <= i < |w.0| :: w.0[i] == Filled(0)
    ensures forall i | 0 <= i < n :: w.1[i] == b
    ensures forall i | 0 <= i < 2 * SECTOR_SIZE :: w.2[i] == 1
    ensures forall i | 0 <= i < |w.3| :: w.3[i] == Filled(1)
  {
    (seq(Sectors(size), _ => Filled(0)), seq(n, _ => b), seq(2 * SECTOR_SIZE, _ => 1), seq(NumSectors(off, n), _ => Filled(1)))
  }

  // The sector too many ends up in the file.
  lemma StrayShows(size: nat, off: nat, n: nat)
    requires off <= size && NumSectors(off, n) == Touched(off, n) + 1
    requires Sectors(size) > off / SECTOR_SIZE + Touched(off, n)
    ensures var (secs, data, behind, junk) := Witness(size, off, n, 0);
            !Overlays(size, off, n, secs, data, behind, junk)
  {
    hide WriteSectors, Witness;
    var (secs, data, behind, junk) := Witness(size, off, n, 0);
    ShapesCount(size, off, n);
    SectorsAfter(size, off, n);
    var t, next := Touched(off, n), off / SECTOR_SIZE + Touched(off, n);
    var i := next * SECTOR_SIZE;
    assert off + n <= i < size;
    assert Appended(secs, off, data, behind, junk, t)[0] == 1;
    assert Flat(SectorsLeft(size, off, n, secs, data, behind, junk).value, MaxSize(size, off + n))[i] == 1;
    OverlayAt(Flat(secs, size), off, data, i);
  }

  // The sector that is not written misses its data.
  lemma ShortShows(size: nat, off: nat, n: nat)
    requires off <= size && NumSectors(off, n) + 1 == Touched(off, n)
    ensures var (secs, data, behind, junk) := Witness(size, off, n, 1);
            !Overlays(size, off, n, secs, data, behind, junk)
  {
    hide WriteSectors, Witness;
    var (secs, data, behind, junk) := Witness(size, off, n, 1);
    ShapesCount(size, off, n);
    SectorsAfter(size, off, n);
    var i, last := off + n - 1, off / SECTOR_SIZE + Touched(off, n) - 1;
    assert i / SECTOR_SIZE == last;
    if last < |secs| {
      assert Flat(SectorsLeft(size, off, n, secs, data, behind, junk).value, MaxSize(size, off + n))[i] == 0;
      OverlayAt(Flat(secs, size), off, data, i);
    }
  }

  lemma UncleanShows(size: nat, off: nat, n: nat)
    requires off <= size && CountsRight(size, off, n, NumSectors(off, n)) && !CleanWrite(size, off, n)
    ensures var (secs, data, behind, junk) := Witness(size, off, n, 0);
            !Overlays(size, off, n, secs, data, behind, junk)
  {
    hide WriteSectors, Witness, Overlay, Appended, CleanWrite;
    var (secs, data, behind, junk) := Witness(size, off, n, 0);
    ShapesCount(size, off, n);
    SectorsAfter(size, off, n);
    var t := Touched(off, n);
    UncleanWriteSpoils(secs, size, off, data, junk[..t]);
    assert |junk| == t ==> junk[..t] == junk;
  }

  // For an offset, a length and a size: a write overlays the flat file for every
  // file, all data and everything memory may hold if and only if its sectors
  // come out right and it is clean.
  lemma WriteOverlaysExactly(size: nat, off: nat, n: nat)
    requires off <= size
    ensures var extra := off % (SECTOR_SIZE + n) > SECTOR_SIZE;
            var crosses := off % SECTOR_SIZE + n % SECTOR_SIZE >= SECTOR_SIZE;
            var reachesEnd := (size + SECTOR_SIZE - 1) / SECTOR_SIZE <= (off + n + SECTOR_SIZE - 1) / SECTOR_SIZE;
            && ((extra <==> crosses) || (extra && !crosses && reachesEnd))
            && (|| off + n >= size
                || (off + n) % SECTOR_SIZE == 0
                || (off % SECTOR_SIZE != 0 && off % SECTOR_SIZE + n <= SECTOR_SIZE))
            <==> forall secs, data, behind, junk | Shapes(size, off, n, secs, data, behind, junk) ::
                   Overlays(size, off, n, secs, data, behind, junk)
  {
    hide Overlays, Shapes, CleanWrite, Witness, CountsRight;
    ShapesCount(size, off, n);
    RightAndClean(size, off, n);
    if CountsRight(size, off, n, NumSectors(off, n)) {
      if CleanWrite(size, off, n) {
        forall secs, data, behind, junk | Shapes(size, off, n, secs, data, behind, junk)
          ensures Overlays(size, off, n, secs, data, behind, junk)
        {
          RightOverlays(size, off, n, secs, data, behind, junk);
        }
      } else {
        UncleanShows(size, off, n);
        var (secs, data, behind, junk) := Witness(size, off, n, 0);
        assert Shapes(size, off, n, secs, data, behind, junk);
      }
    } else if NumSectors(off, n) == Touched(off, n) + 1 {
      StrayShows(size, off, n);
      var (secs, data, behind, junk) := Witness(size, off, n, 0);
      assert Shapes(size, off, n, secs, data, behind, junk);
    } else {
      ShortShows(size, off, n);
      var (secs, data, behind, junk) := Witness(size, off, n, 1);
      assert Shapes(size, off, n, secs, data, behind, junk);
    }
  }
}
