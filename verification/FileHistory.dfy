// Read-after-write over whole histories: files in the log refine flat byte
// strings, whatever writes go to whichever files, those that fail included, and
// whatever else the file system appends to the log or does below it in between.
module FileHistory {
  import opened Basics
  import opened Disk
  import opened Checkpoints
  import opened LogZone
  import opened InodeBlock
  import opened InodeEntries
  import opened InodeLba
  import opened Inodes
  import opened FileData
  import opened FileWrite
  import opened FileOverlay
  import opened FileTruncate
  import opened FileRead

  datatype Store = Store(d: Disk, files: map<u64, File>)

  datatype Event =
    | NewFile(ino: u64)
    | Write(ino: u64, off: nat, data: seq<byte>, junk: seq<Sector>)
    // a write that ran out of room after this many sectors
    | FailedWrite(ino: u64, off: nat, data: seq<byte>, junk: seq<Sector>, done: nat)
    | Shrink(ino: u64, size: nat)
    // inode flushes, checkpoints, rewrites of the random zone
    | Elsewhere

  ghost predicate StoreInv(s: Store) {
    FsDisk(s.d) && forall x | x in s.files :: FileInv(s.d, s.files[x])
  }

  ghost predicate EventStep(s: Store, e: Event, s': Store)
    requires StoreInv(s)
  {
    match e
    case NewFile(ino) => ino !in s.files && s' == s.(files := s.files[ino := File(map[], 0)])
    case Elsewhere => FsDisk(s'.d) && LogGrows(s.d, s'.d) && s'.files == s.files
    case Shrink(ino, size) =>
      ino in s.files && size <= s.files[ino].size && s' == s.(files := s.files[ino := s.files[ino].(size := size)])
    case Write(ino, off, data, junk) =>
      && ino in s.files && ino in s'.files
      && WriteArgs(s.d, s.files[ino], off, data, junk)
      && CleanWrite(s.files[ino].size, off, |data|)
      && Wrote(s.d, s.files[ino], off, data, junk, s'.d, s'.files[ino])
      && s'.files == s.files[ino := s'.files[ino]]
    case FailedWrite(ino, off, data, junk, done) =>
      && ino in s.files && ino in s'.files
      && off <= s.files[ino].size && WholeSectors(junk) && done < |junk| && done <= Touched(off, |data|)
      && CleanTorn(s.files[ino].size, off, |data|, done)
      && Torn(s.d, s.files[ino], off, data, junk, done, s'.d, s'.files[ino])
      && s'.files == s.files[ino := s'.files[ino]]
  }

  // The flat files readers see.
  ghost function Contents(s: Store): map<u64, seq<byte>>
    requires StoreInv(s)
  {
    map x | x in s.files :: Bytes(s.d, s.files[x])
  }

  // The same history on flat files.
  function Apply(flat: map<u64, seq<byte>>, e: Event): map<u64, seq<byte>> {
    match e
    case NewFile(ino) => flat[ino := []]
    case Elsewhere => flat
    case Shrink(ino, size) => if ino in flat && size <= |flat[ino]| then flat[ino := flat[ino][..size]] else flat
    case Write(ino, off, data, _) =>
      if ino in flat && off <= |flat[ino]| then flat[ino := Overlay(flat[ino], off, data)] else flat
    case FailedWrite(ino, off, data, _, done) =>
      var n := TornLength(off, |data|, done);
      if ino in flat && off <= |flat[ino]|
      then flat[ino := Overlay(flat[ino], off, data[..n])[..|flat[ino]|]] else flat
  }

  function ApplyAll(flat: map<u64, seq<byte>>, events: seq<Event>): map<u64, seq<byte>>
    decreases |events|
  {
    if events == [] then flat else ApplyAll(Apply(flat, events[0]), events[1..])
  }

  lemma EmptyFile(d: Disk)
    requires FsDisk(d)
    ensures FileInv(d, File(map[], 0)) && Bytes(d, File(map[], 0)) == []
  {
  }

  // One clean write overlays the flat file.
  lemma WriteOverlays(d: Disk, f: File, off: nat, data: seq<byte>, junk: seq<Sector>, d': Disk, f': File)
    requires WriteArgs(d, f, off, data, junk) && CleanWrite(f.size, off, |data|)
    requires Wrote(d, f, off, data, junk, d', f')
    ensures FsDisk(d') && LogGrows(d, d') && FileInv(d', f')
    ensures Bytes(d', f') == Overlay(Bytes(d, f), off, data)
  {
    hide LogGrows, Overlay, Touched, CleanWrite, WriteSectors;
    CleanWriteOverlays(FileSectors(d, f), f.size, off, data, junk);
  }

  // One failed write overlays the flat file with what reached full blocks.
  lemma FailedWriteOverlays(d: Disk, f: File, off: nat, data: seq<byte>, junk: seq<Sector>, done: nat, d': Disk,
                            f': File)
    requires FileInv(d, f) && off <= f.size && WholeSectors(junk) && done < |junk| && done <= Touched(off, |data|)
    requires CleanTorn(f.size, off, |data|, done) && Torn(d, f, off, data, junk, done, d', f')
    ensures FsDisk(d') && LogGrows(d, d') && FileInv(d', f')
    ensures Bytes(d', f') == Overlay(Bytes(d, f), off, data[..TornLength(off, |data|, done)])[..f.size]
  {
    hide CleanTorn, LogGrows, Overlay, Touched, TornSectors, TornLength;
    TornOverlays(FileSectors(d, f), f.size, off, data, junk, done);
  }

  lemma EventRefines(s: Store, e: Event, s': Store)
    requires StoreInv(s) && EventStep(s, e, s')
    ensures StoreInv(s') && Contents(s') == Apply(Contents(s), e)
  {
    hide Backed, Loaded, Bytes, WriteSectors, LogGrows, Overlay, CleanWrite, Touched, FileSectors, TornLength,
         TornSectors, CleanTorn;
    match e
    case NewFile(ino) =>
      EmptyFile(s.d);
    case Elsewhere =>
      forall x | x in s.files ensures FileInv(s'.d, s.files[x]) && Bytes(s'.d, s.files[x]) == Bytes(s.d, s.files[x]) {
        FileKept(s.d, s'.d, s.files[x]);
      }
    case Shrink(ino, size) =>
      ShrinkCuts(s.d, s.files[ino], size);
    case Write(ino, off, data, junk) =>
      WriteOverlays(s.d, s.files[ino], off, data, junk, s'.d, s'.files[ino]);
      forall x | x in s.files && x != ino
        ensures FileInv(s'.d, s.files[x]) && Bytes(s'.d, s.files[x]) == Bytes(s.d, s.files[x])
      {
        FileKept(s.d, s'.d, s.files[x]);
      }
    case FailedWrite(ino, off, data, junk, done) =>
      FailedWriteOverlays(s.d, s.files[ino], off, data, junk, done, s'.d, s'.files[ino]);
      forall x | x in s.files && x != ino
        ensures FileInv(s'.d, s.files[x]) && Bytes(s'.d, s.files[x]) == Bytes(s.d, s.files[x])
      {
        FileKept(s.d, s'.d, s.files[x]);
      }
  }

  ghost predicate History(states: seq<Store>, events: seq<Event>) {
    && |states| == |events| + 1
    && StoreInv(states[0])
    && forall i | 0 <= i < |events| :: StoreInv(states[i]) && EventStep(states[i], events[i], states[i + 1])
  }

  lemma TailHistory(states: seq<Store>, events: seq<Event>)
    requires History(states, events) && events != [] && StoreInv(states[1])
    ensures History(states[1..], events[1..])
  {
    hide EventStep, StoreInv;
    forall i | 0 <= i < |events| - 1
      ensures StoreInv(states[1..][i]) && EventStep(states[1..][i], events[1..][i], states[1..][i + 1])
    {
      assert StoreInv(states[i + 1]) && EventStep(states[i + 1], events[i + 1], states[i + 2]);
    }
  }

  // Byte-level read-after-write: after every history each file holds what the
  // same writes make of a flat file.
  lemma {:induction false} ReadAfterWrite(states: seq<Store>, events: seq<Event>)
    requires History(states, events)
    ensures StoreInv(states[|events|])
    ensures Contents(states[|events|]) == ApplyAll(Contents(states[0]), events)
    decreases |events|
  {
    hide EventStep, StoreInv, Contents, Apply;
    if events != [] {
      EventRefines(states[0], events[0], states[1]);
      TailHistory(states, events);
      ReadAfterWrite(states[1..], events[1..]);
      assert states[1..][|events| - 1] == states[|events|];
    }
  }

  // The reply to a read is the requested part of the flat file, after every
  // history that leads to this state.
  ghost predicate ReadsFlatFile(s: Store, ino: u64, size: nat, offset: nat, reply: Reply) {
    forall states, events | History(states, events) && states[|events|] == s ::
      var flat := ApplyAll(Contents(states[0]), events);
      && ino in flat
      && reply == if size == 0 || |flat[ino]| <= offset then Empty
                  else Data(flat[ino][offset..if offset + size < |flat[ino]| then offset + size else |flat[ino]|])
  }

  lemma ReadReturnsFlatFile(s: Store, ino: u64, size: nat, offset: nat, reply: Reply)
    requires StoreInv(s) && ino in s.files && reply == ReadReply(Bytes(s.d, s.files[ino]), size, offset)
    ensures ReadsFlatFile(s, ino, size, offset, reply)
  {
    hide EventStep, Apply, ReadReply, Bytes, Backed, Loaded;
    ReplyIs(Bytes(s.d, s.files[ino]), size, offset);
    forall states, events | History(states, events) && states[|events|] == s
      ensures var flat := ApplyAll(Contents(states[0]), events);
              ino in flat && flat[ino] == Bytes(s.d, s.files[ino])
    {
      ReadAfterWrite(states, events);
    }
  }

  // ---- The files of a file system --------------------------------------------------

  // Every inode that is found, with its data blocks and the size of its entry.
  ghost function StoreOf(m: Meta, all: map<u64, Blocks>): Store
    requires FsDisk(m.log.d)
  {
    Store(m.log.d, map x | x in m.lbas && LookupOf(m, x).Found? ::
                     File(BlocksOf(all, x), LookupOf(m, x).value.entry.size))
  }

  lemma FileInStore(m: Meta, all: map<u64, Blocks>, ino: u64)
    requires FsDisk(m.log.d) && LookupOf(m, ino).Found?
    ensures ino in m.lbas
    ensures var s := StoreOf(m, all);
            && ino in s.files && s.d == m.log.d
            && s.files[ino] == File(BlocksOf(all, ino), LookupOf(m, ino).value.entry.size)
  {
  }

  // A step of the inodes that no lookup notices is an event elsewhere.
  lemma LookupsKeptIsElsewhere(m: Meta, m': Meta, all: map<u64, Blocks>)
    requires SameLookups(m, m') && LogGrows(m.log.d, m'.log.d) && StoreInv(StoreOf(m, all))
    ensures EventStep(StoreOf(m, all), Elsewhere, StoreOf(m', all))
  {
    hide OnDevice, LogGrows, StoreInv;
    forall x | x in m.lbas || x in m'.lbas
      ensures (x in m.lbas && LookupOf(m, x).Found?) <==> (x in m'.lbas && LookupOf(m', x).Found?)
    {
      assert LookupOf(m', x) == LookupOf(m, x);
    }
  }

  // flush_inodes_if_full is one, whether or not a block could be filled.
  lemma FlushIsElsewhere(m: Meta, blk: Sector, all: map<u64, Blocks>)
    requires MetaInv(m) && StoreInv(StoreOf(m, all)) && |blk| == SECTOR_SIZE
    requires Full(InOrder(m.entries)) ==> Pack(BlockEntries(m.entries)) <= blk
    ensures FsDisk(FlushInodes(m, blk).0.log.d)
    ensures EventStep(StoreOf(m, all), Elsewhere, StoreOf(FlushInodes(m, blk).0, all))
  {
    hide MetaInv, FlushInodes, LookupOf, StoreInv, StoreOf, EventStep, Pack, BlockEntries, LogInv, Full, InOrder;
    InvLog(m);
    if Full(InOrder(m.entries)) {
      FlushKeepsEveryInode(m, blk);
    } else {
      FlushNotFull(m, blk);
      GrowsReflexive(m.log.d);
    }
    LookupsKeptIsElsewhere(m, FlushInodes(m, blk).0, all);
  }

  // A new inode of size 0 is a new file.
  lemma NewInodeIsNewFile(m: Meta, m': Meta, all: map<u64, Blocks>, ino: u64)
    requires FsDisk(m.log.d) && m'.log.d == m.log.d && StoreInv(StoreOf(m, all))
    requires LookupOf(m, ino) == NotFound && LookupOf(m', ino).Found? && LookupOf(m', ino).value.entry.size == 0
    requires ino !in all && forall x | x != ino :: LookupOf(m', x) == LookupOf(m, x)
    ensures EventStep(StoreOf(m, all), NewFile(ino), StoreOf(m', all))
  {
    hide OnDevice, StoreInv;
    forall x | x in m.lbas || x in m'.lbas
      ensures (x in m'.lbas && LookupOf(m', x).Found?) <==> ((x in m.lbas && LookupOf(m, x).Found?) || x == ino)
    {
      if x != ino {
        assert LookupOf(m', x) == LookupOf(m, x);
      }
    }
  }

  // A step that changes the lookup and the blocks of one found inode only
  // changes one file.
  lemma OneFileChanges(m: Meta, m': Meta, all: map<u64, Blocks>, all': map<u64, Blocks>, ino: u64)
    requires FsDisk(m.log.d) && FsDisk(m'.log.d) && m'.lbas.Keys == m.lbas.Keys
    requires ino in m.lbas && LookupOf(m, ino).Found? && LookupOf(m', ino).Found?
    requires forall x | x != ino :: LookupOf(m', x) == LookupOf(m, x)
    requires forall x | x != ino :: BlocksOf(all', x) == BlocksOf(all, x)
    ensures var s, s' := StoreOf(m, all), StoreOf(m', all');
            && ino in s.files && s.files[ino] == File(BlocksOf(all, ino), LookupOf(m, ino).value.entry.size)
            && ino in s'.files && s'.files[ino] == File(BlocksOf(all', ino), LookupOf(m', ino).value.entry.size)
            && s'.files == s.files[ino := s'.files[ino]]
  {
    hide LookupOf, BlocksOf;
  }

  // A write of a found inode is an event of its file: a write when it succeeds,
  // counts right and is clean, a failed write when the log runs out, also at a
  // sector one too many.
  ghost predicate WriteEvent(s: Store, ino: u64, off: nat, data: seq<byte>, junk: seq<Sector>, ret: Ret, room: int,
                             s': Store) {
    StoreInv(s) && ino in s.files ==>
      var size, t := s.files[ino].size, Touched(off, |data|);
      if ret == RetNone then
        CountsRight(size, off, |data|, |junk|) && CleanWrite(size, off, |data|) ==>
          EventStep(s, Write(ino, off, data, junk[..t]), s')
      else
        && 0 <= room < |junk| && (room < t ==> CleanTorn(size, off, |data|, room))
        && (room <= t && CleanTorn(size, off, |data|, room) ==> EventStep(s, FailedWrite(ino, off, data, junk, room), s'))
  }

  lemma RightCountWrites(d: Disk, f: File, off: nat, data: seq<byte>, behind: seq<byte>, junk: seq<Sector>, d': Disk,
                         f': File)
    requires CountedArgs(d, f, off, data, behind, junk) && WriteOutcome(d, f, off, data, behind, junk, d', f')
    requires CountsRight(f.size, off, |data|, |junk|)
    ensures WriteArgs(d, f, off, data, junk[..Touched(off, |data|)])
    ensures Wrote(d, f, off, data, junk[..Touched(off, |data|)], d', f')
  {
    hide Wrote, WroteStray, Touched, Appended, Sectors;
    var t := Touched(off, |data|);
    SectorsAfter(f.size, off, |data|);
    if |junk| == t {
      assert junk[..t] == junk;
    } else {
      StrayBehindEnd(d, f, off, data, junk[..t], Appended(FileSectors(d, f), off, data, behind, junk, t), d', f');
    }
  }

  lemma WriteIsEvent(m: Meta, m': Meta, all: map<u64, Blocks>, all': map<u64, Blocks>, ino: u64,
                     off: nat, data: seq<byte>, behind: seq<byte>, junk: seq<Sector>)
    requires FsDisk(m.log.d) && FsDisk(m'.log.d) && m'.lbas.Keys == m.lbas.Keys
    requires ino in m.lbas && LookupOf(m, ino).Found? && LookupOf(m', ino).Found?
    requires forall x | x != ino :: LookupOf(m', x) == LookupOf(m, x)
    requires forall x | x != ino :: BlocksOf(all', x) == BlocksOf(all, x)
    requires var f := File(BlocksOf(all, ino), LookupOf(m, ino).value.entry.size);
             var f' := File(BlocksOf(all', ino), LookupOf(m', ino).value.entry.size);
             && CountedArgs(m.log.d, f, off, data, behind, junk)
             && WriteOutcome(m.log.d, f, off, data, behind, junk, m'.log.d, f')
    ensures WriteEvent(StoreOf(m, all), ino, off, data, junk, RetNone, Room(m.log), StoreOf(m', all'))
  {
    hide LookupOf, BlocksOf, CleanWrite, WriteOutcome, StoreInv, Room, Touched, Wrote, FileInv, Sectors;
    OneFileChanges(m, m', all, all', ino);
    var f := File(BlocksOf(all, ino), LookupOf(m, ino).value.entry.size);
    var f' := File(BlocksOf(all', ino), LookupOf(m', ino).value.entry.size);
    if CountsRight(f.size, off, |data|, |junk|) {
      RightCountWrites(m.log.d, f, off, data, behind, junk, m'.log.d, f');
    }
  }

  lemma FailedWriteIsEvent(m: Meta, m': Meta, all: map<u64, Blocks>, all': map<u64, Blocks>, ino: u64,
                           off: nat, data: seq<byte>, junk: seq<Sector>, ret: Ret)
    requires FsDisk(m.log.d) && FsDisk(m'.log.d) && m'.lbas.Keys == m.lbas.Keys && ret != RetNone
    requires ino in m.lbas && LookupOf(m, ino).Found? && LookupOf(m', ino).Found?
    requires forall x | x != ino :: LookupOf(m', x) == LookupOf(m, x)
    requires forall x | x != ino :: BlocksOf(all', x) == BlocksOf(all, x)
    requires var f := File(BlocksOf(all, ino), LookupOf(m, ino).value.entry.size);
             var f' := File(BlocksOf(all', ino), LookupOf(m', ino).value.entry.size);
             && FileInv(m.log.d, f) && off <= f.size && WholeSectors(junk) && |junk| <= Touched(off, |data|) + 1
             && 0 <= Room(m.log) < |junk| && Torn(m.log.d, f, off, data, junk, Room(m.log), m'.log.d, f')
    ensures WriteEvent(StoreOf(m, all), ino, off, data, junk, ret, Room(m.log), StoreOf(m', all'))
  {
    hide LookupOf, BlocksOf, Torn, CleanWrite, StoreInv, Room, Touched, FileInv;
    OneFileChanges(m, m', all, all', ino);
  }

  lemma NoFileNoEvent(m: Meta, s': Store, all: map<u64, Blocks>, ino: u64, off: nat, data: seq<byte>, junk: seq<Sector>,
                      ret: Ret)
    requires FsDisk(m.log.d) && !LookupOf(m, ino).Found?
    ensures WriteEvent(StoreOf(m, all), ino, off, data, junk, ret, Room(m.log), s')
  {
  }

  // Making a file shorter is an event too.
  lemma ShrinkIsEvent(m: Meta, m': Meta, all: map<u64, Blocks>, ino: u64, size: nat)
    requires FsDisk(m.log.d) && m'.log.d == m.log.d && m'.lbas.Keys == m.lbas.Keys
    requires ino in m.lbas && LookupOf(m, ino).Found? && LookupOf(m', ino).Found?
    requires forall x | x != ino :: LookupOf(m', x) == LookupOf(m, x)
    requires size == LookupOf(m', ino).value.entry.size <= LookupOf(m, ino).value.entry.size
    requires StoreInv(StoreOf(m, all))
    ensures EventStep(StoreOf(m, all), Shrink(ino, size), StoreOf(m', all))
  {
    hide LookupOf, BlocksOf, StoreInv;
    OneFileChanges(m, m', all, all, ino);
  }
}
