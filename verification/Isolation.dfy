// A whole file system from its format on: every run from a fresh device keeps
// the invariant of the metadata, what it flushed and did not lose survives a
// clean unmount and a mount unless the ring is reported full, and files and
// snapshots are left alone.
module Isolation {
  import opened Basics
  import opened Disk
  import opened Codec
  import opened Checkpoints
  import opened NatLog
  import opened Ring
  import opened Compaction
  import opened Mount
  import opened RandomZoneSteps
  import opened LogZone
  import opened InodeBlock
  import opened InodeEntries
  import opened InodeLba
  import opened Inodes
  import opened Metadata
  import opened Remount
  import opened FileData
  import opened FileRead
  import opened FileHistory
  import opened Snapshots
  import opened Offload

  // An empty file system on a freshly formatted device, before the mount.
  function Unopened(d: Disk): Fs {
    Fs(RandomZoneState(d, SectorPos(CBLOCK_ZONE, 0), Position(RANDZ_ZONE, 0, 0, 0), Position(RANDZ_ZONE, 0, 0, 0)),
       SectorPos(LOGZ_ZONE, 0), map[], map[], {})
  }

  lemma UnopenedInv(d: Disk, superBlock: Sector)
    requires Formatted(d, superBlock)
    ensures FsInv(Unopened(d)) && Honest(Unopened(d)) && Unopened(d).rz.Sound(0, 0) && !Reported(Unopened(d))
    ensures RingMap(d, RANDZ_ZONE) == map[] && Unmounted(d) == d
  {
    hide EncodeCheckpoint, DecodeCheckpoint, RingContents, OnDevice;
    CheckpointRoundTrip(Checkpoint(PositionToLba(d.info, RANDZ_ZONE, 0), PositionToLba(d.info, LOGZ_ZONE, 0)));
    EmptyRingInv(d, RANDZ_ZONE, 0);
    var fs := Unopened(d);
    assert fs.rz.Sound(0, 0);
    assert MetaInv(MetaOf(fs));
    ReportsFullExactly(d, RANDZ_ZONE, 0, 0);
    assert Unmounted(d).zones == d.zones;
  }

  // The file system after the first mount of a freshly formatted device.
  ghost function Fresh(d: Disk, superBlock: Sector): (fs: Fs)
    requires Formatted(d, superBlock)
    ensures FsInv(fs) && Honest(fs) && Durable(fs)
    ensures fs.lbas == map[] && fs.entries == map[] && fs.nats == {}
  {
    UnopenedInv(d, superBlock);
    RemountExactly(Unopened(d));
    MountedFs(d)
  }

  // The mount succeeds, finds an empty ring, and leaves the pointer on its first
  // sector without making it valid.
  lemma FreshInv(d: Disk, superBlock: Sector)
    requires Formatted(d, superBlock)
    ensures Startable(d) && Mounted(d) == Some(map[])
    ensures var rz := Fresh(d, superBlock).rz;
            && rz == RandomZoneState(MarkDirty(d).0, SectorPos(CBLOCK_ZONE, 0), Position(RANDZ_ZONE, 0, 0, 0),
                                     Position(RANDZ_ZONE, 0, 0, 0))
            && rz.Sound(0, 0) && !rz.ptr.Valid()
    ensures Fresh(d, superBlock).logPtr == SectorPos(LOGZ_ZONE, 0)
  {
    hide Formatted, FsInv, RingContents, InitialState, MarkDirty, Mounted, Startable, ReportsFull,
         RandomZoneState.Kept, Shape;
    UnopenedInv(d, superBlock);
    RemountExactly(Unopened(d));
    MountedIs(Unopened(d));
    SoundKept(Unopened(d).rz, 0, 0);
    MountExactly(Unopened(d).rz, 0, 0);
  }

  lemma KnownIsFound(fs: Fs, x: u64)
    requires FsInv(fs) && x in fs.lbas
    ensures LookupFs(fs, x).Found?
  {
    hide RandomZoneState.Sound, LogInv, InLog, AllPacked;
  }

  // From format to mount: after every run from a fresh device a clean unmount
  // and a mount find the last update of each inode that has been flushed
  // completely and was not lost, if and only if the run did not leave a ring that
  // is reported full.
  lemma MountAfterAnyRun(d: Disk, superBlock: Sector, ops: seq<Op>, x: u64)
    requires Formatted(d, superBlock) && CanRun(Fresh(d, superBlock), ops)
    ensures var fs := Run(Fresh(d, superBlock), ops);
            && FsInv(fs) && Startable(Unmounted(fs.rz.d))
            && (x in fs.lbas && x !in fs.nats && x !in fs.entries && x !in LostThrough(Fresh(d, superBlock), ops, {}) ==>
                  && LatestOf(ops, x).Some?
                  && (LookupMounted(Unmounted(fs.rz.d), x) == Found(LatestOf(ops, x).value) <==> !Reported(fs)))
  {
    hide Formatted, Fresh, Step, Enabled, LookupMounted, LostThrough, OnDevice, RandomZoneState.Sound, LogInv,
         AllPacked, Lost, ReportsFull, Startable, Unmounted;
    var fs0 := Fresh(d, superBlock);
    RunSurvivesMount(fs0, ops, x);
    LastUpdateIsFound(fs0, ops);
    var fs := Run(fs0, ops);
    assert LookupFs(fs0, x) == NotFound;
    if x in fs.lbas && x !in fs.nats && x !in fs.entries {
      KnownIsFound(fs, x);
    }
  }

  // Nothing is lost as long as no flush takes from the set, on a full ring,
  // what the ring does not know.
  lemma MountAfterCarefulRun(d: Disk, superBlock: Sector, ops: seq<Op>, x: u64)
    requires Formatted(d, superBlock) && CanRun(Fresh(d, superBlock), ops) && Careful(Fresh(d, superBlock), ops)
    ensures var fs := Run(Fresh(d, superBlock), ops);
            && FsInv(fs) && Startable(Unmounted(fs.rz.d))
            && (x in fs.lbas && x !in fs.nats && x !in fs.entries ==>
                  && LatestOf(ops, x).Some?
                  && (LookupMounted(Unmounted(fs.rz.d), x) == Found(LatestOf(ops, x).value) <==> !Reported(fs)))
  {
    hide Formatted, Fresh, Step, Enabled, LookupMounted, LostThrough, Careful, Run, CanRun, MetaInv,
         RandomZoneState.Sound, Lost, ReportsFull, Startable, Unmounted;
    CarefulStaysDurable(Fresh(d, superBlock), ops);
    LostOverRuns(Fresh(d, superBlock), ops);
    MountAfterAnyRun(d, superBlock, ops, x);
  }

  // Over every lifetime of a freshly formatted device a lookup finds the last
  // update of an inode that was settled at every unmount.
  lemma LifetimeFromFormat(d: Disk, superBlock: Sector, runs: seq<seq<Op>>, x: u64)
    requires Formatted(d, superBlock) && CanLive(Fresh(d, superBlock), runs)
    requires AlwaysSettled(Fresh(d, superBlock), runs, x)
    ensures var fs := Live(Fresh(d, superBlock), runs);
            && FsInv(fs)
            && LookupFs(fs, x) == match LatestOf(AllOps(runs), x)
                                  case Some(e) => Found(e)
                                  case None => NotFound
  {
    hide Formatted, Fresh, CanLive, AlwaysSettled, Live, AllOps, LatestOf, OnDevice, MetaInv, RandomZoneState.Sound,
         AllPacked;
    LastUpdateOfALifetime(Fresh(d, superBlock), runs, x);
    assert LookupFs(Fresh(d, superBlock), x) == NotFound;
  }

  lemma CreateStays(fs: Fs, e: NamedEntry)
    requires FsInv(fs) && Enabled(fs, Create(e))
    ensures Step(fs, Create(e)).rz == fs.rz && LookupFs(fs, e.entry.inode) == NotFound
  {
    hide RandomZoneState.Sound, MetaInv;
  }

  lemma CreateIsNewFile(fs: Fs, e: NamedEntry, all: map<u64, Blocks>)
    requires FsInv(fs) && Enabled(fs, Create(e)) && StoreInv(StoreOf(MetaOf(fs), all))
    requires e.entry.size == 0 && e.entry.inode !in all
    ensures FsInv(Step(fs, Create(e)))
    ensures EventStep(StoreOf(MetaOf(fs), all), NewFile(e.entry.inode), StoreOf(MetaOf(Step(fs, Create(e))), all))
  {
    hide Step, LogGrows, StoreInv, StoreOf, EventStep, LookupOf, RandomZoneState.Sound, MetaInv;
    StepKeeps(fs, Create(e));
    CreateStays(fs, e);
    var ino, fs' := e.entry.inode, Step(fs, Create(e));
    assert Latest(Create(e), ino) == Some(e);
    forall x: u64 | x != ino ensures LookupOf(MetaOf(fs'), x) == LookupOf(MetaOf(fs), x) {
      assert LookupFs(fs', x) == After(LookupFs(fs, x), Latest(Create(e), x));
    }
    assert LookupFs(fs', ino) == Found(e);
    NewInodeIsNewFile(MetaOf(fs), MetaOf(fs'), all, ino);
  }

  lemma StepIsElsewhere(fs: Fs, op: Op, all: map<u64, Blocks>)
    requires FsInv(fs) && Enabled(fs, op) && StoreInv(StoreOf(MetaOf(fs), all)) && !op.Create? && !op.Update?
    ensures FsInv(Step(fs, op))
    ensures EventStep(StoreOf(MetaOf(fs), all), Elsewhere, StoreOf(MetaOf(Step(fs, op)), all))
  {
    hide Step, Enabled, LogGrows, StoreInv, StoreOf, EventStep, LookupOf, RandomZoneState.Sound, MetaInv;
    StepKeeps(fs, op);
    forall x: u64 ensures LookupOf(MetaOf(Step(fs, op)), x) == LookupOf(MetaOf(fs), x) {
      assert Latest(op, x) == None;
      assert LookupFs(Step(fs, op), x) == After(LookupFs(fs, x), Latest(op, x));
    }
    LookupsKeptIsElsewhere(MetaOf(fs), MetaOf(Step(fs, op)), all);
  }

  // The files in a history of writes and reads do not notice what happens to the
  // metadata in between; a new inode is a new empty file.
  lemma MetadataStepIsEvent(fs: Fs, op: Op, all: map<u64, Blocks>)
    requires FsInv(fs) && Enabled(fs, op) && StoreInv(StoreOf(MetaOf(fs), all))
    ensures FsInv(Step(fs, op))
    ensures var s, s' := StoreOf(MetaOf(fs), all), StoreOf(MetaOf(Step(fs, op)), all);
            match op
            case Create(e) => e.entry.size == 0 && e.entry.inode !in all ==> EventStep(s, NewFile(e.entry.inode), s')
            case Update(_) => true
            case _ => EventStep(s, Elsewhere, s')
  {
    hide FsInv, Step, Enabled, LogGrows, StoreInv, StoreOf, EventStep, LookupOf;
    StepKeeps(fs, op);
    match op
    case Create(e) =>
      if e.entry.size == 0 && e.entry.inode !in all {
        CreateIsNewFile(fs, e, all);
      }
    case Update(_) =>
    case _ =>
      StepIsElsewhere(fs, op, all);
  }

  // Snapshot isolation: whatever the file system does after a snapshot was
  // taken, the addresses in it keep denoting the same bytes.
  lemma SnapshotIsIsolated(fs: Fs, ops: seq<Op>, s: Snapshot)
    requires FsInv(fs) && CanRun(fs, ops) && Backed(fs.rz.d, s.AsFile())
    ensures var d := Run(fs, ops).rz.d;
            Backed(d, s.AsFile()) && Bytes(d, s.AsFile()) == Bytes(fs.rz.d, s.AsFile())
  {
    hide Step, Enabled, LookupFs, LogGrows, Bytes, Backed, MetaInv, AllPacked;
    LastUpdateIsFound(fs, ops);
    FileKept(fs.rz.d, Run(fs, ops).rz.d, s.AsFile());
  }

  // So a read offloaded at any later time returns what a regular read returned
  // when the snapshot was taken: the kernel's sectors are that part of the file.
  // It does so exactly when flattening the addresses comes to an end.
  lemma OffloadedReadIsFromThePast(fs: Fs, ops: seq<Op>, e: NamedEntry, blocks: Blocks, size: nat, off: nat)
    requires FsInv(fs) && CanRun(fs, ops)
    requires FileInv(fs.rz.d, File(blocks, e.entry.size)) && off % SECTOR_SIZE == 0
    ensures var d, s := Run(fs, ops).rz.d, SnapshotOf(e, blocks);
            var bytes := Bytes(fs.rz.d, File(blocks, e.entry.size));
            var past := ReadReply(bytes, size, off);
            if size == 0 || |bytes| <= off then past == Empty
            else
              var n := if off + size < |bytes| then size else |bytes| - off;
              && past == Data(bytes[off..off + n])
              && (Flattens(s.dataBlocks, StartLba(off), EndLba(n, off))
                  <==> !(EndLba(n, off) == Sectors(e.entry.size) && EndLba(n, off) % DATA_BLK_LBA_NUM == 0))
              && Runnable(d, CallFor(s, n, off)) && n <= SectorsRead(CallFor(s, n, off)) * SECTOR_SIZE
              && Data(Flat(ReadSectors(d, CallFor(s, n, off)), n)) == past
  {
    hide Step, Enabled, FsInv, Bytes, Backed, CallFor, Flat, ReadSectors, Runnable, SnapshotOf, Flattens, ReadReply;
    var d, s := Run(fs, ops).rz.d, SnapshotOf(e, blocks);
    SnapshotReadsLikeFile(fs.rz.d, e, blocks);
    SnapshotEntry(e, blocks);
    SnapshotIsIsolated(fs, ops, s);
    OffloadedEqualsRegular(d, s, size, off);
    if size > 0 && off < e.entry.size {
      FlattenFailsExactly(e, blocks, if off + size < e.entry.size then size else e.entry.size - off, off);
    }
  }
}
