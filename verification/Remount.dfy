// Unmounting and mounting in the life of a file system. A clean unmount takes
// the dirty block off the device and forgets everything in memory; the mount
// rebuilds it from the ring, if the scan for the ring's end does not get in the
// way.
module Remount {
  import opened Basics
  import opened Disk
  import opened Codec
  import opened Checkpoints
  import opened NatLog
  import opened Ring
  import opened Compaction
  import opened CompactionRun
  import opened Rewrite
  import opened NatFlush
  import opened LogZone
  import opened InodeBlock
  import opened InodeEntries
  import opened InodeLba
  import opened Inodes
  import opened Mount
  import opened Metadata

  // ---- What the ring says is true ----------------------------------------------

  // Every address the ring gives leads to a block that holds the inode.
  predicate RingTrue(d: Disk, ring: NatMap)
    requires FsDisk(d)
  {
    forall x | x in ring :: InLog(d, ring[x]) && OnDevice(d, ring[x], x).Some?
  }

  predicate Addressed(lbas: map<u64, LbaInode>, xs: set<u64>) {
    forall x | x in xs :: x in lbas && lbas[x].lba != 0
  }

  ghost predicate Honest(fs: Fs)
    requires FsInv(fs)
  {
    var ring := RingMap(fs.rz.d, fs.rz.pos.zone);
    RingTrue(fs.rz.d, ring) && Addressed(fs.lbas, ring.Keys) && Addressed(fs.lbas, fs.nats)
  }

  lemma TrueKept(d: Disk, d': Disk, ring: NatMap)
    requires FsDisk(d) && FsDisk(d') && LogGrows(d, d') && RingTrue(d, ring)
    ensures RingTrue(d', ring)
  {
    hide FindInode, SectorAt, LogGrows;
    forall x | x in ring
      ensures InLog(d', ring[x]) && OnDevice(d', ring[x], x).Some?
    {
      assert InLog(d, ring[x]);
      GrowsKeeps(d, d', ring[x]);
    }
  }

  // Addresses of flushed inodes may be added to the ring.
  lemma TrueAdded(d: Disk, ring: NatMap, lbas: map<u64, LbaInode>, entries: EntryMap, xs: set<u64>)
    requires FsDisk(d) && RingTrue(d, ring) && Complete(d, lbas, entries)
    requires Addressed(lbas, ring.Keys) && Addressed(lbas, xs)
    ensures RingTrue(d, ring + Restrict(Lbas(lbas), xs)) && RingTrue(d, Restrict(Lbas(lbas), ring.Keys))
    ensures Addressed(lbas, (ring + Restrict(Lbas(lbas), xs)).Keys) && Addressed(lbas, Restrict(Lbas(lbas), ring.Keys).Keys)
  {
    hide OnDevice, InLog;
  }

  lemma FlushNatsHonest(fs: Fs)
    requires FsInv(fs) && Honest(fs)
    ensures FsInv(Step(fs, FlushNats)) && Honest(Step(fs, FlushNats))
  {
    hide RandomZoneState.Sound, RingContents, Replay, Step, LogInv, LogGrows, AllPacked, RingTrue, Lbas, Complete;
    FlushedRing(fs);
    var fs' := Step(fs, FlushNats);
    var ring := RingMap(fs.rz.d, fs.rz.pos.zone);
    TrueKept(fs.rz.d, fs'.rz.d, ring);
    TrueAdded(fs'.rz.d, ring, fs.lbas, fs.entries, fs.nats - fs'.nats);
  }

  lemma RewriteHonest(fs: Fs, logLba: u64)
    requires FsInv(fs) && Honest(fs) && Enabled(fs, Rewrite(logLba))
    ensures FsInv(Step(fs, Rewrite(logLba))) && Honest(Step(fs, Rewrite(logLba)))
  {
    hide RandomZoneState.Sound, RingContents, Replay, Rounds, LogInv, LogGrows, AllPacked, RingTrue, Lbas, Complete,
         RingFull;
    StepKeeps(fs, Rewrite(logLba));
    RewriteMakesCurrent(fs, logLba);
    var fs' := Step(fs, Rewrite(logLba));
    var ring := RingMap(fs.rz.d, fs.rz.pos.zone);
    TrueKept(fs.rz.d, fs'.rz.d, ring);
    TrueAdded(fs'.rz.d, ring, fs.lbas, fs.entries, {});
  }

  // Packing inodes into a block gives them an address, and takes none away.
  lemma MovedAddressed(lbas: map<u64, LbaInode>, xs: seq<u64>, lba: u64, ys: set<u64>)
    requires Addressed(lbas, ys) && lba != 0
    ensures Addressed(Moved(lbas, xs, lba), ys) && Addressed(Moved(lbas, xs, lba), ys + Elems(xs))
  {
  }

  lemma FlushAddressed(m: Meta, blk: Sector, ys: set<u64>)
    requires MetaInv(m) && |blk| == SECTOR_SIZE && Addressed(m.lbas, ys) && Addressed(m.lbas, m.nats)
    ensures var m' := FlushInodes(m, blk).0;
            Addressed(m'.lbas, ys) && Addressed(m'.lbas, m'.nats)
  {
    hide Full, InOrder, BlockInodes, Complete, Addressed, LogInv;
    AppendSectorStep(m.log, blk);
    var (log, ret, lba) := AppendSector(m.log, blk);
    if Full(InOrder(m.entries)) && ret == RetNone {
      LogLbaPositive(log.d, lba);
      MovedAddressed(m.lbas, BlockInodes(m.entries), lba, ys);
      MovedAddressed(m.lbas, BlockInodes(m.entries), lba, m.nats);
    }
  }

  lemma LogHonest(fs: Fs, op: Op)
    requires FsInv(fs) && Honest(fs) && Enabled(fs, op) && (op.LogWrite? || op.FlushBlock?)
    ensures FsInv(Step(fs, op)) && Honest(Step(fs, op))
  {
    hide RandomZoneState.Sound, RingContents, Replay, FlushInodes, AppendSector, LogGrows, AllPacked, RingTrue,
         Complete, SameOutsideLog, Addressed, LookupInode;
    StepKeeps(fs, op);
    var fs', ring := Step(fs, op), RingMap(fs.rz.d, fs.rz.pos.zone);
    TrueKept(fs.rz.d, fs'.rz.d, ring);
    match op
    case LogWrite(data) =>
      AppendSectorStep(LogState(fs.rz.d, fs.logPtr), data);
      LogFrameAny(fs.rz, fs'.rz.d);
    case FlushBlock(blk) =>
      FlushKeepsEveryInode(MetaOf(fs), blk);
      FlushAddressed(MetaOf(fs), blk, ring.Keys);
      LogFrameAny(fs.rz, fs'.rz.d);
  }

  lemma MemoryHonest(fs: Fs, op: Op)
    requires FsInv(fs) && Honest(fs) && Enabled(fs, op) && (op.Create? || op.Update?)
    ensures FsInv(Step(fs, op)) && Honest(Step(fs, op))
  {
    hide RandomZoneState.Sound, RingContents, Replay, LogGrows, AllPacked, RingTrue, Complete, LookupInode, LogInv;
    StepKeeps(fs, op);
  }

  lemma HonestStep(fs: Fs, op: Op)
    requires FsInv(fs) && Honest(fs) && Enabled(fs, op)
    ensures FsInv(Step(fs, op)) && Honest(Step(fs, op))
  {
    hide FsInv, Honest, Step, Enabled;
    match op
    case FlushNats => FlushNatsHonest(fs);
    case Rewrite(logLba) => RewriteHonest(fs, logLba);
    case LogWrite(_) => LogHonest(fs, op);
    case FlushBlock(_) => LogHonest(fs, op);
    case _ => MemoryHonest(fs, op);
  }

  lemma {:induction false} HonestRun(fs: Fs, ops: seq<Op>)
    requires FsInv(fs) && Honest(fs) && CanRun(fs, ops)
    ensures FsInv(Run(fs, ops)) && Honest(Run(fs, ops))
    decreases |ops|
  {
    hide FsInv, Honest, Step, Enabled;
    if ops != [] {
      HonestStep(fs, ops[0]);
      HonestRun(Step(fs, ops[0]), ops[1..]);
    }
  }

  // ---- One mount ---------------------------------------------------------------

  // What is in memory behind run_init: the positions, and the inodes the ring
  // gives.
  ghost function MountedFs(d: Disk): Fs
    requires Startable(d) && InitialState(d).1 == RetNone
  {
    var rz := InitialState(d).0;
    Fs(rz, ScanLog(rz.d, SectorPos(LOGZ_ZONE, 0)), Readdressed(Replay(ReadableRing(rz.d, rz.pos.zone))), map[], {})
  }

  ghost predicate Reported(fs: Fs)
    requires FsDisk(fs.rz.d) && InRing(fs.rz.pos.zone)
  {
    ReportsFull(fs.rz.d, fs.rz.pos.zone)
  }

  lemma UnmountedKept(fs: Fs) returns (k: nat, s: nat)
    requires FsInv(fs)
    ensures fs.rz.(d := Unmounted(fs.rz.d)).Kept(k, s) && (k == RING_ZONES <==> RingFull(fs))
    ensures Unmounted(fs.rz.d).zones[DIRTY_ZONE] == []
    ensures RingContents(Unmounted(fs.rz.d), fs.rz.pos.zone) == RingContents(fs.rz.d, fs.rz.pos.zone)
    ensures ReportsFull(Unmounted(fs.rz.d), fs.rz.pos.zone) <==> Reported(fs)
    ensures Startable(Unmounted(fs.rz.d))
    ensures RingFull(fs) ==> Reported(fs)
  {
    hide RandomZoneState.Sound, RingContents, Startable, DeterminePtr;
    k, s := InvOf(fs);
    if k < RING_ZONES {
      OnlyOneShape(fs.rz, k, s);
    }
    SoundKept(fs.rz, k, s);
    DirtyKept(fs.rz, Unmounted(fs.rz.d), k, s);
    DirtyFrame(fs.rz.d, Unmounted(fs.rz.d));
    KeptStartable(fs.rz.(d := Unmounted(fs.rz.d)), k, s);
    SoundShape(fs.rz, k, s);
    ReportsFullExactly(fs.rz.d, fs.rz.pos.zone, k, s);
  }

  lemma LogScanned(d: Disk, d': Disk, ptr: Position)
    requires LogInv(d, ptr) && FsDisk(d') && d'.info == d.info
    requires forall z | LOGZ_ZONE <= z < |d.zones| :: z < |d'.zones| && d'.zones[z] == d.zones[z]
    ensures LogInv(d', ptr) && ScanLog(d', SectorPos(LOGZ_ZONE, 0)) == ptr && LogGrows(d, d')
  {
    ScanReachesPtr(d', ptr, SectorPos(LOGZ_ZONE, 0));
  }

  lemma ReaddressedComplete(d: Disk, ring: NatMap)
    requires FsDisk(d) && RingTrue(d, ring)
    ensures Complete(d, Readdressed(ring), map[])
    ensures Addressed(Readdressed(ring), ring.Keys)
    ensures LostFrom(ring, Readdressed(ring), {}) == {}
  {
    hide OnDevice, InLog;
    forall x | x in ring
      ensures ring[x] != 0
    {
      assert InLog(d, ring[x]);
      LogLbaPositive(d, ring[x]);
    }
  }

  lemma NothingTrue(d: Disk)
    requires FsDisk(d)
    ensures RingTrue(d, map[]) && Replay([]) == map[] && AllPacked([])
  {
  }

  // The memory a mount builds from a ring that tells the truth.
  lemma FromRing(rz: RandomZoneState, logPtr: Position, ring: NatMap, k: nat, s: nat)
    requires rz.Sound(k, s) && k < RING_ZONES && LogInv(rz.d, logPtr) && InRing(rz.pos.zone)
    requires RingMap(rz.d, rz.pos.zone) == ring && RingTrue(rz.d, ring) && 0 !in ring
    requires AllPacked(RingContents(rz.d, rz.pos.zone))
    ensures var fs := Fs(rz, logPtr, Readdressed(ring), map[], {});
            && FsInv(fs) && Honest(fs) && Durable(fs)
  {
    hide RandomZoneState.Kept, RingContents, Replay, AllPacked, Complete, RingTrue, Shape;
    var fs := Fs(rz, logPtr, Readdressed(ring), map[], {});
    ReaddressedComplete(rz.d, ring);
    assert Keyed(fs.entries) && Named(fs.entries);
  }

  // What a clean unmount and a mount make of a file system. The mount fails if
  // and only if the ring is reported full although it has a free sector.
  ghost predicate RemountOutcome(fs: Fs)
    requires FsInv(fs)
  {
    var d := Unmounted(fs.rz.d);
    && Startable(d)
    && (InitialState(d).1 == RetNone <==> (Reported(fs) ==> RingFull(fs)))
    && (InitialState(d).1 == RetNone ==>
          var fs' := MountedFs(d);
          var ring := if Reported(fs) then map[] else RingMap(fs.rz.d, fs.rz.pos.zone);
          && FsInv(fs') && Honest(fs') && Durable(fs')
          && RingMap(fs'.rz.d, fs'.rz.pos.zone) == ring
          && fs' == Fs(fs'.rz, fs.logPtr, Readdressed(ring), map[], {})
          && !fs'.rz.ptr.Valid()
          && LogGrows(fs.rz.d, fs'.rz.d))
  }

  lemma RemountExactly(fs: Fs)
    requires FsInv(fs) && Honest(fs)
    ensures RemountOutcome(fs)
  {
    hide RandomZoneState.Kept, RingContents, Replay, AllPacked, Complete, RingTrue, ReportsFull, InitialState, Stranded,
         DirtyBlock, ReadableRing, RingInv, LogInv, LogGrows, Startable, Shape;
    var k, s := UnmountedKept(fs);
    var st := fs.rz.(d := Unmounted(fs.rz.d));
    KeptBase(st, k, s);
    MountExactly(st, k, s);
    var (rz, ret) := InitialState(st.d);
    if ret == RetNone {
      var k', s' := if Reported(fs) then 0 else k, if Reported(fs) then 0 else s;
      SoundShape(rz, k', s');
      ReadableIsContents(rz.d, rz.pos.zone, k', s');
      LogScanned(fs.rz.d, rz.d, fs.logPtr);
      NothingTrue(rz.d);
      var ring := RingMap(fs.rz.d, fs.rz.pos.zone);
      TrueKept(fs.rz.d, rz.d, ring);
      FromRing(rz, fs.logPtr, RingMap(rz.d, rz.pos.zone), k', s');
    }
  }

  // A lookup right after a mount.
  ghost function LookupMounted(d: Disk, x: u64): Lookup
    requires Startable(d)
  {
    match Mounted(d)
    case None => Failed
    case Some(m) => LookupInode(InitialState(d).0.d, Readdressed(m), map[], x)
  }

  // A random zone in order, seen by the mount after a clean unmount.
  lemma CleanMount(rz: RandomZoneState, k: nat, s: nat)
    requires rz.Kept(k, s)
    ensures var d := Unmounted(rz.d);
            && Startable(d)
            && Mounted(d) == (if !ReportsFull(rz.d, rz.pos.zone) then Some(RingMap(rz.d, rz.pos.zone))
                              else if k == RING_ZONES then Some(map[])
                              else None)
            && FsDisk(InitialState(d).0.d) && LogGrows(rz.d, InitialState(d).0.d)
  {
    hide RandomZoneState.Kept, RingContents, Replay, InitialState, Stranded, DirtyBlock, RingInv, Startable,
         DeterminePtr;
    KeptBase(rz, k, s);
    DirtyKept(rz, Unmounted(rz.d), k, s);
    DirtyFrame(rz.d, Unmounted(rz.d));
    MountExactly(rz.(d := Unmounted(rz.d)), k, s);
    MountGivesRingExactly(rz.(d := Unmounted(rz.d)), k, s);
  }

  lemma MountedIs(fs: Fs)
    requires FsInv(fs)
    ensures var d := Unmounted(fs.rz.d);
            && Startable(d)
            && Mounted(d) == (if !Reported(fs) then Some(RingMap(fs.rz.d, fs.rz.pos.zone))
                              else if RingFull(fs) then Some(map[])
                              else None)
  {
    hide RandomZoneState.Sound, RingContents, Replay, Mounted, Startable, Unmounted, MetaInv, AllPacked, ReportsFull;
    var k, s := InvOf(fs);
    if k < RING_ZONES {
      OnlyOneShape(fs.rz, k, s);
    }
    SoundKept(fs.rz, k, s);
    CleanMount(fs.rz, k, s);
  }

  // What a mount knows of an inode: its current address, if and only if the ring
  // was not reported full and the inode is not lost.
  lemma MountKnowsExactly(fs: Fs, x: u64)
    requires FsInv(fs) && x in fs.lbas && x !in fs.nats && fs.lbas[x].lba != 0
    ensures Startable(Unmounted(fs.rz.d))
    ensures var m := Mounted(Unmounted(fs.rz.d));
            (m.Some? && x in m.value && m.value[x] == fs.lbas[x].lba) <==> !Reported(fs) && x !in Lost(fs)
  {
    hide RandomZoneState.Sound, Replay, RingContents, MetaInv, Mounted, Unmounted, LogGrows, Startable, ReportsFull;
    MountedIs(fs);
  }

  lemma LookupByAddress(d: Disk, d': Disk, ring: NatMap, lbas: map<u64, LbaInode>, entries: EntryMap, x: u64)
    requires FsDisk(d) && FsDisk(d') && LogGrows(d, d') && x in lbas && x in ring && ring[x] == lbas[x].lba
    requires Flushed(d, lbas, x)
    ensures LookupInode(d', Readdressed(ring), map[], x) == LookupInode(d, lbas, entries - {x}, x)
    ensures LookupInode(d, lbas, entries - {x}, x).Found?
  {
    hide FindInode, SectorAt, LogGrows;
    GrowsKeeps(d, d', ring[x]);
  }

  lemma FlushedWhenAddressed(fs: Fs, x: u64)
    requires FsInv(fs) && x in fs.lbas && fs.lbas[x].lba != 0
    ensures Flushed(fs.rz.d, fs.lbas, x)
  {
    hide RandomZoneState.Sound, LogInv, Flushed, AllPacked;
  }

  // An address the ring gives leads to the inode after the mount if and only if
  // the ring is not reported full; otherwise to nothing.
  lemma AddressSurvivesMount(rz: RandomZoneState, k: nat, s: nat, d: Disk, lbas: map<u64, LbaInode>,
                             entries: EntryMap, x: u64)
    requires rz.Kept(k, s) && FsDisk(d) && LogGrows(d, rz.d) && FsDisk(rz.d) && InRing(rz.pos.zone)
    requires x in lbas && Flushed(d, lbas, x)
    requires var ring := RingMap(rz.d, rz.pos.zone); x in ring && ring[x] == lbas[x].lba
    ensures Startable(Unmounted(rz.d))
    ensures var before, after := LookupInode(d, lbas, entries - {x}, x), LookupMounted(Unmounted(rz.d), x);
            && before.Found?
            && (after == before <==> !ReportsFull(rz.d, rz.pos.zone))
            && (ReportsFull(rz.d, rz.pos.zone) ==> after == if k == RING_ZONES then NotFound else Failed)
  {
    hide RandomZoneState.Kept, Replay, RingContents, Mounted, Unmounted, LogGrows, Startable, ReportsFull, Flushed,
         OnDevice, InitialState;
    CleanMount(rz, k, s);
    GrowsTransitive(d, rz.d, InitialState(Unmounted(rz.d)).0.d);
    LookupByAddress(d, InitialState(Unmounted(rz.d)).0.d, RingMap(rz.d, rz.pos.zone), lbas, entries, x);
  }

  // Metadata survives a clean unmount and a mount if and only if the ring is not
  // reported full: an inode that has been flushed, does not wait for the random
  // zone and is not lost is then found exactly as it was flushed; when no newer
  // entry is in memory, exactly as before the unmount. Otherwise it is not found
  // at all.
  lemma SurvivesMount(fs: Fs, x: u64)
    requires FsInv(fs) && x in fs.lbas && x !in fs.nats && fs.lbas[x].lba != 0 && x !in Lost(fs)
    ensures Startable(Unmounted(fs.rz.d))
    ensures var before, after := LookupInode(fs.rz.d, fs.lbas, fs.entries - {x}, x), LookupMounted(Unmounted(fs.rz.d), x);
            && before.Found? && (x !in fs.entries ==> before == LookupFs(fs, x))
            && (after == before <==> !Reported(fs))
            && (Reported(fs) ==> after == if RingFull(fs) then NotFound else Failed)
  {
    hide RandomZoneState.Sound, Replay, RingContents, LookupMounted, Unmounted, Startable, ReportsFull, Flushed,
         OnDevice, MetaInv, AllPacked;
    var k, s := InvOf(fs);
    if k < RING_ZONES {
      OnlyOneShape(fs.rz, k, s);
    }
    SoundKept(fs.rz, k, s);
    FlushedWhenAddressed(fs, x);
    AddressSurvivesMount(fs.rz, k, s, fs.rz.d, fs.lbas, fs.entries, x);
  }

  // After any run, a mount finds the last update the run made to an inode that
  // is completely flushed and was not lost, if and only if the run did not leave
  // a ring that is reported full.
  lemma RunSurvivesMount(fs: Fs, ops: seq<Op>, x: u64)
    requires FsInv(fs) && CanRun(fs, ops)
    ensures var fs' := Run(fs, ops);
            && FsInv(fs') && Startable(Unmounted(fs'.rz.d))
            && (x in fs'.lbas && x !in fs'.nats && x !in fs'.entries && x !in LostThrough(fs, ops, Lost(fs)) ==>
                  (LookupMounted(Unmounted(fs'.rz.d), x) == After(LookupFs(fs, x), LatestOf(ops, x)) <==> !Reported(fs')))
  {
    hide MetaInv, AllPacked, RandomZoneState.Sound, Step, Enabled, LookupFs, LookupMounted, LostThrough, Lost,
         Startable, ReportsFull, Unmounted, RingContents;
    LastUpdateIsFound(fs, ops);
    LostOverRuns(fs, ops);
    var fs' := Run(fs, ops);
    MountedIs(fs');
    if x in fs'.lbas && x !in fs'.nats && x !in fs'.entries && x !in Lost(fs') {
      FlushedAddress(fs', x);
      SurvivesMount(fs', x);
    }
  }

  // The same holds for a rewrite that stops after any of its rounds.
  lemma StoppedRewriteSurvivesMount(fs: Fs, logLba: u64, n: nat, x: u64)
    requires FsInv(fs) && Enabled(fs, Rewrite(logLba)) && n <= STEPS
    requires x in fs.lbas && x !in fs.nats && x !in fs.entries && x !in Lost(fs)
    ensures Compactable(fs.rz, n) && 0 !in Lbas(fs.lbas)
    ensures var rz := Rounds(fs.rz, logLba, Lbas(fs.lbas), Lbas(fs.lbas).Keys, n).0;
            && FsDisk(rz.d) && InRing(rz.pos.zone) && Startable(Unmounted(rz.d))
            && (LookupMounted(Unmounted(rz.d), x) == LookupFs(fs, x) <==> !ReportsFull(rz.d, rz.pos.zone))
  {
    hide FsInv, RandomZoneState.Kept, Replay, RingContents, Rounds, LookupMounted, Unmounted, Startable, ReportsFull,
         Flushed, LogGrows, RingMap, Lost, LookupInode;
    var k, s := StoppedRewriteKnows(fs, logLba, n, x);
    var rz := Rounds(fs.rz, logLba, Lbas(fs.lbas), Lbas(fs.lbas).Keys, n).0;
    FlushedWhenAddressed(fs, x);
    AddressSurvivesMount(rz, k, s, fs.rz.d, fs.lbas, fs.entries, x);
    assert fs.entries - {x} == fs.entries;
  }

  // ---- Lifetimes ---------------------------------------------------------------

  // A lifetime is a sequence of runs, each of which ends with a clean unmount
  // followed by a mount that succeeds.
  ghost predicate CanLive(fs: Fs, runs: seq<seq<Op>>)
    requires FsInv(fs) && Honest(fs)
    decreases |runs|
  {
    runs == [] ||
    (&& CanRun(fs, runs[0])
     && var fs1 := Run(fs, runs[0]);
        HonestRun(fs, runs[0]);
        RemountExactly(fs1);
        (Reported(fs1) ==> RingFull(fs1)) && CanLive(MountedFs(Unmounted(fs1.rz.d)), runs[1..]))
  }

  ghost function Live(fs: Fs, runs: seq<seq<Op>>): Fs
    requires FsInv(fs) && Honest(fs) && CanLive(fs, runs)
    decreases |runs|
  {
    if runs == [] then fs
    else
      var fs1 := Run(fs, runs[0]);
      HonestRun(fs, runs[0]);
      RemountExactly(fs1);
      Live(MountedFs(Unmounted(fs1.rz.d)), runs[1..])
  }

  // Everything that is known of the inode is in the ring.
  ghost predicate Settled(fs: Fs, x: u64)
    requires FsInv(fs)
  {
    x in fs.lbas ==> x !in fs.nats && x !in fs.entries && x !in Lost(fs)
  }

  // At the end of every run the inode is settled and the ring not reported full.
  ghost predicate AlwaysSettled(fs: Fs, runs: seq<seq<Op>>, x: u64)
    requires FsInv(fs) && Honest(fs) && CanLive(fs, runs)
    decreases |runs|
  {
    runs == [] ||
    (var fs1 := Run(fs, runs[0]);
     HonestRun(fs, runs[0]);
     RemountExactly(fs1);
     Settled(fs1, x) && !Reported(fs1) && AlwaysSettled(MountedFs(Unmounted(fs1.rz.d)), runs[1..], x))
  }

  function AllOps(runs: seq<seq<Op>>): seq<Op> {
    if runs == [] then [] else runs[0] + AllOps(runs[1..])
  }

  lemma {:induction false} LatestConcat(ops: seq<Op>, more: seq<Op>, x: u64)
    ensures LatestOf(ops + more, x) == if LatestOf(more, x).Some? then LatestOf(more, x) else LatestOf(ops, x)
    decreases |ops|
  {
    if ops == [] {
      assert ops + more == more;
    } else {
      LatestConcat(ops[1..], more, x);
      assert (ops + more)[1..] == ops[1..] + more;
    }
  }

  // A settled inode, and one that does not exist, is found after the mount as it
  // was before the unmount.
  lemma SettledCarries(fs: Fs, x: u64)
    requires FsInv(fs) && Honest(fs) && Settled(fs, x) && !Reported(fs)
    ensures RemountOutcome(fs)
    ensures var fs' := MountedFs(Unmounted(fs.rz.d));
            FsInv(fs') && LookupFs(fs', x) == LookupFs(fs, x)
  {
    hide RandomZoneState.Sound, Replay, RingContents, Unmounted, Startable, ReportsFull, MetaInv, AllPacked,
         InitialState, RingTrue, LogGrows, OnDevice;
    RemountExactly(fs);
    if x in fs.lbas {
      FlushedAddress(fs, x);
      FlushedWhenAddressed(fs, x);
      LookupByAddress(fs.rz.d, MountedFs(Unmounted(fs.rz.d)).rz.d, RingMap(fs.rz.d, fs.rz.pos.zone), fs.lbas, fs.entries, x);
      assert fs.entries - {x} == fs.entries;
    }
  }

  // Over every lifetime a lookup finds the last update of the inode in all its
  // runs, or what it found before the first, as long as the inode is settled
  // at every unmount and the ring is not reported full there.
  lemma {:induction false} LastUpdateOfALifetime(fs: Fs, runs: seq<seq<Op>>, x: u64)
    requires FsInv(fs) && Honest(fs) && CanLive(fs, runs) && AlwaysSettled(fs, runs, x)
    ensures var fs' := Live(fs, runs);
            && FsInv(fs') && Honest(fs')
            && LookupFs(fs', x) == After(LookupFs(fs, x), LatestOf(AllOps(runs), x))
    decreases |runs|
  {
    hide MetaInv, RandomZoneState.Sound, AllPacked, RingContents, Step, Enabled, Run, CanRun, LookupFs, LogGrows,
         Honest, Settled, Reported, RingFull, MountedFs, Unmounted, InitialState, Startable;
    if runs != [] {
      var fs1 := Run(fs, runs[0]);
      LastUpdateIsFound(fs, runs[0]);
      HonestRun(fs, runs[0]);
      SettledCarries(fs1, x);
      LastUpdateOfALifetime(MountedFs(Unmounted(fs1.rz.d)), runs[1..], x);
      LatestConcat(runs[0], AllOps(runs[1..]), x);
    }
  }
}
