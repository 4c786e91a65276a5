// All inode metadata together: memory, inode blocks in the log, addresses in
// the random zone and the checkpoint that leads to them. Whatever sequence of
// operations the file system goes through, lookups only change through
// updates, and the ring on the device leads to every inode that was flushed,
// but for those that a flush on a full ring lost. What a mount makes of that
// ring is a matter of its own.
module Metadata {
  import opened Basics
  import opened Disk
  import opened Codec
  import opened Checkpoints
  import opened NatLog
  import opened Ring
  import opened Compaction
  import opened CompactionMeaning
  import opened CompactionRun
  import opened NatFlush
  import opened Mount
  import opened LogZone
  import opened InodeBlock
  import opened InodeEntries
  import opened InodeLba
  import opened Inodes

  datatype Fs = Fs(rz: RandomZoneState, logPtr: Position, lbas: map<u64, LbaInode>, entries: EntryMap, nats: set<u64>)

  function MetaOf(fs: Fs): Meta {
    Meta(LogState(fs.rz.d, fs.logPtr), fs.lbas, fs.entries, fs.nats)
  }

  // The addresses the ring gives.
  function RingMap(d: Disk, zone: nat): NatMap
    requires FsDisk(d) && InRing(zone)
  {
    Replay(RingContents(d, zone))
  }

  // A flushed inode whose current address the ring does not give.
  predicate Unknown(ring: NatMap, lbas: map<u64, LbaInode>, x: u64) {
    x in lbas && lbas[x].lba != 0 && !(x in ring && ring[x] == lbas[x].lba)
  }

  // Inodes the ring does not know and that do not wait for the next flush of
  // the random zone.
  function LostFrom(ring: NatMap, lbas: map<u64, LbaInode>, nats: set<u64>): set<u64> {
    set x | x in lbas && x !in nats && Unknown(ring, lbas, x)
  }

  function Lost(fs: Fs): set<u64>
    requires FsDisk(fs.rz.d) && InRing(fs.rz.pos.zone)
  {
    LostFrom(RingMap(fs.rz.d, fs.rz.pos.zone), fs.lbas, fs.nats)
  }

  predicate Durable(fs: Fs)
    requires FsDisk(fs.rz.d) && InRing(fs.rz.pos.zone)
  {
    Lost(fs) == {}
  }

  // What holds between any two operations, in every run.
  ghost predicate FsInv(fs: Fs) {
    && (exists k, s :: fs.rz.Sound(k, s))
    && MetaInv(MetaOf(fs))
    && FsDisk(fs.rz.d) && InRing(fs.rz.pos.zone) && InRing(fs.rz.ptr.zone)
    && AllPacked(RingContents(fs.rz.d, fs.rz.pos.zone))
  }

  ghost predicate RingFull(fs: Fs) {
    fs.rz.Sound(RING_ZONES, 0)
  }

  // What the file system does to its metadata. Bytes a block gets from
  // uninitialised memory, and the log address in a checkpoint, are arguments.
  datatype Op =
    | Create(entry: NamedEntry)
    | Update(entry: NamedEntry)
    | LogWrite(data: Sector)
    | FlushBlock(blk: Sector)
    | FlushNats
    | Rewrite(logLba: u64)

  ghost predicate Enabled(fs: Fs, op: Op) {
    match op
    case Create(e) => e.entry.inode !in fs.lbas && e.entry.inode != 0 && NulFree(e.name)
    case Update(e) => e.entry.inode in fs.lbas && NulFree(e.name)
    case LogWrite(data) => |data| == SECTOR_SIZE
    case FlushBlock(blk) => |blk| == SECTOR_SIZE && Pack(BlockEntries(fs.entries)) <= blk
    case FlushNats => true
    case Rewrite(logLba) => RingFull(fs)
  }

  lemma FlushReady(fs: Fs)
    requires FsInv(fs)
    ensures fs.rz.ptr.zone < |fs.rz.d.zones| && fs.nats <= Lbas(fs.lbas).Keys && 0 !in fs.nats
  {
  }

  lemma RewriteReady(fs: Fs)
    requires FsInv(fs) && RingFull(fs)
    ensures Compactable(fs.rz, STEPS) && 0 !in Lbas(fs.lbas)
  {
    assert fs.rz.Inv(RING_ZONES, 0);
  }

  ghost function Step(fs: Fs, op: Op): Fs
    requires FsInv(fs) && Enabled(fs, op)
  {
    match op
    case Create(e) =>
      fs.(lbas := fs.lbas[e.entry.inode := LbaInode(e.entry.parent, 0)], entries := fs.entries[e.entry.inode := e])
    case Update(e) =>
      fs.(entries := fs.entries[e.entry.inode := e])
    case LogWrite(data) =>
      var log := AppendSector(LogState(fs.rz.d, fs.logPtr), data).0;
      fs.(rz := fs.rz.(d := log.d), logPtr := log.ptr)
    case FlushBlock(blk) =>
      var m := FlushInodes(MetaOf(fs), blk).0;
      Fs(fs.rz.(d := m.log.d), m.log.ptr, m.lbas, m.entries, m.nats)
    case FlushNats =>
      FlushReady(fs);
      var (r, _, left) := Flush(RingState(fs.rz.d, fs.rz.pos, fs.rz.ptr), fs.nats, Lbas(fs.lbas));
      fs.(rz := fs.rz.(d := r.d, ptr := r.ptr), nats := left)
    case Rewrite(logLba) =>
      RewriteReady(fs);
      fs.(rz := Rounds(fs.rz, logLba, Lbas(fs.lbas), Lbas(fs.lbas).Keys, STEPS).0)
  }

  lemma EnabledFlush(fs: Fs)
    ensures Enabled(fs, FlushNats)
  {
  }

  // ---- One step -----------------------------------------------------------------

  function Latest(op: Op, x: u64): Option<NamedEntry> {
    match op
    case Create(e) => if e.entry.inode == x then Some(e) else None
    case Update(e) => if e.entry.inode == x then Some(e) else None
    case _ => None
  }

  function LookupFs(fs: Fs, x: u64): Lookup
    requires FsDisk(fs.rz.d)
  {
    LookupOf(MetaOf(fs), x)
  }

  function After(before: Lookup, update: Option<NamedEntry>): Lookup {
    match update
    case None => before
    case Some(e) => Found(e)
  }

  ghost function Dropped(fs: Fs): set<u64>
    requires FsDisk(fs.rz.d) && InRing(fs.rz.pos.zone)
  {
    set x | x in NextBatch(fs.nats) && Unknown(RingMap(fs.rz.d, fs.rz.pos.zone), fs.lbas, x)
  }

  // How a step changes the set of lost inodes. Packing an inode into a block
  // puts it into the set to be written; a flush that meets a full ring loses
  // what its first block takes out of that set, unless the ring knows it; and a
  // rewrite gives every inode the ring mentions its current address.
  ghost function LostNext(fs: Fs, op: Op, lost: set<u64>): set<u64>
    requires FsInv(fs) && Enabled(fs, op)
  {
    match op
    case FlushBlock(_) => lost - Step(fs, op).nats
    case FlushNats => if RingFull(fs) then lost + Dropped(fs) else lost
    case Rewrite(_) => lost - RingMap(fs.rz.d, fs.rz.pos.zone).Keys
    case _ => lost
  }

  // A step keeps the invariant, never takes anything from the log, changes no
  // lookup but that of the inode it updates, and loses exactly the inodes said.
  ghost predicate StepOutcome(fs: Fs, op: Op, fs': Fs)
    requires FsInv(fs) && Enabled(fs, op)
  {
    && FsInv(fs')
    && LogGrows(fs.rz.d, fs'.rz.d)
    && (forall x :: LookupFs(fs', x) == After(LookupFs(fs, x), Latest(op, x)))
    && Lost(fs') == LostNext(fs, op, Lost(fs))
  }

  lemma CreateStep(fs: Fs, e: NamedEntry)
    requires FsInv(fs) && Enabled(fs, Create(e))
    ensures StepOutcome(fs, Create(e), Step(fs, Create(e)))
  {
    hide RandomZoneState.Sound, LogInv, RingContents, Replay, OnDevice, InLog, AllPacked, RingMap;
  }

  lemma UpdateStep(fs: Fs, e: NamedEntry)
    requires FsInv(fs) && Enabled(fs, Update(e))
    ensures StepOutcome(fs, Update(e), Step(fs, Update(e)))
  {
    hide RandomZoneState.Sound, LogInv, RingContents, Replay, OnDevice, InLog, AllPacked, RingMap;
  }

  // The log lies outside everything the random zone's invariant speaks of.
  lemma LogFrame(rz: RandomZoneState, d: Disk, k: nat, s: nat)
    requires rz.Sound(k, s) && FsDisk(d) && SameOutsideLog(rz.d, d)
    ensures rz.(d := d).Sound(k, s)
    ensures RingContents(d, rz.pos.zone) == RingContents(rz.d, rz.pos.zone)
  {
    hide Shape, RingContents;
    RingFrame(rz.d, d, rz.pos, rz.ptr, k, s);
  }

  lemma LogFrameAny(rz: RandomZoneState, d: Disk)
    requires (exists k, s :: rz.Sound(k, s)) && FsDisk(d) && SameOutsideLog(rz.d, d)
    ensures exists k, s :: rz.(d := d).Sound(k, s)
    ensures InRing(rz.pos.zone) && FsDisk(rz.d)
    ensures RingContents(d, rz.pos.zone) == RingContents(rz.d, rz.pos.zone)
  {
    hide RingContents, Shape, SameOutsideLog, Tracks;
    var k: nat, s: nat :| rz.Sound(k, s);
    LogFrame(rz, d, k, s);
  }

  lemma LogWriteStep(fs: Fs, data: Sector)
    requires FsInv(fs) && Enabled(fs, LogWrite(data))
    ensures StepOutcome(fs, LogWrite(data), Step(fs, LogWrite(data)))
  {
    hide RandomZoneState.Sound, RingContents, Replay, AllPacked, AppendSector, Complete, LookupInode, Keyed, Named,
         LogGrows, SameOutsideLog;
    AppendSectorStep(LogState(fs.rz.d, fs.logPtr), data);
    var log := AppendSector(LogState(fs.rz.d, fs.logPtr), data).0;
    LogFrameAny(fs.rz, log.d);
    CompleteKept(fs.rz.d, log.d, fs.lbas, fs.entries);
  }

  lemma FlushBlockStep(fs: Fs, blk: Sector)
    requires FsInv(fs) && Enabled(fs, FlushBlock(blk))
    ensures StepOutcome(fs, FlushBlock(blk), Step(fs, FlushBlock(blk)))
  {
    hide RandomZoneState.Sound, RingContents, Replay, AllPacked, FlushInodes, LookupInode, Complete, LogGrows,
         SameOutsideLog, Pack, BlockEntries, LogInv;
    FlushKeepsEveryInode(MetaOf(fs), blk);
    var m := FlushInodes(MetaOf(fs), blk).0;
    LogFrameAny(fs.rz, m.log.d);
  }

  lemma InvOf(fs: Fs) returns (k: nat, s: nat)
    requires FsInv(fs)
    ensures fs.rz.Sound(k, s) && k <= RING_ZONES && (k == RING_ZONES ==> s == 0)
  {
    k, s :| fs.rz.Sound(k, s);
  }

  // Log and lookups do not notice what happens below the log.
  lemma BelowLog(fs: Fs, d: Disk)
    requires MetaInv(MetaOf(fs)) && FsDisk(d)
    requires d.info == fs.rz.d.info && forall z | LOGZ_ZONE <= z < |d.zones| :: d.zones[z] == fs.rz.d.zones[z]
    ensures LogInv(d, fs.logPtr) && LogGrows(fs.rz.d, d)
    ensures Complete(d, fs.lbas, fs.entries)
    ensures forall x :: LookupInode(d, fs.lbas, fs.entries, x) == LookupInode(fs.rz.d, fs.lbas, fs.entries, x)
  {
    hide LookupInode, Complete;
    CompleteKept(fs.rz.d, d, fs.lbas, fs.entries);
  }

  // What a flush takes out of the set is known to the ring afterwards.
  lemma FlushLost(ring: NatMap, lbas: map<u64, LbaInode>, nats: set<u64>, left: set<u64>)
    requires left <= nats
    ensures LostFrom(ring + Restrict(Lbas(lbas), nats - left), lbas, left) == LostFrom(ring, lbas, nats)
  {
    var ring' := ring + Restrict(Lbas(lbas), nats - left);
    forall x | x in lbas
      ensures (x !in left && Unknown(ring', lbas, x)) <==> (x !in nats && Unknown(ring, lbas, x))
    {
    }
  }

  lemma FullLeading(rz: RandomZoneState)
    requires FsDisk(rz.d) && InRing(rz.pos.zone)
    ensures rz.Sound(RING_ZONES, 0) ==> LeadingFull(rz.d, rz.pos.zone, 0) == RING_ZONES
  {
    hide Tracks, CheckpointAt;
    if rz.Sound(RING_ZONES, 0) {
      ShapeLeading(rz.d, rz.pos.zone, RING_ZONES, 0);
    }
  }

  // The fullness of the ring is in the ring.
  lemma OnlyOneShape(rz: RandomZoneState, k: nat, s: nat)
    requires rz.Sound(k, s) && k < RING_ZONES
    ensures !rz.Sound(RING_ZONES, 0)
  {
    hide Tracks, CheckpointAt;
    ShapeLeading(rz.d, rz.pos.zone, k, s);
    FullLeading(rz);
  }

  lemma FlushOpenRing(fs: Fs, k: nat, s: nat)
    requires FsInv(fs) && fs.rz.Sound(k, s) && k < RING_ZONES
    ensures StepOutcome(fs, FlushNats, Step(fs, FlushNats))
  {
    hide RandomZoneState.Sound, RingContents, Replay, Flush, LookupInode, Complete, LogGrows, LogInv, Lbas, RingInv,
         Restrict, AllPacked, LostFrom, Keyed, Named;
    FlushReady(fs);
    var r, lbas := RingState(fs.rz.d, fs.rz.pos, fs.rz.ptr), Lbas(fs.lbas);
    RingOf(fs.rz, k, s);
    OnlyOneShape(fs.rz, k, s);
    var k', s', n := NatFlushRoundTrip(r, fs.nats, lbas, k, s);
    var (r', ret, left) := Flush(r, fs.nats, lbas);
    RingWritten(fs.rz, r', k, s, k', s');
    RingOf(fs.rz.(d := r'.d, ptr := r'.ptr), k', s');
    FlushPointer(r, fs.nats, lbas);
    BelowLog(fs, r'.d);
    FlushLost(RingMap(fs.rz.d, fs.rz.pos.zone), fs.lbas, fs.nats, left);
  }

  // A full ring takes nothing, and the set loses the inodes of one block.
  lemma FlushFullRing(fs: Fs)
    requires FsInv(fs) && RingFull(fs)
    ensures StepOutcome(fs, FlushNats, Step(fs, FlushNats))
    ensures Step(fs, FlushNats) == fs.(nats := fs.nats - Elems(NextBatch(fs.nats)))
  {
    hide RandomZoneState.Sound, RingContents, Replay, Flush, LookupInode, Complete, LogInv, Lbas, RingInv, AllPacked,
         RingMap, NextBatch, Keyed, Named;
    FlushReady(fs);
    var r, lbas := RingState(fs.rz.d, fs.rz.pos, fs.rz.ptr), Lbas(fs.lbas);
    RingOf(fs.rz, RING_ZONES, 0);
    FlushOnFullRing(r, fs.nats, lbas);
  }

  lemma FlushNatsStep(fs: Fs)
    requires FsInv(fs)
    ensures StepOutcome(fs, FlushNats, Step(fs, FlushNats))
  {
    hide FsInv, StepOutcome, Step, Enabled;
    var k: nat, s: nat := InvOf(fs);
    if k < RING_ZONES {
      FlushOpenRing(fs, k, s);
    } else {
      FlushFullRing(fs);
    }
  }

  // What a flush adds to the ring: the current address of each inode it takes
  // out of the set, or nothing if the ring is full.
  lemma FlushedRing(fs: Fs)
    requires FsInv(fs)
    ensures FsInv(Step(fs, FlushNats))
    ensures var fs' := Step(fs, FlushNats);
            && fs'.lbas == fs.lbas && fs'.entries == fs.entries && fs'.nats <= fs.nats && LogGrows(fs.rz.d, fs'.rz.d)
            && RingMap(fs'.rz.d, fs'.rz.pos.zone)
               == if RingFull(fs) then RingMap(fs.rz.d, fs.rz.pos.zone)
                  else RingMap(fs.rz.d, fs.rz.pos.zone) + Restrict(Lbas(fs.lbas), fs.nats - fs'.nats)
  {
    hide RandomZoneState.Sound, RingContents, Replay, Flush, LookupInode, Complete, LogGrows, LogInv, Lbas, RingInv,
         Restrict, AllPacked, LostFrom, Keyed, Named, NextBatch;
    FlushNatsStep(fs);
    FlushReady(fs);
    var k: nat, s: nat := InvOf(fs);
    if k < RING_ZONES {
      RingOf(fs.rz, k, s);
      OnlyOneShape(fs.rz, k, s);
      var k', s', n := NatFlushRoundTrip(RingState(fs.rz.d, fs.rz.pos, fs.rz.ptr), fs.nats, Lbas(fs.lbas), k, s);
    } else {
      FlushFullRing(fs);
    }
  }

  // After a rewrite the ring gives exactly the inodes it gave before, as far as
  // they still exist, and each its current address.
  lemma RewriteMakesCurrent(fs: Fs, logLba: u64)
    requires FsInv(fs) && Enabled(fs, Rewrite(logLba))
    ensures var fs' := Step(fs, Rewrite(logLba));
            && FsInv(fs')
            && fs'.rz.pos.zone == fs.rz.pos.zone
            && RingMap(fs'.rz.d, fs'.rz.pos.zone) == Restrict(Lbas(fs.lbas), RingMap(fs.rz.d, fs.rz.pos.zone).Keys)
  {
    hide RandomZoneState.Sound, RingContents, Replay, Rounds, Complete, LogGrows, LogInv, AllPacked, MentionedIn,
         Written, Restrict, Keyed, Named, Lbas;
    RewriteReady(fs);
    var lbas := Lbas(fs.lbas);
    var k, s := CompactionPreservesMeaning(fs.rz, logLba, lbas);
    var rz := Rounds(fs.rz, logLba, lbas, lbas.Keys, STEPS).0;
    RingOf(rz, k, s);
    BelowLog(fs, rz.d);
    RoundsPointer(fs.rz, logLba, lbas, lbas.Keys, STEPS);
    CompactedReplay(RingContents(fs.rz.d, fs.rz.pos.zone), RingContents(rz.d, rz.pos.zone), lbas);
  }

  lemma RewriteLost(ring: NatMap, lbas: map<u64, LbaInode>, nats: set<u64>)
    ensures LostFrom(Restrict(Lbas(lbas), ring.Keys), lbas, nats) == LostFrom(ring, lbas, nats) - ring.Keys
  {
  }

  lemma RewriteStep(fs: Fs, logLba: u64)
    requires FsInv(fs) && Enabled(fs, Rewrite(logLba))
    ensures StepOutcome(fs, Rewrite(logLba), Step(fs, Rewrite(logLba)))
  {
    hide RandomZoneState.Sound, RingContents, Replay, Rounds, LookupInode, Complete, LogGrows, LogInv, Lbas, Rewritten,
         AllPacked, LostFrom, Restrict, Keyed, Named;
    RewriteReady(fs);
    RewriteMakesCurrent(fs, logLba);
    var k, s := CompactionPreservesMeaning(fs.rz, logLba, Lbas(fs.lbas));
    BelowLog(fs, Rounds(fs.rz, logLba, Lbas(fs.lbas), Lbas(fs.lbas).Keys, STEPS).0.d);
    RewriteLost(RingMap(fs.rz.d, fs.rz.pos.zone), fs.lbas, fs.nats);
  }

  lemma StepKeeps(fs: Fs, op: Op)
    requires FsInv(fs) && Enabled(fs, op)
    ensures StepOutcome(fs, op, Step(fs, op))
  {
    hide StepOutcome, Step;
    match op
    case Create(e) => CreateStep(fs, e);
    case Update(e) => UpdateStep(fs, e);
    case LogWrite(data) => LogWriteStep(fs, data);
    case FlushBlock(blk) => FlushBlockStep(fs, blk);
    case FlushNats => FlushNatsStep(fs);
    case Rewrite(logLba) => RewriteStep(fs, logLba);
  }

  // What a step achieves: a log write puts its data into the next sector of the log;
  // a flush of inodes is that of one block; a flush of the set empties it if there is
  // room for all its blocks, and fills the ring if there is not.
  ghost predicate Achieves(fs: Fs, op: Op, fs': Fs)
    requires FsInv(fs) && FsInv(fs')
  {
    match op
    case LogWrite(data) =>
      var lba := PtrLba(LogState(fs.rz.d, fs.logPtr));
      Room(LogState(fs.rz.d, fs.logPtr)) > 0 ==> InLog(fs'.rz.d, lba) && SectorAt(fs'.rz.d, lba) == data
    case FlushBlock(blk) =>
      exists ret :: FlushDone(MetaOf(fs), blk, MetaOf(fs'), ret)
    case FlushNats =>
      var ring, ring' := RingContents(fs.rz.d, fs.rz.pos.zone), RingContents(fs'.rz.d, fs'.rz.pos.zone);
      var capacity := RING_ZONES * fs.rz.d.info.zoneCapacity;
      !RingFull(fs) ==>
        && |ring'| == Min(|ring| + CeilDiv(|fs.nats|, NAT_BLK_INO_LBA_NUM), capacity)
        && (|ring'| < capacity ==> fs'.nats == {})
    case _ => true
  }

  lemma LogWriteAchieves(fs: Fs, data: Sector)
    requires FsInv(fs) && Enabled(fs, LogWrite(data)) && FsInv(Step(fs, LogWrite(data)))
    ensures Achieves(fs, LogWrite(data), Step(fs, LogWrite(data)))
  {
    hide RandomZoneState.Sound, RingContents, AllPacked, AppendSector, Complete, LogGrows, SameOutsideLog, InLog,
         SectorAt, Room, PtrLba;
    AppendSectorStep(LogState(fs.rz.d, fs.logPtr), data);
  }

  lemma FlushBlockAchieves(fs: Fs, blk: Sector)
    requires FsInv(fs) && Enabled(fs, FlushBlock(blk)) && FsInv(Step(fs, FlushBlock(blk)))
    ensures Achieves(fs, FlushBlock(blk), Step(fs, FlushBlock(blk)))
  {
    hide RandomZoneState.Sound, RingContents, AllPacked, FlushInodes, MetaInv, FlushDone, Pack, BlockEntries;
    InvLog(MetaOf(fs));
    FlushIsDone(MetaOf(fs), blk);
    var (m, ret) := FlushInodes(MetaOf(fs), blk);
    assert MetaOf(Step(fs, FlushBlock(blk))) == m;
  }

  lemma FlushNatsAchieves(fs: Fs)
    requires FsInv(fs) && FsInv(Step(fs, FlushNats))
    ensures Achieves(fs, FlushNats, Step(fs, FlushNats))
  {
    hide RandomZoneState.Sound, RingContents, Flush, Complete, LogInv, Lbas, RingInv, AllPacked, Replay, Restrict,
         CeilDiv;
    FlushReady(fs);
    var k: nat, s: nat := InvOf(fs);
    if k < RING_ZONES {
      RingOf(fs.rz, k, s);
      FlushUsesRing(RingState(fs.rz.d, fs.rz.pos, fs.rz.ptr), fs.nats, Lbas(fs.lbas), k, s);
      var k', s', n := NatFlushRoundTrip(RingState(fs.rz.d, fs.rz.pos, fs.rz.ptr), fs.nats, Lbas(fs.lbas), k, s);
    }
  }

  lemma StepAchieves(fs: Fs, op: Op)
    requires FsInv(fs) && Enabled(fs, op)
    ensures FsInv(Step(fs, op)) && Achieves(fs, op, Step(fs, op))
  {
    hide FsInv, Step, Enabled;
    StepKeeps(fs, op);
    match op
    case LogWrite(data) => LogWriteAchieves(fs, data);
    case FlushBlock(blk) => FlushBlockAchieves(fs, blk);
    case FlushNats => FlushNatsAchieves(fs);
    case _ =>
  }

  // Exactly when a flush of the random zone keeps every flushed inode durable:
  // the ring has room, or it already knows all inodes of the block that is
  // taken out of the set.
  lemma FlushStaysDurableExactly(fs: Fs)
    requires FsInv(fs) && Durable(fs)
    ensures FsInv(Step(fs, FlushNats))
    ensures Durable(Step(fs, FlushNats))
            <==> (RingFull(fs) ==> forall x | x in NextBatch(fs.nats) ::
                    !Unknown(RingMap(fs.rz.d, fs.rz.pos.zone), fs.lbas, x))
  {
    hide RandomZoneState.Sound, MetaInv, RingContents, Replay, AllPacked, Step, Lost, Unknown, NextBatch, RingFull;
    StepKeeps(fs, FlushNats);
    EnabledFlush(fs);
    forall x | x in NextBatch(fs.nats)
      ensures x in Dropped(fs) <==> Unknown(RingMap(fs.rz.d, fs.rz.pos.zone), fs.lbas, x)
    {
    }
  }

  // ---- Runs ---------------------------------------------------------------------

  ghost predicate CanRun(fs: Fs, ops: seq<Op>)
    requires FsInv(fs)
    decreases |ops|
  {
    ops == [] || (Enabled(fs, ops[0]) && (StepKeeps(fs, ops[0]); CanRun(Step(fs, ops[0]), ops[1..])))
  }

  ghost function Run(fs: Fs, ops: seq<Op>): Fs
    requires FsInv(fs) && CanRun(fs, ops)
    decreases |ops|
  {
    if ops == [] then fs
    else
      StepKeeps(fs, ops[0]);
      Run(Step(fs, ops[0]), ops[1..])
  }

  // The last update of an inode in a history.
  function LatestOf(ops: seq<Op>, x: u64): Option<NamedEntry>
    decreases |ops|
  {
    if ops == [] then None
    else
      var rest := LatestOf(ops[1..], x);
      if rest.Some? then rest else Latest(ops[0], x)
  }

  lemma EmptyRun(fs: Fs)
    requires FsInv(fs)
    ensures LogGrows(fs.rz.d, fs.rz.d) && FsDisk(fs.rz.d)
  {
  }

  // Over every run a lookup finds the last update of the inode, or what it
  // found before the run; flushes, log writes and rewrites are invisible.
  lemma {:induction false} LastUpdateIsFound(fs: Fs, ops: seq<Op>)
    requires FsInv(fs) && CanRun(fs, ops)
    ensures var fs' := Run(fs, ops);
            && FsInv(fs')
            && LogGrows(fs.rz.d, fs'.rz.d)
            && forall x :: LookupFs(fs', x) == After(LookupFs(fs, x), LatestOf(ops, x))
    decreases |ops|
  {
    hide Step, Enabled, LookupFs, LogGrows, FsInv;
    if ops == [] {
      EmptyRun(fs);
    } else {
      StepKeeps(fs, ops[0]);
      var fs1 := Step(fs, ops[0]);
      LastUpdateIsFound(fs1, ops[1..]);
      var fs' := Run(fs1, ops[1..]);
      GrowsTransitive(fs.rz.d, fs1.rz.d, fs'.rz.d);
    }
  }

  // The lost inodes after a run, from those lost before it.
  ghost function LostThrough(fs: Fs, ops: seq<Op>, lost: set<u64>): set<u64>
    requires FsInv(fs) && CanRun(fs, ops)
    decreases |ops|
  {
    if ops == [] then lost
    else
      StepKeeps(fs, ops[0]);
      LostThrough(Step(fs, ops[0]), ops[1..], LostNext(fs, ops[0], lost))
  }

  lemma {:induction false} LostOverRuns(fs: Fs, ops: seq<Op>)
    requires FsInv(fs) && CanRun(fs, ops)
    ensures FsInv(Run(fs, ops))
    ensures Lost(Run(fs, ops)) == LostThrough(fs, ops, Lost(fs))
    decreases |ops|
  {
    hide Step, Enabled, LookupFs, LogGrows, Lost, LostNext;
    if ops != [] {
      StepKeeps(fs, ops[0]);
      LostOverRuns(Step(fs, ops[0]), ops[1..]);
    }
  }

  // Runs in which no flush meets a full ring, unless that ring knows all the
  // inodes of the next block.
  ghost predicate Careful(fs: Fs, ops: seq<Op>)
    requires FsInv(fs) && CanRun(fs, ops)
    decreases |ops|
  {
    ops == [] ||
    (&& (ops[0].FlushNats? && RingFull(fs) ==> Dropped(fs) == {})
     && (StepKeeps(fs, ops[0]); Careful(Step(fs, ops[0]), ops[1..])))
  }

  lemma {:induction false} CarefulStaysDurable(fs: Fs, ops: seq<Op>)
    requires FsInv(fs) && CanRun(fs, ops) && Durable(fs) && Careful(fs, ops)
    ensures FsInv(Run(fs, ops)) && Durable(Run(fs, ops))
    decreases |ops|
  {
    hide Step, Enabled, LookupFs, LogGrows, Lost, Dropped, RingFull;
    if ops != [] {
      StepKeeps(fs, ops[0]);
      CarefulStaysDurable(Step(fs, ops[0]), ops[1..]);
    }
  }

  // ---- Reading back ---------------------------------------------------------------

  function Readdressed(m: NatMap): map<u64, LbaInode> {
    map x | x in m :: LbaInode(0, m[x])
  }

  // A lookup by these addresses, with nothing in memory.
  function LookupBack(d: Disk, x: u64): Lookup
    requires FsDisk(d)
  {
    match ReadBack(d)
    case None => Failed
    case Some(m) => LookupInode(d, Readdressed(m), map[], x)
  }

  // What the ring knows of an inode: its current address, unless it is lost.
  lemma RingKnowsExactly(fs: Fs, x: u64)
    requires FsInv(fs) && x in fs.lbas && x !in fs.nats && fs.lbas[x].lba != 0
    ensures ReadBack(fs.rz.d).Some?
    ensures var m := ReadBack(fs.rz.d).value;
            x !in Lost(fs) <==> (x in m && m[x] == fs.lbas[x].lba)
  {
    hide RandomZoneState.Sound, Replay, RingContents, LogInv, Complete;
    var k, s := InvOf(fs);
    SoundKept(fs.rz, k, s);
    ReadBackIs(fs.rz, k, s);
  }

  // Every inode that has been flushed, does not wait for the random zone and is
  // not lost, is found on the device exactly as it was flushed; when no newer
  // entry is in memory, exactly as in memory.
  lemma FoundInRing(fs: Fs, x: u64)
    requires FsInv(fs) && x in fs.lbas && x !in fs.nats && fs.lbas[x].lba != 0 && x !in Lost(fs)
    ensures LookupBack(fs.rz.d, x) == LookupInode(fs.rz.d, fs.lbas, fs.entries - {x}, x)
    ensures LookupBack(fs.rz.d, x).Found?
    ensures x !in fs.entries ==> LookupBack(fs.rz.d, x) == LookupFs(fs, x)
  {
    hide RandomZoneState.Sound, Replay, RingContents, OnDevice, InLog, LogInv, Lost, AllPacked;
    RingKnowsExactly(fs, x);
  }

  // An inode outside memory has an address in the log.
  lemma FlushedAddress(fs: Fs, x: u64)
    requires FsInv(fs) && x in fs.lbas && x !in fs.entries
    ensures fs.lbas[x].lba != 0
  {
    hide RandomZoneState.Sound, AllPacked, RingContents, OnDevice, InLog;
    LogLbaPositive(fs.rz.d, fs.lbas[x].lba);
  }

  // Found in memory, not found through the ring, and nothing waits to be written
  // about it.
  ghost predicate Forgotten(fs: Fs, x: u64)
    requires FsDisk(fs.rz.d)
  {
    && x in fs.lbas && x !in fs.nats && x !in fs.entries
    && LookupFs(fs, x).Found?
    && LookupBack(fs.rz.d, x) == NotFound
  }

  lemma BatchWaits(nats: set<u64>, x: u64)
    requires x in NextBatch(nats)
    ensures x in nats && x in Elems(NextBatch(nats))
  {
    hide Ascending;
    AscendingElems(nats);
    assert x in Ascending(nats);
  }

  // What a flush on a full ring can do: an inode of the block it takes out of
  // the set, that the ring does not mention, is forgotten.
  lemma FullFlushForgets(fs: Fs, x: u64)
    requires FsInv(fs) && RingFull(fs)
    requires x in NextBatch(fs.nats) && x !in fs.entries && x !in RingMap(fs.rz.d, fs.rz.pos.zone)
    ensures Forgotten(fs.(nats := fs.nats - Elems(NextBatch(fs.nats))), x)
    ensures Step(fs, FlushNats) == fs.(nats := fs.nats - Elems(NextBatch(fs.nats)))
  {
    hide RandomZoneState.Sound, Replay, RingContents, OnDevice, InLog, LogInv, AllPacked, Step, NextBatch;
    FlushFullRing(fs);
    BatchWaits(fs.nats, x);
    SoundKept(fs.rz, RING_ZONES, 0);
    ReadBackIs(fs.rz, RING_ZONES, 0);
  }

  // A rewrite that stops after any of its rounds loses nothing either.
  lemma StoppedRewriteKnows(fs: Fs, logLba: u64, n: nat, x: u64) returns (k: nat, s: nat)
    requires FsInv(fs) && Enabled(fs, Rewrite(logLba)) && n <= STEPS
    requires x in fs.lbas && x !in fs.nats && x !in fs.entries && x !in Lost(fs)
    ensures fs.lbas[x].lba != 0
    ensures Compactable(fs.rz, n) && 0 !in Lbas(fs.lbas)
    ensures var rz := Rounds(fs.rz, logLba, Lbas(fs.lbas), Lbas(fs.lbas).Keys, n).0;
            && rz.Kept(k, s) && FsDisk(rz.d) && InRing(rz.pos.zone) && LogGrows(fs.rz.d, rz.d)
            && var ring := RingMap(rz.d, rz.pos.zone);
               x in ring && ring[x] == fs.lbas[x].lba
  {
    hide RandomZoneState.Sound, Replay, RingContents, OnDevice, InLog, LogInv, Rounds, AllPacked, LogGrows;
    k, s := SafeAtEveryBoundary(fs.rz, logLba, Lbas(fs.lbas), n);
    var rz := Rounds(fs.rz, logLba, Lbas(fs.lbas), Lbas(fs.lbas).Keys, n).0;
    SoundKept(rz, k, s);
    BelowLog(fs, rz.d);
    FlushedAddress(fs, x);
    assert x in Replay(RingContents(fs.rz.d, fs.rz.pos.zone));
  }
}
