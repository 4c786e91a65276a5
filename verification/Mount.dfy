// Mounting, and what it makes of the ring on the device. The mount marks the
// device dirty, finds the ring through the newest checkpoint and scans it for
// its end. When the scan reports the ring full, it is rewritten at once, before
// any of it has been read.
module Mount {
  import opened Basics
  import opened Disk
  import opened Codec
  import opened Checkpoints
  import opened NatLog
  import opened Ring
  import opened Compaction
  import opened CompactionRun
  import opened Rewrite
  import opened NatFlush

  const DIRTY_ZONE: nat := 1

  function DirtyBlock(): (b: Sector)
    ensures |b| == SECTOR_SIZE && b[0] == 1
  {
    [1] + Zeros(SECTOR_SIZE - 1)
  }

  // verify_dirtyblock and write_dirtyblock.
  function MarkDirty(d: Disk): (res: (Disk, Ret))
    requires FsDisk(d)
    ensures FsDisk(res.0) && SameElsewhere(d, res.0, DIRTY_ZONE)
    ensures res.1 == RetNone <==> d.zones[DIRTY_ZONE] == []
    ensures res.1 == RetNone ==> res.0.zones[DIRTY_ZONE] == [DirtyBlock()]
  {
    if d.Readable(DIRTY_ZONE, 0) && d.zones[DIRTY_ZONE][0][0] == 1 then (d, RetErr)
    else if !d.Appendable(DIRTY_ZONE) then (d, RetErr)
    else (d.Append(DIRTY_ZONE, DirtyBlock()), if d.zones[DIRTY_ZONE] == [] then RetNone else RetErr)
  }

  // All an unmount does to the device: remove_dirtyblock.
  function Unmounted(d: Disk): (d': Disk)
    requires FsDisk(d)
    ensures FsDisk(d') && SameElsewhere(d, d', DIRTY_ZONE)
  {
    d.Reset(DIRTY_ZONE)
  }

  // ---- The ring on the device --------------------------------------------------

  // The addresses the device alone gives: find the newest checkpoint, decode the
  // start of the ring and replay the ring.
  function ReadBack(d: Disk): Option<NatMap>
    requires FsDisk(d)
  {
    match Locate(d)
    case None => None
    case Some(c) =>
      var zone := LbaZone(d.info, c.randzLba);
      if InRing(zone) then Some(Replay(ReadableRing(d, zone))) else None
  }

  lemma RingLbaFindable(info: Info, zone: nat)
    requires info.Valid() && info.numZones > LOGZ_ZONE && InRing(zone)
    ensures PositionToLba(info, zone, 0) < U64_LIMIT - 1
  {
    LbaMonotone(info, zone, 0, zone + 1, 0);
    LbaBound(info, zone + 1, 0);
  }

  // The start of the ring is in the newest checkpoint.
  lemma StartIsLocated(d: Disk, cblockPos: Position, zone: nat)
    requires Tracks(d, cblockPos) && InRing(zone)
    requires CheckpointAt(d, cblockPos).randzLba == PositionToLba(d.info, zone, 0)
    ensures LocatePos(d) == Some(cblockPos) && Locate(d) == Some(CheckpointAt(d, cblockPos))
    ensures LbaZone(d.info, PositionToLba(d.info, zone, 0)) == zone && LbaSector(d.info, PositionToLba(d.info, zone, 0)) == 0
    ensures ReadBack(d) == Some(Replay(ReadableRing(d, zone)))
  {
    hide Replay, ReadableRing;
    TrackedIsLocated(d, cblockPos);
    LbaRoundTrip(d.info, zone, 0);
    RingLbaFindable(d.info, zone);
  }

  lemma ReadBackIs(rz: RandomZoneState, k: nat, s: nat)
    requires rz.Kept(k, s)
    ensures FsDisk(rz.d) && InRing(rz.pos.zone)
    ensures ReadBack(rz.d) == Some(Replay(RingContents(rz.d, rz.pos.zone)))
  {
    hide Replay, RingContents, ReadableRing;
    StartIsLocated(rz.d, rz.cblockPos, rz.pos.zone);
    ReadableIsContents(rz.d, rz.pos.zone, k, s);
  }

  // The scan for the pointer ends without one.
  predicate ReportsFull(d: Disk, zone: nat)
    requires FsDisk(d) && InRing(zone)
  {
    DeterminePtr(d, Position(zone, 0, 0, 0)).1 == RandzFull
  }

  // It does so on a full ring, and on one with a single free sector unless the
  // ring starts at its first zone.
  lemma ReportsFullExactly(d: Disk, zone: nat, k: nat, s: nat)
    requires FsDisk(d) && InRing(zone) && Shape(d, zone, k, s)
    ensures ReportsFull(d, zone) <==> k == RING_ZONES || (zone != RANDZ_ZONE && Free(d, k, s) == 1)
    ensures zone != RANDZ_ZONE && Free(d, k, s) == 1 ==> k == RING_ZONES - 1 && s + 1 == d.info.zoneCapacity
    ensures k < RING_ZONES && ReportsFull(d, zone) ==> k == RING_ZONES - 1 && s + 1 == d.info.zoneCapacity
  {
    ShapeLeading(d, zone, k, s);
    if k < RING_ZONES {
      FreeStep(d, k, s);
    } else {
      FreeIsRest(d, zone, k, s);
    }
  }

  lemma ReportsFullByLength(d: Disk, zone: nat, k: nat, s: nat)
    requires FsDisk(d) && InRing(zone) && Shape(d, zone, k, s)
    ensures var room := RING_ZONES * d.info.zoneCapacity - |RingContents(d, zone)|;
            ReportsFull(d, zone) <==> room == 0 || (zone != RANDZ_ZONE && room == 1)
  {
    hide RingContents, Shape, ReportsFull;
    ReportsFullExactly(d, zone, k, s);
    FreeIsRest(d, zone, k, s);
  }

  // ---- The mount ---------------------------------------------------------------

  // A device whose newest checkpoint names a ring; if that ring has to be
  // rewritten, the checkpoint log has to be in order.
  ghost predicate Startable(d: Disk) {
    && FsDisk(d) && Locate(d).Some?
    && var start := Locate(d).value.randzLba;
       && InRing(LbaZone(d.info, start)) && LbaSector(d.info, start) == 0
       && (ReportsFull(d, LbaZone(d.info, start)) ==>
             Tracks(d, LocatePos(d).value) && LbaZone(d.info, start) % 2 == 0)
  }

  // Find the pointer, and try to make room if there is none. No inode is known
  // yet.
  ghost function RecoverRing(st: RandomZoneState, logLba: u64): (res: (RandomZoneState, Ret))
    requires FsDisk(st.d) && InRing(st.pos.zone) && st.pos == Position(st.pos.zone, 0, 0, 0)
    requires ReportsFull(st.d, st.pos.zone) ==> Tracks(st.d, st.cblockPos) && st.pos.zone % 2 == 0
    ensures res.1 == RetNone ==> FsDisk(res.0.d) && InRing(res.0.pos.zone)
    ensures res.1 == RetNone ==> res.0.pos == Position(res.0.pos.zone, 0, 0, res.0.pos.size)
    ensures res.1 == RetNone || res.1 == RetErr
  {
    var (found, ret) := DeterminePtr(st.d, st.pos);
    if ret != RandzFull then (st.(ptr := found), RetNone)
    else
      var (st', ret') := TryRounds(st.(ptr := found), logLba, map[], {}, STEPS);
      TryRoundsBase(st.(ptr := found), logLba, map[], {}, STEPS);
      if ret' != RetNone then (st', RetErr)
      else
        var (again, ret'') := DeterminePtr(st'.d, st'.pos);
        (st'.(ptr := again), if ret'' == RetNone then RetNone else RetErr)
  }

  // Its steps, one by one.
  lemma RecoverySteps(st: RandomZoneState, logLba: u64)
    requires FsDisk(st.d) && InRing(st.pos.zone) && st.pos == Position(st.pos.zone, 0, 0, 0)
    requires ReportsFull(st.d, st.pos.zone) ==> Tracks(st.d, st.cblockPos) && st.pos.zone % 2 == 0
    ensures var (found, ret) := DeterminePtr(st.d, st.pos);
            && (ret == RandzFull <==> ReportsFull(st.d, st.pos.zone))
            && (ret != RandzFull ==> ret == RetNone && RecoverRing(st, logLba) == (st.(ptr := found), RetNone))
            && (ret == RandzFull ==>
                  var st0 := st.(ptr := found);
                  && !found.Valid() && found != st.pos && st0.Base()
                  && var (st', ret') := TryRounds(st0, logLba, map[], {}, STEPS);
                     && (ret' != RetNone ==> RecoverRing(st, logLba) == (st', RetErr))
                     && (ret' == RetNone ==>
                           && st'.Base()
                           && var (again, ret'') := DeterminePtr(st'.d, st'.pos);
                              RecoverRing(st, logLba)
                              == (st'.(ptr := again), if ret'' == RetNone then RetNone else RetErr)))
  {
    hide TryRounds, Tracks, LeadingFull, RingZone;
    var (found, ret) := DeterminePtr(st.d, st.pos);
    if ret == RandzFull {
      TryRoundsBase(st.(ptr := found), logLba, map[], {}, STEPS);
    }
  }

  // Nothing but the dirty block notices that zone.
  lemma {:induction false} LeadingFrame(d: Disk, d': Disk, zone: nat, k: nat)
    requires FsDisk(d) && FsDisk(d') && d'.info == d.info && InRing(zone) && k <= RING_ZONES
    requires forall z | RANDZ_ZONE <= z < RANDZ_BUFF_ZONE :: d'.zones[z] == d.zones[z]
    ensures LeadingFull(d', zone, k) == LeadingFull(d, zone, k)
    decreases RING_ZONES - k
  {
    if k < RING_ZONES {
      LeadingFrame(d, d', zone, k + 1);
    }
  }

  lemma RingReadFrame(d: Disk, d': Disk, zone: nat)
    requires FsDisk(d) && FsDisk(d') && d'.info == d.info && InRing(zone)
    requires forall z | RANDZ_ZONE <= z < RANDZ_BUFF_ZONE :: d'.zones[z] == d.zones[z]
    ensures forall pos: Position | pos.zone == zone :: DeterminePtr(d', pos) == DeterminePtr(d, pos)
    ensures ReadableRing(d', zone) == ReadableRing(d, zone) && RingContents(d', zone) == RingContents(d, zone)
  {
    hide LeadingFull, Contents, RingZone;
    LeadingFrame(d, d', zone, 0);
    ContentsFrame(d, d', zone, LeadingFull(d, zone, 0));
    ContentsFrame(d, d', zone, RING_ZONES);
  }

  lemma DirtyFrame(d: Disk, d': Disk)
    requires FsDisk(d) && FsDisk(d') && SameElsewhere(d, d', DIRTY_ZONE)
    ensures LocatePos(d') == LocatePos(d) && Locate(d') == Locate(d) && ReadBack(d') == ReadBack(d)
    ensures forall pos :: Tracks(d', pos) == Tracks(d, pos)
    ensures forall zone | InRing(zone) :: ReportsFull(d', zone) == ReportsFull(d, zone)
  {
    hide Replay, ReadableRing, DeterminePtr, DecodeCheckpoint;
    forall zone | InRing(zone)
      ensures ReportsFull(d', zone) == ReportsFull(d, zone) && ReadableRing(d', zone) == ReadableRing(d, zone)
    {
      RingReadFrame(d, d', zone);
    }
  }

  // run_init up to the point where the random zone is read.
  ghost function InitialState(d: Disk): (res: (RandomZoneState, Ret))
    requires Startable(d)
    ensures res.1 == RetNone ==> FsDisk(res.0.d) && InRing(res.0.pos.zone)
    ensures res.1 == RetNone ==> res.0.pos == Position(res.0.pos.zone, 0, 0, res.0.pos.size)
    ensures res.1 == RetNone || res.1 == RetErr
  {
    var (d', ret) := MarkDirty(d);
    var unset := Position(0, 0, 0, 0);
    if ret != RetNone then (RandomZoneState(d', unset, unset, unset), RetErr)
    else
      DirtyFrame(d, d');
      var c := Locate(d).value;
      RecoverRing(RandomZoneState(d', LocatePos(d).value, Position(LbaZone(d.info, c.randzLba), 0, 0, 0), unset), c.logzLba)
  }

  // Marking the device comes first; the rest is the recovery of the ring.
  lemma InitialSteps(d: Disk, d': Disk, ret: Ret)
    requires Startable(d) && (d', ret) == MarkDirty(d)
    ensures var unset := Position(0, 0, 0, 0);
            if ret != RetNone then InitialState(d) == (RandomZoneState(d', unset, unset, unset), RetErr)
            else
              var c := Locate(d).value;
              var st := RandomZoneState(d', LocatePos(d).value, Position(LbaZone(d.info, c.randzLba), 0, 0, 0), unset);
              && Locate(d') == Locate(d) && LocatePos(d') == LocatePos(d) && d'.info == d.info
              && InRing(st.pos.zone) && LbaSector(d.info, c.randzLba) == 0
              && (ReportsFull(d', st.pos.zone) ==> Tracks(d', st.cblockPos) && st.pos.zone % 2 == 0)
              && InitialState(d) == RecoverRing(st, c.logzLba)
  {
    hide RecoverRing, Tracks, ReportsFull, MarkDirty, CheckpointAt;
    DirtyFrame(d, d');
  }

  // The addresses in memory after a mount.
  ghost function Mounted(d: Disk): Option<NatMap>
    requires Startable(d)
  {
    var (st, ret) := InitialState(d);
    if ret == RetNone then Some(Replay(ReadableRing(st.d, st.pos.zone))) else None
  }

  lemma DirtyKept(st: RandomZoneState, d': Disk, k: nat, s: nat)
    requires st.Kept(k, s) && FsDisk(d') && SameElsewhere(st.d, d', DIRTY_ZONE)
    ensures st.(d := d').Kept(k, s)
    ensures RingContents(d', st.pos.zone) == RingContents(st.d, st.pos.zone)
  {
    RingReadFrame(st.d, d', st.pos.zone);
  }

  lemma KeptStartable(st: RandomZoneState, k: nat, s: nat)
    requires st.Kept(k, s)
    ensures Startable(st.d) && LocatePos(st.d) == Some(st.cblockPos)
    ensures LbaZone(st.d.info, Locate(st.d).value.randzLba) == st.pos.zone
  {
    hide Shape, DeterminePtr, ReadableRing, DecodeCheckpoint;
    StartIsLocated(st.d, st.cblockPos, st.pos.zone);
  }

  // ---- What comes of it ----------------------------------------------------------

  // The state in which the scan for the pointer starts.
  function Located(st: RandomZoneState): RandomZoneState {
    RandomZoneState(st.d, st.cblockPos, Position(st.pos.zone, 0, 0, 0), Position(0, 0, 0, 0))
  }

  // A ring that is not reported full is kept, pointer and all.
  lemma OpenRing(st: RandomZoneState, logLba: u64, k: nat, s: nat)
    requires st.Kept(k, s) && st == Located(st) && !ReportsFull(st.d, st.pos.zone)
    ensures var (st', ret) := RecoverRing(st, logLba);
            && ret == RetNone && st'.Sound(k, s) && st'.ptr.size == 0 && st' == st.(ptr := st'.ptr)
  {
    hide Tracks, CheckpointAt;
    ReportsFullExactly(st.d, st.pos.zone, k, s);
    ShapeLeading(st.d, st.pos.zone, k, s);
  }

  // The scan of an empty ring ends where it starts.
  lemma EmptyFound(st: RandomZoneState)
    requires st.Kept(0, 0)
    ensures DeterminePtr(st.d, st.pos) == (Position(st.pos.zone, 0, 0, st.pos.size), RetNone)
    ensures RingInv(st.d, st.pos, Position(st.pos.zone, 0, 0, st.pos.size), 0, 0)
  {
    hide Tracks, CheckpointAt;
    ShapeLeading(st.d, st.pos.zone, 0, 0);
    assert RingZone(st.pos.zone, 0) == st.pos.zone;
  }

  // A full one comes out empty.
  lemma FullRing(st: RandomZoneState, logLba: u64)
    requires st.Kept(RING_ZONES, 0) && st == Located(st)
    ensures ReportsFull(st.d, st.pos.zone)
    ensures var (st', ret) := RecoverRing(st, logLba);
            && ret == RetNone && st'.Sound(0, 0) && st'.ptr.size == 0 && st'.pos == st.pos
            && RingContents(st'.d, st'.pos.zone) == []
            && SameOutsideMetadata(st.d, st'.d)
  {
    hide Tracks, CheckpointAt, TryRounds, SameOutsideMetadata, RingContents, DeterminePtr, RingInv, Shape, RecoverRing;
    ReportsFullExactly(st.d, st.pos.zone, RING_ZONES, 0);
    RecoverySteps(st, logLba);
    var st0 := st.(ptr := DeterminePtr(st.d, st.pos).0);
    EmptyRewriteOfFull(st0, logLba);
    EmptyFound(TryRounds(st0, logLba, map[], {}, STEPS).0);
  }

  // One with a single free sector that is reported full fails the mount.
  lemma OneFreeSector(st: RandomZoneState, logLba: u64, k: nat, s: nat)
    requires st.Kept(k, s) && st == Located(st) && k < RING_ZONES && ReportsFull(st.d, st.pos.zone)
    ensures var (st', ret) := RecoverRing(st, logLba);
            ret == RetErr && Stranded(st, st', s)
  {
    hide Tracks, CheckpointAt, TryRounds, Shape;
    KeptBase(st, k, s);
    ReportsFullExactly(st.d, st.pos.zone, k, s);
    EmptyRewriteOfOneFree(st.(ptr := DeterminePtr(st.d, st.pos).0), logLba, s);
  }

  // A mount of a device in order leaves it dirty, and finds the ring as it was,
  // or empties it, or fails and leaves two zones of it. Where it succeeds, the
  // pointer is right but not valid.
  ghost predicate MountOutcome(st: RandomZoneState, k: nat, s: nat, st': RandomZoneState, ret: Ret)
    requires st.Kept(k, s)
  {
    && FsDisk(st'.d) && InRing(st'.pos.zone) && st'.d.info == st.d.info
    && st'.d.zones[DIRTY_ZONE] == [DirtyBlock()]
    && (forall z | LOGZ_ZONE <= z < |st.d.zones| :: z < |st'.d.zones| && st'.d.zones[z] == st.d.zones[z])
    && (ret == RetNone ==> st'.pos == Position(st.pos.zone, 0, 0, 0) && st'.ptr.size == 0)
    && if !ReportsFull(st.d, st.pos.zone) then
         && ret == RetNone && st'.Sound(k, s) && st'.d == MarkDirty(st.d).0 && st'.cblockPos == st.cblockPos
         && RingContents(st'.d, st'.pos.zone) == RingContents(st.d, st.pos.zone)
       else if k == RING_ZONES then
         ret == RetNone && st'.Sound(0, 0) && RingContents(st'.d, st'.pos.zone) == []
       else
         ret == RetErr && Stranded(Located(st.(d := MarkDirty(st.d).0)), st', s)
  }

  // The mount of a device in order is the recovery of its ring.
  lemma RecoveryStarts(st: RandomZoneState, k: nat, s: nat)
    requires st.Kept(k, s) && st.d.zones[DIRTY_ZONE] == []
    ensures Startable(st.d)
    ensures var st0 := Located(st.(d := MarkDirty(st.d).0));
            && st0.Kept(k, s) && ReportsFull(st0.d, st.pos.zone) == ReportsFull(st.d, st.pos.zone)
            && InitialState(st.d) == RecoverRing(st0, Locate(st.d).value.logzLba)
            && RingContents(st0.d, st.pos.zone) == RingContents(st.d, st.pos.zone)
    ensures k <= RING_ZONES && (k == RING_ZONES ==> s == 0)
  {
    hide Tracks, CheckpointAt, RecoverRing, RingContents, DeterminePtr, DecodeCheckpoint, DirtyBlock;
    KeptStartable(st, k, s);
    DirtyFrame(st.d, MarkDirty(st.d).0);
    DirtyKept(st, MarkDirty(st.d).0, k, s);
  }

  lemma RecoveryNamesLog(st: RandomZoneState, logLba: u64)
    requires FsDisk(st.d) && InRing(st.pos.zone) && st.pos == Position(st.pos.zone, 0, 0, 0)
    requires ReportsFull(st.d, st.pos.zone) ==> st.pos.zone % 2 == 0
    requires NamesLog(st, logLba)
    ensures NamesLog(RecoverRing(st, logLba).0, logLba)
  {
    hide DeterminePtr, Tracks, CheckpointAt, TryRounds, RecoverRing;
    RecoverySteps(st, logLba);
    var found := DeterminePtr(st.d, st.pos).0;
    if ReportsFull(st.d, st.pos.zone) {
      RewriteNamesLog(st.(ptr := found), logLba, map[], {}, STEPS);
    }
  }

  // A mount of a device in order leaves the start of the log in the checkpoint,
  // whether it succeeds or not.
  lemma MountKeepsLogStart(st: RandomZoneState, k: nat, s: nat)
    requires st.Kept(k, s) && st.d.zones[DIRTY_ZONE] == []
    ensures Startable(st.d)
    ensures NamesLog(InitialState(st.d).0, Locate(st.d).value.logzLba)
  {
    hide RecoverRing, InitialState, ReportsFull, MarkDirty, DecodeCheckpoint, Shape;
    KeptBase(st, k, s);
    RecoveryStarts(st, k, s);
    StartIsLocated(st.d, st.cblockPos, st.pos.zone);
    RecoveryNamesLog(Located(st.(d := MarkDirty(st.d).0)), Locate(st.d).value.logzLba);
  }

  // What the ring does not hold stays as the mark left it.
  lemma MarkStays(st: RandomZoneState, d': Disk)
    requires FsDisk(st.d) && st.d.zones[DIRTY_ZONE] == []
    requires SameOutsideMetadata(MarkDirty(st.d).0, d')
    ensures DIRTY_ZONE < |d'.zones| == |st.d.zones| && d'.info == st.d.info && d'.zones[DIRTY_ZONE] == [DirtyBlock()]
    ensures forall z | LOGZ_ZONE <= z < |st.d.zones| :: d'.zones[z] == st.d.zones[z]
  {
    hide DirtyBlock;
  }

  lemma MountExactly(st: RandomZoneState, k: nat, s: nat)
    requires st.Kept(k, s) && st.d.zones[DIRTY_ZONE] == []
    ensures Startable(st.d)
    ensures var (st', ret) := InitialState(st.d);
            MountOutcome(st, k, s, st', ret)
  {
    hide RandomZoneState.Kept, RecoverRing, InitialState, RingContents, ReportsFull, DirtyBlock, MarkDirty,
         SameOutsideMetadata, RingInv;
    KeptBase(st, k, s);
    RecoveryStarts(st, k, s);
    var st0, logLba := Located(st.(d := MarkDirty(st.d).0)), Locate(st.d).value.logzLba;
    var st' := InitialState(st.d).0;
    if !ReportsFull(st.d, st.pos.zone) {
      OpenRing(st0, logLba, k, s);
      OutsideSame(st'.d);
    } else if k == RING_ZONES {
      FullRing(st0, logLba);
    } else {
      OneFreeSector(st0, logLba, k, s);
    }
    MarkStays(st, st'.d);
  }

  lemma SoundShape(st: RandomZoneState, k: nat, s: nat)
    requires st.Sound(k, s)
    ensures FsDisk(st.d) && InRing(st.pos.zone) && Shape(st.d, st.pos.zone, k, s)
  {
  }

  lemma EmptyReplay()
    ensures Replay([]) == map[]
  {
  }

  // A mount gives what the ring gives if and only if the scan does not report it
  // full, or it is full and gives nothing.
  lemma MountGivesRingExactly(st: RandomZoneState, k: nat, s: nat)
    requires st.Kept(k, s) && st.d.zones[DIRTY_ZONE] == []
    ensures Startable(st.d)
    ensures Mounted(st.d)
            == if !ReportsFull(st.d, st.pos.zone) then Some(Replay(RingContents(st.d, st.pos.zone)))
               else if k == RING_ZONES then Some(map[])
               else None
    ensures Mounted(st.d) == ReadBack(st.d)
            <==> !ReportsFull(st.d, st.pos.zone) || (k == RING_ZONES && Replay(RingContents(st.d, st.pos.zone)) == map[])
  {
    hide RandomZoneState.Kept, InitialState, ReadableRing, Replay, RingContents, ReportsFull, Stranded, DirtyBlock,
         RingInv;
    MountExactly(st, k, s);
    ReadBackIs(st, k, s);
    var (st', ret) := InitialState(st.d);
    if ret == RetNone {
      var k', s' := if ReportsFull(st.d, st.pos.zone) then 0 else k, if ReportsFull(st.d, st.pos.zone) then 0 else s;
      SoundShape(st', k', s');
      ReadableIsContents(st'.d, st'.pos.zone, k', s');
      EmptyReplay();
    }
  }

  // The zone the newest checkpoint names.
  function RingStart(d: Disk): nat
    requires FsDisk(d) && Locate(d).Some?
  {
    LbaZone(d.info, Locate(d).value.randzLba)
  }

  lemma FullBuffer(st: RandomZoneState, logLba: u64)
    requires st.Base() && !BufferEmpty(st.d)
    ensures TryRounds(st, logLba, map[], {}, STEPS).1 == RetErr
  {
    hide CopyPair, Tracks, Prepared, NewBlocks, AppendAll, EraseBuffer, Found, Buffered;
    RingShift(st.pos.zone, 0);
    CopyPairExactly(st.d, st.pos.zone);
  }

  // Whatever else a device holds: a ring that is not reported full is read as it
  // is, and one that is cannot be rewritten while the buffer holds anything.
  lemma MountOfAnyRing(d: Disk)
    requires Startable(d) && d.zones[DIRTY_ZONE] == []
    ensures !ReportsFull(d, RingStart(d)) ==> Mounted(d) == ReadBack(d)
    ensures ReportsFull(d, RingStart(d)) && !BufferEmpty(d) ==> Mounted(d) == None
  {
    hide Tracks, ReportsFull, ReadableRing, Replay, DirtyBlock, TryRounds, RecoverRing, InitialState, LocatePos,
         DeterminePtr;
    var (d', ret) := MarkDirty(d);
    InitialSteps(d, d', ret);
    DirtyFrame(d, d');
    var zone := RingStart(d);
    RingReadFrame(d, d', zone);
    var st := RandomZoneState(d', LocatePos(d).value, Position(zone, 0, 0, 0), Position(0, 0, 0, 0));
    RecoverySteps(st, Locate(d).value.logzLba);
    if ReportsFull(d, zone) && !BufferEmpty(d) {
      FullBuffer(st.(ptr := DeterminePtr(st.d, st.pos).0), Locate(d).value.logzLba);
    }
  }

  // The start of the ring is all the mount needs to find.
  lemma Starts(d: Disk, cblockPos: Position, zone: nat)
    requires Tracks(d, cblockPos) && InRing(zone) && zone % 2 == 0
    requires CheckpointAt(d, cblockPos).randzLba == PositionToLba(d.info, zone, 0)
    ensures Startable(d) && RingStart(d) == zone && ReadBack(d) == Some(Replay(ReadableRing(d, zone)))
  {
    hide ReadableRing, Replay, CheckpointAt, DeterminePtr;
    StartIsLocated(d, cblockPos, zone);
  }

  // The dirty block apart, an unmount changes nothing a mount looks at.
  lemma UnmountedStarts(d: Disk)
    requires Startable(d)
    ensures var d' := Unmounted(d);
            && Startable(d') && RingStart(d') == RingStart(d) && ReadBack(d') == ReadBack(d)
            && ReportsFull(d', RingStart(d)) == ReportsFull(d, RingStart(d))
            && d'.zones[DIRTY_ZONE] == [] && BufferEmpty(d') == BufferEmpty(d)
  {
    hide Tracks, ReportsFull, ReadBack, LocatePos;
    DirtyFrame(d, Unmounted(d));
  }

  // A device that was not unmounted cannot be mounted, whatever else it holds.
  lemma DirtyIsRefused(d: Disk)
    requires Startable(d) && d.zones[DIRTY_ZONE] != []
    ensures Mounted(d) == None
  {
  }
}
