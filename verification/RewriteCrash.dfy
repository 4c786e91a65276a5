// Power cuts inside a round of rewrite_random_blocks_full. The buffer holds a
// copy of the evacuated zones, but a mount never reads it, so until the new
// blocks are written the ring is all there is. The dirty block stays behind as
// well, and while it is there no mount succeeds at all.
module RewriteCrash {
  import opened Basics
  import opened Disk
  import opened Codec
  import opened Checkpoints
  import opened NatLog
  import opened Ring
  import opened Compaction
  import opened CompactionMeaning
  import opened NatFlush
  import opened Mount
  import opened Remount

  ghost predicate AtRound(st: RandomZoneState) {
    exists k, s :: st.Inv(k, s) && k >= 2
  }

  // The blocks behind the first two zones of the ring, and the new blocks of a
  // round.
  ghost function Rest(st: RandomZoneState): (bs: seq<Sector>)
    requires AtRound(st)
    ensures AllBlocks(bs)
  {
    var k: nat, s: nat :| st.Inv(k, s) && k >= 2;
    EvacuatedRing(st.d, st.pos.zone, k, s);
    RingContents(Evacuated(st.d, st.pos.zone), AdvancePair(st.pos.zone))
  }

  ghost function Additions(st: RandomZoneState, lbas: NatMap, pending: set<u64>): (bs: seq<Sector>)
    requires AtRound(st) && Rewritable(lbas, pending)
    ensures AllBlocks(bs)
  {
    RingShift(st.pos.zone, 0);
    NewBlocks(Found(st.d, st.pos.zone, pending), lbas)
  }

  ghost function NewPrefix(st: RandomZoneState, lbas: NatMap, pending: set<u64>, n: nat): (bs: seq<Sector>)
    requires AtRound(st) && Rewritable(lbas, pending)
    ensures AllBlocks(bs)
  {
    var bs := Additions(st, lbas, pending);
    bs[..Min(n, |bs|)]
  }

  lemma SameTail<T>(a: seq<T>, b: seq<T>, c: seq<T>)
    requires a + b == a + c
    ensures b == c
  {
    assert (a + b)[|a|..] == b && (a + c)[|a|..] == c;
  }

  lemma RestIs(st: RandomZoneState, logLba: u64, k: nat, s: nat)
    requires st.Inv(k, s) && k >= 2
    ensures var p := Prepared(st, logLba);
            && RingInv(p.d, p.pos, p.ptr, k - 2, s) && FsDisk(p.d) && InRing(p.pos.zone)
            && Tracks(p.d, p.cblockPos)
            && CheckpointAt(p.d, p.cblockPos).randzLba == PositionToLba(p.d.info, p.pos.zone, 0)
            && p.d.info == st.d.info
            && Rest(st) == RingContents(p.d, p.pos.zone)
    ensures InRing(st.pos.zone + 1)
    ensures RingContents(st.d, st.pos.zone) == st.d.zones[st.pos.zone] + st.d.zones[st.pos.zone + 1] + Rest(st)
  {
    hide RingContents, Prepared, Evacuated, Tracks, CheckpointAt, Shape;
    RingShift(st.pos.zone, 0);
    PrepareStep(st, logLba, k, s);
    EvacuatedRing(st.d, st.pos.zone, k, s);
    SameTail(st.d.zones[st.pos.zone] + st.d.zones[st.pos.zone + 1], Rest(st),
             RingContents(Prepared(st, logLba).d, Prepared(st, logLba).pos.zone));
  }

  // After the device steps of a round: the copy to the buffer, the two resets,
  // the append of the checkpoint, and, with the checkpoint updated, a number of
  // the new blocks.
  datatype RoundCut = Copied | FirstReset | BothReset | Noted | Written(n: nat)

  function EvacuatingDisk(d: Disk, zone: nat, cut: RoundCut): (r: Disk)
    requires FsDisk(d) && InRing(zone) && InRing(zone + 1) && (cut.Copied? || cut.FirstReset? || cut.BothReset?)
    ensures FsDisk(r)
  {
    match cut
    case Copied => Buffered(d, zone)
    case FirstReset => Buffered(d, zone).Reset(zone)
    case BothReset => Evacuated(d, zone)
  }

  ghost function Evacuating(st: RandomZoneState): (cp: CpState)
    requires AtRound(st)
    ensures Tracks(cp.d, cp.pos)
  {
    EvacuatedTracks(st);
    CpState(Evacuated(st.d, st.pos.zone), st.cblockPos)
  }

  // The checkpoint is appended, and the zone it may have left is not reset yet.
  ghost function NotedDisk(st: RandomZoneState, logLba: u64): (d: Disk)
    requires AtRound(st)
    ensures FsDisk(d)
  {
    DiskAtCut(Evacuating(st), StepCheckpoint(st, logLba), BetweenSteps)
  }

  ghost function WrittenDisk(st: RandomZoneState, logLba: u64, bs: seq<Sector>): (d: Disk)
    requires AtRound(st) && AllBlocks(bs)
    ensures FsDisk(d)
  {
    PreparedDisk(st, logLba);
    var p := Prepared(st, logLba);
    AppendAll(RingState(p.d, p.pos, p.ptr), bs).0.d
  }

  ghost function DiskInRound(st: RandomZoneState, logLba: u64, lbas: NatMap, pending: set<u64>,
                             cut: RoundCut): (d: Disk)
    requires AtRound(st) && Rewritable(lbas, pending)
    ensures FsDisk(d)
  {
    RingShift(st.pos.zone, 0);
    match cut
    case Noted => NotedDisk(st, logLba)
    case Written(n) => WrittenDisk(st, logLba, NewPrefix(st, lbas, pending, n))
    case _ => EvacuatingDisk(st.d, st.pos.zone, cut)
  }

  // A device a mount can start from, with the buffer in use and the dirty block
  // as it was; what its ring gives, and whether it is reported full.
  ghost predicate CutOutcome(st: RandomZoneState, d: Disk, m: NatMap, full: bool)
    requires FsDisk(st.d)
  {
    && FsDisk(d) && Startable(d) && !BufferEmpty(d)
    && d.zones[DIRTY_ZONE] == st.d.zones[DIRTY_ZONE]
    && ReadBack(d) == Some(m)
    && ReportsFull(d, RingStart(d)) == full
  }

  lemma PairIsThere(st: RandomZoneState, k: nat, s: nat)
    requires st.Inv(k, s) && k >= 2
    ensures InRing(st.pos.zone + 1) && st.d.zones[st.pos.zone] != [] && st.d.zones[st.pos.zone + 1] != []
  {
    RingShift(st.pos.zone, 0);
    assert |st.d.zones[RingZone(st.pos.zone, 0)]| == st.d.info.zoneCapacity;
    assert |st.d.zones[RingZone(st.pos.zone, 1)]| == st.d.info.zoneCapacity;
  }

  // Outside the checkpoint log and the ring nothing matters to the ring.
  lemma CutCopied(st: RandomZoneState, k: nat, s: nat)
    requires st.Inv(k, s) && k >= 2
    ensures InRing(st.pos.zone + 1)
    ensures CutOutcome(st, Buffered(st.d, st.pos.zone), Replay(RingContents(st.d, st.pos.zone)),
                       ReportsFull(st.d, st.pos.zone))
  {
    hide Replay, RingContents, ReadableRing, DeterminePtr, Startable, ReadBack;
    RingShift(st.pos.zone, 0);
    var d := Buffered(st.d, st.pos.zone);
    PairIsThere(st, k, s);
    RingReadFrame(st.d, d, st.pos.zone);
    Starts(d, st.cblockPos, st.pos.zone);
    ReadableIsContents(st.d, st.pos.zone, k, s);
  }

  lemma EmptyStart(d: Disk, zone: nat)
    requires FsDisk(d) && InRing(zone) && d.zones[zone] == []
    ensures Replay(ReadableRing(d, zone)) == map[] && !ReportsFull(d, zone)
  {
    assert RingZone(zone, 0) == zone;
  }

  // As soon as the first zone is reset, the checkpoint names an empty zone, and
  // a mount stops there: it finds no inode at all.
  lemma CutReset(st: RandomZoneState, d: Disk)
    requires (exists k, s :: st.Inv(k, s)) && FsDisk(d) && d.info == st.d.info && !BufferEmpty(d)
    requires d.zones[DIRTY_ZONE..RANDZ_ZONE] == st.d.zones[DIRTY_ZONE..RANDZ_ZONE] && d.zones[st.pos.zone] == []
    ensures CutOutcome(st, d, map[], false)
  {
    hide Replay, ReadableRing, ReportsFull, Startable, ReadBack;
    var zs := d.zones[DIRTY_ZONE..RANDZ_ZONE];
    assert zs[0] == d.zones[DIRTY_ZONE] == st.d.zones[DIRTY_ZONE];
    assert zs[1] == d.zones[CBLOCK_ZONE] == st.d.zones[CBLOCK_ZONE];
    assert zs[2] == d.zones[CBLOCK_ZONE + 1] == st.d.zones[CBLOCK_ZONE + 1];
    Starts(d, st.cblockPos, st.pos.zone);
    EmptyStart(d, st.pos.zone);
  }

  // With the checkpoint appended, the scan finds it unless zones hold a single
  // sector and the log is moving back; then it still names the evacuated zones.
  lemma NotedFrame(st: RandomZoneState, logLba: u64)
    requires AtRound(st)
    ensures InRing(st.pos.zone + 1) && FsDisk(Prepared(st, logLba).d) && InRing(AdvancePair(st.pos.zone))
    ensures var d, p := NotedDisk(st, logLba), Prepared(st, logLba);
            && d.info == st.d.info
            && (forall z | RANDZ_ZONE <= z < LOGZ_ZONE :: d.zones[z] == p.d.zones[z])
            && d.zones[DIRTY_ZONE] == st.d.zones[DIRTY_ZONE]
            && d.zones[RANDZ_BUFF_ZONE] == st.d.zones[st.pos.zone]
            && d.zones[st.pos.zone] == []
  {
    hide CheckpointAt;
    RingShift(st.pos.zone, 0);
    EvacuatedZones(st.d, st.pos.zone);
    UpdateTracks(Evacuating(st), StepCheckpoint(st, logLba));
  }

  predicate NewerIsFound(info: Info, cblockPos: Position) {
    info.zoneCapacity >= 2 || cblockPos.zone == CBLOCK_ZONE
  }

  lemma OlderIsFound(st: CpState, c: Checkpoint)
    requires Tracks(st.d, st.pos) && !NewerIsFound(st.d.info, st.pos)
    ensures var d := DiskAtCut(st, c, BetweenSteps);
            LocatePos(d) == Some(st.pos) && CheckpointAt(d, st.pos) == CheckpointAt(st.d, st.pos)
  {
    CutBetweenSteps(st, c);
  }

  // A device whose newest checkpoint is this one.
  lemma StartsAt(d: Disk, c: Checkpoint, zone: nat)
    requires FsDisk(d) && InRing(zone) && !ReportsFull(d, zone)
    requires LocatePos(d).Some? && CheckpointAt(d, LocatePos(d).value) == c && c.randzLba == PositionToLba(d.info, zone, 0)
    ensures Startable(d) && RingStart(d) == zone && ReadBack(d) == Some(Replay(ReadableRing(d, zone)))
  {
    hide ReadableRing, Replay, CheckpointAt, ReportsFull, LocatePos;
    LbaRoundTrip(d.info, zone, 0);
    RingLbaFindable(d.info, zone);
  }

  lemma PreparedStart(st: RandomZoneState, logLba: u64)
    requires st.Base()
    ensures Prepared(st, logLba).pos.zone == AdvancePair(st.pos.zone)
  {
  }

  lemma KeptBounds(st: RandomZoneState, k: nat, s: nat)
    requires st.Kept(k, s)
    ensures k <= RING_ZONES
  {
  }

  // The evacuated ring, wherever the rest of the device stands.
  lemma RestReads(st: RandomZoneState, d: Disk, logLba: u64, k: nat, s: nat)
    requires st.Inv(k, s) && k >= 2 && FsDisk(d) && d.info == st.d.info
    requires FsDisk(Prepared(st, logLba).d) && InRing(AdvancePair(st.pos.zone))
    requires forall z | RANDZ_ZONE <= z < RANDZ_BUFF_ZONE :: d.zones[z] == Prepared(st, logLba).d.zones[z]
    ensures ReadableRing(d, AdvancePair(st.pos.zone)) == Rest(st) && !ReportsFull(d, AdvancePair(st.pos.zone))
  {
    hide RingContents, Prepared, Rest, ReadableRing, Tracks, CheckpointAt, DeterminePtr;
    RestIs(st, logLba, k, s);
    var p, zone := Prepared(st, logLba), AdvancePair(st.pos.zone);
    assert p.pos.zone == zone by { PreparedStart(st, logLba); }
    RingReadFrame(p.d, d, zone);
    ReadableIsContents(p.d, zone, k - 2, s);
    ReportsFullExactly(p.d, zone, k - 2, s);
    KeptBounds(st, k, s);
  }

  lemma EvacuatedCheckpoint(st: RandomZoneState)
    requires AtRound(st)
    ensures CheckpointAt(Evacuating(st).d, st.cblockPos) == CheckpointAt(st.d, st.cblockPos)
  {
    RingShift(st.pos.zone, 0);
    EvacuatedZones(st.d, st.pos.zone);
  }

  lemma NotedFound(st: RandomZoneState, logLba: u64)
    requires AtRound(st)
    ensures var d := NotedDisk(st, logLba);
            && LocatePos(d).Some?
            && CheckpointAt(d, LocatePos(d).value)
               == if NewerIsFound(st.d.info, st.cblockPos) then StepCheckpoint(st, logLba)
                  else CheckpointAt(st.d, st.cblockPos)
  {
    hide CheckpointAt, LocatePos, Rest;
    RingShift(st.pos.zone, 0);
    EvacuatedZones(st.d, st.pos.zone);
    CutBetweenSteps(Evacuating(st), StepCheckpoint(st, logLba));
    if !NewerIsFound(st.d.info, st.cblockPos) {
      OlderIsFound(Evacuating(st), StepCheckpoint(st, logLba));
      EvacuatedCheckpoint(st);
    }
  }

  lemma CutNoted(st: RandomZoneState, logLba: u64, k: nat, s: nat)
    requires st.Inv(k, s) && k >= 2
    ensures CutOutcome(st, NotedDisk(st, logLba),
                       if NewerIsFound(st.d.info, st.cblockPos) then Replay(Rest(st)) else map[], false)
  {
    hide Replay, Rest, ReadableRing, Tracks, CheckpointAt, Prepared, ReportsFull, LocatePos, Startable, ReadBack,
         NotedDisk;
    var d := NotedDisk(st, logLba);
    NotedFrame(st, logLba);
    PairIsThere(st, k, s);
    NotedFound(st, logLba);
    if NewerIsFound(st.d.info, st.cblockPos) {
      RestReads(st, d, logLba, k, s);
      StartsAt(d, StepCheckpoint(st, logLba), AdvancePair(st.pos.zone));
    } else {
      EmptyStart(d, st.pos.zone);
      StartsAt(d, CheckpointAt(d, LocatePos(d).value), st.pos.zone);
    }
  }

  // A ring of that many blocks is reported full.
  predicate IsReported(info: Info, zone: nat, blocks: nat) {
    var room := RING_ZONES * info.zoneCapacity - blocks;
    room == 0 || (zone != RANDZ_ZONE && room == 1)
  }

  // With the checkpoint updated a mount reads what was not evacuated, and the
  // new blocks written so far.
  lemma BlocksRead(p: RandomZoneState, bs: seq<Sector>, k: nat, s: nat)
    requires RingInv(p.d, p.pos, p.ptr, k, s) && k < RING_ZONES && AllBlocks(bs) && |bs| <= Free(p.d, k, s)
    requires p.pos.zone % 2 == 0
    requires Tracks(p.d, p.cblockPos) && CheckpointAt(p.d, p.cblockPos).randzLba == PositionToLba(p.d.info, p.pos.zone, 0)
    ensures var d := AppendAll(RingState(p.d, p.pos, p.ptr), bs).0.d;
            && FsDisk(d) && Startable(d) && RingStart(d) == p.pos.zone
            && ReadBack(d) == Some(Replay(RingContents(p.d, p.pos.zone)) + Replay(bs))
            && SameOutsideRing(p.d, d)
            && ReportsFull(d, p.pos.zone) == IsReported(p.d.info, p.pos.zone, |RingContents(p.d, p.pos.zone)| + |bs|)
  {
    hide Replay, RingContents, ReadableRing, AppendAll, ReportsFull, Startable, ReadBack, Free, Shape, LeadingFull;
    var k', s' := AppendAllRun(RingState(p.d, p.pos, p.ptr), bs, k, s);
    var (r, n, ret) := AppendAll(RingState(p.d, p.pos, p.ptr), bs);
    assert bs[..n] == bs;
    Starts(r.d, p.cblockPos, p.pos.zone);
    ReadableIsContents(r.d, p.pos.zone, k', s');
    ReplayConcat(RingContents(p.d, p.pos.zone), bs);
    ReportsFullByLength(r.d, p.pos.zone, k', s');
  }

  lemma AdditionsFit(st: RandomZoneState, p: RandomZoneState, lbas: NatMap, pending: set<u64>, k: nat, s: nat)
    requires st.Inv(k, s) && k >= 2 && Rewritable(lbas, pending) && p.d.info == st.d.info
    ensures |Additions(st, lbas, pending)| <= Free(p.d, k - 2, s) && k - 2 < RING_ZONES
  {
    hide NewBlocks, Found, Tracks, CheckpointAt;
    NewBlocksFit(st.d, st.pos.zone, lbas, pending, k, s);
    FreeAfterPrepare(st, p, k, s);
    FreeIsRest(st.d, st.pos.zone, k, s);
  }

  lemma PreparedKeeps(st: RandomZoneState, logLba: u64)
    requires st.Base()
    ensures InRing(st.pos.zone + 1)
    ensures var p := Prepared(st, logLba);
            && FsDisk(p.d) && p.pos.zone == AdvancePair(st.pos.zone) && p.pos.zone % 2 == 0
            && p.d.zones[DIRTY_ZONE] == st.d.zones[DIRTY_ZONE]
            && p.d.zones[RANDZ_BUFF_ZONE] == st.d.zones[st.pos.zone]
  {
    hide CheckpointAt;
    RingShift(st.pos.zone, 0);
    EvacuatedZones(st.d, st.pos.zone);
    EvacuatedTracks(st);
    UpdateTracks(CpState(Evacuated(st.d, st.pos.zone), st.cblockPos), StepCheckpoint(st, logLba));
  }

  lemma CutWritten(st: RandomZoneState, logLba: u64, lbas: NatMap, pending: set<u64>, k: nat, s: nat, n: nat)
    requires st.Inv(k, s) && k >= 2 && Rewritable(lbas, pending)
    ensures CutOutcome(st, DiskInRound(st, logLba, lbas, pending, Written(n)),
                       Replay(Rest(st)) + Replay(NewPrefix(st, lbas, pending, n)),
                       IsReported(st.d.info, AdvancePair(st.pos.zone), |Rest(st)| + |NewPrefix(st, lbas, pending, n)|))
  {
    hide Replay, RingContents, ReadableRing, NewBlocks, Found, Prepared, Rest, RandomZoneState.Sound, Tracks,
         CheckpointAt, AppendAll, RingInv, Free, ReadBack, Shape, Startable, ReportsFull, IsReported;
    RestIs(st, logLba, k, s);
    PairIsThere(st, k, s);
    InvBase(st, k, s);
    PreparedKeeps(st, logLba);
    var p := Prepared(st, logLba);
    AdditionsFit(st, p, lbas, pending, k, s);
    BlocksRead(p, NewPrefix(st, lbas, pending, n), k - 2, s);
  }

  // What the ring gives after a power cut inside a round: everything while the
  // zones are only copied; nothing between the first reset and the checkpoint;
  // and from then on the blocks that were not evacuated, and those of the new
  // blocks that were written.
  ghost function RingAtCut(st: RandomZoneState, lbas: NatMap, pending: set<u64>, cut: RoundCut): NatMap
    requires AtRound(st) && Rewritable(lbas, pending)
  {
    match cut
    case Copied => Replay(RingContents(st.d, st.pos.zone))
    case Noted => if NewerIsFound(st.d.info, st.cblockPos) then Replay(Rest(st)) else map[]
    case Written(n) => Replay(Rest(st)) + Replay(NewPrefix(st, lbas, pending, n))
    case _ => map[]
  }

  // Whether it is reported full.
  ghost predicate ReportedAtCut(st: RandomZoneState, lbas: NatMap, pending: set<u64>, cut: RoundCut)
    requires AtRound(st) && Rewritable(lbas, pending)
  {
    match cut
    case Copied => ReportsFull(st.d, st.pos.zone)
    case Written(n) => IsReported(st.d.info, AdvancePair(st.pos.zone), |Rest(st)| + |NewPrefix(st, lbas, pending, n)|)
    case _ => false
  }

  lemma CutInside(st: RandomZoneState, logLba: u64, lbas: NatMap, pending: set<u64>, cut: RoundCut)
    requires AtRound(st) && Rewritable(lbas, pending)
    ensures CutOutcome(st, DiskInRound(st, logLba, lbas, pending, cut), RingAtCut(st, lbas, pending, cut),
                       ReportedAtCut(st, lbas, pending, cut))
  {
    hide Replay, RingContents, NewBlocks, Found, Prepared, Rest, Tracks, CheckpointAt, AppendAll, ReadBack, Additions,
         ReportsFull, IsReported, NotedDisk, CutOutcome;
    var k: nat, s: nat :| st.Inv(k, s) && k >= 2;
    PairIsThere(st, k, s);
    RingShift(st.pos.zone, 0);
    match cut
    case Copied => CutCopied(st, k, s);
    case FirstReset => CutReset(st, DiskInRound(st, logLba, lbas, pending, FirstReset));
    case BothReset => CutReset(st, DiskInRound(st, logLba, lbas, pending, BothReset));
    case Noted => CutNoted(st, logLba, k, s);
    case Written(n) => CutWritten(st, logLba, lbas, pending, k, s, n);
  }

  // What becomes of a mount after such a cut. While the dirty block is there it
  // fails. Without it, it gives what the ring gives, unless the ring is reported
  // full: then it fails as well, because the buffer is still in use.
  lemma MountInsideRound(st: RandomZoneState, logLba: u64, lbas: NatMap, pending: set<u64>, cut: RoundCut)
    requires AtRound(st) && Rewritable(lbas, pending)
    ensures var d := DiskInRound(st, logLba, lbas, pending, cut);
            && Startable(d) && Startable(Unmounted(d))
            && ReadBack(d) == Some(RingAtCut(st, lbas, pending, cut))
            && (st.d.zones[DIRTY_ZONE] != [] ==> Mounted(d) == None)
            && Mounted(Unmounted(d)) == if ReportedAtCut(st, lbas, pending, cut) then None
                                        else Some(RingAtCut(st, lbas, pending, cut))
  {
    hide RingAtCut, ReportedAtCut, DiskInRound, Startable, Mounted, ReadBack, BufferEmpty, ReportsFull,
         RandomZoneState.Sound;
    CutInside(st, logLba, lbas, pending, cut);
    var d := DiskInRound(st, logLba, lbas, pending, cut);
    UnmountedStarts(d);
    MountOfAnyRing(Unmounted(d));
    if d.zones[DIRTY_ZONE] != [] {
      DirtyIsRefused(d);
    }
  }

  // Exactly which inodes such a cut hides from a mount that succeeds: those
  // whose entries were all evacuated, and whose new entry is not written yet.
  lemma HiddenExactly(st: RandomZoneState, logLba: u64, lbas: NatMap, pending: set<u64>, n: nat, x: u64)
    requires AtRound(st) && Rewritable(lbas, pending)
    ensures var d := Unmounted(DiskInRound(st, logLba, lbas, pending, Written(n)));
            && Startable(d)
            && (LookupMounted(d, x).NotFound?
                <==> !ReportedAtCut(st, lbas, pending, Written(n))
                     && x !in Replay(Rest(st)) && x !in Replay(NewPrefix(st, lbas, pending, n)))
  {
    hide Replay, Mounted, Startable, InitialState, DiskInRound, NewPrefix, Rest, RandomZoneState.Sound, IsReported;
    MountInsideRound(st, logLba, lbas, pending, Written(n));
  }
}
