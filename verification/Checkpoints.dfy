// The checkpoint log: two zones written in turn. A new checkpoint is appended
// first and only then is the zone it left reset, so that a power loss between
// the two device steps leaves a checkpoint to find.
module Checkpoints {
  import opened Basics
  import opened Disk
  import opened Codec

  const CBLOCK_ZONE: nat := 2
  const RANDZ_ZONE: nat := 4
  const RANDZ_BUFF_ZONE: nat := 10
  const LOGZ_ZONE: nat := 12

  // A device the file system can be laid out on.
  predicate FsDisk(d: Disk) {
    d.Valid() && d.info.sectorSize == SECTOR_SIZE && d.info.numZones > LOGZ_ZONE
  }

  function OtherZone(zone: nat): nat {
    if zone == CBLOCK_ZONE then CBLOCK_ZONE + 1 else CBLOCK_ZONE
  }

  // Where the checkpoint after the one at pos goes.
  function NextSlot(info: Info, pos: Position): Position
    requires info.Valid()
  {
    if pos.sector == info.zoneCapacity - 1 then SectorPos(OtherZone(pos.zone), 0)
    else SectorPos(pos.zone, pos.sector + 1)
  }

  // The first device step of an update, and the last one.
  function AppendStep(d: Disk, pos: Position, c: Checkpoint): Disk
    requires d.Valid() && NextSlot(d.info, pos).zone < |d.zones|
  {
    d.Append(NextSlot(d.info, pos).zone, EncodeCheckpoint(c))
  }

  function ResetStep(d: Disk, pos: Position): Disk
    requires d.Valid() && pos.zone < |d.zones|
  {
    if NextSlot(d.info, pos).zone != pos.zone then d.Reset(pos.zone) else d
  }

  predicate InCheckpointZone(d: Disk, pos: Position)
    requires FsDisk(d)
  {
    && pos == SectorPos(pos.zone, pos.sector)
    && (pos.zone == CBLOCK_ZONE || pos.zone == CBLOCK_ZONE + 1)
    && |d.zones[pos.zone]| == pos.sector + 1
  }

  // What the file system maintains: pos is the newest checkpoint, the last
  // sector of its zone, and the other zone is empty.
  predicate Tracks(d: Disk, pos: Position) {
    && FsDisk(d)
    && InCheckpointZone(d, pos)
    && d.zones[OtherZone(pos.zone)] == []
  }

  function CheckpointAt(d: Disk, pos: Position): Checkpoint
    requires FsDisk(d) && pos.zone < |d.zones| && pos.sector < |d.zones[pos.zone]|
  {
    DecodeCheckpoint(d.zones[pos.zone][pos.sector])
  }

  // The position get_checkpointblock_locate settles on.
  function LocatePos(d: Disk): (r: Option<Position>)
    requires FsDisk(d)
    ensures r.Some? ==> r.value.zone < |d.zones| && r.value.sector < |d.zones[r.value.zone]|
  {
    var first, second := d.zones[CBLOCK_ZONE], d.zones[CBLOCK_ZONE + 1];
    if first != [] then
      if |first| == d.info.zoneCapacity && second != [] then Some(SectorPos(CBLOCK_ZONE + 1, 0))
      else Some(SectorPos(CBLOCK_ZONE, |first| - 1))
    else if second != [] then Some(SectorPos(CBLOCK_ZONE + 1, |second| - 1))
    else None
  }

  // A checkpoint whose ring start is the largest 64-bit number stands for
  // "nothing found".
  function Locate(d: Disk): Option<Checkpoint>
    requires FsDisk(d)
  {
    match LocatePos(d)
    case None => None
    case Some(p) => if CheckpointAt(d, p).randzLba == U64_LIMIT - 1 then None else Some(CheckpointAt(d, p))
  }

  predicate Findable(c: Checkpoint) {
    c.randzLba != U64_LIMIT - 1
  }

  datatype CpState = CpState(d: Disk, pos: Position)

  function Update(st: CpState, c: Checkpoint): CpState
    requires Tracks(st.d, st.pos)
  {
    CpState(ResetStep(AppendStep(st.d, st.pos, c), st.pos), NextSlot(st.d.info, st.pos))
  }

  // An update keeps the log in order, only touches the checkpoint zones, and
  // makes the new checkpoint the one a scan finds.
  lemma UpdateTracks(st: CpState, c: Checkpoint)
    requires Tracks(st.d, st.pos)
    ensures var st' := Update(st, c);
            && Tracks(st'.d, st'.pos)
            && CheckpointAt(st'.d, st'.pos) == c
            && LocatePos(st'.d) == Some(st'.pos)
            && st'.d.info == st.d.info
            && forall z | 0 <= z < |st.d.zones| && z != CBLOCK_ZONE && z != CBLOCK_ZONE + 1 ::
                 st'.d.zones[z] == st.d.zones[z]
    ensures st.d.Appendable(NextSlot(st.d.info, st.pos).zone)
    ensures |st.d.zones[NextSlot(st.d.info, st.pos).zone]| == NextSlot(st.d.info, st.pos).sector
  {
    CheckpointRoundTrip(c);
  }

  lemma TrackedIsLocated(d: Disk, pos: Position)
    requires Tracks(d, pos)
    ensures LocatePos(d) == Some(pos)
  {
  }

  // State after any number of complete updates.
  function Updates(st: CpState, cs: seq<Checkpoint>): (r: CpState)
    requires Tracks(st.d, st.pos)
    ensures Tracks(r.d, r.pos) && r.d.info == st.d.info
    decreases |cs|
  {
    if cs == [] then st
    else
      UpdateTracks(st, cs[0]);
      Updates(Update(st, cs[0]), cs[1..])
  }

  // The checkpoint that was written last.
  function Newest(st: CpState, cs: seq<Checkpoint>): Checkpoint
    requires Tracks(st.d, st.pos)
  {
    if cs == [] then CheckpointAt(st.d, st.pos) else cs[|cs| - 1]
  }

  lemma {:induction false} NewestAfterUpdates(st: CpState, cs: seq<Checkpoint>)
    requires Tracks(st.d, st.pos)
    ensures var r := Updates(st, cs);
            CheckpointAt(r.d, r.pos) == Newest(st, cs) && LocatePos(r.d) == Some(r.pos)
    decreases |cs|
  {
    if cs == [] {
      TrackedIsLocated(st.d, st.pos);
    } else {
      UpdateTracks(st, cs[0]);
      NewestAfterUpdates(Update(st, cs[0]), cs[1..]);
      assert |cs| > 1 ==> cs[1..][|cs| - 2] == cs[|cs| - 1];
    }
  }

  // Where power can fail during one update.
  datatype Cut = BeforeAppend | BetweenSteps | AfterReset

  function DiskAtCut(st: CpState, c: Checkpoint, cut: Cut): (d: Disk)
    requires Tracks(st.d, st.pos)
    ensures FsDisk(d)
  {
    UpdateTracks(st, c);
    match cut
    case BeforeAppend => st.d
    case BetweenSteps => AppendStep(st.d, st.pos, c)
    case AfterReset => Update(st, c).d
  }

  // Between the two steps the scan finds the new checkpoint exactly when zones
  // hold more than one sector or the log is moving forward.
  lemma CutBetweenSteps(st: CpState, c: Checkpoint)
    requires Tracks(st.d, st.pos)
    ensures var d := DiskAtCut(st, c, BetweenSteps);
            var next := NextSlot(st.d.info, st.pos);
            && next.sector < |d.zones[next.zone]|
            && CheckpointAt(d, next) == c
            && (LocatePos(d) == Some(next) <==> st.d.info.zoneCapacity >= 2 || st.pos.zone == CBLOCK_ZONE)
  {
    UpdateTracks(st, c);
    CheckpointRoundTrip(c);
  }

  // Crash safety: whatever the history of updates, and wherever in the next
  // one the power fails, a scan of the device finds the new checkpoint if its
  // append happened and the previous one otherwise.
  lemma CrashSafety(st: CpState, cs: seq<Checkpoint>, c: Checkpoint, cut: Cut)
    requires Tracks(st.d, st.pos) && Findable(Newest(st, cs)) && Findable(c)
    requires st.d.info.zoneCapacity >= 2
    ensures Locate(DiskAtCut(Updates(st, cs), c, cut))
            == Some(if cut.BeforeAppend? then Newest(st, cs) else c)
  {
    NewestAfterUpdates(st, cs);
    var r := Updates(st, cs);
    UpdateTracks(r, c);
    if cut.BetweenSteps? {
      CutBetweenSteps(r, c);
    }
  }

  // After a restart from such a cut the zone left behind is still full.
  predicate Unfinished(d: Disk, pos: Position) {
    && FsDisk(d)
    && InCheckpointZone(d, pos)
    && |d.zones[OtherZone(pos.zone)]| == d.info.zoneCapacity
  }

  lemma RestartAfterCut(st: CpState, c: Checkpoint)
    requires Tracks(st.d, st.pos) && st.d.info.zoneCapacity >= 2
    requires st.pos.sector == st.d.info.zoneCapacity - 1
    ensures var d := DiskAtCut(st, c, BetweenSteps);
            Unfinished(d, NextSlot(st.d.info, st.pos)) && LocatePos(d) == Some(NextSlot(st.d.info, st.pos))
  {
    UpdateTracks(st, c);
    CutBetweenSteps(st, c);
  }

  // Nothing finishes the missing reset, so the checkpoint at the position is only
  // found while the scan does not run into the full zone left behind: exactly
  // until the next update when the log had moved forward, and exactly until its
  // zone fills up when it had wrapped around.
  lemma UnfinishedLocated(d: Disk, pos: Position)
    requires Unfinished(d, pos)
    ensures LocatePos(d) == Some(pos)
            <==> if pos.zone == CBLOCK_ZONE then pos.sector + 1 < d.info.zoneCapacity else pos.sector == 0
    ensures LocatePos(d) == Some(pos) || LocatePos(d) == Some(SectorPos(CBLOCK_ZONE + 1, 0))
  {
  }

  // One more update after a forward cut: the scan returns the older checkpoint.
  lemma SecondUpdateIsLost(d: Disk, c: Checkpoint)
    requires Unfinished(d, SectorPos(CBLOCK_ZONE + 1, 0)) && d.info.zoneCapacity >= 2
    ensures var d' := AppendStep(d, SectorPos(CBLOCK_ZONE + 1, 0), c);
            && Unfinished(d', SectorPos(CBLOCK_ZONE + 1, 1))
            && CheckpointAt(d', SectorPos(CBLOCK_ZONE + 1, 1)) == c
            && LocatePos(d') == Some(SectorPos(CBLOCK_ZONE + 1, 0))
            && CheckpointAt(d', SectorPos(CBLOCK_ZONE + 1, 0)) == CheckpointAt(d, SectorPos(CBLOCK_ZONE + 1, 0))
  {
    CheckpointRoundTrip(c);
  }

  // update_checkpointblock wherever the other zone stands: it refuses to move
  // into a full zone, and takes it for an error to arrive in a zone that is not
  // empty.
  function TryUpdate(st: CpState, c: Checkpoint): (CpState, Ret)
    requires FsDisk(st.d) && InCheckpointZone(st.d, st.pos)
  {
    var next := NextSlot(st.d.info, st.pos);
    if |st.d.zones[next.zone]| == st.d.info.zoneCapacity then (st, RetErr)
    else if |st.d.zones[next.zone]| != next.sector then (st.(d := AppendStep(st.d, st.pos, c)), RetErr)
    else (CpState(ResetStep(AppendStep(st.d, st.pos, c), st.pos), next), RetNone)
  }

  lemma TrackedUpdate(st: CpState, c: Checkpoint)
    requires Tracks(st.d, st.pos)
    ensures TryUpdate(st, c) == (Update(st, c), RetNone)
  {
  }

  // An update on a log left unfinished: the zone fills up, the zone left behind
  // stays as it is, and the update that would have to move there fails without
  // a trace.
  lemma UnfinishedUpdate(st: CpState, c: Checkpoint)
    requires Unfinished(st.d, st.pos)
    ensures var (st', ret) := TryUpdate(st, c);
            && Unfinished(st'.d, st'.pos) && st'.d.info == st.d.info
            && st'.d.zones[OtherZone(st.pos.zone)] == st.d.zones[OtherZone(st.pos.zone)]
            && (ret == RetErr <==> st.pos.sector + 1 == st.d.info.zoneCapacity)
            && (ret == RetErr ==> st' == st)
            && (ret != RetErr ==>
                  && ret == RetNone
                  && st'.pos == SectorPos(st.pos.zone, st.pos.sector + 1)
                  && st'.d.zones[st.pos.zone] == st.d.zones[st.pos.zone] + [EncodeCheckpoint(c)])
  {
  }

  // Any number of updates on such a log, going on after errors.
  function TryAll(st: CpState, cs: seq<Checkpoint>): (r: CpState)
    requires Unfinished(st.d, st.pos)
    ensures Unfinished(r.d, r.pos) && r.d.info == st.d.info
    decreases |cs|
  {
    if cs == [] then st
    else
      UnfinishedUpdate(st, cs[0]);
      TryAll(TryUpdate(st, cs[0]).0, cs[1..])
  }

  // How many updates still fit the zone.
  function Fitting(st: CpState, cs: seq<Checkpoint>): nat
    requires Unfinished(st.d, st.pos)
  {
    var room := st.d.info.zoneCapacity - 1 - st.pos.sector;
    if |cs| < room then |cs| else room
  }

  lemma {:induction false} UnfinishedUpdates(st: CpState, cs: seq<Checkpoint>)
    requires Unfinished(st.d, st.pos)
    ensures var r, m := TryAll(st, cs), Fitting(st, cs);
            && r.pos == SectorPos(st.pos.zone, st.pos.sector + m)
            && r.d.zones[OtherZone(st.pos.zone)] == st.d.zones[OtherZone(st.pos.zone)]
            && st.d.zones[st.pos.zone] <= r.d.zones[st.pos.zone]
            && CheckpointAt(r.d, r.pos) == if m == 0 then CheckpointAt(st.d, st.pos) else cs[m - 1]
    decreases |cs|
  {
    hide TryUpdate, EncodeCheckpoint, DecodeCheckpoint;
    if cs != [] {
      UnfinishedUpdate(st, cs[0]);
      CheckpointRoundTrip(cs[0]);
      var st1 := TryUpdate(st, cs[0]).0;
      UnfinishedUpdates(st1, cs[1..]);
      var m := Fitting(st, cs);
      assert m > 1 ==> cs[1..][m - 2] == cs[m - 1];
    }
  }

  // What a scan finds after updates on a log left unfinished at the front of a
  // zone, and when the next update fails.
  lemma UnfinishedFinds(st: CpState, cs: seq<Checkpoint>, another: Checkpoint)
    requires Unfinished(st.d, st.pos) && st.pos.sector == 0
    ensures var r, cap := TryAll(st, cs), st.d.info.zoneCapacity;
            && LocatePos(r.d).Some?
            && CheckpointAt(r.d, LocatePos(r.d).value)
               == (if st.pos.zone != CBLOCK_ZONE then CheckpointAt(st.d, st.pos)
                   else if |cs| + 1 < cap then (if cs == [] then CheckpointAt(st.d, st.pos) else cs[|cs| - 1])
                   else CheckpointAt(st.d, SectorPos(CBLOCK_ZONE + 1, 0)))
            && (TryUpdate(r, another).1 == RetErr <==> |cs| + 1 >= cap)
            && (TryUpdate(r, another).1 == RetErr ==> TryUpdate(r, another).0 == r)
  {
    hide EncodeCheckpoint, DecodeCheckpoint, TryUpdate, TryAll;
    UnfinishedUpdates(st, cs);
    var r := TryAll(st, cs);
    UnfinishedUpdate(r, another);
    UnfinishedLocated(r.d, r.pos);
    assert r.d.zones[st.pos.zone][0] == st.d.zones[st.pos.zone][0];
  }

  // What becomes of a checkpoint log after a power cut between the two steps of
  // an update and a restart, however many updates follow. When the log had
  // moved forward the scan returns the checkpoint of the cut for ever. When it
  // had wrapped around the scan returns the newest checkpoint until its zone is
  // full, and from then on the oldest one of the zone that was never reset. In
  // both cases every update fails once the zone is full.
  lemma UpdatesAfterCut(st: CpState, c: Checkpoint, cs: seq<Checkpoint>, another: Checkpoint)
    requires Tracks(st.d, st.pos) && st.d.info.zoneCapacity >= 2
    requires st.pos.sector == st.d.info.zoneCapacity - 1
    ensures var d, next, cap := DiskAtCut(st, c, BetweenSteps), NextSlot(st.d.info, st.pos), st.d.info.zoneCapacity;
            && Unfinished(d, next)
            && var r := TryAll(CpState(d, next), cs);
               && LocatePos(r.d).Some?
               && CheckpointAt(r.d, LocatePos(r.d).value)
                  == (if st.pos.zone == CBLOCK_ZONE then c
                      else if |cs| + 1 < cap then (if cs == [] then c else cs[|cs| - 1])
                      else CheckpointAt(st.d, SectorPos(CBLOCK_ZONE + 1, 0)))
               && (TryUpdate(r, another).1 == RetErr <==> |cs| + 1 >= cap)
               && (TryUpdate(r, another).1 == RetErr ==> TryUpdate(r, another).0 == r)
  {
    hide EncodeCheckpoint, DecodeCheckpoint, TryUpdate, TryAll, LocatePos;
    RestartAfterCut(st, c);
    CutBetweenSteps(st, c);
    UnfinishedFinds(CpState(DiskAtCut(st, c, BetweenSteps), NextSlot(st.d.info, st.pos)), cs, another);
  }
}
