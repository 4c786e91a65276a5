// Compaction of the full random zone: two zones at a time are copied to the
// random buffer, reset, and the inodes found in them that are still pending
// are written behind the ring with their current address.
module Compaction {
  import opened Basics
  import opened Disk
  import opened Codec
  import opened Checkpoints
  import opened NatLog
  import opened Ring

  predicate BufferEmpty(d: Disk)
    requires FsDisk(d)
  {
    d.zones[RANDZ_BUFF_ZONE] == [] && d.zones[RANDZ_BUFF_ZONE + 1] == []
  }

  datatype RandomZoneState = RandomZoneState(d: Disk, cblockPos: Position, pos: Position, ptr: Position) {
    // What a rewrite takes for granted, whatever the zones hold.
    predicate Base() {
      && FsDisk(d) && Tracks(d, cblockPos)
      && InRing(pos.zone) && pos == Position(pos.zone, 0, 0, pos.size) && pos.zone % 2 == 0
      && ptr.offset == 0 && (ptr.Valid() ==> InRing(ptr.zone))
    }

    // What the device holds between any two operations on the random zone: the
    // newest checkpoint names the start of the ring and the buffer is empty.
    predicate Kept(k: nat, s: nat) {
      && Base()
      && Shape(d, pos.zone, k, s)
      && BufferEmpty(d)
      && CheckpointAt(d, cblockPos).randzLba == PositionToLba(d.info, pos.zone, 0)
    }

    predicate Sound(k: nat, s: nat) {
      Kept(k, s) && RingInv(d, pos, ptr, k, s)
    }

    // As long as no rewrite has made it valid, the pointer is not.
    predicate Inv(k: nat, s: nat) {
      Sound(k, s) && (k < RING_ZONES ==> ptr.Valid())
    }
  }

  lemma InvBase(st: RandomZoneState, k: nat, s: nat)
    requires st.Inv(k, s)
    ensures st.Base()
  {
  }

  lemma KeptBase(st: RandomZoneState, k: nat, s: nat)
    requires st.Kept(k, s)
    ensures st.Base() && FsDisk(st.d) && InRing(st.pos.zone) && st.pos.zone % 2 == 0
  {
  }

  lemma SoundKept(st: RandomZoneState, k: nat, s: nat)
    requires st.Sound(k, s)
    ensures st.Kept(k, s)
  {
  }

  // buffer_random_blocks followed by the reset of the two zones.
  function Buffered(d: Disk, zone: nat): Disk
    requires FsDisk(d) && InRing(zone) && InRing(zone + 1)
  {
    d.(zones := d.zones[RANDZ_BUFF_ZONE := d.zones[zone]][RANDZ_BUFF_ZONE + 1 := d.zones[zone + 1]])
  }

  function Evacuated(d: Disk, zone: nat): Disk
    requires FsDisk(d) && InRing(zone) && InRing(zone + 1)
  {
    Buffered(d, zone).Reset(zone).Reset(zone + 1)
  }

  function EraseBuffer(d: Disk): Disk
    requires FsDisk(d)
  {
    d.Reset(RANDZ_BUFF_ZONE).Reset(RANDZ_BUFF_ZONE + 1)
  }

  // Start of the ring after giving up its first two zones.
  function AdvancePair(zone: nat): nat {
    if zone + 2 > RANDZ_BUFF_ZONE then RANDZ_ZONE + 1
    else if zone + 2 == RANDZ_BUFF_ZONE then RANDZ_ZONE
    else zone + 2
  }

  lemma RingShift(zone: nat, j: nat)
    requires InRing(zone) && zone % 2 == 0
    ensures InRing(AdvancePair(zone)) && AdvancePair(zone) % 2 == 0 && InRing(zone + 1)
    ensures RingZone(AdvancePair(zone), j) == RingZone(zone, j + 2)
    ensures RingZone(zone, 0) == zone && RingZone(zone, 1) == zone + 1
    ensures RingZone(AdvancePair(zone), 4) == zone && RingZone(AdvancePair(zone), 5) == zone + 1
  {
  }

  lemma EvacuatedZones(d: Disk, zone: nat)
    requires FsDisk(d) && InRing(zone) && InRing(zone + 1)
    ensures var d' := Evacuated(d, zone);
            && FsDisk(d') && d'.info == d.info
            && d'.zones[RANDZ_BUFF_ZONE] == d.zones[zone]
            && d'.zones[RANDZ_BUFF_ZONE + 1] == d.zones[zone + 1]
            && d'.zones[zone] == [] && d'.zones[zone + 1] == []
            && forall z | 0 <= z < |d.zones| && z != RANDZ_BUFF_ZONE && z != RANDZ_BUFF_ZONE + 1
                          && z != zone && z != zone + 1 :: d'.zones[z] == d.zones[z]
  {
  }

  lemma EvacuatedShift(d: Disk, zone: nat)
    requires FsDisk(d) && InRing(zone) && zone % 2 == 0
    ensures InRing(zone + 1) && InRing(AdvancePair(zone))
    ensures forall j | 0 <= j < 4 ::
              && RingZone(AdvancePair(zone), j) == RingZone(zone, j + 2)
              && Evacuated(d, zone).zones[RingZone(AdvancePair(zone), j)] == d.zones[RingZone(zone, j + 2)]
    ensures RingZone(AdvancePair(zone), 4) == zone && RingZone(AdvancePair(zone), 5) == zone + 1
    ensures forall j | 4 <= j < RING_ZONES :: Evacuated(d, zone).zones[RingZone(AdvancePair(zone), j)] == []
  {
    RingShift(zone, 0);
    EvacuatedZones(d, zone);
    forall j | 0 <= j < 4
      ensures RingZone(AdvancePair(zone), j) == RingZone(zone, j + 2)
      ensures Evacuated(d, zone).zones[RingZone(AdvancePair(zone), j)] == d.zones[RingZone(zone, j + 2)]
    {
      RingShift(zone, j);
      RingZoneInjective(zone, j + 2, 0);
      RingZoneInjective(zone, j + 2, 1);
    }
  }

  lemma {:induction false} ShiftedContents(d: Disk, d': Disk, zone: nat, n: nat)
    requires FsDisk(d) && FsDisk(d') && InRing(zone) && zone % 2 == 0 && n <= 4
    requires InRing(AdvancePair(zone))
    requires forall j | 0 <= j < n ::
               d'.zones[RingZone(AdvancePair(zone), j)] == d.zones[RingZone(zone, j + 2)]
    ensures Contents(d, zone, n + 2)
            == d.zones[zone] + d.zones[zone + 1] + Contents(d', AdvancePair(zone), n)
  {
    RingShift(zone, 0);
    if n == 0 {
      assert Contents(d, zone, 1) == Contents(d, zone, 0) + d.zones[RingZone(zone, 0)];
      assert Contents(d, zone, 2) == Contents(d, zone, 1) + d.zones[RingZone(zone, 1)];
    } else {
      ShiftedContents(d, d', zone, n - 1);
      ConcatAssoc(d.zones[zone] + d.zones[zone + 1], Contents(d', AdvancePair(zone), n - 1),
                  d.zones[RingZone(zone, n + 1)]);
    }
  }

  // Evacuating the first two zones, when they are full, drops their blocks
  // from the front of the ring and frees two zones at its end.
  lemma EvacuatedRing(d: Disk, zone: nat, k: nat, s: nat)
    requires FsDisk(d) && InRing(zone) && zone % 2 == 0 && Shape(d, zone, k, s) && k >= 2
    ensures InRing(zone + 1) && InRing(AdvancePair(zone))
    ensures var d' := Evacuated(d, zone);
            && FsDisk(d')
            && Shape(d', AdvancePair(zone), k - 2, s)
            && RingContents(d, zone) == d.zones[zone] + d.zones[zone + 1] + RingContents(d', AdvancePair(zone))
  {
    RingShift(zone, 0);
    var d', start := Evacuated(d, zone), AdvancePair(zone);
    EvacuatedZones(d, zone);
    EvacuatedShift(d, zone);
    ShiftedContents(d, d', zone, 4);
    ContentsOfEmpty(d', start, 4, RING_ZONES);
  }

  // Inodes of the buffered blocks that still wait to be rewritten.
  function Found(d: Disk, zone: nat, pending: set<u64>): set<u64>
    requires FsDisk(d) && InRing(zone) && InRing(zone + 1)
  {
    MentionedIn(d.zones[zone] + d.zones[zone + 1]) * pending
  }

  predicate Rewritable(lbas: NatMap, pending: set<u64>) {
    pending <= lbas.Keys && 0 !in lbas
  }

  lemma AscendingWritable(found: set<u64>, lbas: NatMap)
    requires found <= lbas.Keys && 0 !in found
    ensures Writable(Ascending(found), lbas)
  {
    AscendingElems(found);
    assert forall x | x in Ascending(found) :: x in Elems(Ascending(found));
  }

  ghost function NewBlocks(found: set<u64>, lbas: NatMap): (bs: seq<Sector>)
    requires found <= lbas.Keys && 0 !in found
    ensures AllBlocks(bs)
  {
    AscendingWritable(found, lbas);
    BlocksFor(Ascending(found), lbas)
  }

  ghost function StepCheckpoint(st: RandomZoneState, logLba: u64): (c: Checkpoint)
    requires FsDisk(st.d) && InRing(st.pos.zone) && st.pos.zone % 2 == 0
  {
    RingShift(st.pos.zone, 0);
    LbaBound(st.d.info, AdvancePair(st.pos.zone), 0);
    Checkpoint(PositionToLba(st.d.info, AdvancePair(st.pos.zone), 0), logLba)
  }

  lemma EvacuatedTracks(st: RandomZoneState)
    requires st.Base()
    ensures InRing(st.pos.zone + 1) && Tracks(Evacuated(st.d, st.pos.zone), st.cblockPos)
  {
    RingShift(st.pos.zone, 0);
    EvacuatedZones(st.d, st.pos.zone);
  }

  // The state right before the pending inodes are written: zones evacuated,
  // checkpoint updated, pointer made valid.
  ghost function Prepared(st: RandomZoneState, logLba: u64): RandomZoneState
    requires st.Base()
  {
    RingShift(st.pos.zone, 0);
    EvacuatedTracks(st);
    var cp := Update(CpState(Evacuated(st.d, st.pos.zone), st.cblockPos), StepCheckpoint(st, logLba));
    RandomZoneState(cp.d, cp.pos, st.pos.(zone := AdvancePair(st.pos.zone)),
                    if st.ptr.Valid() then st.ptr else SectorPos(st.pos.zone, 0))
  }

  lemma PreparedDisk(st: RandomZoneState, logLba: u64)
    requires st.Base()
    ensures var p := Prepared(st, logLba);
            && FsDisk(p.d) && p.ptr.zone < |p.d.zones|
            && p.Base() && p.ptr.Valid() && p.d.info == st.d.info
  {
    RingShift(st.pos.zone, 0);
    EvacuatedTracks(st);
    UpdateTracks(CpState(Evacuated(st.d, st.pos.zone), st.cblockPos), StepCheckpoint(st, logLba));
  }

  // One round of rewrite_random_blocks_full.
  ghost function CompactStep(st: RandomZoneState, logLba: u64, lbas: NatMap, pending: set<u64>): (RandomZoneState,
                             set<u64>)
    requires st.Base() && Rewritable(lbas, pending)
  {
    RingShift(st.pos.zone, 0);
    var found := Found(st.d, st.pos.zone, pending);
    var p := Prepared(st, logLba);
    PreparedDisk(st, logLba);
    var (r, _, _) := AppendAll(RingState(p.d, p.pos, p.ptr), NewBlocks(found, lbas));
    (RandomZoneState(EraseBuffer(r.d), p.cblockPos, p.pos, r.ptr), pending - found)
  }

  // Every zone that is neither checkpoint log, random zone nor random buffer.
  predicate SameOutsideMetadata(d: Disk, d': Disk) {
    && d'.info == d.info && |d'.zones| == |d.zones|
    && forall z | 0 <= z < |d.zones| && (z < CBLOCK_ZONE || z >= LOGZ_ZONE) :: d'.zones[z] == d.zones[z]
  }

  lemma OutsideSame(d: Disk)
    ensures SameOutsideMetadata(d, d)
  {
  }

  lemma OutsideTransitive(d0: Disk, d1: Disk, d2: Disk)
    requires SameOutsideMetadata(d0, d1) && SameOutsideMetadata(d1, d2)
    ensures SameOutsideMetadata(d0, d2)
  {
  }

  // What the first half of a round establishes.
  predicate PreparedFrom(st: RandomZoneState, p: RandomZoneState, logLba: u64, k: nat, s: nat)
    requires st.Kept(k, s) && k >= 2
  {
    && p.Base() && p.ptr.Valid()
    && Shape(p.d, p.pos.zone, k - 2, s)
    && (st.Inv(k, s) ==> RingInv(p.d, p.pos, p.ptr, k - 2, s))
    && p.pos == st.pos.(zone := AdvancePair(st.pos.zone))
    && p.pos.zone % 2 == 0
    && p.d.info == st.d.info
    && RingContents(st.d, st.pos.zone)
       == st.d.zones[st.pos.zone] + st.d.zones[st.pos.zone + 1] + RingContents(p.d, p.pos.zone)
    && Tracks(p.d, p.cblockPos)
    && CheckpointAt(p.d, p.cblockPos).randzLba == PositionToLba(p.d.info, p.pos.zone, 0)
    && p.d.zones[RANDZ_BUFF_ZONE] == st.d.zones[st.pos.zone]
    && p.d.zones[RANDZ_BUFF_ZONE + 1] == st.d.zones[st.pos.zone + 1]
    && SameOutsideMetadata(st.d, p.d)
  }

  lemma PrepareStep(st: RandomZoneState, logLba: u64, k: nat, s: nat)
    requires st.Kept(k, s) && k >= 2
    ensures InRing(st.pos.zone + 1)
    ensures PreparedFrom(st, Prepared(st, logLba), logLba, k, s)
  {
    hide CheckpointAt, Contents;
    var zone, start := st.pos.zone, AdvancePair(st.pos.zone);
    RingShift(zone, 0);
    EvacuatedRing(st.d, zone, k, s);
    EvacuatedZones(st.d, zone);
    EvacuatedTracks(st);
    var d := Evacuated(st.d, zone);
    var c := StepCheckpoint(st, logLba);
    var ptr := if st.ptr.Valid() then st.ptr else SectorPos(zone, 0);
    RingShift(zone, k - 2);
    UpdateTracks(CpState(d, st.cblockPos), c);
    var d' := Update(CpState(d, st.cblockPos), c).d;
    ContentsFrame(d, d', start, RING_ZONES);
    assert Shape(d', start, k - 2, s);
    PreparedDisk(st, logLba);
  }

  lemma ErasedFrame(p: RandomZoneState, d: Disk)
    requires FsDisk(d) && Tracks(p.d, p.cblockPos) && SameOutsideRing(p.d, d)
    ensures var d' := EraseBuffer(d);
            && Tracks(d', p.cblockPos) && BufferEmpty(d')
            && CheckpointAt(d', p.cblockPos) == CheckpointAt(p.d, p.cblockPos)
            && SameOutsideMetadata(p.d, d')
            && d'.info == d.info
            && forall z | RANDZ_ZONE <= z < RANDZ_BUFF_ZONE :: d'.zones[z] == d.zones[z]
  {
  }

  lemma FreeMonotone(d: Disk, d': Disk, k: nat, s: nat, k': nat, s': nat)
    requires FsDisk(d) && d'.info == d.info
    requires s < d.info.zoneCapacity && s' < d.info.zoneCapacity && k <= RING_ZONES && k' <= RING_ZONES
    requires Free(d', k', s') <= Free(d, k, s)
    ensures k' >= k
  {
    var c := d.info.zoneCapacity;
    if k' < k {
      assert (RING_ZONES - k') * c == (RING_ZONES - k) * c + (k - k') * c;
      MulAtLeast(k - k', c);
    }
  }

  // The second half of a round: the pending blocks go behind the ring and the
  // buffer is erased.
  lemma WriteBack(p: RandomZoneState, bs: seq<Sector>, k: nat, s: nat) returns (k': nat, s': nat)
    requires RingInv(p.d, p.pos, p.ptr, k, s) && k < RING_ZONES && p.pos.zone % 2 == 0
    requires Tracks(p.d, p.cblockPos)
    requires CheckpointAt(p.d, p.cblockPos).randzLba == PositionToLba(p.d.info, p.pos.zone, 0)
    requires p.ptr.Valid() && AllBlocks(bs) && |bs| <= Free(p.d, k, s)
    ensures var (r, n, ret) := AppendAll(RingState(p.d, p.pos, p.ptr), bs);
            var st := RandomZoneState(EraseBuffer(r.d), p.cblockPos, p.pos, r.ptr);
            && st.Inv(k', s') && k' >= k
            && RingContents(st.d, p.pos.zone) == RingContents(p.d, p.pos.zone) + bs
            && SameOutsideMetadata(p.d, st.d)
            && n == |bs| && ret == (if |bs| == Free(p.d, k, s) then RandzFull else RetNone)
  {
    k', s' := AppendAllRun(RingState(p.d, p.pos, p.ptr), bs, k, s);
    var (r, n, ret) := AppendAll(RingState(p.d, p.pos, p.ptr), bs);
    assert bs[..n] == bs;
    FreeMonotone(p.d, r.d, k, s, k', s');
    ErasedFrame(p, r.d);
    RingFrame(r.d, EraseBuffer(r.d), r.pos, r.ptr, k', s');
  }

  // What one round achieves: the invariant is kept, the blocks of the first
  // two zones are gone from the front of the ring, and each inode found in
  // them that was still pending is in the new blocks at its end.
  predicate RoundOutcome(st: RandomZoneState, st': RandomZoneState, rest: seq<Sector>, bs: seq<Sector>,
                         k: nat, k': nat, s': nat)
    requires st.Base()
  {
    && st'.Inv(k', s') && k' >= k - 2
    && InRing(st.pos.zone + 1)
    && st'.pos.zone == AdvancePair(st.pos.zone)
    && SameOutsideMetadata(st.d, st'.d)
    && RingContents(st.d, st.pos.zone) == st.d.zones[st.pos.zone] + st.d.zones[st.pos.zone + 1] + rest
    && RingContents(st'.d, st'.pos.zone) == rest + bs
  }

  lemma PairLength(d: Disk, zone: nat, k: nat, s: nat)
    requires FsDisk(d) && InRing(zone) && zone % 2 == 0 && Shape(d, zone, k, s) && k >= 2
    ensures InRing(zone + 1)
    ensures |d.zones[zone] + d.zones[zone + 1]| == 2 * d.info.zoneCapacity
  {
    RingShift(zone, 0);
    assert |d.zones[RingZone(zone, 0)]| == d.info.zoneCapacity;
    assert |d.zones[RingZone(zone, 1)]| == d.info.zoneCapacity;
  }

  lemma NewBlocksCount(found: set<u64>, lbas: NatMap)
    requires found <= lbas.Keys && 0 !in lbas
    ensures |NewBlocks(found, lbas)| == CeilDiv(|found|, NAT_BLK_INO_LBA_NUM)
  {
    AscendingWritable(found, lbas);
    BlocksForCount(Ascending(found), lbas);
  }

  lemma SubsetSize<T>(a: set<T>, b: set<T>)
    requires a <= b
    ensures |a| <= |b|
  {
    assert b == a + (b - a);
  }

  lemma FoundBound(d: Disk, zone: nat, pending: set<u64>)
    requires FsDisk(d) && InRing(zone) && InRing(zone + 1)
    ensures |Found(d, zone, pending)| <= NAT_BLK_INO_LBA_NUM * |d.zones[zone] + d.zones[zone + 1]|
  {
    var pair := d.zones[zone] + d.zones[zone + 1];
    MentionedBound(pair);
    SubsetSize(Found(d, zone, pending), MentionedIn(pair));
  }

  // The space accounting of a round cannot underflow: what two zones mention
  // fits into two zones.
  lemma NewBlocksFit(d: Disk, zone: nat, lbas: NatMap, pending: set<u64>, k: nat, s: nat)
    requires FsDisk(d) && InRing(zone) && zone % 2 == 0 && Shape(d, zone, k, s) && k >= 2
    requires Rewritable(lbas, pending)
    ensures InRing(zone + 1)
    ensures var n := |Found(d, zone, pending)|;
            |NewBlocks(Found(d, zone, pending), lbas)| == CeilDiv(n, NAT_BLK_INO_LBA_NUM) <= 2 * d.info.zoneCapacity
  {
    PairLength(d, zone, k, s);
    var found := Found(d, zone, pending);
    FoundBound(d, zone, pending);
    NewBlocksCount(found, lbas);
  }

  lemma FreeAfterPrepare(st: RandomZoneState, p: RandomZoneState, k: nat, s: nat)
    requires st.Kept(k, s) && k >= 2 && p.d.info == st.d.info
    ensures Free(p.d, k - 2, s) == Free(st.d, k, s) + 2 * st.d.info.zoneCapacity
    ensures Free(st.d, k, s) >= 0 && k <= RING_ZONES
  {
    var c := st.d.info.zoneCapacity;
    assert (RING_ZONES - (k - 2)) * c == (RING_ZONES - k) * c + 2 * c;
    FreeIsRest(st.d, st.pos.zone, k, s);
    if k < RING_ZONES {
      FreeStep(st.d, k, s);
    }
  }

  lemma CompactStepOutcome(st: RandomZoneState, logLba: u64, lbas: NatMap, pending: set<u64>, k: nat, s: nat)
    returns (k': nat, s': nat, rest: seq<Sector>)
    requires st.Inv(k, s) && k >= 2 && Rewritable(lbas, pending)
    ensures InRing(st.pos.zone + 1)
    ensures var found := Found(st.d, st.pos.zone, pending);
            && RoundOutcome(st, CompactStep(st, logLba, lbas, pending).0, rest, NewBlocks(found, lbas), k, k', s')
            && CompactStep(st, logLba, lbas, pending).1 == pending - found
  {
    hide Shape, Tracks, CheckpointAt, RingContents, MentionedIn, NewBlocks, AppendAll, Prepared, EraseBuffer, Free;
    var zone := st.pos.zone;
    RingShift(zone, 0);
    PrepareStep(st, logLba, k, s);
    var p := Prepared(st, logLba);
    NewBlocksFit(st.d, zone, lbas, pending, k, s);
    FreeAfterPrepare(st, p, k, s);
    rest := RingContents(p.d, p.pos.zone);
    k', s' := WriteBack(p, NewBlocks(Found(st.d, zone, pending), lbas), k - 2, s);
  }
}
