// rewrite_random_blocks_full on any random zone, errors included, and what it
// comes to on the rings it is called on.
module Rewrite {
  import opened Basics
  import opened Disk
  import opened Codec
  import opened Checkpoints
  import opened NatLog
  import opened Ring
  import opened Compaction
  import opened CompactionRun

  const N_RAND_BUFF_ZONES: nat := 2

  predicate LimitHits(info: Info, zone: nat, limit: Position) {
    limit.Valid() && limit.zone == zone && limit.sector < info.zoneCapacity
  }

  function CopyLength(info: Info, zone: nat, limit: Position): nat {
    if LimitHits(info, zone, limit) then limit.sector else info.zoneCapacity
  }

  // Copying n sectors to a buffer zone: it stops at the first sector it cannot
  // read, or that does not land where it came from.
  function CopySectors(from: seq<Sector>, to: seq<Sector>, n: nat, capacity: nat): (seq<Sector>, bool) {
    if n == 0 then (to, true)
    else if from == [] || |to| == capacity then (to, false)
    else if to == [] then (from[..Min(n, |from|)], n <= |from|)
    else (to + [from[0]], false)
  }

  // Behind its first i sectors a copy is complete, or it stops at the next one
  // with what it has copied.
  lemma CopyStops(from: seq<Sector>, to: seq<Sector>, n: nat, capacity: nat, i: nat)
    requires i <= n <= capacity && i <= |from| && |to| <= capacity && (to != [] ==> i == 0)
    ensures i == n ==> CopySectors(from, to, n, capacity) == (to + from[..i], true)
    ensures i < n && (|from| == i || |to + from[..i]| == capacity) ==>
              CopySectors(from, to, n, capacity) == (to + from[..i], false)
    ensures i < n && i < |from| && |to + from[..i]| != i && |to + from[..i]| < capacity ==>
              CopySectors(from, to, n, capacity) == (to + from[..i] + [from[i]], false)
    ensures i < |from| ==> to + from[..i] + [from[i]] == to + from[..i + 1]
  {
    assert to + from[..0] == to;
    assert to == [] ==> to + from[..i] == from[..i];
    assert |from| == i ==> from[..i] == from;
  }

  function Copied(d: Disk, zone: nat, to: nat, limit: Position): (res: (Disk, bool))
    requires FsDisk(d) && zone < |d.zones| && to < |d.zones|
    ensures FsDisk(res.0) && SameElsewhere(d, res.0, to)
  {
    var (sectors, ok) := CopySectors(d.zones[zone], d.zones[to], CopyLength(d.info, zone, limit), d.info.zoneCapacity);
    (d.(zones := d.zones[to := sectors]), ok)
  }

  // buffer_random_blocks, for two zones of the ring.
  function CopyPair(d: Disk, zone0: nat, zone1: nat, limit: Position): (res: (Disk, Ret))
    requires FsDisk(d) && InRing(zone0) && InRing(zone1)
    ensures FsDisk(res.0)
  {
    var (d0, ok0) := Copied(d, zone0, RANDZ_BUFF_ZONE, limit);
    if !ok0 then (d0, RetErr)
    else if LimitHits(d.info, zone0, limit) then (d0, RetNone)
    else
      var (d1, ok1) := Copied(d0, zone1, RANDZ_BUFF_ZONE + 1, limit);
      (d1, if ok1 then RetNone else RetErr)
  }

  // Without a limit two zones are copied if and only if both are full and the
  // buffer is empty.
  lemma CopyPairExactly(d: Disk, zone: nat)
    requires FsDisk(d) && InRing(zone) && InRing(zone + 1)
    ensures var (d', ret) := CopyPair(d, zone, zone + 1, SectorPos(RANDZ_BUFF_ZONE, 0));
            && (ret == RetNone <==> BufferEmpty(d) && |d.zones[zone]| == |d.zones[zone + 1]| == d.info.zoneCapacity)
            && (ret == RetNone ==> d' == Buffered(d, zone))
            && (ret != RetNone ==> ret == RetErr)
  {
    var z0, z1 := d.zones[zone], d.zones[zone + 1];
    assert z0[..|z0|] == z0 && z1[..|z1|] == z1;
  }

  lemma CopiedExactly(d: Disk, zone: nat, to: nat, limit: Position)
    requires FsDisk(d) && zone < |d.zones| && to < |d.zones|
    ensures var (d', ok) := Copied(d, zone, to, limit);
            var n := if limit.Valid() && limit.zone == zone && limit.sector < d.info.zoneCapacity then limit.sector
                     else d.info.zoneCapacity;
            && (ok <==> n == 0 || (d.zones[to] == [] && n <= |d.zones[zone]|))
            && (ok ==> d' == d.(zones := d.zones[to := d.zones[to] + d.zones[zone][..n]]))
  {
    assert d.zones[to] + d.zones[zone][..0] == d.zones[to];
    var from := d.zones[zone];
    assert d.zones[to] == [] ==> forall n | 0 <= n <= |from| :: d.zones[to] + from[..n] == from[..n];
  }

  // A limit in the first zone stops the copy there; one in the second zone, there.
  // Nothing has to be free or written for a copy of no sectors.
  lemma CopyPairLimited(d: Disk, zone0: nat, zone1: nat, limit: Position)
    requires FsDisk(d) && InRing(zone0) && InRing(zone1) && zone0 != zone1
    requires limit.Valid() && limit.sector < d.info.zoneCapacity && (limit.zone == zone0 || limit.zone == zone1)
    ensures var (d', ret) := CopyPair(d, zone0, zone1, limit);
            var n, b0, b1 := limit.sector, d.zones[RANDZ_BUFF_ZONE], d.zones[RANDZ_BUFF_ZONE + 1];
            && (ret == RetNone || ret == RetErr)
            && if limit.zone == zone0 then
                 && (ret == RetNone <==> n == 0 || (b0 == [] && n <= |d.zones[zone0]|))
                 && (ret == RetNone ==> d' == d.(zones := d.zones[RANDZ_BUFF_ZONE := b0 + d.zones[zone0][..n]]))
               else
                 && (ret == RetNone <==>
                       && b0 == [] && |d.zones[zone0]| == d.info.zoneCapacity
                       && (n == 0 || (b1 == [] && n <= |d.zones[zone1]|)))
                 && (ret == RetNone ==>
                       d' == d.(zones := d.zones[RANDZ_BUFF_ZONE := d.zones[zone0]]
                                                [RANDZ_BUFF_ZONE + 1 := b1 + d.zones[zone1][..n]]))
  {
    hide Copied;
    CopiedExactly(d, zone0, RANDZ_BUFF_ZONE, limit);
    CopiedExactly(Copied(d, zone0, RANDZ_BUFF_ZONE, limit).0, zone1, RANDZ_BUFF_ZONE + 1, limit);
    var z0 := d.zones[zone0];
    assert z0[..|z0|] == z0 && [] + z0 == z0;
  }

  // One round. The set that was found is written even when its blocks do not
  // fit; whether that is an error depends on the space it was estimated to take.
  ghost function TryStep(st: RandomZoneState, logLba: u64, lbas: NatMap, pending: set<u64>): (RandomZoneState,
                         set<u64>, Ret)
    requires st.Base() && Rewritable(lbas, pending)
  {
    RingShift(st.pos.zone, 0);
    var (d, ret) := CopyPair(st.d, st.pos.zone, st.pos.zone + 1, SectorPos(RANDZ_BUFF_ZONE, 0));
    if ret != RetNone then (st.(d := d), pending, RetErr)
    else
      PreparedDisk(st, logLba);
      var p, found := Prepared(st, logLba), Found(st.d, st.pos.zone, pending);
      var (r, _, written) := AppendAll(RingState(p.d, p.pos, p.ptr), NewBlocks(found, lbas));
      if (if CeilDiv(|found|, NAT_BLK_INO_LBA_NUM) == N_RAND_BUFF_ZONES * st.d.info.zoneCapacity then written == RetErr
          else written != RetNone)
      then (RandomZoneState(r.d, p.cblockPos, p.pos, r.ptr), pending - found, RetErr)
      else (RandomZoneState(EraseBuffer(r.d), p.cblockPos, p.pos, r.ptr), pending - found, RetNone)
  }

  // A round that succeeds leaves a random zone another round can start from.
  lemma TryStepBase(st: RandomZoneState, logLba: u64, lbas: NatMap, pending: set<u64>)
    requires st.Base() && Rewritable(lbas, pending)
    ensures var (st', pending', ret) := TryStep(st, logLba, lbas, pending);
            && Rewritable(lbas, pending')
            && (ret == RetNone ==> st'.Base() && InRing(st'.ptr.zone))
            && (ret == RetNone || ret == RetErr)
  {
    hide Prepared, NewBlocks, MentionedIn, AppendAll, CopyPair, CheckpointAt;
    RingShift(st.pos.zone, 0);
    PreparedDisk(st, logLba);
    var p := Prepared(st, logLba);
    RunStaysInRing(RingState(p.d, p.pos, p.ptr), NewBlocks(Found(st.d, st.pos.zone, pending), lbas));
    var (r, _, _) := AppendAll(RingState(p.d, p.pos, p.ptr), NewBlocks(Found(st.d, st.pos.zone, pending), lbas));
    ErasedFrame(p, r.d);
  }

  // All rounds, up to the first that fails.
  ghost function TryRounds(st: RandomZoneState, logLba: u64, lbas: NatMap, pending: set<u64>,
                           n: nat): (RandomZoneState, Ret)
    requires st.Base() && Rewritable(lbas, pending)
    decreases n
  {
    if n == 0 then (st, if st.ptr.Valid() then RetNone else RandzInsufficient)
    else
      TryStepBase(st, logLba, lbas, pending);
      var (st', pending', ret) := TryStep(st, logLba, lbas, pending);
      if ret != RetNone then (st', RetErr) else TryRounds(st', logLba, lbas, pending', n - 1)
  }

  lemma {:induction false} TryRoundsBase(st: RandomZoneState, logLba: u64, lbas: NatMap, pending: set<u64>, n: nat)
    requires st.Base() && Rewritable(lbas, pending)
    ensures var (st', ret) := TryRounds(st, logLba, lbas, pending, n);
            ret == RetNone ==> st'.Base()
    decreases n
  {
    hide TryStep, RandomZoneState.Base;
    if n > 0 {
      TryStepBase(st, logLba, lbas, pending);
      var (st', pending', ret) := TryStep(st, logLba, lbas, pending);
      if ret == RetNone {
        TryRoundsBase(st', logLba, lbas, pending', n - 1);
      }
    }
  }

  // The checkpoint on the device names the given start of the log.
  predicate NamesLog(st: RandomZoneState, logLba: u64) {
    Tracks(st.d, st.cblockPos) && CheckpointAt(st.d, st.cblockPos).logzLba == logLba
  }

  lemma WrittenNamesLog(st: RandomZoneState, logLba: u64, bs: seq<Sector>)
    requires st.Base() && AllBlocks(bs)
    ensures var p := Prepared(st, logLba);
            && FsDisk(p.d) && p.ptr.zone < |p.d.zones|
            && var r := AppendAll(RingState(p.d, p.pos, p.ptr), bs).0;
               && var c := Checkpoint(PositionToLba(st.d.info, p.pos.zone, 0), logLba);
                  && Tracks(r.d, p.cblockPos) && CheckpointAt(r.d, p.cblockPos) == c
                  && Tracks(EraseBuffer(r.d), p.cblockPos) && CheckpointAt(EraseBuffer(r.d), p.cblockPos) == c
  {
    hide AppendAll, DecodeCheckpoint;
    RingShift(st.pos.zone, 0);
    PreparedDisk(st, logLba);
    EvacuatedTracks(st);
    UpdateTracks(CpState(Evacuated(st.d, st.pos.zone), st.cblockPos), StepCheckpoint(st, logLba));
    var p := Prepared(st, logLba);
    RunStaysInRing(RingState(p.d, p.pos, p.ptr), bs);
    ErasedFrame(p, AppendAll(RingState(p.d, p.pos, p.ptr), bs).0.d);
  }

  // A round that succeeds leaves a checkpoint that names the new start of the ring
  // and the start of the log it was given; one that fails does not change the latter.
  lemma StepNamesLog(st: RandomZoneState, logLba: u64, lbas: NatMap, pending: set<u64>)
    requires st.Base() && Rewritable(lbas, pending)
    ensures var (st', _, ret) := TryStep(st, logLba, lbas, pending);
            && (ret == RetNone || NamesLog(st, logLba) ==> NamesLog(st', logLba))
            && (ret == RetNone ==>
                  CheckpointAt(st'.d, st'.cblockPos).randzLba == PositionToLba(st.d.info, st'.pos.zone, 0))
  {
    hide NewBlocks, MentionedIn, AppendAll, Prepared, DecodeCheckpoint, EraseBuffer;
    RingShift(st.pos.zone, 0);
    PreparedDisk(st, logLba);
    WrittenNamesLog(st, logLba, NewBlocks(Found(st.d, st.pos.zone, pending), lbas));
  }

  lemma {:induction false} RewriteNamesLog(st: RandomZoneState, logLba: u64, lbas: NatMap, pending: set<u64>, n: nat)
    requires st.Base() && Rewritable(lbas, pending)
    ensures var (st', ret) := TryRounds(st, logLba, lbas, pending, n);
            (n > 0 && ret != RetErr) || NamesLog(st, logLba) ==> NamesLog(st', logLba)
    decreases n
  {
    hide TryStep, NamesLog, RandomZoneState.Base;
    if n > 0 {
      StepNamesLog(st, logLba, lbas, pending);
      TryStepBase(st, logLba, lbas, pending);
      var (st', pending', ret) := TryStep(st, logLba, lbas, pending);
      if ret == RetNone {
        RewriteNamesLog(st', logLba, lbas, pending', n - 1);
      }
    }
  }

  // ---- Full rings -----------------------------------------------------------------

  lemma PairIsFull(st: RandomZoneState, k: nat, s: nat)
    requires st.Kept(k, s) && k >= 2
    ensures InRing(st.pos.zone + 1)
    ensures |st.d.zones[st.pos.zone]| == |st.d.zones[st.pos.zone + 1]| == st.d.info.zoneCapacity
  {
    RingShift(st.pos.zone, 0);
    assert |st.d.zones[RingZone(st.pos.zone, 0)]| == st.d.info.zoneCapacity;
    assert |st.d.zones[RingZone(st.pos.zone, 1)]| == st.d.info.zoneCapacity;
  }

  // On a ring in order no round fails.
  lemma TryIsStep(st: RandomZoneState, logLba: u64, lbas: NatMap, pending: set<u64>, k: nat, s: nat)
    requires st.Inv(k, s) && k >= 2 && Rewritable(lbas, pending)
    ensures var (st', pending') := CompactStep(st, logLba, lbas, pending);
            TryStep(st, logLba, lbas, pending) == (st', pending', RetNone)
  {
    hide Shape, Tracks, CheckpointAt, RingContents, MentionedIn, NewBlocks, AppendAll, Prepared, EraseBuffer, Free,
         CopyPair;
    InvBase(st, k, s);
    RingShift(st.pos.zone, 0);
    PairIsFull(st, k, s);
    CopyPairExactly(st.d, st.pos.zone);
    PrepareStep(st, logLba, k, s);
    var p := Prepared(st, logLba);
    NewBlocksFit(st.d, st.pos.zone, lbas, pending, k, s);
    FreeAfterPrepare(st, p, k, s);
    var k', s' := WriteBack(p, NewBlocks(Found(st.d, st.pos.zone, pending), lbas), k - 2, s);
  }

  // So the rewrite of a full ring is the compaction, and reports that nothing
  // could be freed exactly when the pointer comes out invalid.
  lemma {:induction false} TryIsRounds(st: RandomZoneState, logLba: u64, lbas: NatMap, pending: set<u64>, n: nat)
    requires Compactable(st, n) && Rewritable(lbas, pending)
    ensures st.Base()
    ensures var st' := Rounds(st, logLba, lbas, pending, n).0;
            TryRounds(st, logLba, lbas, pending, n) == (st', if st'.ptr.Valid() then RetNone else RandzInsufficient)
    decreases n
  {
    hide CompactStep, TryStep, RandomZoneState.Kept, RandomZoneState.Base;
    var k: nat, s: nat :| st.Inv(k, s) && k >= 2 * n;
    InvBase(st, k, s);
    if n > 0 {
      TryIsStep(st, logLba, lbas, pending, k, s);
      RoundKeepsInv(st, logLba, lbas, pending, n);
      var (st', pending') := CompactStep(st, logLba, lbas, pending);
      TryIsRounds(st', logLba, lbas, pending', n - 1);
    }
  }

  // ---- With nothing in memory -------------------------------------------------------

  // Erasing the buffer completes a round that has nothing to write.
  lemma ErasedKept(p: RandomZoneState, k: nat, s: nat) returns (st: RandomZoneState)
    requires p.Base() && Shape(p.d, p.pos.zone, k, s)
    requires CheckpointAt(p.d, p.cblockPos).randzLba == PositionToLba(p.d.info, p.pos.zone, 0)
    ensures st == p.(d := EraseBuffer(p.d)) && st.Kept(k, s)
    ensures RingContents(st.d, st.pos.zone) == RingContents(p.d, p.pos.zone)
    ensures SameOutsideMetadata(p.d, st.d)
  {
    hide Tracks, CheckpointAt;
    st := p.(d := EraseBuffer(p.d));
    ErasedFrame(p, p.d);
    ContentsFrame(p.d, st.d, p.pos.zone, RING_ZONES);
  }

  lemma NothingFound(st: RandomZoneState)
    requires st.Base()
    ensures InRing(st.pos.zone + 1) && Found(st.d, st.pos.zone, {}) == {}
    ensures NewBlocks({}, map[]) == []
    ensures CeilDiv(|Found(st.d, st.pos.zone, {})|, NAT_BLK_INO_LBA_NUM) < N_RAND_BUFF_ZONES * st.d.info.zoneCapacity
  {
    RingShift(st.pos.zone, 0);
  }

  lemma EmptyStepIs(st: RandomZoneState, p: RandomZoneState, logLba: u64)
    requires st.Base() && InRing(st.pos.zone + 1) && p == Prepared(st, logLba)
    requires CopyPair(st.d, st.pos.zone, st.pos.zone + 1, SectorPos(RANDZ_BUFF_ZONE, 0)).1 == RetNone
    ensures FsDisk(p.d) && TryStep(st, logLba, map[], {}) == (p.(d := EraseBuffer(p.d)), {}, RetNone)
  {
    hide Prepared, CopyPair, EraseBuffer, NewBlocks, Found, Tracks;
    NothingFound(st);
    PreparedDisk(st, logLba);
    var r, found, lbas: NatMap := RingState(p.d, p.pos, p.ptr), Found(st.d, st.pos.zone, {}), map[];
    assert found == {} && NewBlocks(found, lbas) == [];
    assert AppendAll(r, NewBlocks(found, lbas)) == (r, 0, RetNone);
    assert {} - found == {};
  }

  // A round of a rewrite that knows no inode writes nothing: the blocks of two
  // zones are gone.
  lemma EmptyStep(st: RandomZoneState, logLba: u64, k: nat, s: nat) returns (st': RandomZoneState)
    requires st.Kept(k, s) && k >= 2
    ensures InRing(st.pos.zone + 1)
    ensures TryStep(st, logLba, map[], {}) == (st', {}, RetNone)
    ensures st'.Kept(k - 2, s) && st'.ptr.Valid() && st'.pos == st.pos.(zone := AdvancePair(st.pos.zone))
    ensures RingContents(st.d, st.pos.zone)
            == st.d.zones[st.pos.zone] + st.d.zones[st.pos.zone + 1] + RingContents(st'.d, st'.pos.zone)
    ensures SameOutsideMetadata(st.d, st'.d) && st'.d.info == st.d.info
  {
    hide Tracks, CheckpointAt, MentionedIn, Prepared, CopyPair, Shape, RingContents, EraseBuffer, NewBlocks, Found;
    PairIsFull(st, k, s);
    CopyPairExactly(st.d, st.pos.zone);
    PrepareStep(st, logLba, k, s);
    var p := Prepared(st, logLba);
    NothingFound(st);
    st' := ErasedKept(p, k - 2, s);
    OutsideTransitive(st.d, p.d, st'.d);
    PreparedDisk(st, logLba);
    EmptyStepIs(st, p, logLba);
  }

  lemma EmptyContents(st: RandomZoneState)
    requires st.Kept(0, 0)
    ensures RingContents(st.d, st.pos.zone) == []
  {
    ContentsOfEmpty(st.d, st.pos.zone, 0, RING_ZONES);
  }

  // On a full ring: everything is gone, and the ring starts where it did.
  lemma EmptyRewriteOfFull(st: RandomZoneState, logLba: u64)
    requires st.Kept(RING_ZONES, 0)
    ensures var (st', ret) := TryRounds(st, logLba, map[], {}, STEPS);
            && ret == RetNone && st'.Kept(0, 0) && st'.pos == st.pos && st'.ptr.Valid()
            && RingContents(st'.d, st'.pos.zone) == []
            && SameOutsideMetadata(st.d, st'.d)
  {
    hide RandomZoneState.Kept, TryStep, RingContents, SameOutsideMetadata;
    KeptBase(st, RING_ZONES, 0);
    var st1 := EmptyStep(st, logLba, 6, 0);
    KeptBase(st1, 4, 0);
    var st2 := EmptyStep(st1, logLba, 4, 0);
    KeptBase(st2, 2, 0);
    var st3 := EmptyStep(st2, logLba, 2, 0);
    KeptBase(st3, 0, 0);
    assert TryRounds(st2, logLba, map[], {}, 1) == TryRounds(st3, logLba, map[], {}, 0);
    assert TryRounds(st1, logLba, map[], {}, 2) == TryRounds(st2, logLba, map[], {}, 1);
    ThreePairsAround(st.pos.zone);
    EmptyContents(st3);
    OutsideTransitive(st.d, st1.d, st2.d);
    OutsideTransitive(st.d, st2.d, st3.d);
  }

  // What is left when a rewrite gets stuck behind two rounds: the ring starts two
  // pairs further on, on the device too, the contents of four zones are gone, and
  // the buffer stays filled.
  ghost predicate Stranded(st: RandomZoneState, st': RandomZoneState, s: nat)
    requires FsDisk(st.d) && InRing(st.pos.zone)
  {
    var ring := RingContents(st.d, st.pos.zone);
    && FsDisk(st'.d) && InRing(st'.pos.zone) && st'.d.info == st.d.info
    && st'.pos == st.pos.(zone := AdvanceBy(st.pos.zone, 2))
    && Tracks(st'.d, st'.cblockPos)
    && CheckpointAt(st'.d, st'.cblockPos).randzLba == PositionToLba(st'.d.info, st'.pos.zone, 0)
    && Shape(st'.d, st'.pos.zone, 1, s)
    && 4 * st.d.info.zoneCapacity <= |ring|
    && RingContents(st'.d, st'.pos.zone) == ring[4 * st.d.info.zoneCapacity..]
    && |st'.d.zones[RANDZ_BUFF_ZONE]| == st.d.info.zoneCapacity
    && SameOutsideMetadata(st.d, st'.d)
  }

  lemma TwoOfFour(st: RandomZoneState, st1: RandomZoneState, st2: RandomZoneState, cap: nat, s: nat)
    requires st.Kept(5, s) && st1.Kept(3, s) && cap == st.d.info.zoneCapacity == st1.d.info.zoneCapacity
    requires FsDisk(st2.d) && InRing(st2.pos.zone) && InRing(st.pos.zone + 1) && InRing(st1.pos.zone + 1)
    requires RingContents(st.d, st.pos.zone)
             == st.d.zones[st.pos.zone] + st.d.zones[st.pos.zone + 1] + RingContents(st1.d, st1.pos.zone)
    requires RingContents(st1.d, st1.pos.zone)
             == st1.d.zones[st1.pos.zone] + st1.d.zones[st1.pos.zone + 1] + RingContents(st2.d, st2.pos.zone)
    ensures 4 * cap <= |RingContents(st.d, st.pos.zone)|
    ensures RingContents(st2.d, st2.pos.zone) == RingContents(st.d, st.pos.zone)[4 * cap..]
  {
    hide RingContents;
    PairIsFull(st, 5, s);
    PairIsFull(st1, 3, s);
  }

  // A round that starts with one full zone and one that is not fails.
  lemma StuckStep(st: RandomZoneState, logLba: u64, s: nat)
    requires st.Kept(1, s)
    ensures var (st', pending, ret) := TryStep(st, logLba, map[], {});
            && ret == RetErr && FsDisk(st'.d)
            && st'.pos == st.pos && st'.cblockPos == st.cblockPos && st'.d.info == st.d.info
            && Tracks(st'.d, st'.cblockPos)
            && CheckpointAt(st'.d, st'.cblockPos).randzLba == PositionToLba(st'.d.info, st.pos.zone, 0)
            && Shape(st'.d, st.pos.zone, 1, s)
            && RingContents(st'.d, st.pos.zone) == RingContents(st.d, st.pos.zone)
            && |st'.d.zones[RANDZ_BUFF_ZONE]| == st.d.info.zoneCapacity
            && SameOutsideMetadata(st.d, st'.d)
  {
    RingShift(st.pos.zone, 0);
    var zone, d := st.pos.zone, st.d;
    CopyPairExactly(d, zone);
    assert |d.zones[RingZone(zone, 0)]| == d.info.zoneCapacity;
    assert |d.zones[RingZone(zone, 1)]| == s;
    var d' := CopyPair(d, zone, zone + 1, SectorPos(RANDZ_BUFF_ZONE, 0)).0;
    ContentsFrame(d, d', zone, RING_ZONES);
  }

  // On a ring with one free sector: two rounds go well, and the third stops at
  // the sector that was never written.
  lemma EmptyRewriteOfOneFree(st: RandomZoneState, logLba: u64, s: nat)
    requires st.Kept(RING_ZONES - 1, s) && s + 1 == st.d.info.zoneCapacity
    ensures var (st', ret) := TryRounds(st, logLba, map[], {}, STEPS);
            ret == RetErr && Stranded(st, st', s)
  {
    hide RandomZoneState.Kept, TryStep, RingContents, SameOutsideMetadata, Tracks, CheckpointAt, Shape;
    var cap := st.d.info.zoneCapacity;
    KeptBase(st, 5, s);
    var st1 := EmptyStep(st, logLba, 5, s);
    KeptBase(st1, 3, s);
    var st2 := EmptyStep(st1, logLba, 3, s);
    KeptBase(st2, 1, s);
    TwoOfFour(st, st1, st2, cap, s);
    assert AdvanceBy(st.pos.zone, 2) == AdvanceBy(AdvancePair(st.pos.zone), 1) == AdvancePair(AdvancePair(st.pos.zone));
    StuckStep(st2, logLba, s);
    OutsideTransitive(st.d, st1.d, st2.d);
    OutsideTransitive(st.d, st2.d, TryStep(st2, logLba, map[], {}).0.d);
    assert TryRounds(st1, logLba, map[], {}, 2) == TryRounds(st2, logLba, map[], {}, 1);
  }
}
