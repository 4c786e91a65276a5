// What the loops over the random zone go through: facts about blocks being
// filled and replayed, zones being copied, and the rounds of a rewrite.
module RandomZoneSteps {
  import opened Basics
  import opened Disk
  import opened Codec
  import opened Checkpoints
  import opened NatLog
  import opened Ring
  import opened Compaction
  import opened CompactionMeaning
  import opened CompactionRun
  import opened Rewrite
  import opened NatFlush
  import opened InodeLba

  const SUPER_ZONE: nat := 0

  // The ring knows the current address of these inodes.
  predicate Current(d: Disk, zone: nat, lbas: NatMap, xs: set<u64>)
    requires FsDisk(d) && InRing(zone)
  {
    var ring := Replay(RingContents(d, zone));
    forall x | x in xs :: x in lbas && x in ring && ring[x] == lbas[x]
  }

  // A flush adds what it takes out of the set.
  lemma FlushCurrent(d: Disk, d': Disk, zone: nat, lbas: NatMap, xs: set<u64>, nats: set<u64>, left: set<u64>)
    requires FsDisk(d) && FsDisk(d') && InRing(zone) && Current(d, zone, lbas, xs) && nats <= lbas.Keys
    requires Replay(RingContents(d', zone)) == Replay(RingContents(d, zone)) + Restrict(lbas, nats - left)
    ensures Current(d', zone, lbas, xs + (nats - left))
  {
    hide Replay, RingContents;
  }

  // A rewrite loses none of them.
  lemma RewriteCurrent(d: Disk, d': Disk, zone: nat, lbas: NatMap, xs: set<u64>)
    requires FsDisk(d) && FsDisk(d') && InRing(zone) && Current(d, zone, lbas, xs)
    requires Rewritten(RingContents(d, zone), RingContents(d', zone), lbas)
    ensures Current(d', zone, lbas, xs)
  {
    hide Replay, RingContents, MentionedIn, Written;
    ReplayMentioned(RingContents(d, zone));
  }

  // A state between operations with these inodes current in the ring.
  ghost predicate Settled(st: RandomZoneState, lbas: NatMap, xs: set<u64>, k: nat, s: nat) {
    st.Sound(k, s) && Current(st.d, st.pos.zone, lbas, xs)
  }

  lemma FullShape(st: RandomZoneState, k: nat, s: nat)
    requires st.Sound(k, s)
    ensures st.Base()
    ensures k == RING_ZONES ==> s == 0 && !st.ptr.Valid() && st.ptr != st.pos
    ensures k <= RING_ZONES && st.ptr.offset == 0
    ensures k < RING_ZONES ==> InRing(st.ptr.zone) && st.ptr.zone < |st.d.zones|
  {
    hide Tracks, CheckpointAt;
  }

  // The two steps of writing a set, by what they do to the settled inodes.
  lemma FlushSettles(st: RandomZoneState, st': RandomZoneState, lbas: NatMap, xs: set<u64>, nats: set<u64>,
                     ret: Ret, left: set<u64>, k: nat, s: nat) returns (k': nat, s': nat)
    requires Settled(st, lbas, xs, k, s) && k < RING_ZONES && nats <= lbas.Keys && 0 !in lbas
    requires st'.cblockPos == st.cblockPos && st'.pos == st.pos && st.ptr.zone < |st.d.zones|
    requires (RingState(st'.d, st'.pos, st'.ptr), ret, left) == Flush(RingState(st.d, st.pos, st.ptr), nats, lbas)
    ensures Settled(st', lbas, xs + (nats - left), k', s') && left <= nats
    ensures SameOutsideMetadata(st.d, st'.d)
    ensures ret == RetNone || ret == RandzFull
    ensures ret == RetNone ==> left == {}
    ensures ret == RandzFull <==> k' == RING_ZONES
    ensures k' == RING_ZONES ==> s' == 0
  {
    hide RandomZoneState.Kept, RingInv, Flush, Replay, RingContents, Restrict, Current;
    RingOf(st, k, s);
    var n;
    k', s', n := NatFlushRoundTrip(RingState(st.d, st.pos, st.ptr), nats, lbas, k, s);
    RingWritten(st, RingState(st'.d, st'.pos, st'.ptr), k, s, k', s');
    RingOf(st', k', s');
    FullShape(st', k', s');
    FlushCurrent(st.d, st'.d, st.pos.zone, lbas, xs, nats, left);
  }

  // What a rewrite of a full random zone comes to, and when it reports that it
  // could not free anything. The pointer stands in the ring in any case.
  ghost predicate Compacted(st: RandomZoneState, st': RandomZoneState, lbas: NatMap, ret: Ret) {
    && st.Inv(RING_ZONES, 0)
    && (exists k, s :: CompactionOutcome(st, st', lbas, k, s))
    && InRing(st'.ptr.zone)
    && ret == if |RingContents(st'.d, st'.pos.zone)| == RING_ZONES * st.d.info.zoneCapacity
              then RandzInsufficient else RetNone
  }

  lemma InvBounds(st: RandomZoneState, k: nat, s: nat)
    requires st.Inv(k, s)
    ensures k <= RING_ZONES && s < st.d.info.zoneCapacity
    ensures !st.ptr.Valid() ==> st.ptr.offset == 0
  {
  }

  lemma RewriteSettles(st: RandomZoneState, st': RandomZoneState, lbas: NatMap, xs: set<u64>, ret: Ret)
    returns (k': nat, s': nat)
    requires Settled(st, lbas, xs, RING_ZONES, 0) && Compacted(st, st', lbas, ret)
    ensures Settled(st', lbas, xs, k', s') && SameOutsideMetadata(st.d, st'.d)
    ensures ret == RetNone <==> k' < RING_ZONES
    ensures InRing(st'.ptr.zone) && FsDisk(st.d) && FsDisk(st'.d) && InRing(st.pos.zone) && st'.pos.zone == st.pos.zone
    ensures |RingContents(st'.d, st.pos.zone)|
            == RewrittenSize(RingContents(st.d, st.pos.zone), 0, 2 * st.d.info.zoneCapacity, lbas.Keys)
    ensures ret == RetNone <==> |RingContents(st'.d, st.pos.zone)| != RING_ZONES * st.d.info.zoneCapacity
  {
    hide RandomZoneState.Kept, RingInv, RingContents, Rewritten, Current;
    var k, s :| CompactionOutcome(st, st', lbas, k, s);
    k', s' := k, s;
    RingOf(st, RING_ZONES, 0);
    RingOf(st', k', s');
    InvBounds(st', k', s');
    RewriteCurrent(st.d, st'.d, st.pos.zone, lbas, xs);
  }

  // Blocks in the ring once a set is written: the set behind the others if there is
  // room for all of it, and else what a rewrite of the filled ring leaves, followed by
  // the blocks that did not get in before.
  ghost function SyncedSize(ring: seq<Sector>, nats: set<u64>, lbas: NatMap, zoneCapacity: nat): nat
    requires AllBlocks(ring) && nats <= lbas.Keys && 0 !in lbas && zoneCapacity > 0
    requires |ring| <= RING_ZONES * zoneCapacity
  {
    var need, room := CeilDiv(|nats|, NAT_BLK_INO_LBA_NUM), RING_ZONES * zoneCapacity - |ring|;
    if need < room then |ring| + need
    else
      NewBlocksCount(nats, lbas);
      RewrittenSize(ring + NewBlocks(nats, lbas)[..room], 0, 2 * zoneCapacity, lbas.Keys) + (need - room)
  }

  lemma MentionedNew(ring: seq<Sector>, nats: set<u64>, lbas: NatMap, n: nat)
    requires AllBlocks(ring) && AllPacked(ring) && nats <= lbas.Keys && 0 !in lbas && n <= |NewBlocks(nats, lbas)|
    ensures MentionedIn(ring + NewBlocks(nats, lbas)[..n]) * lbas.Keys <= Replay(ring).Keys + nats
  {
    hide BlocksFor, Replay, MentionedIn, Packed;
    var bs, xs := NewBlocks(nats, lbas), Ascending(nats);
    AscendingWritable(nats, lbas);
    BlocksForPacked(xs, lbas);
    PackedPrefix(bs, n);
    MentionedConcat(ring, bs[..n]);
    PackedMentions(ring);
    PackedMentions(bs[..n]);
    var m := Min(NAT_BLK_INO_LBA_NUM * n, |xs|);
    BlocksForTake(xs, lbas, n);
    BlocksForMeaning(xs[..m], lbas);
    AscendingElems(nats);
    ElemsSplit(xs, m);
  }

  // The set gets in if all live inodes it and the ring know take few enough blocks,
  // two more counted for the parts of the rewrite.
  lemma SyncedFits(ring: seq<Sector>, nats: set<u64>, lbas: NatMap, zoneCapacity: nat)
    requires AllBlocks(ring) && AllPacked(ring) && nats <= lbas.Keys && 0 !in lbas && zoneCapacity > 0
    requires |ring| <= RING_ZONES * zoneCapacity
    requires CeilDiv(|Replay(ring).Keys + nats|, NAT_BLK_INO_LBA_NUM) + 2 + CeilDiv(|nats|, NAT_BLK_INO_LBA_NUM)
             < RING_ZONES * zoneCapacity
    ensures SyncedSize(ring, nats, lbas, zoneCapacity) < RING_ZONES * zoneCapacity
  {
    hide BlocksFor, Replay, MentionedIn, RewrittenSize, AllPacked;
    var need, room := CeilDiv(|nats|, NAT_BLK_INO_LBA_NUM), RING_ZONES * zoneCapacity - |ring|;
    if need >= room {
      NewBlocksCount(nats, lbas);
      var full := ring + NewBlocks(nats, lbas)[..room];
      RewrittenBound(full, 0, 2 * zoneCapacity, lbas.Keys, STEPS);
      MentionedNew(ring, nats, lbas, room);
      SubsetSize(MentionedIn(full) * lbas.Keys, Replay(ring).Keys + nats);
    }
  }

  // How full the ring is once a set is written, and whether that succeeds: always
  // with room for its blocks, and with a rewrite if the live inodes take few enough.
  ghost predicate SyncFills(before: seq<Sector>, after: seq<Sector>, nats: set<u64>, lbas: NatMap, zoneCapacity: nat,
                            ok: bool)
    requires AllBlocks(before)
  {
    var capacity, need := RING_ZONES * zoneCapacity, CeilDiv(|nats|, NAT_BLK_INO_LBA_NUM);
    && zoneCapacity > 0 && |before| < capacity && nats <= lbas.Keys && 0 !in lbas
    && |after| == Min(SyncedSize(before, nats, lbas, zoneCapacity), capacity)
    && (ok <==> |after| < capacity)
    && (need < capacity - |before| ==> ok && |after| == |before| + need)
    && (AllPacked(before) && CeilDiv(|Replay(before).Keys + nats|, NAT_BLK_INO_LBA_NUM) + 2 + need < capacity ==> ok)
  }

  lemma SyncFilled(before: seq<Sector>, after: seq<Sector>, nats: set<u64>, lbas: NatMap, zoneCapacity: nat, ok: bool)
    requires AllBlocks(before) && zoneCapacity > 0 && |before| < RING_ZONES * zoneCapacity
    requires nats <= lbas.Keys && 0 !in lbas
    requires |after| == Min(SyncedSize(before, nats, lbas, zoneCapacity), RING_ZONES * zoneCapacity)
    requires ok <==> |after| < RING_ZONES * zoneCapacity
    ensures SyncFills(before, after, nats, lbas, zoneCapacity, ok)
  {
    hide Replay, RewrittenSize, NewBlocks, CeilDiv;
    if AllPacked(before)
       && CeilDiv(|Replay(before).Keys + nats|, NAT_BLK_INO_LBA_NUM) + 2 + CeilDiv(|nats|, NAT_BLK_INO_LBA_NUM)
          < RING_ZONES * zoneCapacity
    {
      SyncedFits(before, nats, lbas, zoneCapacity);
    }
  }

  // The first attempt to write a set.
  lemma FlushSize(st: RandomZoneState, st': RandomZoneState, lbas: NatMap, nats: set<u64>,
                  ret: Ret, left: set<u64>, k: nat, s: nat)
    requires st.Sound(k, s) && k < RING_ZONES && nats <= lbas.Keys && 0 !in lbas
    requires st'.pos == st.pos && st.ptr.zone < |st.d.zones| && FsDisk(st'.d)
    requires (RingState(st'.d, st'.pos, st'.ptr), ret, left) == Flush(RingState(st.d, st.pos, st.ptr), nats, lbas)
    ensures FsDisk(st.d) && InRing(st.pos.zone)
    ensures var ring, ring', capacity :=
              RingContents(st.d, st.pos.zone), RingContents(st'.d, st.pos.zone), RING_ZONES * st.d.info.zoneCapacity;
            && |ring| < capacity
            && (ret == RetNone <==> |ring| + CeilDiv(|nats|, NAT_BLK_INO_LBA_NUM) < capacity)
            && (ret == RetNone ==>
                  |ring'| == |ring| + CeilDiv(|nats|, NAT_BLK_INO_LBA_NUM)
                  == SyncedSize(ring, nats, lbas, st.d.info.zoneCapacity))
            && (ret != RetNone ==>
                  && |ring'| == capacity
                  && SyncedSize(ring, nats, lbas, st.d.info.zoneCapacity)
                     == RewrittenSize(ring', 0, 2 * st.d.info.zoneCapacity, lbas.Keys)
                        + CeilDiv(|left|, NAT_BLK_INO_LBA_NUM))
  {
    hide RandomZoneState.Kept, RingInv, Flush, RingContents, RewrittenSize, NewBlocks, CeilDiv, Left;
    RingOf(st, k, s);
    FlushUsesRing(RingState(st.d, st.pos, st.ptr), nats, lbas, k, s);
    var room := RING_ZONES * st.d.info.zoneCapacity - |RingContents(st.d, st.pos.zone)|;
    FlushSplits(nats, room);
    if ret != RetNone {
      LeftBlocks(nats, room);
    }
  }

  lemma PointerWhenFull(st: RandomZoneState, k: nat, s: nat)
    requires st.Inv(k, s)
    ensures st.ptr.Valid() <==> k < RING_ZONES
  {
    hide Tracks;
  }

  // The rewrite of a full ring is the compaction.
  lemma FullOutcome(st: RandomZoneState, logLba: u64, lbas: NatMap)
    requires st.Sound(RING_ZONES, 0) && 0 !in lbas
    ensures st.Base() && Compactable(st, STEPS)
    ensures var (st', ret) := TryRounds(st, logLba, lbas, lbas.Keys, STEPS);
            st' == Rounds(st, logLba, lbas, lbas.Keys, STEPS).0 && Compacted(st, st', lbas, ret)
  {
    hide RandomZoneState.Kept, RandomZoneState.Base, RingContents, Rewritten, Rounds, TryRounds;
    assert st.Inv(RING_ZONES, 0);
    assert Compactable(st, STEPS);
    TryIsRounds(st, logLba, lbas, lbas.Keys, STEPS);
    var k, s := CompactionPreservesMeaning(st, logLba, lbas);
    var st' := Rounds(st, logLba, lbas, lbas.Keys, STEPS).0;
    assert CompactionOutcome(st, st', lbas, k, s);
    PointerWhenFull(st', k, s);
    RoundsPointer(st, logLba, lbas, lbas.Keys, STEPS);
  }

  function BufferedInodes(d: Disk): set<u64>
    requires FsDisk(d)
  {
    MentionedIn(d.zones[RANDZ_BUFF_ZONE] + d.zones[RANDZ_BUFF_ZONE + 1])
  }

  // What the buffered blocks mention fits into two zones.
  lemma BufferedFit(d: Disk, pending: set<u64>)
    requires FsDisk(d) && |d.zones[RANDZ_BUFF_ZONE]| == |d.zones[RANDZ_BUFF_ZONE + 1]| == d.info.zoneCapacity
    ensures CeilDiv(|BufferedInodes(d) * pending|, NAT_BLK_INO_LBA_NUM) <= N_RAND_BUFF_ZONES * d.info.zoneCapacity
  {
    MentionedBound(d.zones[RANDZ_BUFF_ZONE] + d.zones[RANDZ_BUFF_ZONE + 1]);
    SubsetSize(BufferedInodes(d) * pending, BufferedInodes(d));
  }

  // The buffer of the prepared state holds what the ring started with.
  lemma PreparedBuffer(st: RandomZoneState, logLba: u64)
    requires st.Base()
    ensures InRing(st.pos.zone + 1) && FsDisk(Prepared(st, logLba).d)
    ensures var p := Prepared(st, logLba);
            && p.d.zones[RANDZ_BUFF_ZONE] == st.d.zones[st.pos.zone]
            && p.d.zones[RANDZ_BUFF_ZONE + 1] == st.d.zones[st.pos.zone + 1]
  {
    RingShift(st.pos.zone, 0);
    EvacuatedZones(st.d, st.pos.zone);
    EvacuatedTracks(st);
    UpdateTracks(CpState(Evacuated(st.d, st.pos.zone), st.cblockPos), StepCheckpoint(st, logLba));
  }

  ghost predicate LbaBoundOf(info: Info, zone: nat) {
    PositionToLba(info, zone, 0) < U64_LIMIT
  }

  lemma StepPrepared(st: RandomZoneState, now: RandomZoneState, logLba: u64)
    requires st.Base()
    requires InRing(st.pos.zone + 1) && Tracks(Evacuated(st.d, st.pos.zone), st.cblockPos)
    requires now.pos == st.pos.(zone := AdvancePair(st.pos.zone))
    requires now.ptr == if st.ptr.Valid() then st.ptr else SectorPos(st.pos.zone, 0)
    requires LbaBoundOf(st.d.info, now.pos.zone)
    requires CpState(now.d, now.cblockPos)
             == Update(CpState(Evacuated(st.d, st.pos.zone), st.cblockPos),
                       Checkpoint(PositionToLba(st.d.info, now.pos.zone, 0), logLba))
    ensures now == Prepared(st, logLba)
  {
    hide Shape, CheckpointAt, Update, Evacuated, Tracks;
  }

  // What writing the pending inodes of the buffer comes to.
  ghost predicate PendingWritten(p: RandomZoneState, found: set<u64>, lbas: NatMap, d: Disk, ptr: Position, ret: Ret)
    requires FsDisk(p.d) && p.ptr.zone < |p.d.zones| && found <= lbas.Keys && 0 !in lbas
  {
    var (r, _, written) := AppendAll(RingState(p.d, p.pos, p.ptr), NewBlocks(found, lbas));
    var failed := if CeilDiv(|found|, NAT_BLK_INO_LBA_NUM) == N_RAND_BUFF_ZONES * p.d.info.zoneCapacity
                  then written == RetErr else written != RetNone;
    && ret == (if failed then RetErr else RetNone)
    && d == (if failed then r.d else EraseBuffer(r.d))
    && ptr == r.ptr
  }

  // Whether writing them is an error depends on the space they were estimated to
  // take.
  predicate WritingFails(info: Info, blocks: nat, written: Ret) {
    if N_RAND_BUFF_ZONES * info.zoneCapacity - blocks == 0 then written == RetErr else written != RetNone
  }

  lemma PendingFlushed(p: RandomZoneState, found: set<u64>, lbas: NatMap, r: RingState, written: Ret, left: set<u64>)
    requires FsDisk(p.d) && p.ptr.zone < |p.d.zones| && found <= lbas.Keys && 0 !in lbas
    requires (r, written, left) == Flush(RingState(p.d, p.pos, p.ptr), found, lbas)
    ensures FsDisk(r.d)
    ensures var failed := WritingFails(p.d.info, CeilDiv(|found|, NAT_BLK_INO_LBA_NUM), written);
            PendingWritten(p, found, lbas, if failed then r.d else EraseBuffer(r.d), r.ptr, if failed then RetErr else RetNone)
  {
    hide AppendAll, NewBlocks, EraseBuffer, Left, CeilDiv;
  }

  // A round that cannot copy the two zones goes no further.
  lemma StepRefused(st: RandomZoneState, logLba: u64, lbas: NatMap, pending: set<u64>)
    requires st.Base() && Rewritable(lbas, pending) && InRing(st.pos.zone + 1)
    requires CopyPair(st.d, st.pos.zone, st.pos.zone + 1, SectorPos(RANDZ_BUFF_ZONE, 0)).1 != RetNone
    ensures TryStep(st, logLba, lbas, pending)
            == (st.(d := CopyPair(st.d, st.pos.zone, st.pos.zone + 1, SectorPos(RANDZ_BUFF_ZONE, 0)).0), pending, RetErr)
  {
    hide Tracks, AppendAll, NewBlocks, EraseBuffer, Prepared, CopyPair, Found;
  }

  // A round that got as far as writing, by what it leaves behind.
  lemma StepDone(st: RandomZoneState, p: RandomZoneState, now: RandomZoneState, logLba: u64, lbas: NatMap,
                 pending: set<u64>, rest: set<u64>, ret: Ret)
    requires st.Base() && Rewritable(lbas, pending) && InRing(st.pos.zone + 1)
    requires CopyPair(st.d, st.pos.zone, st.pos.zone + 1, SectorPos(RANDZ_BUFF_ZONE, 0)).1 == RetNone
    requires p == Prepared(st, logLba) && FsDisk(p.d) && p.ptr.zone < |p.d.zones|
    requires now.pos == p.pos && now.cblockPos == p.cblockPos
    requires rest == pending - BufferedInodes(p.d) * pending
    requires BufferedInodes(p.d) * pending <= lbas.Keys
    requires PendingWritten(p, BufferedInodes(p.d) * pending, lbas, now.d, now.ptr, ret)
    ensures (now, rest, ret) == TryStep(st, logLba, lbas, pending)
  {
    hide MentionedIn, CheckpointAt, Tracks, AppendAll, NewBlocks, EraseBuffer, Prepared, CopyPair;
    PreparedBuffer(st, logLba);
    PreparedDisk(st, logLba);
  }

  // A device right after mkfs.
  predicate Formatted(d: Disk, superBlock: Sector) {
    && FsDisk(d)
    && PositionToLba(d.info, RANDZ_ZONE, 0) < U64_LIMIT && PositionToLba(d.info, LOGZ_ZONE, 0) < U64_LIMIT
    && d.zones[SUPER_ZONE] == [superBlock]
    && d.zones[CBLOCK_ZONE] == [EncodeCheckpoint(Checkpoint(PositionToLba(d.info, RANDZ_ZONE, 0),
                                                            PositionToLba(d.info, LOGZ_ZONE, 0)))]
    && forall z | 0 <= z < |d.zones| && z != SUPER_ZONE && z != CBLOCK_ZONE :: d.zones[z] == []
  }

  lemma FirstLbas(info: Info)
    requires info.Valid() && info.numZones > LOGZ_ZONE
    ensures PositionToLba(info, RANDZ_ZONE, 0) < U64_LIMIT && PositionToLba(info, LOGZ_ZONE, 0) < U64_LIMIT
  {
    LbaBound(info, RANDZ_ZONE, 0);
    LbaBound(info, LOGZ_ZONE, 0);
  }

  lemma SameDisk(d: Disk, d': Disk, zone: nat)
    requires SameElsewhere(d, d', zone) && zone < |d.zones|
    ensures d' == d.(zones := d.zones[zone := d'.zones[zone]])
  {
    assert d'.zones == d.zones[zone := d'.zones[zone]];
  }

  lemma MentionedSnoc(bs: seq<Sector>, b: Sector)
    requires AllBlocks(bs) && IsBlock(b)
    ensures AllBlocks(bs + [b]) && MentionedIn(bs + [b]) == MentionedIn(bs) + Mentioned(b)
  {
    assert (bs + [b])[..|bs|] == bs;
  }

  lemma MentionedKind(b: Sector)
    requires IsBlock(b)
    ensures Mentioned(b) == if DecodeNat(b).kind == RANDZ_NAT_BLK then Elems(DecodeNat(b).inode) else {}
  {
  }

  lemma MoveOn(natSet: set<u64>, pending: map<u64, LbaInode>, done: set<u64>, more: set<u64>)
    ensures (natSet + done * pending.Keys) + more * (pending - done).Keys == natSet + (done + more) * pending.Keys
    ensures (pending - done) - more == pending - (done + more)
  {
  }

  lemma ElemsSnoc(xs: seq<u64>, z: nat)
    requires z < |xs|
    ensures Elems(xs[..z + 1]) == Elems(xs[..z]) + {xs[z]}
  {
    assert xs[..z + 1] == xs[..z] + [xs[z]];
    ElemsConcat(xs[..z], [xs[z]]);
  }

  lemma LbasKeys(m: map<u64, LbaInode>)
    ensures Lbas(m).Keys == m.Keys
  {
  }

  // A block filled from a known set does not start with inode 0.
  lemma BatchStarts(nats: set<u64>, lbas: NatMap, block: NatBlock)
    requires nats != {} && nats <= lbas.Keys && 0 !in nats
    requires var batch := NextBatch(nats);
             |batch| <= NAT_BLK_INO_LBA_NUM && Writable(batch, lbas) && block == FilledBlock(batch, lbas)
    ensures block.inode[0] != 0
  {
    var batch := NextBatch(nats);
    assert |batch| > 0;
    assert batch[0] in batch;
  }

  function EmptyNatBlock(): (n: NatBlock)
    ensures n.Valid()
  {
    NatBlock(RANDZ_NAT_BLK, seq(NAT_BLK_INO_LBA_NUM, _ => 0), seq(NAT_BLK_INO_LBA_NUM, _ => 0))
  }

  // The first i slots carry the first i inodes, the others are still empty.
  ghost predicate FilledUpTo(n: NatBlock, xs: seq<u64>, lbas: NatMap, i: nat)
    requires n.Valid()
  {
    && i <= |xs| && i <= NAT_BLK_INO_LBA_NUM
    && (forall a | 0 <= a < i :: xs[a] in lbas && n.inode[a] == xs[a] && n.lba[a] == lbas[xs[a]])
    && (forall a | i <= a < NAT_BLK_INO_LBA_NUM :: n.inode[a] == 0 && n.lba[a] == 0)
  }

  lemma NothingFilled(xs: seq<u64>, lbas: NatMap)
    ensures FilledUpTo(EmptyNatBlock(), xs, lbas, 0)
  {
  }

  lemma FilledStep(n: NatBlock, xs: seq<u64>, m: map<u64, LbaInode>, i: nat)
    requires n.Valid() && FilledUpTo(n, xs, Lbas(m), i)
    requires i < |xs| && i < NAT_BLK_INO_LBA_NUM && xs[i] in m
    ensures FilledUpTo(n.(inode := n.inode[i := xs[i]], lba := n.lba[i := m[xs[i]].lba]), xs, Lbas(m), i + 1)
  {
  }

  lemma FilledIs(n: NatBlock, xs: seq<u64>, lbas: NatMap, i: nat)
    requires n.Valid() && n.kind == RANDZ_NAT_BLK && FilledUpTo(n, xs, lbas, i) && Writable(xs[..i], lbas)
    ensures n == FilledBlock(xs[..i], lbas)
  {
    var f := FilledBlock(xs[..i], lbas);
    assert n.inode == f.inode && n.lba == f.lba;
  }

  lemma WrittenElems(batch: seq<u64>, lbas: NatMap)
    requires |batch| <= NAT_BLK_INO_LBA_NUM && Writable(batch, lbas)
    ensures Inodes(FilledBlock(batch, lbas), 0) == batch
  {
    FilledBlockInodes(batch, lbas, 0);
  }

  lemma ProperSubsetSize(a: set<u64>, b: set<u64>)
    requires a < b
    ensures |a| < |b|
  {
    var x :| x in b && x !in a;
    SubsetSize(a, b - {x});
  }

  lemma EntryStep(block: NatBlock, i: nat, m: NatMap)
    requires block.Valid() && i < NAT_BLK_INO_LBA_NUM && block.inode[i] != 0
    ensures m[block.inode[i] := block.lba[i]] + EntriesMap(block, i + 1) == m + EntriesMap(block, i)
  {
    assert m[block.inode[i] := block.lba[i]] == m + map[block.inode[i] := block.lba[i]];
    MapAssoc(m, map[block.inode[i] := block.lba[i]], EntriesMap(block, i + 1));
  }

  lemma LbasUpdate(m: map<u64, LbaInode>, x: u64, v: LbaInode)
    ensures Lbas(m[x := v]) == Lbas(m)[x := v.lba]
  {
  }

  lemma ReplayNothing(m: NatMap)
    ensures m + Replay([]) == m
  {
  }

  lemma BlockApplied(base: NatMap, before: NatMap, after: NatMap, done: seq<Sector>, bytes: Sector)
    requires AllBlocks(done) && IsBlock(bytes) && before == base + Replay(done)
    requires var n := DecodeNat(bytes);
             after == if n.kind == RANDZ_NAT_BLK then before + EntriesMap(n, 0) else before
    ensures AllBlocks(done + [bytes]) && after == base + Replay(done + [bytes])
  {
    hide Replay, EntriesMap, DecodeNat;
    ReplaySnoc(done, bytes);
    MapAssoc(base, Replay(done), BlockMap(bytes));
    assert before + map[] == before;
  }

  // Reading one more sector of the ring extends what has been read.
  lemma SectorDone(d: Disk, start: nat, k: nat, s: nat)
    requires FsDisk(d) && InRing(start) && k < RING_ZONES && s < |d.zones[RingZone(start, k)]|
    ensures var zone := d.zones[RingZone(start, k)];
            && Contents(d, start, k) + zone[..s] + [zone[s]] == Contents(d, start, k) + zone[..s + 1]
            && (s + 1 == |zone| ==> Contents(d, start, k) + zone[..s + 1] == Contents(d, start, k + 1))
            && (k + 1 < RING_ZONES ==>
                  Contents(d, start, k + 1) + d.zones[RingZone(start, k + 1)][..0] == Contents(d, start, k + 1))
  {
    var zone := d.zones[RingZone(start, k)];
    assert zone[..s + 1] == zone[..s] + [zone[s]];
    ConcatAssoc(Contents(d, start, k), zone[..s], [zone[s]]);
    assert zone[..|zone|] == zone;
  }

  lemma NothingRead(d: Disk, start: nat)
    requires FsDisk(d) && InRing(start)
    ensures Contents(d, start, 0) + d.zones[start][..0] == []
  {
  }

  lemma LeadingIs(d: Disk, start: nat, k: nat)
    requires FsDisk(d) && InRing(start) && k <= RING_ZONES
    requires forall j | 0 <= j < k :: |d.zones[RingZone(start, j)]| == d.info.zoneCapacity
    ensures LeadingFull(d, start, 0) >= k
    ensures k < RING_ZONES && |d.zones[RingZone(start, k)]| < d.info.zoneCapacity ==> LeadingFull(d, start, 0) == k
  {
  }

  lemma ReadableFrom(d: Disk, start: nat, k: nat, s: nat)
    requires FsDisk(d) && InRing(start) && k < RING_ZONES
    requires forall j | 0 <= j < k :: |d.zones[RingZone(start, j)]| == d.info.zoneCapacity
    requires s == |d.zones[RingZone(start, k)]| < d.info.zoneCapacity
    ensures ReadableRing(d, start) == Contents(d, start, k) + d.zones[RingZone(start, k)][..s]
  {
    LeadingIs(d, start, k);
    assert d.zones[RingZone(start, k)][..s] == d.zones[RingZone(start, k)];
  }

  lemma ReadableFull(d: Disk, start: nat)
    requires FsDisk(d) && InRing(start)
    requires forall j | 0 <= j < RING_ZONES :: |d.zones[RingZone(start, j)]| == d.info.zoneCapacity
    ensures ReadableRing(d, start) == Contents(d, start, RING_ZONES)
  {
    LeadingIs(d, start, RING_ZONES);
  }

  // First and last zone of the ring.
  lemma RingEnds(start: nat)
    requires InRing(start)
    ensures RingZone(start, 0) == start
    ensures start == RANDZ_ZONE ==> forall k | 0 <= k < RING_ZONES :: RingZone(start, k) == RANDZ_ZONE + k
    ensures start != RANDZ_ZONE ==> forall k | 0 <= k < RING_ZONES :: RingZone(start, k) == start - 1 <==> k + 1 == RING_ZONES
  {
  }
}
