// rewrite_random_blocks_full as a whole: three rounds over the full ring.
module CompactionRun {
  import opened Basics
  import opened Disk
  import opened Codec
  import opened Checkpoints
  import opened NatLog
  import opened Ring
  import opened Compaction
  import opened CompactionMeaning

  const STEPS: nat := 3

  ghost predicate Compactable(st: RandomZoneState, n: nat) {
    exists k: nat, s: nat :: st.Inv(k, s) && k >= 2 * n
  }

  lemma RoundKeepsInv(st: RandomZoneState, logLba: u64, lbas: NatMap, pending: set<u64>, n: nat)
    requires Compactable(st, n) && n > 0 && Rewritable(lbas, pending)
    ensures Compactable(CompactStep(st, logLba, lbas, pending).0, n - 1)
    ensures Rewritable(lbas, CompactStep(st, logLba, lbas, pending).1)
  {
    var k: nat, s: nat :| st.Inv(k, s) && k >= 2 * n;
    var k', s', rest := CompactStepOutcome(st, logLba, lbas, pending, k, s);
  }

  // The state after n rounds, and the inodes that still wait to be rewritten.
  ghost function Rounds(st: RandomZoneState, logLba: u64, lbas: NatMap, pending: set<u64>, n: nat): (RandomZoneState,
                        set<u64>)
    requires Compactable(st, n) && Rewritable(lbas, pending)
    decreases n
  {
    if n == 0 then (st, pending)
    else
      RoundKeepsInv(st, logLba, lbas, pending, n);
      var (st', pending') := CompactStep(st, logLba, lbas, pending);
      Rounds(st', logLba, lbas, pending', n - 1)
  }

  // After a round the pointer stands in the ring, also when it is invalid.
  lemma StepPointer(st: RandomZoneState, logLba: u64, lbas: NatMap, pending: set<u64>)
    requires st.Base() && Rewritable(lbas, pending)
    ensures InRing(CompactStep(st, logLba, lbas, pending).0.ptr.zone)
  {
    hide Update, NewBlocks, AppendAll, MentionedIn, Shape, Tracks, CheckpointAt, EraseBuffer, RingContents;
    RingShift(st.pos.zone, 0);
    PreparedDisk(st, logLba);
    var p := Prepared(st, logLba);
    RunStaysInRing(RingState(p.d, p.pos, p.ptr), NewBlocks(Found(st.d, st.pos.zone, pending), lbas));
  }

  lemma {:induction false} RoundsPointer(st: RandomZoneState, logLba: u64, lbas: NatMap, pending: set<u64>, n: nat)
    requires Compactable(st, n) && Rewritable(lbas, pending) && n > 0
    ensures InRing(Rounds(st, logLba, lbas, pending, n).0.ptr.zone)
    decreases n
  {
    hide CompactStep, RandomZoneState.Inv;
    var k: nat, s: nat :| st.Inv(k, s) && k >= 2 * n;
    InvBase(st, k, s);
    StepPointer(st, logLba, lbas, pending);
    RoundKeepsInv(st, logLba, lbas, pending, n);
    var (st', pending') := CompactStep(st, logLba, lbas, pending);
    if n > 1 {
      RoundsPointer(st', logLba, lbas, pending', n - 1);
    } else {
      assert Rounds(st', logLba, lbas, pending', 0) == (st', pending');
    }
  }

  // Everything a reader of the device can rely on after a number of rounds.
  ghost predicate Midway(ring: seq<Sector>, p: nat, rounds: nat, lbas: NatMap,
                         st: RandomZoneState, pending: set<u64>, added: seq<Sector>, k: nat, s: nat)
    requires AllBlocks(ring)
  {
    && st.Inv(k, s)
    && Progress(ring, p, rounds, lbas, pending, RingContents(st.d, st.pos.zone), added)
  }

  lemma PairOfState(st: RandomZoneState, k: nat, s: nat)
    requires st.Inv(k, s) && k >= 2
    ensures InRing(st.pos.zone + 1)
    ensures |st.d.zones[st.pos.zone] + st.d.zones[st.pos.zone + 1]| == 2 * st.d.info.zoneCapacity
  {
    PairLength(st.d, st.pos.zone, k, s);
  }

  lemma FrontOf(ring: seq<Sector>, p: nat, q: nat, added: seq<Sector>, pair: seq<Sector>, rest: seq<Sector>)
    requires p <= q <= |ring| && |pair| == q - p && ring[p..] + added == pair + rest
    ensures pair == ring[p..q] && rest == ring[q..] + added
  {
    var whole := ring[p..] + added;
    assert whole[..q - p] == pair && whole[..q - p] == ring[p..q];
    assert whole[q - p..] == rest && whole[q - p..] == ring[q..] + added;
  }

  lemma ProgressRound(ring: seq<Sector>, p: nat, q: nat, rounds: nat, lbas: NatMap, pending: set<u64>,
                      added: seq<Sector>, pair: seq<Sector>, rest: seq<Sector>)
    requires AllBlocks(ring) && 0 !in lbas && p <= q <= |ring| && |pair| == q - p
    requires Progress(ring, p, rounds, lbas, pending, pair + rest, added)
    ensures AllBlocks(pair) && MentionedIn(pair) * pending <= lbas.Keys
    ensures var bs := NewBlocks(MentionedIn(pair) * pending, lbas);
            && Progress(ring, q, rounds + 1, lbas, pending - MentionedIn(pair) * pending, rest + bs, added + bs)
            && |bs| == CeilDiv(|FirstMentioned(ring, p, q, lbas.Keys)|, NAT_BLK_INO_LBA_NUM)
  {
    hide Carried, Contents, MentionedIn, Replay, BlocksFor, CeilDiv;
    FrontOf(ring, p, q, added, pair, rest);
    NewBlocksCount(MentionedIn(pair) * pending, lbas);
    ProgressStep(ring, p, q, rounds, lbas, pending, pair + rest, added);
    ConcatAssoc(ring[q..], added, NewBlocks(MentionedIn(pair) * pending, lbas));
  }

  lemma MidwayStep(ring: seq<Sector>, p: nat, rounds: nat, lbas: NatMap, logLba: u64,
                   st: RandomZoneState, pending: set<u64>, added: seq<Sector>, k: nat, s: nat)
    returns (added': seq<Sector>, k': nat, s': nat)
    requires AllBlocks(ring) && Rewritable(lbas, pending) && Midway(ring, p, rounds, lbas, st, pending, added, k, s)
    requires k >= 2 && p + 2 * st.d.info.zoneCapacity <= |ring|
    ensures var (st', pending') := CompactStep(st, logLba, lbas, pending);
            && Midway(ring, p + 2 * st.d.info.zoneCapacity, rounds + 1, lbas, st', pending', added', k', s')
            && |added'| == |added| + CeilDiv(|FirstMentioned(ring, p, p + 2 * st.d.info.zoneCapacity, lbas.Keys)|,
                                             NAT_BLK_INO_LBA_NUM)
            && k' >= k - 2
            && st'.pos.zone == AdvancePair(st.pos.zone)
            && SameOutsideMetadata(st.d, st'.d)
  {
    hide CeilDiv, FirstMentioned, Progress, Contents, MentionedIn, SameOutsideMetadata, CompactStep, NewBlocks,
         AllBlocks, Tracks, Shape;
    var zone := st.pos.zone;
    var rest;
    k', s', rest := CompactStepOutcome(st, logLba, lbas, pending, k, s);
    assert |st.d.zones[zone] + st.d.zones[zone + 1]| == 2 * st.d.info.zoneCapacity by {
      PairOfState(st, k, s);
    }
    added' := added + NewBlocks(Found(st.d, zone, pending), lbas);
    ProgressRound(ring, p, p + 2 * st.d.info.zoneCapacity, rounds, lbas, pending, added,
                  st.d.zones[zone] + st.d.zones[zone + 1], rest);
  }

  lemma RoundsFit(p: nat, q: nat, n: nat, c: nat)
    requires p + n * c == q && n > 0
    ensures p + c <= q && p + c + (n - 1) * c == q
  {
    MulAtLeast(n, c);
  }

  function AdvanceBy(zone: nat, n: nat): nat
    decreases n
  {
    if n == 0 then zone else AdvanceBy(AdvancePair(zone), n - 1)
  }

  lemma {:induction false} MidwayRun(ring: seq<Sector>, p: nat, q: nat, rounds: nat, lbas: NatMap, logLba: u64,
                   st: RandomZoneState, pending: set<u64>, added: seq<Sector>, k: nat, s: nat, n: nat)
    returns (added': seq<Sector>, k': nat, s': nat)
    requires AllBlocks(ring) && Rewritable(lbas, pending) && Midway(ring, p, rounds, lbas, st, pending, added, k, s)
    requires k >= 2 * n && p + n * (2 * st.d.info.zoneCapacity) == q <= |ring|
    requires Compactable(st, n)
    ensures var (st', pending') := Rounds(st, logLba, lbas, pending, n);
            && Midway(ring, q, rounds + n, lbas, st', pending', added', k', s')
            && (var c := 2 * st.d.info.zoneCapacity;
                |added'| + RewrittenSize(ring, q, c, lbas.Keys) == |added| + RewrittenSize(ring, p, c, lbas.Keys))
            && SameOutsideMetadata(st.d, st'.d)
            && st'.pos.zone == AdvanceBy(st.pos.zone, n)
    decreases n
  {
    hide Carried, Contents, Shape, MentionedIn, Replay, Tracks, BlocksFor, CompactStep, RingInv, CeilDiv,
         FirstMentioned;
    if n == 0 {
      added', k', s' := added, k, s;
    } else {
      var c := 2 * st.d.info.zoneCapacity;
      assert n * c == (n - 1) * c + c;
      RoundsFit(p, q, n, c);
      var added1, k1, s1 := MidwayStep(ring, p, rounds, lbas, logLba, st, pending, added, k, s);
      var (st1, pending1) := CompactStep(st, logLba, lbas, pending);
      RoundKeepsInv(st, logLba, lbas, pending, n);
      added', k', s' := MidwayRun(ring, p + c, q, rounds + 1, lbas, logLba, st1, pending1, added1, k1, s1, n - 1);
    }
  }

  lemma FullRingLength(st: RandomZoneState, n: nat)
    requires st.Inv(RING_ZONES, 0) && n <= STEPS
    ensures |RingContents(st.d, st.pos.zone)| == STEPS * (2 * st.d.info.zoneCapacity)
    ensures n * (2 * st.d.info.zoneCapacity) <= |RingContents(st.d, st.pos.zone)|
  {
    FreeIsRest(st.d, st.pos.zone, RING_ZONES, 0);
    var c := 2 * st.d.info.zoneCapacity;
    assert STEPS * c == n * c + (STEPS - n) * c;
  }

  // Safety at every step boundary: after each round the newest checkpoint on
  // the device names the start of the ring, the buffer is empty, and every
  // inode that had an address in the ring and still exists has either that
  // address or its current one.
  lemma SafeAtEveryBoundary(st: RandomZoneState, logLba: u64, lbas: NatMap, n: nat)
    returns (k: nat, s: nat)
    requires st.Inv(RING_ZONES, 0) && 0 !in lbas && n <= STEPS
    ensures Compactable(st, n)
    ensures var st' := Rounds(st, logLba, lbas, lbas.Keys, n).0;
            && st'.Inv(k, s)
            && LocatePos(st'.d) == Some(st'.cblockPos)
            && CheckpointAt(st'.d, st'.cblockPos).randzLba == PositionToLba(st'.d.info, st'.pos.zone, 0)
            && BufferEmpty(st'.d)
            && SameOutsideMetadata(st.d, st'.d)
            && var before, after := Replay(RingContents(st.d, st.pos.zone)), Replay(RingContents(st'.d, st'.pos.zone));
               forall x | x in before && x in lbas :: x in after && (after[x] == before[x] || after[x] == lbas[x])
  {
    assert Compactable(st, n);
    hide RewrittenSize, Carried, Contents, Shape, MentionedIn, Replay, Written, CompactStep, SameOutsideMetadata;
    var ring := RingContents(st.d, st.pos.zone);
    FullRingLength(st, n);
    var p := n * (2 * st.d.info.zoneCapacity);
    ProgressStart(ring, lbas);
    var added;
    added, k, s := MidwayRun(ring, 0, p, 0, lbas, logLba, st, lbas.Keys, [], RING_ZONES, 0, n);
    var (st', pending) := Rounds(st, logLba, lbas, lbas.Keys, n);
    TrackedIsLocated(st'.d, st'.cblockPos);
    forall x | x in Replay(ring) && x in lbas
      ensures var after := Replay(RingContents(st'.d, st'.pos.zone));
              x in after && (after[x] == Replay(ring)[x] || after[x] == lbas[x])
    {
      ProgressSafe(ring, p, n, lbas, pending, RingContents(st'.d, st'.pos.zone), added, x);
    }
  }

  predicate Rewritten(before: seq<Sector>, after: seq<Sector>, lbas: NatMap)
    requires AllBlocks(before) && AllBlocks(after)
  {
    && Replay(after) == Restrict(lbas, MentionedIn(before))
    && AllPacked(after)
    && Distinct(Written(after))
    && Elems(Written(after)) == MentionedIn(before) * lbas.Keys
    && |after| <= CeilDiv(|MentionedIn(before) * lbas.Keys|, NAT_BLK_INO_LBA_NUM) + 2
  }

  // The meaning of a whole compaction: the ring starts where it did, its
  // replay is the current address of every inode the old ring mentioned that
  // still exists, each of them written exactly once, in at most two blocks
  // more than the fewest possible; the blocks are as many as the three parts
  // of the ring need, and the ring is full again exactly when that is all of it.
  ghost predicate CompactionOutcome(st: RandomZoneState, st': RandomZoneState, lbas: NatMap, k: nat, s: nat)
    requires st.Inv(RING_ZONES, 0)
  {
    && st'.Inv(k, s)
    && st'.pos.zone == st.pos.zone
    && SameOutsideMetadata(st.d, st'.d)
    && Rewritten(RingContents(st.d, st.pos.zone), RingContents(st'.d, st'.pos.zone), lbas)
    && |RingContents(st'.d, st'.pos.zone)|
       == RewrittenSize(RingContents(st.d, st.pos.zone), 0, 2 * st.d.info.zoneCapacity, lbas.Keys)
    && (k == RING_ZONES <==> |RingContents(st'.d, st'.pos.zone)| == RING_ZONES * st.d.info.zoneCapacity)
  }

  lemma RewrittenWhenDone(ring: seq<Sector>, lbas: NatMap, pending: set<u64>, now: seq<Sector>, added: seq<Sector>)
    requires AllBlocks(ring) && AllBlocks(now) && Progress(ring, |ring|, STEPS, lbas, pending, now, added)
    ensures now == added && Rewritten(ring, now, lbas)
  {
    hide Written, Replay, MentionedIn;
    ProgressDone(ring, STEPS, lbas, pending, now, added);
    assert ring[..|ring|] == ring;
  }

  // Behind the last block nothing is left to rewrite.
  lemma AllIsRewritten(ring: seq<Sector>, c: nat, live: set<u64>)
    requires AllBlocks(ring) && c > 0
    ensures RewrittenSize(ring, |ring|, c, live) == 0
  {
  }

  lemma ThreePairsAround(zone: nat)
    requires InRing(zone) && zone % 2 == 0
    ensures AdvanceBy(zone, STEPS) == zone
  {
    assert AdvanceBy(zone, STEPS) == AdvanceBy(AdvancePair(zone), 2);
    assert AdvanceBy(AdvancePair(zone), 2) == AdvanceBy(AdvancePair(AdvancePair(zone)), 1);
  }

  lemma CompactionPreservesMeaning(st: RandomZoneState, logLba: u64, lbas: NatMap) returns (k: nat, s: nat)
    requires st.Inv(RING_ZONES, 0) && 0 !in lbas
    ensures Compactable(st, STEPS)
    ensures CompactionOutcome(st, Rounds(st, logLba, lbas, lbas.Keys, STEPS).0, lbas, k, s)
  {
    hide Contents, Shape, MentionedIn, CompactStep, Tracks, Progress, Rewritten, Rounds, RewrittenSize, RingInv,
         CheckpointAt;
    assert Compactable(st, STEPS);
    var ring := RingContents(st.d, st.pos.zone);
    FullRingLength(st, STEPS);
    ProgressStart(ring, lbas);
    var added;
    added, k, s := MidwayRun(ring, 0, |ring|, 0, lbas, logLba, st, lbas.Keys, [], RING_ZONES, 0, STEPS);
    var (st', pending) := Rounds(st, logLba, lbas, lbas.Keys, STEPS);
    RewrittenWhenDone(ring, lbas, pending, RingContents(st'.d, st'.pos.zone), added);
    AllIsRewritten(ring, 2 * st.d.info.zoneCapacity, lbas.Keys);
    ThreePairsAround(st.pos.zone);
    FreeIsRest(st'.d, st'.pos.zone, k, s);
  }
}
