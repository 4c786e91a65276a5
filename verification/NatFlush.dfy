// Writing a set of changed inodes to the random zone (update_nat_blocks).
module NatFlush {
  import opened Basics
  import opened Disk
  import opened Codec
  import opened Checkpoints
  import opened NatLog
  import opened Ring
  import opened Compaction
  import opened CompactionMeaning

  // Inodes that n blocks of an ascending run take with them, and the rest.
  ghost function Taken(nats: set<u64>, n: nat): set<u64> {
    Elems(Ascending(nats)[..Min(NAT_BLK_INO_LBA_NUM * n, |nats|)])
  }

  ghost function Left(nats: set<u64>, n: nat): set<u64> {
    Elems(Ascending(nats)[Min(NAT_BLK_INO_LBA_NUM * n, |nats|)..])
  }

  // The flush: as many blocks as fit, and what is still in the set after it.
  ghost function Flush(r: RingState, nats: set<u64>, lbas: NatMap): (RingState, Ret, set<u64>)
    requires FsDisk(r.d) && r.ptr.zone < |r.d.zones| && nats <= lbas.Keys && 0 !in nats
  {
    var (r', n, ret) := AppendAll(r, NewBlocks(nats, lbas));
    (r', ret, Left(nats, n))
  }

  lemma AscendingDistinct(xs: seq<u64>, n: nat)
    requires Increasing(xs) && n <= |xs|
    ensures Elems(xs[..n]) !! Elems(xs[n..])
  {
    assert forall x | x in xs[..n] :: x !in xs[n..];
  }

  // Taken and left are the two parts of the set, whatever happens.
  lemma FlushSplits(nats: set<u64>, n: nat)
    ensures Taken(nats, n) + Left(nats, n) == nats && Taken(nats, n) !! Left(nats, n)
  {
    var xs := Ascending(nats);
    var m := Min(NAT_BLK_INO_LBA_NUM * n, |nats|);
    AscendingElems(nats);
    AscendingIncreases(nats);
    ElemsSplit(xs, m);
    AscendingDistinct(xs, m);
  }

  // NAT flush round trip. With room for all blocks exactly ceil(n / 255) are
  // appended and replaying the ring afterwards gives the old replay overridden
  // by the current addresses of the set. Without, the ring is filled to its
  // last sector, the replay is overridden for the inodes written, and those
  // and the inodes left in the set are together exactly the original set.
  lemma NatFlushRoundTrip(r: RingState, nats: set<u64>, lbas: NatMap, k: nat, s: nat) returns (k': nat, s': nat, n: nat)
    requires RingInv(r.d, r.pos, r.ptr, k, s) && k < RING_ZONES && nats <= lbas.Keys && 0 !in nats
    ensures var (r', ret, left) := Flush(r, nats, lbas);
            && RingInv(r'.d, r'.pos, r'.ptr, k', s') && r'.pos == r.pos
            && SameOutsideRing(r.d, r'.d)
            && |RingContents(r'.d, r.pos.zone)| == |RingContents(r.d, r.pos.zone)| + n
            && Replay(RingContents(r'.d, r.pos.zone))
               == Replay(RingContents(r.d, r.pos.zone)) + Restrict(lbas, nats - left)
            && (AllPacked(RingContents(r.d, r.pos.zone)) ==> AllPacked(RingContents(r'.d, r.pos.zone)))
            && left <= nats
            && (ret == RetNone || ret == RandzFull)
            && (ret == RetNone ==> n == CeilDiv(|nats|, NAT_BLK_INO_LBA_NUM) && left == {})
            && (ret == RandzFull <==> k' == RING_ZONES)
            && (ret == RandzFull <==> CeilDiv(|nats|, NAT_BLK_INO_LBA_NUM) >= Free(r.d, k, s))
  {
    hide Replay, BlocksFor, RingContents, AppendAll, Shape, Ascending, AllPacked;
    var xs := Ascending(nats);
    var bs := NewBlocks(nats, lbas);
    AscendingWritable(nats, lbas);
    k', s' := AppendAllRun(r, bs, k, s);
    var (r', written, ret) := AppendAll(r, bs);
    n := written;
    BlocksForCount(xs, lbas);
    BlocksForTake(xs, lbas, n);
    var m := Min(NAT_BLK_INO_LBA_NUM * n, |xs|);
    BlocksForMeaning(xs[..m], lbas);
    ReplayConcat(RingContents(r.d, r.pos.zone), bs[..n]);
    BlocksForPacked(xs, lbas);
    PackedPrefix(bs, n);
    PackedConcat(RingContents(r.d, r.pos.zone), bs[..n]);
    FlushSplits(nats, n);
    assert nats - Left(nats, n) == Taken(nats, n);
    assert ret == RetNone ==> m == |xs|;
    FreeIsRest(r'.d, r.pos.zone, k', s');
  }

  // How much of the ring a flush uses: the fewest blocks for the set if fewer than
  // the free sectors, and else as many of them as there are free sectors.
  ghost predicate FlushUses(before: seq<Sector>, after: seq<Sector>, capacity: nat, nats: set<u64>, lbas: NatMap,
                            ret: Ret, left: set<u64>)
    requires nats <= lbas.Keys && 0 !in nats
  {
    var need, room := CeilDiv(|nats|, NAT_BLK_INO_LBA_NUM), capacity - |before|;
    && room > 0
    && (ret == RetNone <==> need < room)
    && (need < room ==> |after| == |before| + need)
    && (need >= room ==>
          && room <= |NewBlocks(nats, lbas)|
          && after == before + NewBlocks(nats, lbas)[..room] && |after| == capacity
          && left == Left(nats, room))
  }

  lemma FlushUsesRing(r: RingState, nats: set<u64>, lbas: NatMap, k: nat, s: nat)
    requires RingInv(r.d, r.pos, r.ptr, k, s) && k < RING_ZONES && nats <= lbas.Keys && 0 !in nats
    ensures var (r', ret, left) := Flush(r, nats, lbas);
            FlushUses(RingContents(r.d, r.pos.zone), RingContents(r'.d, r.pos.zone), RING_ZONES * r.d.info.zoneCapacity,
                      nats, lbas, ret, left)
  {
    hide BlocksFor, RingContents, AppendAll, Ascending, Left;
    var bs := NewBlocks(nats, lbas);
    AscendingWritable(nats, lbas);
    BlocksForCount(Ascending(nats), lbas);
    var k', s' := AppendAllRun(r, bs, k, s);
    FreeIsRest(r.d, r.pos.zone, k, s);
    FreeStep(r.d, k, s);
  }

  lemma PtrInRing(d: Disk, pos: Position, ptr: Position, k: nat, s: nat)
    requires RingInv(d, pos, ptr, k, s)
    ensures FsDisk(d) && InRing(pos.zone) && pos == Position(pos.zone, 0, 0, pos.size) && Shape(d, pos.zone, k, s)
    ensures ptr.offset == 0 && (ptr.Valid() ==> InRing(ptr.zone))
  {
  }

  lemma OutsideRingKept(d: Disk, d': Disk, cblockPos: Position)
    requires Tracks(d, cblockPos) && FsDisk(d') && SameOutsideRing(d, d')
    ensures Tracks(d', cblockPos) && CheckpointAt(d', cblockPos) == CheckpointAt(d, cblockPos)
    ensures BufferEmpty(d') <==> BufferEmpty(d)
  {
  }

  // What a flush leaves is again a state between operations.
  lemma RingWritten(rz: RandomZoneState, r: RingState, k: nat, s: nat, k': nat, s': nat)
    requires rz.Sound(k, s) && r.pos == rz.pos && RingInv(r.d, r.pos, r.ptr, k', s') && SameOutsideRing(rz.d, r.d)
    ensures rz.(d := r.d, ptr := r.ptr).Sound(k', s')
  {
    hide Shape, Tracks, CheckpointAt, RingInv;
    PtrInRing(r.d, r.pos, r.ptr, k', s');
    OutsideRingKept(rz.d, r.d, rz.cblockPos);
  }

  lemma RingOf(rz: RandomZoneState, k: nat, s: nat)
    requires rz.Sound(k, s)
    ensures RingInv(rz.d, rz.pos, rz.ptr, k, s) && FsDisk(rz.d) && InRing(rz.pos.zone)
  {
  }

  // ---- Steps of the flush loop and of the replay loop ------------------------

  lemma NoElems(s: set<u64>, xs: seq<u64>)
    ensures s - Elems(xs[..0]) == s
  {
  }

  lemma MinusUnion<T>(s: set<T>, a: set<T>, b: set<T>)
    ensures s - (a + b) == s - a - b
  {
  }

  lemma ConsSlices(m: u64, rest: seq<u64>, n: nat)
    requires 0 < n <= |rest| + 1
    ensures ([m] + rest)[n..] == rest[n - 1..]
    ensures Elems(([m] + rest)[..n]) == {m} + Elems(rest[..n - 1])
  {
    assert ([m] + rest)[..n] == [m] + rest[..n - 1];
    ElemsConcat([m], rest[..n - 1]);
  }

  lemma {:induction false} AscendingDrop(s: set<u64>, n: nat)
    requires n <= |s|
    ensures Ascending(s - Elems(Ascending(s)[..n])) == Ascending(s)[n..]
    decreases n
  {
    hide Ascending, Elems;
    var xs := Ascending(s);
    if n == 0 {
      assert s - Elems(xs[..0]) == s by { NoElems(s, xs); }
    } else {
      var m := Least(s);
      AscendingNext(s, m);
      var rest := Ascending(s - {m});
      AscendingDrop(s - {m}, n - 1);
      ConsSlices(m, rest, n);
      MinusUnion(s, {m}, Elems(rest[..n - 1]));
    }
  }

  lemma DropDrop(xs: seq<u64>, m: nat, n: nat)
    requires m + n <= |xs|
    ensures xs[m..][n..] == xs[m + n..]
  {
  }

  // The inodes the next block takes, and the block.
  ghost function NextBatch(nats: set<u64>): seq<u64> {
    Ascending(nats)[..Min(NAT_BLK_INO_LBA_NUM, |nats|)]
  }

  lemma FlushBlocksStep(nats: set<u64>, lbas: NatMap)
    requires nats <= lbas.Keys && 0 !in nats && nats != {}
    ensures var batch := NextBatch(nats);
            && |batch| <= NAT_BLK_INO_LBA_NUM && Writable(batch, lbas)
            && NewBlocks(nats, lbas)
               == [EncodeNat(FilledBlock(batch, lbas))] + NewBlocks(nats - Elems(batch), lbas)
  {
    hide EncodeNat, FilledBlock;
    var xs, n := Ascending(nats), Min(NAT_BLK_INO_LBA_NUM, |nats|);
    AscendingWritable(nats, lbas);
    WritableParts(xs, lbas, n);
    AscendingDrop(nats, n);
  }

  lemma LeftStep(nats: set<u64>, n: nat)
    requires nats != {}
    ensures Left(nats - Elems(NextBatch(nats)), n) == Left(nats, n + 1)
  {
    hide Ascending;
    var xs, m := Ascending(nats), Min(NAT_BLK_INO_LBA_NUM, |nats|);
    AscendingDrop(nats, m);
    DropDrop(xs, m, Min(NAT_BLK_INO_LBA_NUM * n, |nats| - m));
  }

  lemma LeftNothing(nats: set<u64>)
    ensures Left(nats, 0) == nats
  {
    AscendingElems(nats);
    assert Ascending(nats)[0..] == Ascending(nats);
  }

  // What is left still needs the blocks that were not written.
  lemma LeftBlocks(nats: set<u64>, n: nat)
    requires n <= CeilDiv(|nats|, NAT_BLK_INO_LBA_NUM)
    ensures CeilDiv(|Left(nats, n)|, NAT_BLK_INO_LBA_NUM) == CeilDiv(|nats|, NAT_BLK_INO_LBA_NUM) - n
  {
    hide Ascending;
    var m := Min(NAT_BLK_INO_LBA_NUM * n, |nats|);
    FlushSplits(nats, n);
    AscendingDrop(nats, m);
    assert Left(nats, n) == nats - Elems(Ascending(nats)[..m]);
  }

  // Writing the next block and going on is the whole flush.
  lemma FlushStep(r: RingState, nats: set<u64>, lbas: NatMap)
    requires FsDisk(r.d) && r.ptr.zone < |r.d.zones|
    requires nats <= lbas.Keys && 0 !in nats && nats != {}
    ensures var batch := NextBatch(nats);
            && |batch| <= NAT_BLK_INO_LBA_NUM && Writable(batch, lbas)
            && var (r', ret) := AppendBlock(r, EncodeNat(FilledBlock(batch, lbas)));
               var nats' := nats - Elems(batch);
               && (ret == RetNone ==> r'.ptr.zone < |r'.d.zones| && Flush(r, nats, lbas) == Flush(r', nats', lbas))
               && (ret != RetNone ==> Flush(r, nats, lbas) == (r', ret, nats'))
  {
    hide BlocksFor, AppendBlock, Ascending, EncodeNat, FilledBlock, Left;
    var batch, bs := NextBatch(nats), NewBlocks(nats, lbas);
    var nats' := nats - Elems(batch);
    FlushBlocksStep(nats, lbas);
    PointerStaysOnDevice(r, bs[0]);
    var (r', ret) := AppendBlock(r, bs[0]);
    assert bs[1..] == NewBlocks(nats', lbas);
    LeftStep(nats, 0);
    LeftNothing(nats');
    if ret == RetNone {
      var (r'', n, _) := AppendAll(r', bs[1..]);
      LeftStep(nats, n);
    }
  }

  lemma FullZone(d: Disk, start: nat, zone: nat)
    requires FsDisk(d) && InRing(start) && InRing(zone) && Shape(d, start, RING_ZONES, 0)
    ensures |d.zones[zone]| == d.info.zoneCapacity
  {
    assert RingZone(start, (zone + RING_ZONES - start) % RING_ZONES) == zone;
  }

  lemma FlushNothing(r: RingState, lbas: NatMap)
    requires FsDisk(r.d) && r.ptr.zone < |r.d.zones|
    ensures Flush(r, {}, lbas) == (r, RetNone, {})
  {
    assert Left({}, 0) == {};
  }

  // On a full ring the flush fails unless there is nothing to write, and the
  // inodes of its first block are gone from the set without having been written.
  lemma FlushOnFullRing(r: RingState, nats: set<u64>, lbas: NatMap)
    requires RingInv(r.d, r.pos, r.ptr, RING_ZONES, 0) && InRing(r.ptr.zone)
    requires nats <= lbas.Keys && 0 !in nats
    ensures Flush(r, nats, lbas) == (r, if nats == {} then RetNone else RetErr, nats - Elems(NextBatch(nats)))
    ensures nats != {} ==> Elems(NextBatch(nats)) != {} && Elems(NextBatch(nats)) <= nats
  {
    hide BlocksFor, Ascending, EncodeNat, FilledBlock, Left, Flush;
    if nats == {} {
      FlushNothing(r, lbas);
      assert nats - Elems(NextBatch(nats)) == {};
    } else {
      FlushStep(r, nats, lbas);
      FullZone(r.d, r.pos.zone, r.ptr.zone);
      AscendingElems(nats);
      var batch := NextBatch(nats);
      ElemsSplit(Ascending(nats), |batch|);
      assert batch[0] in Elems(batch);
    }
  }

  // The pointer stays in the ring.
  lemma FlushPointer(r: RingState, nats: set<u64>, lbas: NatMap)
    requires FsDisk(r.d) && InRing(r.ptr.zone) && nats <= lbas.Keys && 0 !in nats
    ensures InRing(Flush(r, nats, lbas).0.ptr.zone)
  {
    hide AppendAll, NewBlocks;
    RunStaysInRing(r, NewBlocks(nats, lbas));
  }

  // Blocks a scan from the start of the ring can read.
  function ReadableRing(d: Disk, start: nat): (bs: seq<Sector>)
    requires FsDisk(d) && InRing(start)
    ensures AllBlocks(bs)
  {
    var k := LeadingFull(d, start, 0);
    Contents(d, start, k) + if k < RING_ZONES then d.zones[RingZone(start, k)] else []
  }

  lemma ReadableIsContents(d: Disk, start: nat, k: nat, s: nat)
    requires FsDisk(d) && InRing(start) && Shape(d, start, k, s)
    ensures ReadableRing(d, start) == RingContents(d, start)
  {
    ShapeLeading(d, start, k, s);
    if k < RING_ZONES {
      ContentsAtPointer(d, start, k, s);
    }
  }

  lemma ReplaySnoc(bs: seq<Sector>, b: Sector)
    requires AllBlocks(bs) && IsBlock(b)
    ensures AllBlocks(bs + [b]) && Replay(bs + [b]) == Replay(bs) + BlockMap(b)
  {
    assert (bs + [b])[..|bs|] == bs;
  }
}
