// The random zone: six zones used as one circular log of blocks, starting at
// random_pos and written at random_ptr.
module Ring {
  import opened Basics
  import opened Disk
  import opened Codec
  import opened Checkpoints
  import opened NatLog

  const RING_ZONES: nat := 6

  // The k-th zone counted from the start of the ring.
  function RingZone(start: nat, k: nat): (z: nat)
    requires RANDZ_ZONE <= start < RANDZ_BUFF_ZONE
    ensures RANDZ_ZONE <= z < RANDZ_BUFF_ZONE
  {
    RANDZ_ZONE + (start - RANDZ_ZONE + k) % RING_ZONES
  }

  predicate InRing(zone: nat) {
    RANDZ_ZONE <= zone < RANDZ_BUFF_ZONE
  }

  // The k zones before the write pointer are full, the next one holds s
  // sectors, and all behind it are empty.
  predicate Shape(d: Disk, start: nat, k: nat, s: nat)
    requires FsDisk(d) && InRing(start)
  {
    && k <= RING_ZONES && s < d.info.zoneCapacity && (k == RING_ZONES ==> s == 0)
    && forall j | 0 <= j < RING_ZONES ::
         |d.zones[RingZone(start, j)]| == if j < k then d.info.zoneCapacity else if j == k then s else 0
  }

  // All blocks in the first k zones of the ring, oldest first.
  function Contents(d: Disk, start: nat, k: nat): (bs: seq<Sector>)
    requires FsDisk(d) && InRing(start)
    ensures AllBlocks(bs)
  {
    if k == 0 then [] else Contents(d, start, k - 1) + d.zones[RingZone(start, k - 1)]
  }

  function RingContents(d: Disk, start: nat): (bs: seq<Sector>)
    requires FsDisk(d) && InRing(start)
    ensures AllBlocks(bs)
  {
    Contents(d, start, RING_ZONES)
  }

  // Positions the file system keeps: the ring starts on a zone boundary, and
  // random_ptr is the first free sector, or invalid and outside the first zone
  // when there is none. The size in a position of the ring is what it was set
  // to last.
  predicate RingInv(d: Disk, pos: Position, ptr: Position, k: nat, s: nat) {
    && FsDisk(d)
    && InRing(pos.zone) && pos == Position(pos.zone, 0, 0, pos.size)
    && Shape(d, pos.zone, k, s)
    && (k < RING_ZONES ==> ptr == Position(RingZone(pos.zone, k), s, 0, ptr.size))
    && (k == RING_ZONES ==> ptr.size == 0 && ptr.offset == 0 && ptr.zone != pos.zone)
  }

  lemma RingZoneInjective(start: nat, i: nat, j: nat)
    requires InRing(start) && i < RING_ZONES && j < RING_ZONES && i != j
    ensures RingZone(start, i) != RingZone(start, j)
  {
  }

  // The zone after ring zone k, with the wrap-around of the source.
  lemma NextRingZone(start: nat, k: nat)
    requires InRing(start) && k < RING_ZONES
    ensures RingZone(start, k + 1)
            == if RingZone(start, k) + 1 == RANDZ_BUFF_ZONE then RANDZ_ZONE else RingZone(start, k) + 1
    ensures RingZone(start, k + 1) == start <==> k + 1 == RING_ZONES
  {
  }

  // Contents depend only on the zones they are read from.
  lemma {:induction false} ContentsFrame(d: Disk, d': Disk, start: nat, k: nat)
    requires FsDisk(d) && FsDisk(d') && InRing(start)
    requires forall j | 0 <= j < k :: d'.zones[RingZone(start, j)] == d.zones[RingZone(start, j)]
    ensures Contents(d', start, k) == Contents(d, start, k)
  {
    if k > 0 {
      ContentsFrame(d, d', start, k - 1);
    }
  }

  // Behind the write pointer there is nothing more to read.
  lemma {:induction false} ContentsOfEmpty(d: Disk, start: nat, k: nat, n: nat)
    requires FsDisk(d) && InRing(start) && k <= n
    requires forall j | k <= j < n :: d.zones[RingZone(start, j)] == []
    ensures Contents(d, start, n) == Contents(d, start, k)
    decreases n - k
  {
    if k < n {
      ContentsOfEmpty(d, start, k, n - 1);
    }
  }

  lemma ContentsAtPointer(d: Disk, start: nat, k: nat, s: nat)
    requires FsDisk(d) && InRing(start) && Shape(d, start, k, s) && k < RING_ZONES
    ensures RingContents(d, start) == Contents(d, start, k) + d.zones[RingZone(start, k)]
  {
    ContentsOfEmpty(d, start, k + 1, RING_ZONES);
  }

  // The ring is read from its own zones only.
  lemma RingFrame(d: Disk, d': Disk, pos: Position, ptr: Position, k: nat, s: nat)
    requires RingInv(d, pos, ptr, k, s) && FsDisk(d') && d'.info == d.info
    requires forall z | RANDZ_ZONE <= z < RANDZ_BUFF_ZONE :: d'.zones[z] == d.zones[z]
    ensures RingInv(d', pos, ptr, k, s)
    ensures RingContents(d', pos.zone) == RingContents(d, pos.zone)
  {
    ContentsFrame(d, d', pos.zone, RING_ZONES);
  }

  datatype RingState = RingState(d: Disk, pos: Position, ptr: Position)

  // Outside the listed zone nothing changes.
  predicate SameElsewhere(d: Disk, d': Disk, zone: nat) {
    && d'.info == d.info && |d'.zones| == |d.zones|
    && forall z | 0 <= z < |d.zones| && z != zone :: d'.zones[z] == d.zones[z]
  }

  // append_random_block, for a block that is not a none block.
  function AppendBlock(r: RingState, block: Sector): (res: (RingState, Ret))
    requires FsDisk(r.d) && r.ptr.zone < |r.d.zones| && IsBlock(block)
    ensures FsDisk(res.0.d) && SameElsewhere(r.d, res.0.d, r.ptr.zone)
  {
    if !r.d.Appendable(r.ptr.zone) then (r, RetErr)
    else
      var sector := |r.d.zones[r.ptr.zone]|;
      var d := r.d.Append(r.ptr.zone, block);
      if sector != r.ptr.sector then (r.(d := d), RetErr)
      else if sector + 1 == d.info.zoneCapacity then
        var zone := if r.ptr.zone + 1 == RANDZ_BUFF_ZONE then RANDZ_ZONE else r.ptr.zone + 1;
        if zone == r.pos.zone then (r.(d := d, ptr := r.ptr.(size := 0)), RandzFull)
        else (r.(d := d, ptr := r.ptr.(zone := zone, sector := 0)), RetNone)
      else (r.(d := d, ptr := r.ptr.(sector := sector + 1)), RetNone)
  }

  function NextK(d: Disk, k: nat, s: nat): nat {
    if s + 1 == d.info.zoneCapacity then k + 1 else k
  }

  function NextS(d: Disk, s: nat): nat {
    if s + 1 == d.info.zoneCapacity then 0 else s + 1
  }

  lemma ConcatAssoc<T>(a: seq<T>, b: seq<T>, c: seq<T>)
    ensures a + b + c == a + (b + c)
  {
  }

  lemma AppendBlockShape(r: RingState, block: Sector, k: nat, s: nat)
    requires RingInv(r.d, r.pos, r.ptr, k, s) && k < RING_ZONES && IsBlock(block)
    ensures var d' := r.d.Append(RingZone(r.pos.zone, k), block);
            FsDisk(d') && Shape(d', r.pos.zone, NextK(r.d, k, s), NextS(r.d, s))
    ensures r.d.Appendable(RingZone(r.pos.zone, k))
    ensures forall j | k < j < RING_ZONES ::
              r.d.Append(RingZone(r.pos.zone, k), block).zones[RingZone(r.pos.zone, j)] == []
  {
    var start := r.pos.zone;
    var d' := r.d.Append(RingZone(start, k), block);
    forall j | 0 <= j < RING_ZONES && j != k
      ensures d'.zones[RingZone(start, j)] == r.d.zones[RingZone(start, j)]
    {
      RingZoneInjective(start, j, k);
    }
  }

  lemma AppendBlockContents(r: RingState, block: Sector, k: nat, s: nat)
    requires RingInv(r.d, r.pos, r.ptr, k, s) && k < RING_ZONES && IsBlock(block)
    requires FsDisk(r.d.Append(RingZone(r.pos.zone, k), block))
    ensures RingContents(r.d.Append(RingZone(r.pos.zone, k), block), r.pos.zone)
            == RingContents(r.d, r.pos.zone) + [block]
  {
    var start, zone := r.pos.zone, RingZone(r.pos.zone, k);
    var d' := r.d.Append(zone, block);
    AppendBlockShape(r, block, k, s);
    forall j | 0 <= j < k ensures d'.zones[RingZone(start, j)] == r.d.zones[RingZone(start, j)] {
      RingZoneInjective(start, j, k);
    }
    ContentsFrame(r.d, d', start, k);
    ContentsAtPointer(r.d, start, k, s);
    ContentsOfEmpty(d', start, k + 1, RING_ZONES);
    ConcatAssoc(Contents(r.d, start, k), r.d.zones[zone], [block]);
  }

  // One append: the block goes behind all others, the pointer stays the first
  // free sector, and the ring is reported full exactly when it became so.
  lemma AppendBlockStep(r: RingState, block: Sector, k: nat, s: nat)
    requires RingInv(r.d, r.pos, r.ptr, k, s) && k < RING_ZONES && IsBlock(block)
    ensures var (r', ret) := AppendBlock(r, block);
            && r'.pos == r.pos
            && RingInv(r'.d, r.pos, r'.ptr, NextK(r.d, k, s), NextS(r.d, s))
            && (NextK(r.d, k, s) < RING_ZONES ==> r'.ptr.size == r.ptr.size)
            && SameElsewhere(r.d, r'.d, r.ptr.zone)
            && RingContents(r'.d, r.pos.zone) == RingContents(r.d, r.pos.zone) + [block]
            && ret == if NextK(r.d, k, s) == RING_ZONES then RandzFull else RetNone
  {
    NextRingZone(r.pos.zone, k);
    if k > 0 {
      RingZoneInjective(r.pos.zone, 0, k);
    }
    AppendBlockShape(r, block, k, s);
    AppendBlockContents(r, block, k, s);
  }

  // ---- Runs of appends -----------------------------------------------------

  // Free sectors in front of the start of the ring.
  function Free(d: Disk, k: nat, s: nat): int {
    (RING_ZONES - k) * d.info.zoneCapacity - s
  }

  lemma FreeStep(d: Disk, k: nat, s: nat)
    requires FsDisk(d) && k < RING_ZONES && s < d.info.zoneCapacity
    ensures Free(d, k, s) >= 1
    ensures Free(d, NextK(d, k, s), NextS(d, s)) == Free(d, k, s) - 1
    ensures NextK(d, k, s) == RING_ZONES <==> Free(d, k, s) == 1
  {
    var c := d.info.zoneCapacity;
    assert (RING_ZONES - k) * c == (RING_ZONES - k - 1) * c + c;
    if k + 1 < RING_ZONES {
      MulAtLeast(RING_ZONES - k - 1, c);
    }
  }

  lemma {:induction false} ContentsLength(d: Disk, start: nat, k: nat, s: nat, n: nat)
    requires FsDisk(d) && InRing(start) && Shape(d, start, k, s) && n <= RING_ZONES
    ensures |Contents(d, start, n)|
            == if n <= k then n * d.info.zoneCapacity else k * d.info.zoneCapacity + s
  {
    if n > 0 {
      ContentsLength(d, start, k, s, n - 1);
      assert n * d.info.zoneCapacity == (n - 1) * d.info.zoneCapacity + d.info.zoneCapacity;
    }
  }

  lemma FreeIsRest(d: Disk, start: nat, k: nat, s: nat)
    requires FsDisk(d) && InRing(start) && Shape(d, start, k, s)
    ensures |RingContents(d, start)| + Free(d, k, s) == RING_ZONES * d.info.zoneCapacity
    ensures Free(d, k, s) == 0 <==> k == RING_ZONES
  {
    ContentsLength(d, start, k, s, RING_ZONES);
    if k < RING_ZONES {
      FreeStep(d, k, s);
    }
  }

  // Appending one block after the other, stopping at the first result that is
  // not plain success; the number counts the blocks that reached the ring.
  function AppendAll(r: RingState, bs: seq<Sector>): (res: (RingState, nat, Ret))
    requires FsDisk(r.d) && r.ptr.zone < |r.d.zones| && AllBlocks(bs)
    ensures FsDisk(res.0.d) && res.0.d.info == r.d.info
    decreases |bs|
  {
    if bs == [] then (r, 0, RetNone)
    else
      var (r', ret) := AppendBlock(r, bs[0]);
      if ret != RetNone || r'.ptr.zone >= |r'.d.zones| then (r', 1, ret)
      else
        var (r'', n, ret') := AppendAll(r', bs[1..]);
        (r'', n + 1, ret')
  }

  // Outside the ring nothing changes.
  predicate SameOutsideRing(d: Disk, d': Disk) {
    && d'.info == d.info && |d'.zones| == |d.zones|
    && forall z | 0 <= z < |d.zones| && !InRing(z) :: d'.zones[z] == d.zones[z]
  }

  // What a run of appends comes to: its blocks are stored in order up to the
  // capacity of the ring, and the ring is reported full exactly when it
  // reaches that capacity.
  predicate RunOutcome(r: RingState, bs: seq<Sector>, r': RingState, n: nat, ret: Ret, k: nat, s: nat, k': nat, s': nat)
    requires RingInv(r.d, r.pos, r.ptr, k, s)
  {
    && r'.pos == r.pos && n <= |bs|
    && RingInv(r'.d, r.pos, r'.ptr, k', s')
    && (k' < RING_ZONES ==> r'.ptr.size == r.ptr.size)
    && SameOutsideRing(r.d, r'.d)
    && RingContents(r'.d, r.pos.zone) == RingContents(r.d, r.pos.zone) + bs[..n]
    && n == (if |bs| < Free(r.d, k, s) then |bs| else Free(r.d, k, s))
    && ret == (if |bs| < Free(r.d, k, s) then RetNone else RandzFull)
    && Free(r'.d, k', s') == Free(r.d, k, s) - n
  }

  lemma RunCons(r: RingState, bs: seq<Sector>, r1: RingState, r2: RingState, n: nat, ret: Ret,
                k: nat, s: nat, k': nat, s': nat)
    requires RingInv(r.d, r.pos, r.ptr, k, s) && k < RING_ZONES && bs != []
    requires r1.pos == r.pos && RingInv(r1.d, r.pos, r1.ptr, NextK(r.d, k, s), NextS(r.d, s))
    requires SameElsewhere(r.d, r1.d, r.ptr.zone) && Free(r.d, k, s) > 1 && r1.ptr.size == r.ptr.size
    requires RingContents(r1.d, r.pos.zone) == RingContents(r.d, r.pos.zone) + [bs[0]]
    requires RunOutcome(r1, bs[1..], r2, n, ret, NextK(r.d, k, s), NextS(r.d, s), k', s')
    ensures RunOutcome(r, bs, r2, n + 1, ret, k, s, k', s')
  {
    FreeStep(r.d, k, s);
    var stored := RingContents(r.d, r.pos.zone);
    assert bs[..n + 1] == [bs[0]] + bs[1..][..n];
    ConcatAssoc(stored, [bs[0]], bs[1..][..n]);
  }

  lemma {:induction false} AppendAllRun(r: RingState, bs: seq<Sector>, k: nat, s: nat) returns (k': nat, s': nat)
    requires RingInv(r.d, r.pos, r.ptr, k, s) && k < RING_ZONES && AllBlocks(bs)
    ensures var (r', n, ret) := AppendAll(r, bs);
            RunOutcome(r, bs, r', n, ret, k, s, k', s')
    decreases |bs|
  {
    FreeStep(r.d, k, s);
    if bs == [] {
      k', s' := k, s;
      assert RingContents(r.d, r.pos.zone) + bs[..0] == RingContents(r.d, r.pos.zone);
    } else {
      AppendBlockStep(r, bs[0], k, s);
      var (r1, ret1) := AppendBlock(r, bs[0]);
      var k1, s1 := NextK(r.d, k, s), NextS(r.d, s);
      if ret1 != RetNone {
        k', s' := k1, s1;
        assert bs[..1] == [bs[0]];
      } else {
        k', s' := AppendAllRun(r1, bs[1..], k1, s1);
        var (r2, n, ret) := AppendAll(r1, bs[1..]);
        RunCons(r, bs, r1, r2, n, ret, k, s, k', s');
      }
    }
  }

  lemma ZoneOnDevice(d: Disk, zone: nat)
    requires FsDisk(d) && InRing(zone)
    ensures zone < |d.zones|
  {
  }

  // The pointer never leaves the device, wherever it starts.
  lemma PointerStaysOnDevice(r: RingState, b: Sector)
    requires FsDisk(r.d) && r.ptr.zone < |r.d.zones| && IsBlock(b)
    ensures var r' := AppendBlock(r, b).0;
            r'.ptr.zone < |r'.d.zones| && r'.ptr.offset == r.ptr.offset && r'.d.info == r.d.info
  {
  }

  lemma PointerStaysInRing(r: RingState, b: Sector)
    requires FsDisk(r.d) && InRing(r.ptr.zone) && IsBlock(b)
    ensures InRing(AppendBlock(r, b).0.ptr.zone) && AppendBlock(r, b).0.ptr.offset == r.ptr.offset
    ensures AppendBlock(r, b).0.d.info == r.d.info && AppendBlock(r, b).0.pos == r.pos
  {
  }

  lemma {:induction false} RunStaysInRing(r: RingState, bs: seq<Sector>)
    requires FsDisk(r.d) && InRing(r.ptr.zone) && AllBlocks(bs)
    ensures var r' := AppendAll(r, bs).0;
            && InRing(r'.ptr.zone) && r'.ptr.offset == r.ptr.offset && r'.pos == r.pos
            && SameOutsideRing(r.d, r'.d)
    decreases |bs|
  {
    hide AppendBlock;
    if bs != [] {
      PointerStaysInRing(r, bs[0]);
      var (r', ret) := AppendBlock(r, bs[0]);
      if ret == RetNone {
        RunStaysInRing(r', bs[1..]);
      }
    }
  }

  // ---- Finding the pointer again --------------------------------------------

  // Full zones in front of the first one with room, counted from zone k.
  function LeadingFull(d: Disk, start: nat, k: nat): (n: nat)
    requires FsDisk(d) && InRing(start) && k <= RING_ZONES
    ensures k <= n <= RING_ZONES
    ensures forall j | k <= j < n :: |d.zones[RingZone(start, j)]| == d.info.zoneCapacity
    ensures n < RING_ZONES ==> |d.zones[RingZone(start, n)]| < d.info.zoneCapacity
    decreases RING_ZONES - k
  {
    if k < RING_ZONES && |d.zones[RingZone(start, k)]| == d.info.zoneCapacity then LeadingFull(d, start, k + 1) else k
  }

  // What determine_random_ptr computes. The scan stops before the last sector
  // of the ring unless the ring starts at the first zone. The pointer takes its
  // size from random_pos.
  function DeterminePtr(d: Disk, pos: Position): (Position, Ret)
    requires FsDisk(d) && InRing(pos.zone)
  {
    var start, k := pos.zone, LeadingFull(d, pos.zone, 0);
    if start == RANDZ_ZONE then
      if k == RING_ZONES then (Position(RANDZ_BUFF_ZONE, 0, 0, 0), RandzFull)
      else (Position(RingZone(start, k), |d.zones[RingZone(start, k)]|, 0, pos.size), RetNone)
    else
      if k == RING_ZONES || (k + 1 == RING_ZONES && |d.zones[RingZone(start, k)]| + 1 == d.info.zoneCapacity)
      then (Position(start - 1, d.info.zoneCapacity - 1, 0, 0), RandzFull)
      else (Position(RingZone(start, k), |d.zones[RingZone(start, k)]|, 0, pos.size), RetNone)
  }

  lemma ShapeLeading(d: Disk, start: nat, k: nat, s: nat)
    requires FsDisk(d) && InRing(start) && Shape(d, start, k, s)
    ensures LeadingFull(d, start, 0) == k
  {
    var n := LeadingFull(d, start, 0);
    var m := Min(n, k);
    if m < RING_ZONES {
      assert |d.zones[RingZone(start, m)]| == if m < k then d.info.zoneCapacity else s;
    }
  }

  // A mount arrives at the same sector, or at the ring being full.
  predicate MountFinds(d: Disk, pos: Position, ptr: Position, full: bool)
    requires FsDisk(d) && InRing(pos.zone)
  {
    var (found, ret) := DeterminePtr(d, pos);
    if full then ret == RandzFull && found.size == 0 else ret == RetNone && found == ptr.(size := pos.size)
  }

  // The scan at mount finds the tracked pointer, and the ring full or not as
  // it was, except that it takes one free sector for none when the ring does
  // not start at the first random zone.
  lemma PointerRecovered(d: Disk, pos: Position, ptr: Position, k: nat, s: nat)
    requires RingInv(d, pos, ptr, k, s)
    ensures MountFinds(d, pos, ptr, k == RING_ZONES) <==> !(pos.zone != RANDZ_ZONE && Free(d, k, s) == 1)
  {
    ShapeLeading(d, pos.zone, k, s);
    if k < RING_ZONES {
      FreeStep(d, k, s);
    } else {
      FreeIsRest(d, pos.zone, k, s);
    }
  }

  predicate EmptyRing(d: Disk)
    requires FsDisk(d)
  {
    forall z | RANDZ_ZONE <= z < RANDZ_BUFF_ZONE :: d.zones[z] == []
  }

  lemma EmptyRingInv(d: Disk, start: nat, size: nat)
    requires FsDisk(d) && InRing(start) && EmptyRing(d)
    ensures RingInv(d, Position(start, 0, 0, size), Position(start, 0, 0, size), 0, 0)
    ensures RingContents(d, start) == []
    ensures Free(d, 0, 0) == RING_ZONES * d.info.zoneCapacity
  {
    assert RingZone(start, 0) == start;
    ContentsOfEmpty(d, start, 0, RING_ZONES);
  }

  // Every run of appends from an empty ring: the used sectors are one segment
  // holding exactly the blocks appended, the ring is reported full on the
  // append that fills it and not before, and a mount finds the same pointer
  // unless exactly one sector is free and the ring does not start at its
  // first zone.
  lemma RingPointerAgreement(d: Disk, start: nat, size: nat, bs: seq<Sector>) returns (k: nat, s: nat)
    requires FsDisk(d) && InRing(start) && EmptyRing(d)
    requires AllBlocks(bs) && |bs| <= RING_ZONES * d.info.zoneCapacity
    ensures var (r, n, ret) := AppendAll(RingState(d, Position(start, 0, 0, size), Position(start, 0, 0, size)), bs);
            var capacity := RING_ZONES * d.info.zoneCapacity;
            && n == |bs|
            && RingInv(r.d, r.pos, r.ptr, k, s)
            && RingContents(r.d, start) == bs
            && ret == (if |bs| == capacity then RandzFull else RetNone)
            && (MountFinds(r.d, r.pos, r.ptr, ret == RandzFull)
                <==> !(start != RANDZ_ZONE && |bs| == capacity - 1))
  {
    var r0 := RingState(d, Position(start, 0, 0, size), Position(start, 0, 0, size));
    EmptyRingInv(d, start, size);
    k, s := AppendAllRun(r0, bs, 0, 0);
    var (r, n, ret) := AppendAll(r0, bs);
    assert bs[..n] == bs;
    FreeIsRest(r.d, start, k, s);
    PointerRecovered(r.d, r.pos, r.ptr, k, s);
  }
}
