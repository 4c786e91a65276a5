// The log zone: every zone from LOGZ_ZONE to the end of the device, written
// one sector at a time at log_ptr and never reset.
module LogZone {
  import opened Basics
  import opened Disk
  import opened ZnsMemory
  import opened Checkpoints

  // log_ptr is the first free sector: all zones before it are full, all zones
  // behind it are empty.
  predicate LogInv(d: Disk, ptr: Position) {
    && FsDisk(d)
    && ptr == SectorPos(ptr.zone, ptr.sector)
    && LOGZ_ZONE <= ptr.zone < d.info.numZones
    && |d.zones[ptr.zone]| == ptr.sector < d.info.zoneCapacity
    && (forall z | LOGZ_ZONE <= z < ptr.zone :: |d.zones[z]| == d.info.zoneCapacity)
    && (forall z | ptr.zone < z < d.info.numZones :: d.zones[z] == [])
  }

  predicate EmptyLog(d: Disk)
    requires FsDisk(d)
  {
    forall z | LOGZ_ZONE <= z < d.info.numZones :: d.zones[z] == []
  }

  // advance_log_ptr
  function Advance(info: Info, ptr: Position): (Position, Ret) {
    var next := if ptr.sector + 1 == info.zoneCapacity then ptr.(zone := ptr.zone + 1, sector := 0)
                else ptr.(sector := ptr.sector + 1);
    if next.zone == info.numZones then (next.(size := 0), LogzFull) else (next, RetNone)
  }

  // The sectors of the log in the order in which it uses them.
  predicate Before(z1: nat, s1: nat, z2: nat, s2: nat) {
    z1 < z2 || (z1 == z2 && s1 < s2)
  }

  // The pointer moves to the very next sector of the device: no sector lies
  // between the two, so none is left out and none is used twice. It becomes
  // invalid exactly when there is no next sector.
  lemma AdvanceIsNext(info: Info, ptr: Position)
    requires info.Valid() && ptr.Valid() && ptr.zone < info.numZones && ptr.sector < info.zoneCapacity
    ensures var (next, ret) := Advance(info, ptr);
            && next.sector < info.zoneCapacity && next.offset == ptr.offset
            && PositionToLba(info, ptr.zone, ptr.sector) < PositionToLba(info, next.zone, next.sector)
            && (forall z: nat, s: nat | s < info.zoneCapacity ::
                  !(Before(ptr.zone, ptr.sector, z, s) && Before(z, s, next.zone, next.sector)))
            && (!next.Valid() <==> forall z: nat, s: nat | z < info.numZones && s < info.zoneCapacity ::
                                     !Before(ptr.zone, ptr.sector, z, s))
            && (ret == LogzFull <==> !next.Valid()) && (ret == RetNone <==> next.Valid())
  {
    var next := Advance(info, ptr).0;
    LbaMonotone(info, ptr.zone, ptr.sector, next.zone, next.sector);
    assert next.zone < info.numZones ==> Before(ptr.zone, ptr.sector, next.zone, next.sector);
  }

  datatype LogState = LogState(d: Disk, ptr: Position)

  // log_append; the address is only meaningful when the data was written.
  function AppendSector(st: LogState, data: Sector): (res: (LogState, Ret, nat))
    requires FsDisk(st.d) && st.ptr.zone < st.d.info.numZones
    ensures res.0.d.info == st.d.info
  {
    if |data| != SECTOR_SIZE || !st.d.Appendable(st.ptr.zone) then (st, RetErr, 0)
    else
      var sector := |st.d.zones[st.ptr.zone]|;
      var d := st.d.Append(st.ptr.zone, data);
      if sector != st.ptr.sector then (st.(d := d), RetErr, 0)
      else
        var (ptr, ret) := Advance(d.info, st.ptr);
        (LogState(d, ptr), ret, PositionToLba(d.info, st.ptr.zone, st.ptr.sector))
  }

  // Sectors the log still takes. The last sector of the device never counts.
  function Room(st: LogState): int {
    (st.d.info.numZones - st.ptr.zone) * st.d.info.zoneCapacity - st.ptr.sector - 1
  }

  // The log zones only ever grow: what was readable in them stays readable and
  // stays the same.
  predicate LogGrows(d: Disk, d': Disk) {
    && d'.info == d.info && |d'.zones| == |d.zones|
    && forall z | LOGZ_ZONE <= z < |d.zones| :: d.zones[z] <= d'.zones[z]
  }

  // An address of a written sector of the log.
  predicate InLog(d: Disk, lba: nat) {
    && FsDisk(d)
    && LOGZ_ZONE <= LbaZone(d.info, lba)
    && LbaReadable(d, lba)
  }

  // The address an append returns is that of the log pointer before it.
  function PtrLba(st: LogState): nat {
    PositionToLba(st.d.info, st.ptr.zone, st.ptr.sector)
  }

  predicate SameOutsideLog(d: Disk, d': Disk) {
    && d'.info == d.info && |d'.zones| == |d.zones|
    && forall z | 0 <= z < LOGZ_ZONE && z < |d.zones| :: d'.zones[z] == d.zones[z]
  }

  lemma RoomStep(st: LogState)
    requires LogInv(st.d, st.ptr)
    ensures Room(st) >= 0
    ensures st.d.Appendable(st.ptr.zone) <==> Room(st) > 0
  {
    var n, c := st.d.info.numZones - st.ptr.zone, st.d.info.zoneCapacity;
    assert n * c == (n - 1) * c + c;
    if n > 1 {
      MulAtLeast(n - 1, c);
    }
  }

  // One append: it succeeds exactly while a sector before the last one of the
  // device is free, returns the address of a fresh sector that holds the data,
  // and otherwise changes nothing. It never reports the log as full.
  lemma AppendSectorStep(st: LogState, data: Sector)
    requires LogInv(st.d, st.ptr) && |data| == SECTOR_SIZE
    ensures var (st', ret, lba) := AppendSector(st, data);
            && ret == (if Room(st) > 0 then RetNone else RetErr)
            && LogInv(st'.d, st'.ptr) && LogGrows(st.d, st'.d) && SameOutsideLog(st.d, st'.d)
            && (ret == RetErr ==> st' == st)
            && (ret == RetNone ==>
                  && Room(st') == Room(st) - 1
                  && lba == PtrLba(st) < PtrLba(st') < U64_LIMIT
                  && LbaZone(st.d.info, lba) == st.ptr.zone && LbaSector(st.d.info, lba) == st.ptr.sector
                  && InLog(st'.d, lba) && !LbaReadable(st.d, lba)
                  && SectorAt(st'.d, lba) == data)
  {
    RoomStep(st);
    if Room(st) > 0 {
      var (st', ret, lba) := AppendSector(st, data);
      LbaRoundTrip(st.d.info, st.ptr.zone, st.ptr.sector);
      var n, c := st.d.info.numZones - st.ptr.zone, st.d.info.zoneCapacity;
      assert n * c == (n - 1) * c + c;
      LbaMonotone(st.d.info, st.ptr.zone, st.ptr.sector, st'.ptr.zone, st'.ptr.sector);
      LbaBound(st.d.info, st'.ptr.zone, st'.ptr.sector);
    }
  }

  lemma GrowsTransitive(d0: Disk, d1: Disk, d2: Disk)
    requires LogGrows(d0, d1) && LogGrows(d1, d2)
    ensures LogGrows(d0, d2)
    ensures SameOutsideLog(d0, d1) && SameOutsideLog(d1, d2) ==> SameOutsideLog(d0, d2)
  {
  }

  // What an address of the log denotes never changes.
  lemma GrowsKeeps(d: Disk, d': Disk, lba: nat)
    requires InLog(d, lba) && FsDisk(d') && LogGrows(d, d')
    ensures InLog(d', lba) && SectorAt(d', lba) == SectorAt(d, lba)
  {
    var z := LbaZone(d.info, lba);
    assert d.zones[z] <= d'.zones[z];
  }

  // Log addresses are never 0.
  lemma LogLbaPositive(d: Disk, lba: nat)
    requires InLog(d, lba)
    ensures lba > 0
  {
    if lba == 0 {
      DivModUnique(0, d.info.zoneSize, 0);
      assert false;
    }
  }

  lemma LogIsFs(d: Disk, ptr: Position)
    requires LogInv(d, ptr)
    ensures FsDisk(d)
  {
  }

  // ---- Runs of appends -------------------------------------------------------

  // Append one sector after the other up to the first failure.
  function LogRun(st: LogState, datas: seq<Sector>): (res: (LogState, seq<nat>, Ret))
    requires LogInv(st.d, st.ptr) && forall x | x in datas :: |x| == SECTOR_SIZE
    decreases |datas|
  {
    if datas == [] then (st, [], RetNone)
    else
      AppendSectorStep(st, datas[0]);
      var (st1, ret, lba) := AppendSector(st, datas[0]);
      if ret != RetNone then (st1, [], ret)
      else
        var (st2, lbas, ret2) := LogRun(st1, datas[1..]);
        (st2, [lba] + lbas, ret2)
  }

  predicate Rising(lbas: seq<nat>, low: nat) {
    && (forall i | 0 <= i < |lbas| :: low <= lbas[i])
    && (forall i, j | 0 <= i < j < |lbas| :: lbas[i] < lbas[j])
  }

  // Each address denotes the sector that was appended for it.
  predicate Holds(d: Disk, lbas: seq<nat>, datas: seq<Sector>) {
    && |lbas| <= |datas|
    && forall i | 0 <= i < |lbas| :: InLog(d, lbas[i]) && SectorAt(d, lbas[i]) == datas[i]
  }

  predicate LogRunOutcome(st: LogState, datas: seq<Sector>, st': LogState, lbas: seq<nat>, ret: Ret) {
    && LogInv(st'.d, st'.ptr) && LogGrows(st.d, st'.d) && SameOutsideLog(st.d, st'.d)
    && |lbas| == (if |datas| <= Room(st) then |datas| else Room(st))
    && ret == (if |datas| <= Room(st) then RetNone else RetErr)
    && Room(st') == Room(st) - |lbas|
    && Rising(lbas, PtrLba(st))
    && Holds(st'.d, lbas, datas)
  }

  lemma LogRunCons(st: LogState, datas: seq<Sector>, st1: LogState, lba: nat, st2: LogState, lbas: seq<nat>, ret: Ret)
    requires datas != [] && LogRunOutcome(st1, datas[1..], st2, lbas, ret)
    requires LogGrows(st.d, st1.d) && SameOutsideLog(st.d, st1.d) && Room(st1) == Room(st) - 1
    requires lba == PtrLba(st) < PtrLba(st1)
    requires InLog(st1.d, lba) && SectorAt(st1.d, lba) == datas[0]
    ensures LogRunOutcome(st, datas, st2, [lba] + lbas, ret)
  {
    hide SectorAt, InLog;
    GrowsTransitive(st.d, st1.d, st2.d);
    GrowsKeeps(st1.d, st2.d, lba);
  }

  // Log linearity: over any run of appends the addresses strictly increase and
  // each decodes to a sector holding its data; the run stops with an error
  // exactly when it reaches the last sector of the device, and "log full" is
  // never reported.
  lemma {:induction false} LogLinearity(st: LogState, datas: seq<Sector>)
    requires LogInv(st.d, st.ptr) && forall x | x in datas :: |x| == SECTOR_SIZE
    ensures var (st', lbas, ret) := LogRun(st, datas);
            LogRunOutcome(st, datas, st', lbas, ret)
    decreases |datas|
  {
    hide AppendSector, SectorAt;
    RoomStep(st);
    if datas != [] {
      AppendSectorStep(st, datas[0]);
      var (st1, ret, lba) := AppendSector(st, datas[0]);
      if ret == RetNone {
        LogLinearity(st1, datas[1..]);
        var (st2, lbas, ret2) := LogRun(st1, datas[1..]);
        LogRunCons(st, datas, st1, lba, st2, lbas, ret2);
      }
    }
  }

  // ---- Finding the pointer again ---------------------------------------------

  // determine_log_ptr: the first position that cannot be read.
  function ScanLog(d: Disk, ptr: Position): Position
    requires FsDisk(d) && LOGZ_ZONE <= ptr.zone < d.info.numZones && ptr.sector < d.info.zoneCapacity
    decreases d.info.numZones - ptr.zone, d.info.zoneCapacity - ptr.sector
  {
    if !d.Readable(ptr.zone, ptr.sector) then ptr
    else ScanLog(d, Advance(d.info, ptr).0)
  }

  lemma {:induction false} ScanReachesPtr(d: Disk, ptr: Position, cur: Position)
    requires LogInv(d, ptr) && cur == SectorPos(cur.zone, cur.sector)
    requires LOGZ_ZONE <= cur.zone && cur.sector < d.info.zoneCapacity
    requires cur.zone < ptr.zone || (cur.zone == ptr.zone && cur.sector <= ptr.sector)
    ensures ScanLog(d, cur) == ptr
    decreases ptr.zone - cur.zone, d.info.zoneCapacity - cur.sector
  {
    if cur != ptr {
      assert d.Readable(cur.zone, cur.sector);
      ScanReachesPtr(d, ptr, Advance(d.info, cur).0);
    }
  }

  // Recovery: after any run of appends to an empty log, whether or not it ran
  // out of room, a scan of the device arrives at the same pointer.
  lemma LogPtrRecovered(d: Disk, datas: seq<Sector>)
    requires FsDisk(d) && EmptyLog(d) && forall x | x in datas :: |x| == SECTOR_SIZE
    ensures LogInv(d, SectorPos(LOGZ_ZONE, 0))
    ensures var (st, lbas, ret) := LogRun(LogState(d, SectorPos(LOGZ_ZONE, 0)), datas);
            && LogInv(st.d, st.ptr)
            && ScanLog(st.d, SectorPos(LOGZ_ZONE, 0)) == st.ptr
  {
    var st0 := LogState(d, SectorPos(LOGZ_ZONE, 0));
    LogLinearity(st0, datas);
    var (st, lbas, ret) := LogRun(st0, datas);
    ScanReachesPtr(st.d, st.ptr, SectorPos(LOGZ_ZONE, 0));
  }

  // Once the pointer stands on the last sector of the device every append is
  // an error, although the documented result is "log full".
  lemma FullLogIsAnError(st: LogState, data: Sector)
    requires LogInv(st.d, st.ptr) && |data| == SECTOR_SIZE
    ensures AppendSector(st, data).1 != LogzFull
    ensures AppendSector(st, data).1 == RetErr <==> st.d.LastSector(st.ptr.zone, st.ptr.sector)
    ensures Advance(st.d.info, st.ptr).1 == LogzFull <==> st.d.LastSector(st.ptr.zone, st.ptr.sector)
  {
    AppendSectorStep(st, data);
    RoomStep(st);
  }

  class LogZone {
    const nvme: NvmeZnsMemoryBackend
    var logPtr: Position

    constructor (nvme: NvmeZnsMemoryBackend)
      ensures this.nvme == nvme && logPtr == Position(0, 0, 0, 0)
    {
      this.nvme := nvme;
      logPtr := Position(0, 0, 0, 0);
    }

    ghost predicate Ready()
      reads this, nvme, nvme.data, nvme.writePointers
    {
      nvme.Valid() && FsDisk(nvme.disk)
    }

    ghost function State(): LogState
      reads this, nvme
    {
      LogState(nvme.disk, logPtr)
    }

    // The next sector of the device in log order, and log full, with an invalid
    // pointer, exactly from the last one.
    method AdvanceLogPtr(ptr: Position) returns (next: Position, ret: Ret)
      ensures (next, ret) == Advance(nvme.info, ptr)
      ensures nvme.info.Valid() && ptr.Valid() && ptr.zone < nvme.info.numZones && ptr.sector < nvme.info.zoneCapacity ==>
                var info := nvme.info;
                && next.sector < info.zoneCapacity
                && Before(ptr.zone, ptr.sector, next.zone, next.sector)
                && (forall z: nat, s: nat | s < info.zoneCapacity ::
                      !(Before(ptr.zone, ptr.sector, z, s) && Before(z, s, next.zone, next.sector)))
                && (ret == RetNone <==> next.Valid())
                && (next.Valid() <==> exists z: nat, s: nat :: z < info.numZones && s < info.zoneCapacity
                                                               && Before(ptr.zone, ptr.sector, z, s))
    {
      ghost var info := nvme.info;
      if info.Valid() && ptr.Valid() && ptr.zone < info.numZones && ptr.sector < info.zoneCapacity {
        AdvanceIsNext(info, ptr);
      }
      next := ptr.(sector := ptr.sector + 1);
      if next.sector == nvme.info.zoneCapacity {
        next := next.(sector := 0, zone := next.zone + 1);
      }
      if next.zone == nvme.info.numZones {
        next := next.(size := 0);
        return next, LogzFull;
      }
      return next, RetNone;
    }

    // The scan ends before the end of the device because the last sector can
    // not be read.
    method DetermineLogPtr()
      requires Ready()
      modifies `logPtr
      ensures logPtr == ScanLog(nvme.disk, SectorPos(LOGZ_ZONE, 0))
    {
      hide Stored;
      var driveEnd := Position(nvme.info.numZones, 0, 0, SECTOR_SIZE);
      logPtr := SectorPos(LOGZ_ZONE, 0);
      while true
        invariant Ready() && logPtr.offset == 0
        invariant LOGZ_ZONE <= logPtr.zone < nvme.info.numZones && logPtr.sector < nvme.info.zoneCapacity
        invariant ScanLog(nvme.disk, logPtr) == ScanLog(nvme.disk, SectorPos(LOGZ_ZONE, 0))
        decreases nvme.info.numZones - logPtr.zone, nvme.info.zoneCapacity - logPtr.sector
      {
        var ok, bytes := nvme.Read(logPtr.zone, logPtr.sector, logPtr.offset, SECTOR_SIZE);
        if !ok {
          break;
        }
        var ret;
        logPtr, ret := AdvanceLogPtr(logPtr);
        if logPtr == driveEnd {
          break;
        }
      }
    }

    method LogAppend(data: seq<byte>) returns (ret: Ret, lba: u64)
      requires Ready() && LogInv(nvme.disk, logPtr)
      modifies `logPtr, nvme`disk, nvme.data, nvme.writePointers
      ensures Ready() && LogInv(nvme.disk, logPtr)
      ensures |data| != SECTOR_SIZE ==> ret == RetErr && State() == old(State())
      ensures (State(), ret, lba) == AppendSector(old(State()), data)
    {
      hide Stored;
      lba := 0;
      ghost var st := State();
      if |data| == SECTOR_SIZE {
        AppendSectorStep(st, data);
      }
      if |data| != SECTOR_SIZE {
        return RetErr, lba;
      }
      var ok, sector := nvme.Append(logPtr.zone, logPtr.offset, data);
      if !ok {
        return RetErr, lba;
      }
      if logPtr.sector != sector {
        return RetErr, lba;
      }
      LbaBound(nvme.info, logPtr.zone, logPtr.sector);
      lba := PositionToLba(nvme.info, logPtr.zone, logPtr.sector);
      logPtr, ret := AdvanceLogPtr(logPtr);
    }
  }
}
