// A zoned device as the file system sees it: every zone is a sequence of
// sectors that only grows at its end or is reset to empty.
module Disk {
  import opened Basics

  type Sector = seq<byte>

  // struct nvme_zns_info: the fixed layout of a device.
  datatype Info = Info(numZones: nat, zoneSize: nat, zoneCapacity: nat, sectorSize: nat) {
    predicate Valid() {
      && 0 < zoneCapacity <= zoneSize
      && 0 < sectorSize
      && numZones * zoneSize <= U64_LIMIT
    }
  }

  // struct data_position.
  datatype Position = Position(zone: nat, sector: nat, offset: nat, size: nat) {
    predicate Valid() {
      size >= SECTOR_SIZE && size % SECTOR_SIZE == 0 && offset < SECTOR_SIZE
    }

    predicate MeetsLimit(z: nat, s: nat) {
      Valid() && zone == z && sector == s
    }
  }

  function SectorPos(zone: nat, sector: nat): Position {
    Position(zone, sector, 0, SECTOR_SIZE)
  }

  datatype Disk = Disk(info: Info, zones: seq<seq<Sector>>) {
    predicate Valid() {
      && info.Valid()
      && |zones| == info.numZones
      && (forall z | 0 <= z < |zones| :: |zones[z]| <= info.zoneCapacity)
      && (forall z, s | 0 <= z < |zones| && 0 <= s < |zones[z]| :: |zones[z][s]| == info.sectorSize)
    }

    // The range check of the backend compares with >=, which makes the very
    // last sector of the device unusable.
    predicate LastSector(z: nat, s: nat) {
      z + 1 == info.numZones && s + 1 == info.zoneCapacity
    }

    predicate Readable(z: nat, s: nat) {
      z < |zones| && s < |zones[z]| && !LastSector(z, s)
    }

    predicate Appendable(z: nat) {
      z < |zones| && |zones[z]| < info.zoneCapacity && !LastSector(z, |zones[z]|)
    }

    function Append(z: nat, data: Sector): Disk
      requires z < |zones|
    {
      this.(zones := zones[z := zones[z] + [data]])
    }

    function Reset(z: nat): Disk
      requires z < |zones|
    {
      this.(zones := zones[z := []])
    }
  }

  function PositionToLba(info: Info, zone: nat, sector: nat): nat {
    zone * info.zoneSize + sector
  }

  function LbaZone(info: Info, lba: nat): nat
    requires info.Valid()
  {
    lba / info.zoneSize
  }

  function LbaSector(info: Info, lba: nat): nat
    requires info.Valid()
  {
    lba % info.zoneSize
  }

  lemma MulAtLeast(k: nat, d: nat)
    requires k >= 1
    ensures k * d >= d
  {
    assert k * d == (k - 1) * d + d;
  }

  lemma DivModUnique(q: nat, d: nat, r: nat)
    requires r < d
    ensures (q * d + r) / d == q && (q * d + r) % d == r
  {
    var n := q * d + r;
    var q', r' := n / d, n % d;
    assert n == q' * d + r';
    assert (q - q') * d == r' - r;
    if q > q' {
      assert (q - q') * d >= d by { MulAtLeast(q - q', d); }
    } else if q < q' {
      assert (q' - q) * d >= d by { MulAtLeast(q' - q, d); }
    }
  }

  // An address decodes to the position it was made from.
  lemma LbaRoundTrip(info: Info, zone: nat, sector: nat)
    requires info.Valid() && sector < info.zoneSize
    ensures LbaZone(info, PositionToLba(info, zone, sector)) == zone
    ensures LbaSector(info, PositionToLba(info, zone, sector)) == sector
  {
    DivModUnique(zone, info.zoneSize, sector);
  }

  // Addresses of positions on the device fit the 64-bit field that stores them
  // and grow with the position.
  lemma LbaBound(info: Info, zone: nat, sector: nat)
    requires info.Valid() && zone < info.numZones && sector < info.zoneSize
    ensures PositionToLba(info, zone, sector) < U64_LIMIT
  {
    var z, d, n := zone, info.zoneSize, info.numZones;
    assert (n - z) * d >= d by { MulAtLeast(n - z, d); }
    assert n * d == z * d + (n - z) * d;
  }

  lemma LbaMonotone(info: Info, z1: nat, s1: nat, z2: nat, s2: nat)
    requires info.Valid() && s1 < info.zoneSize && s2 < info.zoneSize
    requires z1 < z2 || (z1 == z2 && s1 < s2)
    ensures PositionToLba(info, z1, s1) < PositionToLba(info, z2, s2)
  {
    if z1 < z2 {
      MulAtLeast(z2 - z1, info.zoneSize);
      assert z2 * info.zoneSize == z1 * info.zoneSize + (z2 - z1) * info.zoneSize;
    }
  }

  // And every address is that of the position it decodes to.
  lemma LbaOfPosition(info: Info, lba: nat)
    requires info.Valid()
    ensures PositionToLba(info, LbaZone(info, lba), LbaSector(info, lba)) == lba
  {
  }

  // The file system reads and writes whole sectors at offset 0; these two
  // functions are what an address denotes on a disk.
  predicate LbaReadable(d: Disk, lba: nat)
    requires d.info.Valid()
  {
    d.Readable(LbaZone(d.info, lba), LbaSector(d.info, lba))
  }

  function SectorAt(d: Disk, lba: nat): Sector
    requires d.info.Valid() && LbaReadable(d, lba)
  {
    d.zones[LbaZone(d.info, lba)][LbaSector(d.info, lba)]
  }
}
