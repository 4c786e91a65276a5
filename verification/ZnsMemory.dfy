// The in-memory zoned backend: one flat byte array and a write pointer per
// zone, proved to behave as the zones of module Disk.
module ZnsMemory {
  import opened Basics
  import opened Disk

  // Byte address of byte b of a sector inside the flat array.
  function Addr(info: Info, zone: nat, sector: nat, b: nat): nat {
    (zone * info.zoneCapacity + sector) * info.sectorSize + b
  }

  function DeviceBytes(info: Info): nat {
    Addr(info, info.numZones, 0, 0)
  }

  // NvmeZnsBackend::in_range.
  predicate InRange(info: Info, zone: nat, sector: nat, offset: nat, size: nat) {
    && zone < info.numZones
    && sector < info.zoneCapacity
    && offset < info.sectorSize
    && Addr(info, zone, sector, offset) + size < DeviceBytes(info)
  }

  lemma MulMonotone(a: nat, b: nat, c: nat)
    requires a <= b
    ensures a * c <= b * c
  {
    assert b * c == a * c + (b - a) * c;
  }

  // Sectors never overlap: every byte of an earlier sector lies below every
  // byte of a later one.
  lemma AddrBelow(info: Info, z1: nat, s1: nat, b: nat, z2: nat, s2: nat)
    requires s1 < info.zoneCapacity && b < info.sectorSize
    requires z1 < z2 || (z1 == z2 && s1 < s2)
    ensures Addr(info, z1, s1, b) < Addr(info, z2, s2, 0)
  {
    var c, n := info.zoneCapacity, info.sectorSize;
    if z1 < z2 {
      MulMonotone(z1 + 1, z2, c);
      assert (z1 + 1) * c == z1 * c + c;
    }
    var i, j := z1 * c + s1, z2 * c + s2;
    assert i + 1 <= j;
    MulMonotone(i + 1, j, n);
    assert (i + 1) * n == i * n + n;
  }

  lemma AddrStep(info: Info, zone: nat, sector: nat, k: nat, b: nat)
    ensures Addr(info, zone, sector + k, b) == Addr(info, zone, sector, 0) + k * info.sectorSize + b
  {
    var i, n := zone * info.zoneCapacity + sector, info.sectorSize;
    assert (i + k) * n == i * n + k * n;
  }

  // A whole sector is in range exactly when it is not the last of the device.
  lemma WholeSectorInRange(info: Info, zone: nat, sector: nat)
    requires info.Valid() && zone < info.numZones && sector < info.zoneCapacity
    ensures InRange(info, zone, sector, 0, info.sectorSize)
            <==> !(zone + 1 == info.numZones && sector + 1 == info.zoneCapacity)
  {
    var c := info.zoneCapacity;
    AddrStep(info, zone, sector, 1, 0);
    if sector + 1 < c {
      AddrBelow(info, zone, sector + 1, 0, info.numZones, 0);
    } else {
      assert zone * c + c == (zone + 1) * c;
      assert Addr(info, zone, sector + 1, 0) == Addr(info, zone + 1, 0, 0);
      if zone + 1 < info.numZones {
        AddrBelow(info, zone + 1, 0, 0, info.numZones, 0);
      }
    }
  }

  function ChunkIndex(i: nat, b: nat, n: nat, size: nat): (k: nat)
    requires i < n && b < size
    ensures k < n * size
  {
    MulMonotone(i + 1, n, size);
    assert (i + 1) * size == i * size + size;
    i * size + b
  }

  // The sectors a run of bytes fills.
  function Chunks(bytes: seq<byte>, n: nat, size: nat): (r: seq<Sector>)
    requires |bytes| == n * size
    ensures |r| == n
    ensures forall i | 0 <= i < n :: |r[i]| == size
    ensures forall i, b | 0 <= i < n && 0 <= b < size ::
              ChunkIndex(i, b, n, size) < |bytes| && r[i][b] == bytes[ChunkIndex(i, b, n, size)]
  {
    seq(n, i requires 0 <= i < n => seq(size, b requires 0 <= b < size => bytes[ChunkIndex(i, b, n, size)]))
  }

  // The success condition of an append of sector-aligned length.
  predicate AppendFits(d: Disk, zone: nat, offset: nat, size: nat)
    requires d.Valid() && zone < d.info.numZones
  {
    && InRange(d.info, zone, |d.zones[zone]|, offset, size)
    && |d.zones[zone]| + (offset + size) / d.info.sectorSize <= d.info.zoneCapacity
  }

  lemma Divides(total: nat, size: nat)
    requires size > 0 && total % size == 0
    ensures total / size * size == total
  {
  }

  // The zone grows by exactly the sectors the bytes fill.
  function AppendBytes(d: Disk, zone: nat, bytes: seq<byte>): Disk
    requires d.info.sectorSize > 0 && zone < |d.zones|
    requires |bytes| % d.info.sectorSize == 0
  {
    Divides(|bytes|, d.info.sectorSize);
    var chunks := Chunks(bytes, |bytes| / d.info.sectorSize, d.info.sectorSize);
    d.(zones := d.zones[zone := d.zones[zone] + chunks])
  }

  // The array holds every written sector of the disk at its address.
  ghost predicate Stored(data: seq<byte>, d: Disk)
    requires d.Valid()
  {
    && |data| == DeviceBytes(d.info)
    && forall z, s, b | 0 <= z < d.info.numZones && 0 <= s < |d.zones[z]| && 0 <= b < d.info.sectorSize ::
         Addr(d.info, z, s, b) < |data| && data[Addr(d.info, z, s, b)] == d.zones[z][s][b]
  }

  lemma EndInside(info: Info, zone: nat, sector: nat)
    requires zone < info.numZones && sector <= info.zoneCapacity
    ensures Addr(info, zone, sector, 0) <= DeviceBytes(info)
  {
    var c := info.zoneCapacity;
    MulMonotone(zone + 1, info.numZones, c);
    assert (zone + 1) * c == zone * c + c;
    MulMonotone(zone * c + sector, info.numZones * c, info.sectorSize);
  }

  lemma AppendInside(d: Disk, zone: nat, total: nat)
    requires d.Valid() && zone < d.info.numZones && total % d.info.sectorSize == 0
    requires |d.zones[zone]| + total / d.info.sectorSize <= d.info.zoneCapacity
    ensures Addr(d.info, zone, |d.zones[zone]|, 0) + total <= DeviceBytes(d.info)
  {
    Divides(total, d.info.sectorSize);
    AddrStep(d.info, zone, |d.zones[zone]|, total / d.info.sectorSize, 0);
    EndInside(d.info, zone, |d.zones[zone]| + total / d.info.sectorSize);
  }

  // An append of exactly one sector is the append of module Disk.
  lemma SingleAppend(d: Disk, zone: nat, buffer: seq<byte>)
    requires d.Valid() && zone < d.info.numZones
    ensures |buffer| == d.info.sectorSize ==>
              && (AppendFits(d, zone, 0, |buffer|) <==> d.Appendable(zone))
              && AppendBytes(d, zone, Zeros(0) + buffer) == d.Append(zone, buffer)
  {
    var size := d.info.sectorSize;
    if |buffer| == size {
      assert size / size == 1 && size % size == 0;
      if |d.zones[zone]| < d.info.zoneCapacity {
        WholeSectorInRange(d.info, zone, |d.zones[zone]|);
      }
      assert Zeros(0) + buffer == buffer;
      var r := Chunks(buffer, 1, size);
      assert forall b | 0 <= b < size :: ChunkIndex(0, b, 1, size) == b;
      assert r[0] == buffer;
      assert r == [buffer];
    }
  }

  lemma AddrAtLeast(info: Info, z1: nat, s1: nat, z2: nat, s2: nat, b: nat)
    requires s1 <= info.zoneCapacity && z1 < z2
    ensures Addr(info, z1, s1, 0) <= Addr(info, z2, s2, b)
  {
    var c := info.zoneCapacity;
    MulMonotone(z1 + 1, z2, c);
    assert (z1 + 1) * c == z1 * c + c;
    MulMonotone(z1 * c + s1, z2 * c + s2, info.sectorSize);
  }

  lemma StoredAfterAppend(before: seq<byte>, after: seq<byte>, d: Disk, zone: nat, bytes: seq<byte>)
    requires d.Valid() && Stored(before, d) && zone < d.info.numZones
    requires |bytes| % d.info.sectorSize == 0
    requires |d.zones[zone]| + |bytes| / d.info.sectorSize <= d.info.zoneCapacity
    requires var a := Addr(d.info, zone, |d.zones[zone]|, 0);
             a + |bytes| <= |before| && after == before[..a] + bytes + before[a + |bytes|..]
    ensures AppendBytes(d, zone, bytes).Valid() && Stored(after, AppendBytes(d, zone, bytes))
  {
    var size := d.info.sectorSize;
    var wp, n := |d.zones[zone]|, |bytes| / size;
    Divides(|bytes|, size);
    var chunks := Chunks(bytes, n, size);
    var d' := AppendBytes(d, zone, bytes);
    var a := Addr(d.info, zone, wp, 0);
    AddrStep(d.info, zone, wp, n, 0);
    forall z, s, b | 0 <= z < d.info.numZones && 0 <= s < |d'.zones[z]| && 0 <= b < size
      ensures Addr(d.info, z, s, b) < |after| && after[Addr(d.info, z, s, b)] == d'.zones[z][s][b]
    {
      var i := Addr(d.info, z, s, b);
      if z == zone && s >= wp {
        AddrStep(d.info, zone, wp, s - wp, b);
        assert i == a + ChunkIndex(s - wp, b, n, size);
        assert d'.zones[z][s] == chunks[s - wp];
        assert after[i] == bytes[i - a];
      } else {
        assert before[i] == d.zones[z][s][b];
        if z < zone || (z == zone && s < wp) {
          AddrBelow(d.info, z, s, b, zone, wp);
        } else {
          AddrAtLeast(d.info, zone, wp + n, z, s, b);
        }
      }
    }
  }

  lemma StoredAfterReset(before: seq<byte>, after: seq<byte>, d: Disk, zone: nat, lo: nat, hi: nat)
    requires d.Valid() && Stored(before, d) && zone < d.info.numZones
    requires lo == Addr(d.info, zone, 0, 0) <= hi == Addr(d.info, zone, d.info.zoneCapacity, 0) <= |before|
    requires after == before[..lo] + Zeros(hi - lo) + before[hi..]
    ensures d.Reset(zone).Valid() && Stored(after, d.Reset(zone))
  {
    var d' := d.Reset(zone);
    forall z, s, b | 0 <= z < d.info.numZones && 0 <= s < |d'.zones[z]| && 0 <= b < d.info.sectorSize
      ensures Addr(d.info, z, s, b) < |after| && after[Addr(d.info, z, s, b)] == d'.zones[z][s][b]
    {
      var i := Addr(d.info, z, s, b);
      assert d'.zones[z] == d.zones[z] && before[i] == d.zones[z][s][b];
      if z < zone {
        AddrBelow(d.info, z, s, b, zone, 0);
      } else {
        AddrAtLeast(d.info, zone, d.info.zoneCapacity, z, s, b);
      }
    }
  }

  class NvmeZnsMemoryBackend {
    const info: Info
    const data: array<byte>
    const writePointers: array<nat>
    // What the bytes mean.
    ghost var disk: Disk

    ghost predicate Valid()
      reads this, data, writePointers
    {
      && disk.Valid()
      && disk.info == info
      && data as object != writePointers
      && data.Length == DeviceBytes(info)
      && writePointers.Length == info.numZones
      && (forall z | 0 <= z < info.numZones :: writePointers[z] == |disk.zones[z]|)
      && Stored(data[..], disk)
    }

    constructor (numZones: nat, zoneSize: nat, sectorSize: nat)
      requires zoneSize >= 2 && sectorSize > 0 && numZones * zoneSize <= U64_LIMIT
      ensures Valid() && fresh(data) && fresh(writePointers)
      ensures info == Info(numZones, zoneSize, zoneSize / 2, sectorSize)
      ensures disk == Disk(info, seq(numZones, _ => []))
    {
      var i := Info(numZones, zoneSize, zoneSize / 2, sectorSize);
      info := i;
      data := new byte[DeviceBytes(i)];
      writePointers := new nat[numZones](_ => 0);
      disk := Disk(i, seq(numZones, _ => []));
    }

    method Read(zone: nat, sector: nat, offset: nat, size: nat) returns (ok: bool, buffer: seq<byte>)
      requires Valid()
      ensures ok <==> InRange(info, zone, sector, offset, size) && sector < |disk.zones[zone]|
      ensures ok ==> |buffer| == size
      ensures ok && offset + size <= info.sectorSize ==>
                buffer == disk.zones[zone][sector][offset..offset + size]
      ensures offset == 0 && size == info.sectorSize ==> (ok <==> disk.Readable(zone, sector))
      ensures ok && offset == 0 && size == info.sectorSize ==> buffer == disk.zones[zone][sector]
    {
      if zone < info.numZones && sector < info.zoneCapacity {
        WholeSectorInRange(info, zone, sector);
      }
      buffer := [];
      if !InRange(info, zone, sector, offset, size) {
        return false, buffer;
      }
      if writePointers[zone] <= sector {
        return false, buffer;
      }
      var address := Addr(info, zone, sector, offset);
      buffer := data[address..address + size];
      ok := true;
      if offset + size <= info.sectorSize {
        assert forall k | 0 <= k < size :: buffer[k] == disk.zones[zone][sector][offset + k] by {
          forall k | 0 <= k < size ensures buffer[k] == disk.zones[zone][sector][offset + k] {
            assert data[..][Addr(info, zone, sector, offset + k)] == disk.zones[zone][sector][offset + k];
          }
        }
      }
    }

    // memset(data + at, 0, n)
    method ZeroBytes(at: nat, n: nat)
      requires at + n <= data.Length
      modifies data
      ensures data[..] == old(data[..])[..at] + Zeros(n) + old(data[..])[at + n..]
    {
      forall i | at <= i < at + n {
        data[i] := 0;
      }
    }

    // memcpy(data + at, buffer, size)
    method CopyBytes(at: nat, buffer: seq<byte>)
      requires at + |buffer| <= data.Length
      modifies data
      ensures data[..] == old(data[..])[..at] + buffer + old(data[..])[at + |buffer|..]
    {
      forall i | at <= i < at + |buffer| {
        data[i] := buffer[i - at];
      }
    }

    // Zero the gap before the offset, then copy the buffer behind it.
    method PadAndCopy(at: nat, offset: nat, buffer: seq<byte>)
      requires at + offset + |buffer| <= data.Length
      modifies data
      ensures data[..] == old(data[..])[..at] + (Zeros(offset) + buffer) + old(data[..])[at + offset + |buffer|..]
    {
      ZeroBytes(at, offset);
      CopyBytes(at + offset, buffer);
    }

    method Append(zone: nat, offset: nat, buffer: seq<byte>) returns (ok: bool, sector: nat)
      requires Valid() && zone < info.numZones
      requires (offset + |buffer|) % info.sectorSize == 0
      modifies this`disk, data, writePointers
      ensures Valid()
      ensures ok <==> AppendFits(old(disk), zone, offset, |buffer|)
      ensures ok ==> sector == |old(disk).zones[zone]|
      ensures disk == if ok then AppendBytes(old(disk), zone, Zeros(offset) + buffer) else old(disk)
      ensures offset == 0 && |buffer| == info.sectorSize ==> (ok <==> old(disk).Appendable(zone))
      ensures offset == 0 && |buffer| == info.sectorSize && ok ==> disk == old(disk).Append(zone, buffer)
    {
      var wp := writePointers[zone];
      SingleAppend(disk, zone, buffer);
      if !InRange(info, zone, wp, offset, |buffer|) {
        return false, 0;
      }
      var next := wp + (offset + |buffer|) / info.sectorSize;
      if next > info.zoneCapacity {
        return false, 0;
      }
      ghost var before := data[..];
      var address := Addr(info, zone, wp, 0);
      AppendInside(disk, zone, offset + |buffer|);
      writePointers[zone] := next;
      ghost var bytes := Zeros(offset) + buffer;
      PadAndCopy(address, offset, buffer);
      StoredAfterAppend(before, data[..], disk, zone, bytes);
      disk := AppendBytes(disk, zone, bytes);
      return true, wp;
    }

    method Reset(zone: nat) returns (ok: bool)
      requires Valid()
      modifies this`disk, data, writePointers
      ensures Valid()
      ensures ok <==> zone < info.numZones
      ensures disk == if ok then old(disk).Reset(zone) else old(disk)
    {
      if zone >= info.numZones {
        return false;
      }
      ghost var before := data[..];
      var lo, hi := Addr(info, zone, 0, 0), Addr(info, zone, info.zoneCapacity, 0);
      EndInside(info, zone, info.zoneCapacity);
      AddrStep(info, zone, 0, info.zoneCapacity, 0);
      writePointers[zone] := 0;
      ZeroBytes(lo, hi - lo);
      StoredAfterReset(before, data[..], disk, zone, lo, hi);
      disk := disk.Reset(zone);
      return true;
    }
  }

  lemma SameInfo(nvme: NvmeZnsMemoryBackend)
    requires nvme.Valid()
    ensures nvme.disk.info == nvme.info
  {
  }
}
