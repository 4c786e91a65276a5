// Byte layouts of the records the file system puts into a sector
// (flfs_disc.hpp): little-endian 64-bit fields, packed without gaps.
module Codec {
  import opened Basics
  import opened Disk

  const NAT_BLK_INO_LBA_NUM: nat := 255
  const DATA_BLK_LBA_NUM: nat := 511
  const RANDZ_NON_BLK: u64 := 0
  const RANDZ_NAT_BLK: u64 := 1

  function Pow256(n: nat): (p: nat)
    ensures p > 0
  {
    if n == 0 then 1 else 256 * Pow256(n - 1)
  }

  lemma Pow256Is64Bits()
    ensures Pow256(8) == U64_LIMIT
  {
    assert Pow256(4) == 0x1_0000_0000;
    assert Pow256(6) == 0x1_0000_0000_0000;
  }

  // The n low bytes of x, least significant first.
  function PutBytes(x: nat, n: nat): (r: seq<byte>)
    ensures |r| == n
  {
    if n == 0 then [] else [x % 256] + PutBytes(x / 256, n - 1)
  }

  function GetBytes(b: seq<byte>): (x: nat)
    ensures x < Pow256(|b|)
  {
    if b == [] then 0 else b[0] + 256 * GetBytes(b[1..])
  }

  lemma {:induction false} BytesRoundTrip(x: nat, n: nat)
    requires x < Pow256(n)
    ensures GetBytes(PutBytes(x, n)) == x
  {
    if n > 0 {
      BytesRoundTrip(x / 256, n - 1);
      assert PutBytes(x, n)[1..] == PutBytes(x / 256, n - 1);
    }
  }

  function PutU64(x: u64): (r: seq<byte>)
    ensures |r| == 8
  {
    PutBytes(x, 8)
  }

  function GetU64(b: seq<byte>, at: nat): u64
    requires at + 8 <= |b|
  {
    Pow256Is64Bits();
    GetBytes(b[at..at + 8])
  }

  lemma U64RoundTrip(x: u64, b: seq<byte>, at: nat)
    requires at + 8 <= |b| && b[at..at + 8] == PutU64(x)
    ensures GetU64(b, at) == x
  {
    Pow256Is64Bits();
    BytesRoundTrip(x, 8);
  }

  // A packed array of 64-bit fields.
  function PutU64s(xs: seq<u64>): (r: seq<byte>)
    ensures |r| == 8 * |xs|
  {
    if xs == [] then [] else PutU64(xs[0]) + PutU64s(xs[1..])
  }

  function GetU64s(b: seq<byte>, at: nat, n: nat): (r: seq<u64>)
    requires at + 8 * n <= |b|
    ensures |r| == n
    ensures forall i | 0 <= i < n :: r[i] == GetU64(b, at + 8 * i)
  {
    seq(n, i requires 0 <= i < n => GetU64(b, at + 8 * i))
  }

  lemma {:induction false} PutU64sAt(xs: seq<u64>, i: nat)
    requires i < |xs|
    ensures PutU64s(xs)[8 * i..8 * i + 8] == PutU64(xs[i])
  {
    if i == 0 {
      assert PutU64s(xs)[0..8] == PutU64(xs[0]);
    } else {
      PutU64sAt(xs[1..], i - 1);
      assert PutU64s(xs)[8 * i..8 * i + 8] == PutU64s(xs[1..])[8 * (i - 1)..8 * (i - 1) + 8];
    }
  }

  lemma U64FieldRoundTrip(xs: seq<u64>, b: seq<byte>, at: nat, i: nat)
    requires i < |xs| && at + 8 * |xs| <= |b| && b[at..at + 8 * |xs|] == PutU64s(xs)
    ensures GetU64(b, at + 8 * i) == xs[i]
  {
    hide PutU64, GetU64, PutU64s;
    PutU64sAt(xs, i);
    SliceOfSlice(b, at, 8 * |xs|, 8 * i, 8);
    U64RoundTrip(xs[i], b, at + 8 * i);
  }

  lemma U64sRoundTrip(xs: seq<u64>, b: seq<byte>, at: nat)
    requires at + 8 * |xs| <= |b| && b[at..at + 8 * |xs|] == PutU64s(xs)
    ensures GetU64s(b, at, |xs|) == xs
  {
    var r := GetU64s(b, at, |xs|);
    forall i | 0 <= i < |xs| ensures r[i] == xs[i] {
      U64FieldRoundTrip(xs, b, at, i);
    }
    assert r == xs;
  }

  // struct checkpoint_block
  datatype Checkpoint = Checkpoint(randzLba: u64, logzLba: u64)

  function EncodeCheckpoint(c: Checkpoint): (r: Sector)
    ensures |r| == SECTOR_SIZE
  {
    PutU64s([c.randzLba, c.logzLba]) + Zeros(SECTOR_SIZE - 16)
  }

  function DecodeCheckpoint(b: Sector): Checkpoint
    requires |b| == SECTOR_SIZE
  {
    Checkpoint(GetU64(b, 0), GetU64(b, 8))
  }

  lemma CheckpointRoundTrip(c: Checkpoint)
    ensures DecodeCheckpoint(EncodeCheckpoint(c)) == c
  {
    var xs := [c.randzLba, c.logzLba];
    var b := EncodeCheckpoint(c);
    assert b[0..16] == PutU64s(xs);
    U64sRoundTrip(xs, b, 0);
    assert GetU64s(b, 0, 2)[0] == GetU64(b, 0) && GetU64s(b, 0, 2)[1] == GetU64(b, 8);
  }

  // struct nat_block: inode numbers and the addresses of their inode blocks.
  datatype NatBlock = NatBlock(kind: u64, inode: seq<u64>, lba: seq<u64>) {
    predicate Valid() {
      |inode| == NAT_BLK_INO_LBA_NUM && |lba| == NAT_BLK_INO_LBA_NUM
    }
  }

  function EncodeNat(n: NatBlock): (r: Sector)
    requires n.Valid()
    ensures |r| == SECTOR_SIZE
  {
    PutU64(n.kind) + PutU64s(n.inode) + PutU64s(n.lba) + Zeros(8)
  }

  function DecodeNat(b: Sector): (n: NatBlock)
    requires |b| == SECTOR_SIZE
    ensures n.Valid()
  {
    NatBlock(GetU64(b, 0), GetU64s(b, 8, NAT_BLK_INO_LBA_NUM), GetU64s(b, 2048, NAT_BLK_INO_LBA_NUM))
  }

  lemma NatRoundTrip(n: NatBlock)
    requires n.Valid()
    ensures DecodeNat(EncodeNat(n)) == n
  {
    var b := EncodeNat(n);
    assert b[0..8] == PutU64(n.kind);
    U64RoundTrip(n.kind, b, 0);
    assert b[8..2048] == PutU64s(n.inode);
    U64sRoundTrip(n.inode, b, 8);
    assert b[2048..4088] == PutU64s(n.lba);
    U64sRoundTrip(n.lba, b, 2048);
  }

  // struct data_block: addresses of consecutive sectors of a file. The link to
  // the next block is only set on the device.
  datatype AddressBlock = AddressBlock(lbas: seq<u64>, next: u64)

  function ZeroBlock(): (r: AddressBlock)
    ensures |r.lbas| == DATA_BLK_LBA_NUM
  {
    AddressBlock(seq(DATA_BLK_LBA_NUM, _ => 0), 0)
  }

  type DataBlock = b: AddressBlock | |b.lbas| == DATA_BLK_LBA_NUM witness ZeroBlock()

  function DecodeDataBlock(b: Sector): DataBlock
    requires |b| == SECTOR_SIZE
  {
    AddressBlock(GetU64s(b, 0, DATA_BLK_LBA_NUM), GetU64(b, 4088))
  }
}
