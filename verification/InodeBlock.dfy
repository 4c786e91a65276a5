// Inode blocks: inode entries with their names, packed one behind the other
// into a sector, and the scan that finds them again.
module InodeBlock {
  import opened Basics
  import opened Disk
  import opened Codec

  const INODE_ENTRY_SIZE: nat := 33
  const INODE_BLOCK_SIZE: nat := SECTOR_SIZE
  const INO_BLK_READ_LIM: nat := INODE_BLOCK_SIZE - INODE_ENTRY_SIZE
  const MAX_NAME_SIZE: nat := SECTOR_SIZE - INODE_ENTRY_SIZE
  const INO_T_FILE: byte := 1

  // struct inode_entry and inode_entry_t, the entry with its name.
  datatype InodeEntry = InodeEntry(parent: u64, inode: u64, kind: byte, size: u64, dataLba: u64)

  datatype NamedEntry = NamedEntry(entry: InodeEntry, name: seq<byte>)

  predicate NulFree(name: seq<byte>) {
    0 !in name
  }

  predicate NamesEnd(es: seq<NamedEntry>) {
    forall k | 0 <= k < |es| :: NulFree(es[k].name)
  }

  predicate FirstOfInode(es: seq<NamedEntry>, j: nat)
    requires j < |es|
  {
    forall k | 0 <= k < j :: es[k].entry.inode != es[j].entry.inode
  }

  function EncodeEntry(e: InodeEntry): (r: seq<byte>)
    ensures |r| == INODE_ENTRY_SIZE
  {
    PutU64(e.parent) + PutU64(e.inode) + [e.kind] + PutU64(e.size) + PutU64(e.dataLba)
  }

  function DecodeEntry(b: seq<byte>, at: nat): InodeEntry
    requires at + INODE_ENTRY_SIZE <= |b|
  {
    InodeEntry(GetU64(b, at), GetU64(b, at + 8), b[at + 16], GetU64(b, at + 17), GetU64(b, at + 25))
  }

  lemma EntryRoundTrip(e: InodeEntry, b: seq<byte>, at: nat)
    requires at + INODE_ENTRY_SIZE <= |b| && b[at..at + INODE_ENTRY_SIZE] == EncodeEntry(e)
    ensures DecodeEntry(b, at) == e
  {
    hide PutU64, GetU64;
    var r := EncodeEntry(e);
    assert r[0..8] == PutU64(e.parent) && r[8..16] == PutU64(e.inode) && r[16] == e.kind;
    assert r[17..25] == PutU64(e.size) && r[25..33] == PutU64(e.dataLba);
    SliceOfSlice(b, at, 33, 0, 8);
    U64RoundTrip(e.parent, b, at);
    SliceOfSlice(b, at, 33, 8, 8);
    U64RoundTrip(e.inode, b, at + 8);
    SliceOfSlice(b, at, 33, 17, 8);
    U64RoundTrip(e.size, b, at + 17);
    SliceOfSlice(b, at, 33, 25, 8);
    U64RoundTrip(e.dataLba, b, at + 25);
  }

  // One record: the entry, its name and the byte that ends the name.
  function Record(e: NamedEntry): (r: seq<byte>)
    ensures |r| == INODE_ENTRY_SIZE + |e.name| + 1
  {
    EncodeEntry(e.entry) + e.name + [0]
  }

  function Pack(es: seq<NamedEntry>): (r: seq<byte>)
  {
    if es == [] then [] else Pack(es[..|es| - 1]) + Record(es[|es| - 1])
  }

  lemma PackSnoc(es: seq<NamedEntry>, e: NamedEntry)
    ensures Pack(es + [e]) == Pack(es) + Record(e)
  {
    assert (es + [e])[..|es|] == es;
  }

  // How many entries from the front fit into one block.
  function Fitting(es: seq<NamedEntry>, n: nat): (k: nat)
    requires n <= |es|
    ensures n <= k <= |es|
    decreases |es| - n
  {
    if n == |es| || |Pack(es[..n])| + INODE_ENTRY_SIZE + |es[n].name| + 1 > INODE_BLOCK_SIZE then n
    else Fitting(es, n + 1)
  }

  // A block is full when the next entry does not fit, or when not even an
  // entry without a name would.
  predicate Full(es: seq<NamedEntry>) {
    var n := Fitting(es, 0);
    n < |es| || |Pack(es)| > INO_BLK_READ_LIM
  }

  lemma {:induction false} PackGrows(es: seq<NamedEntry>, n: nat, m: nat)
    requires n <= m <= |es|
    ensures Pack(es[..n]) <= Pack(es[..m])
    decreases m - n
  {
    if n < m {
      PackGrows(es, n, m - 1);
      assert es[..m] == es[..m - 1] + [es[m - 1]];
      PackSnoc(es[..m - 1], es[m - 1]);
    }
  }

  lemma TooLong(es: seq<NamedEntry>, n: nat)
    requires n <= |es| && |Pack(es[..n])| > INODE_BLOCK_SIZE
    ensures forall m | n <= m <= |es| :: |Pack(es[..m])| > INODE_BLOCK_SIZE
  {
    forall m | n <= m <= |es| ensures |Pack(es[..m])| > INODE_BLOCK_SIZE {
      PackGrows(es, n, m);
    }
  }

  // What a full block holds: the longest run of entries from the front that
  // fits into a block.
  lemma {:induction false} LongestPrefix(es: seq<NamedEntry>, n: nat)
    requires n <= |es| && |Pack(es[..n])| <= INODE_BLOCK_SIZE
    ensures var k := Fitting(es, n);
            && |Pack(es[..k])| <= INODE_BLOCK_SIZE
            && forall m | k < m <= |es| :: |Pack(es[..m])| > INODE_BLOCK_SIZE
    decreases |es| - n
  {
    hide Record;
    if n < |es| {
      PackSnoc(es[..n], es[n]);
      assert es[..n + 1] == es[..n] + [es[n]];
      if |Pack(es[..n + 1])| <= INODE_BLOCK_SIZE {
        LongestPrefix(es, n + 1);
      } else {
        TooLong(es, n + 1);
      }
    }
  }

  // All entries fit into a block unless their records are longer than one; it is
  // reported full unless they also leave room for another entry.
  lemma FullExactly(es: seq<NamedEntry>)
    ensures Full(es) <==> |Pack(es)| > INODE_BLOCK_SIZE - INODE_ENTRY_SIZE
  {
    LongestPrefix(es, 0);
    assert es[..|es|] == es;
  }

  // A name below the documented maximum always fits into an empty block; a name
  // of exactly that length never does, because of the byte that ends it.
  lemma FirstFits(es: seq<NamedEntry>)
    requires es != []
    ensures Fitting(es, 0) > 0 <==> |es[0].name| < MAX_NAME_SIZE
  {
    assert es[..0] == [];
    assert es[..1] == [] + [es[0]];
    if |es[0].name| < MAX_NAME_SIZE {
      assert Fitting(es, 0) == Fitting(es, 1);
    }
  }

  // ---- Scanning --------------------------------------------------------------

  // strlen of the bytes from a position, ending at the block's end at the
  // latest.
  function StrLen(b: seq<byte>, at: nat): (n: nat)
    requires at <= |b|
    ensures at + n <= |b| && NulFree(b[at..at + n])
    ensures at + n < |b| ==> b[at + n] == 0
    decreases |b| - at
  {
    if at == |b| || b[at] == 0 then 0
    else
      var n := StrLen(b, at + 1) + 1;
      assert b[at..at + n] == [b[at]] + b[at + 1..at + n];
      n
  }

  lemma {:induction false} StrLenIs(b: seq<byte>, at: nat, n: nat)
    requires at + n < |b| && NulFree(b[at..at + n]) && b[at + n] == 0
    ensures StrLen(b, at) == n
    decreases n
  {
    if n > 0 {
      assert b[at..at + n] == [b[at]] + b[at + 1..at + n];
      StrLenIs(b, at + 1, n - 1);
    }
  }

  // The offset of the first record of an inode at or behind an offset.
  function Scan(b: Sector, ino: u64, at: nat): (r: Option<nat>)
    requires |b| == SECTOR_SIZE
    ensures r.Some? ==> at <= r.value < INO_BLK_READ_LIM && DecodeEntry(b, r.value).inode == ino
    decreases INODE_BLOCK_SIZE - at
  {
    if at >= INO_BLK_READ_LIM then None
    else if DecodeEntry(b, at).inode == ino then Some(at)
    else
      var name := at + INODE_ENTRY_SIZE;
      Scan(b, ino, name + StrLen(b, name) + 1)
  }

  // What get_inode makes of an inode block.
  function FindInode(b: Sector, ino: u64): Option<NamedEntry>
    requires |b| == SECTOR_SIZE
  {
    match Scan(b, ino, 0)
    case None => None
    case Some(at) =>
      var name := at + INODE_ENTRY_SIZE;
      Some(NamedEntry(DecodeEntry(b, at), b[name..name + StrLen(b, name)]))
  }

  lemma RecordAt(b: Sector, e: NamedEntry, at: nat)
    requires |b| == SECTOR_SIZE && at + |Record(e)| <= SECTOR_SIZE && NulFree(e.name)
    requires b[at..at + |Record(e)|] == Record(e)
    ensures DecodeEntry(b, at) == e.entry
    ensures StrLen(b, at + INODE_ENTRY_SIZE) == |e.name|
    ensures b[at + INODE_ENTRY_SIZE..at + INODE_ENTRY_SIZE + |e.name|] == e.name
  {
    var r, n := Record(e), |e.name|;
    assert r[0..33] == EncodeEntry(e.entry) && r[33..33 + n] == e.name && r[33 + n] == 0;
    SliceOfSlice(b, at, |r|, 0, 33);
    EntryRoundTrip(e.entry, b, at);
    SliceOfSlice(b, at, |r|, 33, n);
    assert b[at..at + |r|][33 + n] == b[at + 33 + n];
    StrLenIs(b, at + 33, n);
  }

  lemma PackedRecord(b: Sector, es: seq<NamedEntry>, i: nat)
    requires |b| == SECTOR_SIZE && Pack(es) <= b && i < |es|
    requires NulFree(es[i].name)
    ensures var at := |Pack(es[..i])|;
            && at + INODE_ENTRY_SIZE + |es[i].name| + 1 == |Pack(es[..i + 1])| <= SECTOR_SIZE
            && DecodeEntry(b, at) == es[i].entry
            && StrLen(b, at + INODE_ENTRY_SIZE) == |es[i].name|
            && b[at + INODE_ENTRY_SIZE..at + INODE_ENTRY_SIZE + |es[i].name|] == es[i].name
  {
    hide DecodeEntry, StrLen, NulFree, Record;
    var at := |Pack(es[..i])|;
    assert es[..i + 1] == es[..i] + [es[i]];
    PackSnoc(es[..i], es[i]);
    PackGrows(es, i + 1, |es|);
    assert es[..|es|] == es;
    var p := Pack(es[..i + 1]);
    assert p == b[..|p|];
    assert p[at..] == Record(es[i]);
    assert p[at..] == b[at..at + |Record(es[i])|];
    RecordAt(b, es[i], at);
  }

  // The scan passes over the records in front of the one it looks for.
  lemma {:induction false} ScanPacked(b: Sector, es: seq<NamedEntry>, i: nat, j: nat)
    requires |b| == SECTOR_SIZE && Pack(es) <= b && i <= j < |es|
    requires NamesEnd(es)
    requires FirstOfInode(es, j)
    ensures |Pack(es[..i])| <= |Pack(es[..j])| < INO_BLK_READ_LIM
    ensures Scan(b, es[j].entry.inode, |Pack(es[..i])|) == Some(|Pack(es[..j])|)
    decreases j - i
  {
    hide NulFree, DecodeEntry, StrLen, Record, Pack;
    PackedRecord(b, es, i);
    PackGrows(es, i, j);
    PackedRecord(b, es, j);
    if i < j {
      ScanPacked(b, es, i + 1, j);
    }
  }

  predicate DistinctInodes(es: seq<NamedEntry>) {
    forall i, j | 0 <= i < j < |es| :: es[i].entry.inode != es[j].entry.inode
  }

  lemma DistinctNames(es: seq<NamedEntry>, j: nat)
    requires DistinctInodes(es) && NamesEnd(es) && j < |es|
    ensures FirstOfInode(es, j) && NulFree(es[j].name)
  {
  }

  lemma PackNothing(es: seq<NamedEntry>)
    ensures Pack(es[..0]) == []
  {
  }

  // Print and parse: whatever follows the packed entries, every one of them is
  // found with exactly its entry and its name.
  lemma PackedFound(b: Sector, es: seq<NamedEntry>, j: nat)
    requires |b| == SECTOR_SIZE && Pack(es) <= b && DistinctInodes(es) && j < |es|
    requires NamesEnd(es)
    ensures FindInode(b, es[j].entry.inode) == Some(es[j])
  {
    hide NulFree, DecodeEntry, StrLen, Scan, Record, Pack, DistinctInodes, NamesEnd, FirstOfInode;
    assert Pack(es[..0]) == [] by { PackNothing(es); }
    assert FirstOfInode(es, j) && NulFree(es[j].name) by { DistinctNames(es, j); }
    ScanPacked(b, es, 0, j);
    PackedRecord(b, es, j);
  }
}
