// The inode entries that are not yet on the device.
module InodeEntries {
  import opened Basics
  import opened Disk
  import opened InodeBlock

  type EntryMap = map<u64, NamedEntry>

  // Entries are filed under their own inode number.
  predicate Keyed(m: EntryMap) {
    forall x | x in m :: m[x].entry.inode == x
  }

  predicate Named(m: EntryMap) {
    forall x | x in m :: NulFree(m[x].name)
  }

  function Entries(m: EntryMap, xs: seq<u64>): (es: seq<NamedEntry>)
    requires forall x | x in xs :: x in m
    ensures |es| == |xs|
    ensures forall i | 0 <= i < |xs| :: es[i] == m[xs[i]]
  {
    seq(|xs|, i requires 0 <= i < |xs| => m[xs[i]])
  }

  // The entries in the order an iteration over the std::map visits them.
  ghost function InOrder(m: EntryMap): (es: seq<NamedEntry>)
    ensures |es| == |m.Keys|
  {
    AscendingElems(m.Keys);
    assert forall x | x in Ascending(m.Keys) :: x in Elems(Ascending(m.Keys));
    Entries(m, Ascending(m.Keys))
  }

  // The inodes one block takes.
  ghost function BlockInodes(m: EntryMap): seq<u64> {
    Ascending(m.Keys)[..Fitting(InOrder(m), 0)]
  }

  ghost function BlockEntries(m: EntryMap): seq<NamedEntry> {
    InOrder(m)[..Fitting(InOrder(m), 0)]
  }

  lemma InOrderDistinct(m: EntryMap)
    requires Keyed(m) && Named(m)
    ensures forall i | 0 <= i < |m.Keys| ::
              Ascending(m.Keys)[i] in m && InOrder(m)[i] == m[Ascending(m.Keys)[i]]
    ensures DistinctInodes(BlockEntries(m)) && NamesEnd(BlockEntries(m))
  {
    hide Ascending, Fitting;
    var xs := Ascending(m.Keys);
    AscendingElems(m.Keys);
    AscendingIncreases(m.Keys);
    forall i | 0 <= i < |xs| ensures xs[i] in m {
      assert xs[i] in Elems(xs);
    }
  }

  // Every inode of a block can be read back from it, whatever bytes follow the
  // records.
  lemma BlockHoldsInodes(m: EntryMap, b: Sector, x: u64)
    requires Keyed(m) && Named(m) && |b| == SECTOR_SIZE && Pack(BlockEntries(m)) <= b
    requires x in BlockInodes(m)
    ensures x in m && FindInode(b, x) == Some(m[x])
  {
    hide Pack, Fitting, FindInode;
    var es, xs := BlockEntries(m), BlockInodes(m);
    InOrderDistinct(m);
    var j :| 0 <= j < |xs| && xs[j] == x;
    assert es[j] == InOrder(m)[j] && InOrder(m)[j] == m[x];
    PackedFound(b, es, j);
  }

  // What is in no block so far.
  function Without(m: EntryMap, xs: seq<u64>): EntryMap {
    m - Elems(xs)
  }

  lemma FillStart(es: seq<NamedEntry>)
    ensures Pack(es[..0]) == []
  {
  }

  lemma FillStep(es: seq<NamedEntry>, n: nat)
    requires n < |es|
    ensures var fits := |Pack(es[..n])| + INODE_ENTRY_SIZE + |es[n].name| + 1 <= INODE_BLOCK_SIZE;
            && Fitting(es, n) == (if fits then Fitting(es, n + 1) else n)
            && (!fits && Fitting(es, n) == Fitting(es, 0) ==> Full(es))
    ensures Pack(es[..n + 1]) == Pack(es[..n]) + (EncodeEntry(es[n].entry) + es[n].name + [0])
  {
    assert es[..n + 1] == es[..n] + [es[n]];
    PackSnoc(es[..n], es[n]);
  }

  lemma FillEnd(es: seq<NamedEntry>, n: nat)
    requires n == |es| && Fitting(es, n) == Fitting(es, 0)
    ensures Fitting(es, 0) == n && es[..n] == es
    ensures Full(es) <==> |Pack(es[..n])| > INODE_BLOCK_SIZE - INODE_ENTRY_SIZE
  {
  }

  class InodeEntries {
    var inodeEntries: EntryMap

    constructor ()
      ensures inodeEntries == map[]
    {
      inodeEntries := map[];
    }

    method GetInodeEntry(ino: u64) returns (ret: Ret, entry: Option<NamedEntry>)
      ensures ret == if ino in inodeEntries then RetNone else Enoent
      ensures entry == if ino in inodeEntries then Some(inodeEntries[ino]) else None
    {
      if ino in inodeEntries {
        return RetNone, Some(inodeEntries[ino]);
      }
      return Enoent, None;
    }

    method UpdateInodeEntry(entry: NamedEntry)
      modifies this
      ensures inodeEntries == old(inodeEntries)[entry.entry.inode := entry]
      ensures old(Keyed(inodeEntries)) ==> Keyed(inodeEntries)
    {
      inodeEntries := inodeEntries[entry.entry.inode := entry];
    }

    method EraseInodeEntries(inoRemove: seq<u64>)
      modifies this
      ensures inodeEntries == old(inodeEntries) - Elems(inoRemove)
    {
      ghost var before := inodeEntries;
      for i := 0 to |inoRemove|
        invariant inodeEntries == before - Elems(inoRemove[..i])
      {
        var inode := inoRemove[i];
        assert inoRemove[..i + 1] == inoRemove[..i] + [inode];
        ElemsConcat(inoRemove[..i], [inode]);
        inodeEntries := inodeEntries - {inode};
      }
      assert inoRemove[..|inoRemove|] == inoRemove;
    }

    // Pack entries until one does not fit. The block is only written when it
    // is reported full; the listed inodes are those packed in either case.
    method FillInodeBlock(blank: Sector) returns (ret: Ret, inodes: seq<u64>, blk: Sector)
      requires |blank| == INODE_BLOCK_SIZE && Keyed(inodeEntries) && Named(inodeEntries)
      ensures ret == (if Full(InOrder(inodeEntries)) then InoBlkFull else RetNone)
      ensures ret == RetNone <==> |Pack(InOrder(inodeEntries))| <= INODE_BLOCK_SIZE - INODE_ENTRY_SIZE
      ensures inodes == BlockInodes(inodeEntries)
      ensures |blk| == INODE_BLOCK_SIZE
      ensures if ret == InoBlkFull then Pack(BlockEntries(inodeEntries)) <= blk else blk == blank
    {
      hide Ascending, Record, Fitting, Pack, Full;
      blk := blank;
      var buffer := new byte[INODE_BLOCK_SIZE * 2];
      var occupied := 0;
      inodes := [];
      var todo := inodeEntries.Keys;
      ghost var xs, es := Ascending(todo), InOrder(inodeEntries);
      ghost var n := 0;
      InOrderDistinct(inodeEntries);
      FullExactly(es);
      FillStart(es);
      while todo != {}
        invariant n <= |es| == |xs| && Ascending(todo) == xs[n..] && todo <= inodeEntries.Keys
        invariant inodes == xs[..n]
        invariant occupied == |Pack(es[..n])| <= INODE_BLOCK_SIZE && buffer[..occupied] == Pack(es[..n])
        invariant Fitting(es, n) == Fitting(es, 0)
        decreases todo
      {
        var ino := First(todo);
        NextOfAscending(todo, xs, n, ino);
        var entry := inodeEntries[ino];
        assert entry == es[n];
        FillStep(es, n);
        if |entry.name| + 1 + occupied + INODE_ENTRY_SIZE > INODE_BLOCK_SIZE {
          blk := buffer[..INODE_BLOCK_SIZE];
          return InoBlkFull, inodes, blk;
        }
        CopyInto(buffer, occupied, EncodeEntry(entry.entry) + entry.name + [0]);
        occupied := occupied + INODE_ENTRY_SIZE + |entry.name| + 1;
        inodes := inodes + [ino];
        todo := todo - {ino};
        n := n + 1;
      }
      FillEnd(es, n);
      if occupied > INODE_BLOCK_SIZE - INODE_ENTRY_SIZE {
        blk := buffer[..INODE_BLOCK_SIZE];
        return InoBlkFull, inodes, blk;
      }
      return RetNone, inodes, blk;
    }
  }
}
