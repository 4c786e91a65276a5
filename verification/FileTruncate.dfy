// Changing the size of a file.
module FileTruncate {
  import opened Basics
  import opened Disk
  import opened Codec
  import opened Checkpoints
  import opened LogZone
  import opened FileData

  // Shrinking cuts the flat file and nothing else.
  lemma ShrinkCuts(d: Disk, f: File, size: nat)
    requires FileInv(d, f) && size <= f.size
    ensures FileInv(d, File(f.blocks, size))
    ensures Bytes(d, File(f.blocks, size)) == Bytes(d, f)[..size]
  {
    hide InLog, SectorAt;
    assert Sectors(size) <= Sectors(f.size);
    var r, whole := Bytes(d, File(f.blocks, size)), Bytes(d, f);
    forall i | 0 <= i < size ensures r[i] == whole[i] {
    }
    assert r == whole[..size];
  }

  // Data blocks ftruncate takes to exist, and those it takes to be needed.
  function KnownBlocks(size: nat): nat {
    size / SECTOR_SIZE / DATA_BLK_LBA_NUM
  }

  function WantedBlocks(size: nat): nat {
    CeilDiv(size / SECTOR_SIZE, DATA_BLK_LBA_NUM)
  }

  // The blocks from number n on, up to m, replaced by empty ones.
  function Emptied(blocks: Blocks, n: nat, m: nat): (r: Blocks)
    ensures forall k: nat :: k in r <==> k in blocks || n <= k < m
    ensures forall k: nat | k in r :: r[k] == if n <= k < m then ZeroBlock() else blocks[k]
    decreases m
  {
    if m <= n then blocks
    else
      var front, last: nat := Emptied(blocks, n, m - 1), m - 1;
      front[last := ZeroBlock()]
  }

  // The blocks of a file after it was made longer.
  function GrownBlocks(blocks: Blocks, oldSize: nat, newSize: nat): Blocks {
    Emptied(blocks, KnownBlocks(oldSize), WantedBlocks(newSize))
  }

  // Which blocks a longer file has: those from the one the old size in sectors falls
  // into are empty as far as the new size in sectors needs them, the others stay.
  ghost predicate Grown(blocks: Blocks, blocks': Blocks, oldSize: nat, newSize: nat) {
    && (forall n: nat ::
          n in blocks' <==> n in blocks || (oldSize / 4096 / 511 <= n && n * 511 < newSize / 4096))
    && forall n: nat | n in blocks' ::
         blocks'[n] == if oldSize / 4096 / 511 <= n && n * 511 < newSize / 4096 then ZeroBlock() else blocks[n]
  }

  lemma GrownExactly(blocks: Blocks, oldSize: nat, newSize: nat)
    ensures Grown(blocks, GrownBlocks(blocks, oldSize, newSize), oldSize, newSize)
  {
    forall n: nat ensures n < WantedBlocks(newSize) <==> n * 511 < newSize / 4096 {
    }
  }

  predicate SameAddresses(blocks: Blocks, blocks': Blocks, size: nat) {
    forall i: nat | i < Sectors(size) :: LbaAt(blocks', i) == LbaAt(blocks, i)
  }

  // Growing starts with the block the file ends in, so it loses the addresses
  // in it: the file keeps its data exactly when no block is emptied or the file
  // ends on the boundary of a block.
  lemma GrowKeepsDataExactly(d: Disk, f: File, newSize: nat)
    requires FileInv(d, f) && f.size < newSize
    ensures SameAddresses(f.blocks, GrownBlocks(f.blocks, f.size, newSize), f.size)
            <==> newSize / 4096 <= f.size / 4096 / 511 * 511 || (f.size + 4095) / 4096 == f.size / 4096 / 511 * 511
  {
    hide InLog;
    var n, m, blocks' := KnownBlocks(f.size), WantedBlocks(newSize), GrownBlocks(f.blocks, f.size, newSize);
    assert n * DATA_BLK_LBA_NUM <= Sectors(f.size);
    if m <= n {
      forall i: nat | i < Sectors(f.size) ensures LbaAt(blocks', i) == LbaAt(f.blocks, i) {
      }
    } else if Sectors(f.size) == n * DATA_BLK_LBA_NUM {
      forall i: nat | i < Sectors(f.size) ensures LbaAt(blocks', i) == LbaAt(f.blocks, i) {
        assert i / DATA_BLK_LBA_NUM < n;
      }
    } else {
      var i := n * DATA_BLK_LBA_NUM;
      assert i / DATA_BLK_LBA_NUM == n;
      assert LbaAt(blocks', i) == 0;
      LogLbaPositive(d, LbaAt(f.blocks, i));
    }
  }

  // A file of one sector that is made to take two loses its only address.
  lemma GrowLosesFirstSector(d: Disk, f: File)
    requires FileInv(d, f) && f.size == SECTOR_SIZE
    ensures LbaAt(f.blocks, 0) != 0 && LbaAt(GrownBlocks(f.blocks, SECTOR_SIZE, 2 * SECTOR_SIZE), 0) == 0
  {
    LogLbaPositive(d, LbaAt(f.blocks, 0));
  }

  lemma EmptiedStep(blocks: Blocks, n: nat, m: nat)
    requires n <= m
    ensures Emptied(blocks, n, n) == blocks
    ensures Emptied(blocks, n, m + 1) == Emptied(blocks, n, m)[m := ZeroBlock()]
  {
  }
}
