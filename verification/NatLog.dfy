// What a run of random zone blocks means: the last entry for an inode wins.
// Inode 0 ends the entries of a block.
module NatLog {
  import opened Basics
  import opened Disk
  import opened Codec

  type NatMap = map<u64, u64>

  // Entries of a block before its first inode 0, later ones overriding.
  function EntriesMap(n: NatBlock, i: nat): NatMap
    requires n.Valid() && i <= NAT_BLK_INO_LBA_NUM
    decreases NAT_BLK_INO_LBA_NUM - i
  {
    if i == NAT_BLK_INO_LBA_NUM || n.inode[i] == 0 then map[]
    else map[n.inode[i] := n.lba[i]] + EntriesMap(n, i + 1)
  }

  predicate IsBlock(b: Sector) {
    |b| == SECTOR_SIZE
  }

  predicate AllBlocks(bs: seq<Sector>) {
    forall i | 0 <= i < |bs| :: IsBlock(bs[i])
  }

  function BlockMap(b: Sector): NatMap
    requires IsBlock(b)
  {
    var n := DecodeNat(b);
    if n.kind == RANDZ_NAT_BLK then EntriesMap(n, 0) else map[]
  }

  // Replaying a run of blocks over an empty map.
  function Replay(bs: seq<Sector>): NatMap
    requires AllBlocks(bs)
  {
    if bs == [] then map[]
    else Replay(bs[..|bs| - 1]) + BlockMap(bs[|bs| - 1])
  }

  lemma {:induction false} ReplayConcat(a: seq<Sector>, b: seq<Sector>)
    requires AllBlocks(a) && AllBlocks(b)
    ensures AllBlocks(a + b)
    ensures Replay(a + b) == Replay(a) + Replay(b)
    decreases |b|
  {
    hide BlockMap;
    if b == [] {
      assert a + b == a;
    } else {
      var front, last := b[..|b| - 1], b[|b| - 1];
      ReplayConcat(a, front);
      assert (a + b)[..|a + b| - 1] == a + front;
      MapAssoc(Replay(a), Replay(front), BlockMap(last));
    }
  }

  // Every inode a block mentions, also behind an inode 0.
  function Mentioned(b: Sector): set<u64>
    requires IsBlock(b)
  {
    var n := DecodeNat(b);
    if n.kind == RANDZ_NAT_BLK then Elems(n.inode) else {}
  }

  function MentionedIn(bs: seq<Sector>): set<u64>
    requires AllBlocks(bs)
  {
    if bs == [] then {}
    else MentionedIn(bs[..|bs| - 1]) + Mentioned(bs[|bs| - 1])
  }

  lemma {:induction false} MentionedConcat(a: seq<Sector>, b: seq<Sector>)
    requires AllBlocks(a) && AllBlocks(b)
    ensures AllBlocks(a + b)
    ensures MentionedIn(a + b) == MentionedIn(a) + MentionedIn(b)
    decreases |b|
  {
    hide Mentioned;
    if b == [] {
      assert a + b == a;
    } else {
      var front, last := b[..|b| - 1], b[|b| - 1];
      MentionedConcat(a, front);
      assert (a + b)[..|a + b| - 1] == a + front;
      SetAssoc(MentionedIn(a), MentionedIn(front), Mentioned(last));
    }
  }

  lemma {:induction false} EntriesMentioned(n: NatBlock, i: nat)
    requires n.Valid() && i <= NAT_BLK_INO_LBA_NUM
    ensures forall x | x in EntriesMap(n, i) :: x in n.inode
    decreases NAT_BLK_INO_LBA_NUM - i
  {
    if i < NAT_BLK_INO_LBA_NUM && n.inode[i] != 0 {
      EntriesMentioned(n, i + 1);
    }
  }

  lemma {:induction false} ReplayMentioned(bs: seq<Sector>)
    requires AllBlocks(bs)
    ensures Replay(bs).Keys <= MentionedIn(bs)
  {
    if bs != [] {
      ReplayMentioned(bs[..|bs| - 1]);
      EntriesMentioned(DecodeNat(bs[|bs| - 1]), 0);
    }
  }

  // A run of blocks mentions no more inodes than it has entries.
  lemma {:induction false} MentionedBound(bs: seq<Sector>)
    requires AllBlocks(bs)
    ensures |MentionedIn(bs)| <= NAT_BLK_INO_LBA_NUM * |bs|
  {
    if bs != [] {
      var front, last := bs[..|bs| - 1], bs[|bs| - 1];
      MentionedBound(front);
      ElemsSize(DecodeNat(last).inode);
      UnionSize(MentionedIn(front), Mentioned(last));
    }
  }

  // ---- Writing NAT blocks -------------------------------------------------

  predicate Writable(xs: seq<u64>, lbas: NatMap) {
    forall x | x in xs :: x != 0 && x in lbas
  }

  // The block fill_nat_block makes from inodes that all have an address.
  function FilledBlock(xs: seq<u64>, lbas: NatMap): (n: NatBlock)
    requires |xs| <= NAT_BLK_INO_LBA_NUM && Writable(xs, lbas)
    ensures n.Valid() && n.kind == RANDZ_NAT_BLK
    ensures forall i | 0 <= i < NAT_BLK_INO_LBA_NUM ::
              n.inode[i] == (if i < |xs| then xs[i] else 0) && n.lba[i] == (if i < |xs| then lbas[xs[i]] else 0)
  {
    NatBlock(RANDZ_NAT_BLK,
             seq(NAT_BLK_INO_LBA_NUM, i requires 0 <= i => if i < |xs| then xs[i] else 0),
             seq(NAT_BLK_INO_LBA_NUM, i requires 0 <= i => if i < |xs| then lbas[xs[i]] else 0))
  }

  function Restrict(lbas: NatMap, keys: set<u64>): NatMap {
    map x | x in lbas && x in keys :: lbas[x]
  }

  lemma RestrictSuffix(xs: seq<u64>, lbas: NatMap, i: nat)
    requires i < |xs| && xs[i] in lbas
    ensures Restrict(lbas, Elems(xs[i..])) == map[xs[i] := lbas[xs[i]]] + Restrict(lbas, Elems(xs[i + 1..]))
  {
    assert xs[i..] == [xs[i]] + xs[i + 1..];
    ElemsConcat([xs[i]], xs[i + 1..]);
    assert Elems([xs[i]]) == {xs[i]};
  }

  lemma {:induction false} FilledBlockEntries(xs: seq<u64>, lbas: NatMap, i: nat)
    requires |xs| <= NAT_BLK_INO_LBA_NUM && Writable(xs, lbas) && i <= |xs|
    ensures EntriesMap(FilledBlock(xs, lbas), i) == Restrict(lbas, Elems(xs[i..]))
    decreases |xs| - i
  {
    var n := FilledBlock(xs, lbas);
    if i < |xs| {
      FilledBlockEntries(xs, lbas, i + 1);
      RestrictSuffix(xs, lbas, i);
    } else {
      assert Restrict(lbas, Elems(xs[i..])) == map[];
    }
  }

  // A written block replays to the addresses of exactly the inodes put in it.
  lemma FilledBlockMeaning(xs: seq<u64>, lbas: NatMap)
    requires |xs| <= NAT_BLK_INO_LBA_NUM && Writable(xs, lbas)
    ensures BlockMap(EncodeNat(FilledBlock(xs, lbas))) == Restrict(lbas, Elems(xs))
  {
    var n := FilledBlock(xs, lbas);
    NatRoundTrip(n);
    FilledBlockEntries(xs, lbas, 0);
    assert xs[0..] == xs;
  }

  lemma WritableParts(xs: seq<u64>, lbas: NatMap, n: nat)
    requires Writable(xs, lbas) && n <= |xs|
    ensures Writable(xs[..n], lbas) && Writable(xs[n..], lbas)
  {
    ElemsSplit(xs, n);
  }

  // The blocks that carry the given inodes, 255 at a time.
  function BlocksFor(xs: seq<u64>, lbas: NatMap): (bs: seq<Sector>)
    requires Writable(xs, lbas)
    ensures AllBlocks(bs)
  {
    if xs == [] then []
    else
      var n := Min(NAT_BLK_INO_LBA_NUM, |xs|);
      WritableParts(xs, lbas, n);
      [EncodeNat(FilledBlock(xs[..n], lbas))] + BlocksFor(xs[n..], lbas)
  }

  lemma {:induction false} BlocksForCount(xs: seq<u64>, lbas: NatMap)
    requires Writable(xs, lbas)
    ensures |BlocksFor(xs, lbas)| == CeilDiv(|xs|, NAT_BLK_INO_LBA_NUM)
  {
    if |xs| > NAT_BLK_INO_LBA_NUM {
      WritableParts(xs, lbas, NAT_BLK_INO_LBA_NUM);
      BlocksForCount(xs[NAT_BLK_INO_LBA_NUM..], lbas);
    } else if xs != [] {
      assert BlocksFor(xs[|xs|..], lbas) == [];
    }
  }

  lemma ReplaySingle(b: Sector)
    requires IsBlock(b)
    ensures AllBlocks([b]) && Replay([b]) == BlockMap(b)
  {
    assert [b][..0] == [];
    assert Replay([b]) == Replay([]) + BlockMap(b);
  }

  lemma RestrictUnion(lbas: NatMap, a: set<u64>, b: set<u64>)
    ensures Restrict(lbas, a) + Restrict(lbas, b) == Restrict(lbas, a + b)
  {
  }

  lemma {:induction false} BlocksForMeaning(xs: seq<u64>, lbas: NatMap)
    requires Writable(xs, lbas)
    ensures Replay(BlocksFor(xs, lbas)) == Restrict(lbas, Elems(xs))
  {
    if xs == [] {
      assert Restrict(lbas, Elems(xs)) == map[];
    } else {
      var n := Min(NAT_BLK_INO_LBA_NUM, |xs|);
      var head, tail := xs[..n], xs[n..];
      WritableParts(xs, lbas, n);
      var b := EncodeNat(FilledBlock(head, lbas));
      FilledBlockMeaning(head, lbas);
      BlocksForMeaning(tail, lbas);
      ReplaySingle(b);
      ReplayConcat([b], BlocksFor(tail, lbas));
      ElemsSplit(xs, n);
      RestrictUnion(lbas, Elems(head), Elems(tail));
    }
  }

  lemma TakeTake(xs: seq<u64>, n: nat, m: nat)
    requires m <= n <= |xs|
    ensures xs[..n][..m] == xs[..m] && xs[..n][m..] == xs[m..][..n - m]
  {
  }

  // The first k blocks carry the first 255 * k inodes.
  lemma {:induction false} BlocksForTake(xs: seq<u64>, lbas: NatMap, k: nat)
    requires Writable(xs, lbas) && k <= |BlocksFor(xs, lbas)|
    ensures var n := Min(NAT_BLK_INO_LBA_NUM * k, |xs|);
            Writable(xs[..n], lbas) && BlocksFor(xs, lbas)[..k] == BlocksFor(xs[..n], lbas)
    decreases k
  {
    hide EncodeNat, FilledBlock;
    var n := Min(NAT_BLK_INO_LBA_NUM * k, |xs|);
    WritableParts(xs, lbas, n);
    if k > 0 {
      var m := Min(NAT_BLK_INO_LBA_NUM, |xs|);
      WritableParts(xs, lbas, m);
      BlocksForTake(xs[m..], lbas, k - 1);
      TakeTake(xs, n, m);
      assert Min(NAT_BLK_INO_LBA_NUM, |xs[..n]|) == m;
    }
  }

  // All inodes written by a run of blocks, in order: nothing is written twice
  // when this sequence has no repetition.
  function Inodes(n: NatBlock, i: nat): seq<u64>
    requires n.Valid() && i <= NAT_BLK_INO_LBA_NUM
    decreases NAT_BLK_INO_LBA_NUM - i
  {
    if i == NAT_BLK_INO_LBA_NUM || n.inode[i] == 0 then [] else [n.inode[i]] + Inodes(n, i + 1)
  }

  function WrittenBy(b: Sector): seq<u64>
    requires IsBlock(b)
  {
    var n := DecodeNat(b);
    if n.kind == RANDZ_NAT_BLK then Inodes(n, 0) else []
  }

  function Written(bs: seq<Sector>): seq<u64>
    requires AllBlocks(bs)
  {
    if bs == [] then [] else WrittenBy(bs[0]) + Written(bs[1..])
  }

  lemma {:induction false} FilledBlockInodes(xs: seq<u64>, lbas: NatMap, i: nat)
    requires |xs| <= NAT_BLK_INO_LBA_NUM && Writable(xs, lbas) && i <= |xs|
    ensures Inodes(FilledBlock(xs, lbas), i) == xs[i..]
    decreases |xs| - i
  {
    if i < |xs| {
      FilledBlockInodes(xs, lbas, i + 1);
      assert FilledBlock(xs, lbas).inode[i] == xs[i];
      assert xs[i..] == [xs[i]] + xs[i + 1..];
    } else {
      assert i < NAT_BLK_INO_LBA_NUM ==> FilledBlock(xs, lbas).inode[i] == 0;
    }
  }

  lemma FilledWritten(xs: seq<u64>, lbas: NatMap)
    requires |xs| <= NAT_BLK_INO_LBA_NUM && Writable(xs, lbas)
    ensures WrittenBy(EncodeNat(FilledBlock(xs, lbas))) == xs
  {
    hide EncodeNat, DecodeNat;
    FilledBlockInodes(xs, lbas, 0);
    NatRoundTrip(FilledBlock(xs, lbas));
  }

  lemma {:induction false} BlocksForWritten(xs: seq<u64>, lbas: NatMap)
    requires Writable(xs, lbas)
    ensures Written(BlocksFor(xs, lbas)) == xs
  {
    hide EncodeNat, WrittenBy, FilledBlock;
    if xs != [] {
      var n := Min(NAT_BLK_INO_LBA_NUM, |xs|);
      WritableParts(xs, lbas, n);
      FilledWritten(xs[..n], lbas);
      BlocksForWritten(xs[n..], lbas);
      assert xs == xs[..n] + xs[n..];
    }
  }

  lemma {:induction false} WrittenConcat(a: seq<Sector>, b: seq<Sector>)
    requires AllBlocks(a) && AllBlocks(b)
    ensures AllBlocks(a + b) && Written(a + b) == Written(a) + Written(b)
    decreases |a|
  {
    hide WrittenBy;
    if a == [] {
      assert a + b == b;
    } else {
      WrittenConcat(a[1..], b);
      assert (a + b)[0] == a[0] && (a + b)[1..] == a[1..] + b;
      var x, y, z := WrittenBy(a[0]), Written(a[1..]), Written(b);
      assert x + y + z == x + (y + z);
    }
  }

  // ---- Blocks as fill_nat_block writes them ----------------------------------

  predicate PackedFrom(xs: seq<u64>, i: nat) {
    forall a, b | i <= a < b < |xs| :: xs[a] == 0 ==> xs[b] == 0
  }

  // No inode stands behind an inode 0.
  predicate Packed(b: Sector)
    requires IsBlock(b)
  {
    var n := DecodeNat(b);
    n.kind == RANDZ_NAT_BLK && PackedFrom(n.inode, 0)
  }

  lemma FilledBlockPacked(xs: seq<u64>, lbas: NatMap)
    requires |xs| <= NAT_BLK_INO_LBA_NUM && Writable(xs, lbas)
    ensures Packed(EncodeNat(FilledBlock(xs, lbas)))
  {
    NatRoundTrip(FilledBlock(xs, lbas));
  }

  lemma {:induction false} PackedEntries(n: NatBlock, i: nat)
    requires n.Valid() && i <= NAT_BLK_INO_LBA_NUM && PackedFrom(n.inode, i)
    ensures EntriesMap(n, i).Keys == Elems(n.inode[i..]) - {0}
    decreases NAT_BLK_INO_LBA_NUM - i
  {
    if i < NAT_BLK_INO_LBA_NUM {
      assert n.inode[i..] == [n.inode[i]] + n.inode[i + 1..];
      ElemsConcat([n.inode[i]], n.inode[i + 1..]);
      if n.inode[i] != 0 {
        PackedEntries(n, i + 1);
      } else {
        assert forall x | x in n.inode[i..] :: x == 0;
      }
    }
  }

  predicate AllPacked(bs: seq<Sector>)
    requires AllBlocks(bs)
  {
    forall i | 0 <= i < |bs| :: Packed(bs[i])
  }

  // On such blocks the inodes mentioned are those the replay knows.
  lemma {:induction false} PackedMentions(bs: seq<Sector>)
    requires AllBlocks(bs) && AllPacked(bs)
    ensures MentionedIn(bs) - {0} == Replay(bs).Keys
  {
    if bs != [] {
      var front, last := bs[..|bs| - 1], bs[|bs| - 1];
      PackedMentions(front);
      PackedEntries(DecodeNat(last), 0);
      assert DecodeNat(last).inode[0..] == DecodeNat(last).inode;
    }
  }

  lemma {:induction false} BlocksForPacked(xs: seq<u64>, lbas: NatMap)
    requires Writable(xs, lbas)
    ensures AllPacked(BlocksFor(xs, lbas))
  {
    hide Packed, EncodeNat, FilledBlock;
    if xs != [] {
      var n := Min(NAT_BLK_INO_LBA_NUM, |xs|);
      WritableParts(xs, lbas, n);
      FilledBlockPacked(xs[..n], lbas);
      BlocksForPacked(xs[n..], lbas);
    }
  }

  lemma PackedConcat(a: seq<Sector>, b: seq<Sector>)
    requires AllBlocks(a) && AllBlocks(b)
    ensures AllBlocks(a + b) && (AllPacked(a) && AllPacked(b) ==> AllPacked(a + b))
  {
    hide Packed;
  }

  lemma PackedPrefix(bs: seq<Sector>, n: nat)
    requires AllBlocks(bs) && AllPacked(bs) && n <= |bs|
    ensures AllBlocks(bs[..n]) && AllPacked(bs[..n])
  {
    hide Packed;
  }
}
