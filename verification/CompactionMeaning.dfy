// What compaction means for the inode map that a replay of the ring gives.
module CompactionMeaning {
  import opened Basics
  import opened Disk
  import opened Codec
  import opened Checkpoints
  import opened NatLog
  import opened Ring
  import opened Compaction

  predicate Distinct(xs: seq<u64>) {
    forall i, j | 0 <= i < j < |xs| :: xs[i] != xs[j]
  }

  // The added blocks carry every live inode of the mentioned ones once, with
  // its current address, in nearly as few blocks as possible.
  predicate Carried(mentioned: set<u64>, rounds: nat, lbas: NatMap, added: seq<Sector>) {
    && AllBlocks(added) && AllPacked(added)
    && Replay(added) == Restrict(lbas, mentioned)
    && Distinct(Written(added))
    && Elems(Written(added)) == mentioned * lbas.Keys
    && NAT_BLK_INO_LBA_NUM * |added| <= |mentioned * lbas.Keys| + (NAT_BLK_INO_LBA_NUM - 1) * rounds
  }

  // Compaction of the blocks in ring has rewritten the first p of them: the
  // ring now holds the others followed by the added ones.
  predicate Progress(ring: seq<Sector>, p: nat, rounds: nat, lbas: NatMap, pending: set<u64>,
                     now: seq<Sector>, added: seq<Sector>)
    requires AllBlocks(ring)
  {
    && p <= |ring|
    && now == ring[p..] + added
    && pending == lbas.Keys - MentionedIn(ring[..p])
    && Carried(MentionedIn(ring[..p]), rounds, lbas, added)
  }

  lemma ProgressStart(ring: seq<Sector>, lbas: NatMap)
    requires AllBlocks(ring)
    ensures Progress(ring, 0, 0, lbas, lbas.Keys, ring, [])
  {
    assert ring[0..] + [] == ring;
    assert MentionedIn(ring[..0]) == {};
    assert Restrict(lbas, {}) == map[];
    assert Elems(Written([])) == {};
  }

  lemma RestrictDisjoint(lbas: NatMap, done: set<u64>, mentioned: set<u64>)
    ensures var found := mentioned * (lbas.Keys - done);
            Restrict(lbas, done) + Restrict(lbas, found) == Restrict(lbas, done + mentioned)
  {
  }

  lemma DistinctConcat(a: seq<u64>, b: seq<u64>)
    requires Distinct(a) && Distinct(b) && Elems(a) !! Elems(b)
    ensures Distinct(a + b)
  {
    forall i, j | 0 <= i < j < |a + b| ensures (a + b)[i] != (a + b)[j] {
      if i < |a| <= j {
        assert a[i] in Elems(a) && b[j - |a|] in Elems(b);
      }
    }
  }

  // The blocks of one round, in terms of what it found.
  lemma NewBlocksMeaning(found: set<u64>, lbas: NatMap)
    requires found <= lbas.Keys && 0 !in lbas
    ensures Replay(NewBlocks(found, lbas)) == Restrict(lbas, found)
    ensures AllPacked(NewBlocks(found, lbas))
    ensures Distinct(Written(NewBlocks(found, lbas))) && Elems(Written(NewBlocks(found, lbas))) == found
    ensures NAT_BLK_INO_LBA_NUM * |NewBlocks(found, lbas)| <= |found| + NAT_BLK_INO_LBA_NUM - 1
  {
    var xs := Ascending(found);
    AscendingWritable(found, lbas);
    BlocksForMeaning(xs, lbas);
    BlocksForWritten(xs, lbas);
    BlocksForPacked(xs, lbas);
    BlocksForCount(xs, lbas);
    AscendingElems(found);
    AscendingIncreases(found);
  }

  lemma MentionedPrefix(ring: seq<Sector>, p: nat, q: nat)
    requires AllBlocks(ring) && p <= q <= |ring|
    ensures AllBlocks(ring[..p]) && AllBlocks(ring[p..q]) && AllBlocks(ring[..q])
    ensures MentionedIn(ring[..q]) == MentionedIn(ring[..p]) + MentionedIn(ring[p..q])
  {
    assert ring[..q] == ring[..p] + ring[p..q];
    MentionedConcat(ring[..p], ring[p..q]);
  }

  lemma PendingStep(keys: set<u64>, done: set<u64>, mentioned: set<u64>)
    ensures (keys - done) - mentioned * (keys - done) == keys - (done + mentioned)
    ensures mentioned * (keys - done) <= keys
  {
  }

  lemma LiveSplit(keys: set<u64>, done: set<u64>, mentioned: set<u64>)
    ensures var found := mentioned * (keys - done);
            && (done + mentioned) * keys == done * keys + found
            && done * keys !! found
            && |(done + mentioned) * keys| == |done * keys| + |found|
  {
    var found := mentioned * (keys - done);
    assert (done + mentioned) * keys == done * keys + found;
  }

  lemma CarriedWritten(a: seq<u64>, b: seq<u64>, live: set<u64>, found: set<u64>)
    requires Distinct(a) && Distinct(b) && Elems(a) == live && Elems(b) == found && live !! found
    ensures Distinct(a + b) && Elems(a + b) == live + found
  {
    hide Distinct, Elems;
    ElemsConcat(a, b);
    DistinctConcat(a, b);
  }

  lemma CarriedStep(done: set<u64>, mentioned: set<u64>, rounds: nat, lbas: NatMap, added: seq<Sector>)
    requires 0 !in lbas && Carried(done, rounds, lbas, added)
    ensures var found := mentioned * (lbas.Keys - done);
            Carried(done + mentioned, rounds + 1, lbas, added + NewBlocks(found, lbas))
  {
    hide Replay, Written, NewBlocks, Restrict, Distinct, Elems, Packed;
    var found := mentioned * (lbas.Keys - done);
    var bs := NewBlocks(found, lbas);
    NewBlocksMeaning(found, lbas);
    ReplayConcat(added, bs);
    RestrictDisjoint(lbas, done, mentioned);
    WrittenConcat(added, bs);
    PackedConcat(added, bs);
    LiveSplit(lbas.Keys, done, mentioned);
    CarriedWritten(Written(added), Written(bs), done * lbas.Keys, found);
  }

  lemma ProgressStep(ring: seq<Sector>, p: nat, q: nat, rounds: nat, lbas: NatMap, pending: set<u64>,
                     now: seq<Sector>, added: seq<Sector>)
    requires AllBlocks(ring) && p <= q <= |ring| && 0 !in lbas
    requires Progress(ring, p, rounds, lbas, pending, now, added)
    ensures AllBlocks(ring[p..q])
    ensures var found := MentionedIn(ring[p..q]) * pending;
            && found <= lbas.Keys
            && Progress(ring, q, rounds + 1, lbas, pending - found,
                        ring[q..] + (added + NewBlocks(found, lbas)), added + NewBlocks(found, lbas))
  {
    MentionedPrefix(ring, p, q);
    CarriedStep(MentionedIn(ring[..p]), MentionedIn(ring[p..q]), rounds, lbas, added);
    PendingStep(lbas.Keys, MentionedIn(ring[..p]), MentionedIn(ring[p..q]));
  }

  // Live inodes that the blocks from p to q mention and no block before them does.
  function FirstMentioned(ring: seq<Sector>, p: nat, q: nat, live: set<u64>): set<u64>
    requires AllBlocks(ring) && p <= q <= |ring|
  {
    MentionedIn(ring[p..q]) * (live - MentionedIn(ring[..p]))
  }

  // Blocks that rewriting the ring behind its first p blocks takes, c at a time:
  // each part needs its own blocks, the last of them rarely filled up.
  function RewrittenSize(ring: seq<Sector>, p: nat, c: nat, live: set<u64>): nat
    requires AllBlocks(ring) && c > 0
    decreases |ring| - p
  {
    if p + c > |ring| then 0
    else CeilDiv(|FirstMentioned(ring, p, p + c, live)|, NAT_BLK_INO_LBA_NUM) + RewrittenSize(ring, p + c, c, live)
  }

  // A part in need of an extra block for its last few inodes: at most one each.
  lemma {:induction false} RewrittenBound(ring: seq<Sector>, p: nat, c: nat, live: set<u64>, n: nat)
    requires AllBlocks(ring) && c > 0 && p + n * c == |ring|
    ensures NAT_BLK_INO_LBA_NUM * RewrittenSize(ring, p, c, live) + |MentionedIn(ring[..p]) * live|
            <= |MentionedIn(ring) * live| + (NAT_BLK_INO_LBA_NUM - 1) * n
    decreases n
  {
    hide MentionedIn;
    if n == 0 {
      assert ring[..p] == ring;
    } else {
      assert n * c == (n - 1) * c + c;
      MulAtLeast(n, c);
      RewrittenBound(ring, p + c, c, live, n - 1);
      MentionedPrefix(ring, p, p + c);
      LiveSplit(live, MentionedIn(ring[..p]), MentionedIn(ring[p..p + c]));
    }
  }

  lemma ReplaySplit(ring: seq<Sector>, p: nat)
    requires AllBlocks(ring) && p <= |ring|
    ensures AllBlocks(ring[..p]) && AllBlocks(ring[p..])
    ensures Replay(ring) == Replay(ring[..p]) + Replay(ring[p..])
  {
    hide BlockMap, Replay;
    assert ring == ring[..p] + ring[p..];
    ReplayConcat(ring[..p], ring[p..]);
  }

  // At every step boundary: each inode that the ring gave an address before
  // and that still exists keeps that address or has its current one.
  lemma ProgressSafe(ring: seq<Sector>, p: nat, rounds: nat, lbas: NatMap, pending: set<u64>,
                     now: seq<Sector>, added: seq<Sector>, x: u64)
    requires AllBlocks(ring) && AllBlocks(now) && Progress(ring, p, rounds, lbas, pending, now, added)
    requires x in Replay(ring) && x in lbas
    ensures x in Replay(now) && (Replay(now)[x] == Replay(ring)[x] || Replay(now)[x] == lbas[x])
  {
    ReplaySplit(ring, p);
    ReplayConcat(ring[p..], added);
    ReplayMentioned(ring[..p]);
  }

  // When all blocks have been rewritten the replay is the current address of
  // every inode the ring mentioned.
  lemma ProgressDone(ring: seq<Sector>, rounds: nat, lbas: NatMap, pending: set<u64>,
                     now: seq<Sector>, added: seq<Sector>)
    requires AllBlocks(ring) && Progress(ring, |ring|, rounds, lbas, pending, now, added)
    ensures now == added && Replay(now) == Restrict(lbas, MentionedIn(ring))
  {
    assert ring[..|ring|] == ring;
    assert ring[|ring|..] + added == added;
  }

  // Compaction of a ring this file system wrote: the replay afterwards is the
  // current address of every inode the replay knew before and that still exists.
  lemma CompactedReplay(before: seq<Sector>, after: seq<Sector>, lbas: NatMap)
    requires AllBlocks(before) && AllPacked(before) && AllBlocks(after) && 0 !in lbas
    requires Replay(after) == Restrict(lbas, MentionedIn(before))
    ensures Replay(after) == Restrict(lbas, Replay(before).Keys)
  {
    PackedMentions(before);
  }
}
