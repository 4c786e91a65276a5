// Looking up an inode, and moving inodes from memory to the log.
module Inodes {
  import opened Basics
  import opened Disk
  import opened ZnsMemory
  import opened Checkpoints
  import opened LogZone
  import opened InodeBlock
  import opened InodeEntries
  import opened InodeLba

  // What a lookup comes to.
  datatype Lookup = NotFound | Failed | Found(value: NamedEntry)

  // The inode as the block at an address has it.
  function OnDevice(d: Disk, lba: nat, ino: u64): Option<NamedEntry>
    requires FsDisk(d)
  {
    if LbaReadable(d, lba) then FindInode(SectorAt(d, lba), ino) else None
  }

  // get_inode: entries in memory are newer than the device.
  function LookupInode(d: Disk, lbas: map<u64, LbaInode>, entries: EntryMap, ino: u64): Lookup
    requires FsDisk(d)
  {
    if ino !in lbas then NotFound
    else if ino in entries then Found(entries[ino])
    else
      match OnDevice(d, lbas[ino].lba, ino)
      case None => Failed
      case Some(e) => Found(e)
  }

  // Inode metadata in memory and the log it is flushed to.
  datatype Meta = Meta(log: LogState, lbas: map<u64, LbaInode>, entries: EntryMap, nats: set<u64>)

  // The address of an inode leads to a block of the log that holds it.
  predicate Flushed(d: Disk, lbas: map<u64, LbaInode>, ino: u64)
    requires FsDisk(d) && ino in lbas
  {
    InLog(d, lbas[ino].lba) && OnDevice(d, lbas[ino].lba, ino).Some?
  }

  // Inodes that were never flushed have address 0 and live in memory; all
  // others have a block on the device, even when a newer entry is in memory.
  predicate Complete(d: Disk, lbas: map<u64, LbaInode>, entries: EntryMap)
    requires FsDisk(d)
  {
    && entries.Keys <= lbas.Keys
    && forall x | x in lbas :: Flushed(d, lbas, x) || (lbas[x].lba == 0 && x in entries)
  }

  predicate MetaInv(m: Meta) {
    && LogInv(m.log.d, m.log.ptr)
    && Keyed(m.entries) && Named(m.entries)
    && 0 !in m.lbas
    && Complete(m.log.d, m.lbas, m.entries)
    && m.nats <= m.lbas.Keys
  }

  // A growing log hides no inode.
  lemma FlushedKept(d: Disk, d': Disk, lbas: map<u64, LbaInode>, ino: u64)
    requires FsDisk(d) && FsDisk(d') && ino in lbas && Flushed(d, lbas, ino) && LogGrows(d, d')
    ensures Flushed(d', lbas, ino) && OnDevice(d', lbas[ino].lba, ino) == OnDevice(d, lbas[ino].lba, ino)
  {
    hide FindInode, SectorAt;
    GrowsKeeps(d, d', lbas[ino].lba);
  }

  lemma CompleteKept(d: Disk, d': Disk, lbas: map<u64, LbaInode>, entries: EntryMap)
    requires FsDisk(d) && FsDisk(d') && Complete(d, lbas, entries) && LogGrows(d, d')
    ensures Complete(d', lbas, entries)
    ensures forall x :: LookupInode(d', lbas, entries, x) == LookupInode(d, lbas, entries, x)
  {
    hide OnDevice, Flushed;
    forall x | x in lbas && Flushed(d, lbas, x)
      ensures Flushed(d', lbas, x) && OnDevice(d', lbas[x].lba, x) == OnDevice(d, lbas[x].lba, x)
    {
      FlushedKept(d, d', lbas, x);
    }
  }

  function LookupOf(m: Meta, ino: u64): Lookup
    requires FsDisk(m.log.d)
  {
    LookupInode(m.log.d, m.lbas, m.entries, ino)
  }

  lemma InvLog(m: Meta)
    requires MetaInv(m)
    ensures LogInv(m.log.d, m.log.ptr) && FsDisk(m.log.d) && Keyed(m.entries) && Named(m.entries)
  {
  }

  // A new entry for a known inode changes the lookup of that inode only, also
  // when the log has grown in the meantime.
  lemma UpdateEntryKeeps(m: Meta, log: LogState, e: NamedEntry)
    requires MetaInv(m) && LogInv(log.d, log.ptr) && LogGrows(m.log.d, log.d)
    requires e.entry.inode in m.lbas && NulFree(e.name)
    ensures var m' := m.(log := log, entries := m.entries[e.entry.inode := e]);
            && MetaInv(m')
            && FsDisk(m.log.d) && FsDisk(m'.log.d)
            && LookupOf(m', e.entry.inode) == Found(e)
            && forall x | x != e.entry.inode :: LookupOf(m', x) == LookupOf(m, x)
  {
    hide OnDevice, InLog, LogInv, LogGrows;
    InvLog(m);
    LogIsFs(log.d, log.ptr);
    CompleteKept(m.log.d, log.d, m.lbas, m.entries);
  }

  ghost predicate SameLookups(m: Meta, m': Meta) {
    && FsDisk(m.log.d) && FsDisk(m'.log.d)
    && forall x :: LookupOf(m', x) == LookupOf(m, x)
  }

  lemma GrowthKeeps(m: Meta, log: LogState)
    requires MetaInv(m) && LogInv(log.d, log.ptr) && LogGrows(m.log.d, log.d)
    ensures MetaInv(m.(log := log)) && SameLookups(m, m.(log := log))
  {
    hide LookupInode, LogInv, LogGrows;
    InvLog(m);
    LogIsFs(log.d, log.ptr);
    CompleteKept(m.log.d, log.d, m.lbas, m.entries);
  }

  // What a lookup finds is an entry of that inode with a proper name.
  lemma FoundIsProper(m: Meta, ino: u64)
    requires MetaInv(m)
    ensures FsDisk(m.log.d)
    ensures match LookupOf(m, ino)
            case Found(e) => ino in m.lbas && e.entry.inode == ino != 0 && NulFree(e.name)
            case _ => true
  {
    hide LogInv, LbaReadable, SectorAt;
    InvLog(m);
  }

  // flush_inodes_if_full, given the bytes of the block that was filled.
  ghost function FlushInodes(m: Meta, blk: Sector): (Meta, Ret)
    requires LogInv(m.log.d, m.log.ptr)
  {
    if !Full(InOrder(m.entries)) then (m, RetNone)
    else
      var (log, ret, lba) := AppendSector(m.log, blk);
      if ret != RetNone || lba >= U64_LIMIT then (m.(log := log), ret)
      else
        var xs := BlockInodes(m.entries);
        (Meta(log, Moved(m.lbas, xs, lba), Without(m.entries, xs), m.nats + Elems(xs)), ret)
  }

  lemma MovedInodes(m: Meta, d: Disk, xs: seq<u64>, lba: u64)
    requires Keyed(m.entries) && Named(m.entries) && FsDisk(d) && InLog(d, lba) && Complete(d, m.lbas, m.entries)
    requires forall x | x in xs :: x in m.entries && OnDevice(d, lba, x) == Some(m.entries[x])
    ensures var lbas', entries' := Moved(m.lbas, xs, lba), Without(m.entries, xs);
            && Elems(xs) <= m.entries.Keys
            && lbas'.Keys == m.lbas.Keys && Keyed(entries') && Named(entries')
            && Complete(d, lbas', entries')
            && (forall x :: LookupInode(d, lbas', entries', x) == LookupInode(d, m.lbas, m.entries, x))
            && (forall x | x in xs :: x in lbas' && x !in entries' && Flushed(d, lbas', x))
  {
    hide OnDevice, InLog;
  }

  // The inodes of a block written at an address of the log move there.
  lemma PackedMoves(m: Meta, d: Disk, blk: Sector, lba: u64)
    requires MetaInv(m) && |blk| == SECTOR_SIZE && Pack(BlockEntries(m.entries)) <= blk
    requires FsDisk(d) && InLog(d, lba) && SectorAt(d, lba) == blk
    requires Complete(d, m.lbas, m.entries)
    ensures var xs := BlockInodes(m.entries);
            var lbas', entries' := Moved(m.lbas, xs, lba), Without(m.entries, xs);
            && Elems(xs) <= m.entries.Keys
            && lbas'.Keys == m.lbas.Keys && Keyed(entries') && Named(entries')
            && Complete(d, lbas', entries')
            && (forall x :: LookupInode(d, lbas', entries', x) == LookupInode(d, m.lbas, m.entries, x))
            && (forall x | x in xs :: x in lbas' && x !in entries' && Flushed(d, lbas', x))
  {
    hide Pack, BlockEntries, FindInode, SectorAt, BlockInodes, LookupInode;
    var xs := BlockInodes(m.entries);
    forall x | x in xs
      ensures x in m.entries && OnDevice(d, lba, x) == Some(m.entries[x])
    {
      BlockHoldsInodes(m.entries, blk, x);
    }
    MovedInodes(m, d, xs, lba);
  }

  // A flush is invisible to lookups: every inode is found as before, those
  // packed into the block now on the device and noted for the random zone.
  lemma FlushKeepsEveryInode(m: Meta, blk: Sector)
    requires MetaInv(m) && |blk| == SECTOR_SIZE && Pack(BlockEntries(m.entries)) <= blk
    ensures var (m', ret) := FlushInodes(m, blk);
            && MetaInv(m')
            && LogGrows(m.log.d, m'.log.d) && SameOutsideLog(m.log.d, m'.log.d)
            && SameLookups(m, m')
            && m'.lbas.Keys == m.lbas.Keys
            && (ret == RetNone && Full(InOrder(m.entries)) ==>
                  forall x | x in BlockInodes(m.entries) ::
                    x in m'.lbas && x in m'.nats && x !in m'.entries && Flushed(m'.log.d, m'.lbas, x))
            && (forall x | x in m.lbas && x !in m'.nats :: x !in m.nats && m'.lbas[x].lba == m.lbas[x].lba)
  {
    hide Pack, BlockEntries, BlockInodes, LookupInode, InOrder, Full, Complete;
    var (m', ret) := FlushInodes(m, blk);
    AppendSectorStep(m.log, blk);
    var (log, ret1, lba) := AppendSector(m.log, blk);
    if Full(InOrder(m.entries)) && ret1 == RetNone {
      CompleteKept(m.log.d, log.d, m.lbas, m.entries);
      PackedMoves(m, log.d, blk, lba);
    }
  }

  lemma FlushNotFull(m: Meta, blk: Sector)
    requires MetaInv(m) && !Full(InOrder(m.entries))
    ensures FlushInodes(m, blk) == (m, RetNone) && SameLookups(m, m)
  {
  }

  // What flushing a full block comes to.
  lemma FlushFull(m: Meta, blk: Sector)
    requires LogInv(m.log.d, m.log.ptr) && |blk| == SECTOR_SIZE && Full(InOrder(m.entries))
    ensures var (log, ret, lba) := AppendSector(m.log, blk);
            && (ret == RetNone ==> lba < U64_LIMIT)
            && var xs, m' := BlockInodes(m.entries), FlushInodes(m, blk).0;
               && FlushInodes(m, blk).1 == ret
               && m' == if ret == RetNone
                        then Meta(log, Moved(m.lbas, xs, lba), Without(m.entries, xs), m.nats + Elems(xs)) else m.(log := log)
  {
    hide BlockEntries, BlockInodes, InOrder, Full, LogGrows, SameOutsideLog;
    AppendSectorStep(m.log, blk);
  }

  // What flushing one block does: nothing while all entries fit and leave room for
  // another one, nothing but an error at the end of the log, and else the entries
  // that fit go to the next sector of the log, which becomes the address of their
  // inodes.
  ghost predicate FlushDone(m: Meta, blk: Sector, m': Meta, ret: Ret) {
    var xs, lba := BlockInodes(m.entries), PtrLba(m.log);
    && FsDisk(m.log.d) && FsDisk(m'.log.d)
    && if |Pack(InOrder(m.entries))| <= INODE_BLOCK_SIZE - INODE_ENTRY_SIZE then m' == m && ret == RetNone
       else if Room(m.log) <= 0 then m' == m && ret == RetErr
       else
         && ret == RetNone
         && InLog(m'.log.d, lba) && SectorAt(m'.log.d, lba) == blk
         && m'.nats == m.nats + Elems(xs)
         && m'.entries == m.entries - Elems(xs)
         && lba < U64_LIMIT && Relocated(m.lbas, m'.lbas, xs, lba)
  }

  lemma FlushIsDone(m: Meta, blk: Sector)
    requires MetaInv(m) && |blk| == SECTOR_SIZE
    ensures FlushDone(m, blk, FlushInodes(m, blk).0, FlushInodes(m, blk).1)
  {
    hide MetaInv, Moved, BlockInodes, AppendSector, Full, Pack, InOrder, LogGrows, SameOutsideLog, InLog,
         SectorAt, Room, PtrLba, LbaZone, LbaSector, LbaReadable, Elems, FsDisk, LogInv, FlushInodes, Relocated;
    InvLog(m);
    FullExactly(InOrder(m.entries));
    if !Full(InOrder(m.entries)) {
      FlushNotFull(m, blk);
    } else {
      FlushFull(m, blk);
      AppendSectorStep(m.log, blk);
      LogIsFs(AppendSector(m.log, blk).0.d, AppendSector(m.log, blk).0.ptr);
      if Room(m.log) > 0 {
        MovedExactly(m.lbas, BlockInodes(m.entries), PtrLba(m.log));
      }
    }
  }

  class Inodes {
    const nvme: NvmeZnsMemoryBackend
    const log: LogZone
    const lbaMap: InodeLbaMap
    const entries: InodeEntries
    var natUpdateSet: set<u64>

    constructor (log: LogZone, lbaMap: InodeLbaMap, entries: InodeEntries)
      ensures this.log == log && this.nvme == log.nvme && this.lbaMap == lbaMap && this.entries == entries
      ensures natUpdateSet == {}
    {
      this.nvme, this.log, this.lbaMap, this.entries := log.nvme, log, lbaMap, entries;
      natUpdateSet := {};
    }

    ghost predicate Ready()
      reads this, nvme, nvme.data, nvme.writePointers, log, lbaMap, entries
    {
      log.nvme == nvme && nvme.Valid() && MetaInv(State())
    }

    ghost function State(): Meta
      reads this, nvme, log, lbaMap, entries
    {
      Meta(LogState(nvme.disk, log.logPtr), lbaMap.inodeLbaMap, entries.inodeEntries, natUpdateSet)
    }

    method StrLength(b: seq<byte>, at: nat) returns (n: nat)
      requires at <= |b|
      ensures n == StrLen(b, at)
    {
      n := 0;
      while at + n < |b| && b[at + n] != 0
        invariant at + n <= |b|
        invariant StrLen(b, at) == n + StrLen(b, at + n)
      {
        n := n + 1;
      }
    }

    // Walk over the records of a block until the inode is found.
    method ScanBlock(blk: Sector, ino: u64) returns (entry: Option<NamedEntry>)
      requires |blk| == INODE_BLOCK_SIZE
      ensures entry == FindInode(blk, ino)
    {
      hide DecodeEntry, StrLen;
      var offset := 0;
      while offset < INO_BLK_READ_LIM
        invariant Scan(blk, ino, offset) == Scan(blk, ino, 0)
        decreases INODE_BLOCK_SIZE - offset
      {
        if DecodeEntry(blk, offset).inode == ino {
          var len := StrLength(blk, offset + INODE_ENTRY_SIZE);
          var name := blk[offset + INODE_ENTRY_SIZE..offset + INODE_ENTRY_SIZE + len];
          return Some(NamedEntry(DecodeEntry(blk, offset), name));
        }
        offset := offset + INODE_ENTRY_SIZE;
        var len := StrLength(blk, offset);
        offset := offset + len + 1;
      }
      return None;
    }

    method GetInode(ino: u64) returns (ret: Ret, entry: Option<NamedEntry>)
      requires Ready()
      ensures FsDisk(nvme.disk)
      ensures match LookupOf(State(), ino)
              case NotFound => ret == Enoent && entry == None
              case Failed => ret == RetErr && entry == None
              case Found(e) => ret == RetNone && entry == Some(e)
    {
      hide Stored, FindInode, Complete, LogInv, Keyed, Named;
      InvLog(State());
      var curLba;
      ret, curLba := lbaMap.GetInodeLba(ino);
      if ret != RetNone {
        return Enoent, None;
      }
      ret, entry := entries.GetInodeEntry(ino);
      if ret == RetNone {
        return;
      }
      var zone, sector := LbaZone(nvme.info, curLba.lba), LbaSector(nvme.info, curLba.lba);
      var ok, blk := nvme.Read(zone, sector, 0, INODE_BLOCK_SIZE);
      if !ok {
        return RetErr, None;
      }
      entry := ScanBlock(blk, ino);
      ret := if entry == None then RetErr else RetNone;
    }

    // Flush one block, but only if it can be filled.
    method FlushInodesIfFull() returns (ret: Ret, ghost blk: Sector)
      requires Ready()
      modifies `natUpdateSet, log, lbaMap, entries, nvme`disk, nvme.data, nvme.writePointers
      ensures Ready()
      ensures |blk| == SECTOR_SIZE
      ensures Full(old(InOrder(entries.inodeEntries))) ==> Pack(old(BlockEntries(entries.inodeEntries))) <= blk
      ensures (State(), ret) == FlushInodes(old(State()), blk)
      ensures FlushDone(old(State()), blk, State(), ret)
      ensures SameLookups(old(State()), State())
    {
      hide NvmeZnsMemoryBackend.Valid, Full, Pack, BlockEntries, InOrder, BlockInodes, AppendSector, Moved, LogInv,
           LookupOf, MetaInv,
           FlushInodes, Elems, Keyed, Named, FsDisk, SameLookups, LogGrows, SameOutsideLog, FlushDone,
           Relocated;
      ghost var m := State();
      InvLog(m);
      var full, inodes, blk' := entries.FillInodeBlock(Zeros(INODE_BLOCK_SIZE));
      blk := blk';
      FlushIsDone(m, blk);
      if full != InoBlkFull {
        FlushNotFull(m, blk);
        return RetNone, blk;
      }
      FlushFull(m, blk);
      FlushKeepsEveryInode(m, blk);
      var lba;
      ret, lba := log.LogAppend(blk');
      if ret != RetNone {
        return;
      }
      entries.EraseInodeEntries(inodes);
      lbaMap.UpdateInodeLbaMap(inodes, lba);
      AddNatUpdateSetEntries(inodes);
    }

    method AddNatUpdateSetEntries(inodes: seq<u64>)
      modifies `natUpdateSet
      ensures natUpdateSet == old(natUpdateSet) + Elems(inodes)
    {
      for i := 0 to |inodes|
        invariant natUpdateSet == old(natUpdateSet) + Elems(inodes[..i])
      {
        assert inodes[..i + 1] == inodes[..i] + [inodes[i]];
        ElemsConcat(inodes[..i], [inodes[i]]);
        natUpdateSet := natUpdateSet + {inodes[i]};
      }
      assert inodes[..|inodes|] == inodes;
    }
  }
}
