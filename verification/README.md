# FluffleFS on zoned storage, verified

FluffleFS keeps all of its state on a device whose zones can only be appended to
or reset. This project models the file system as one stack, from the byte array
behind the zones up to reads that are offloaded to a kernel on the device, and
proves what its protocols are for.

- **Device** (`Disk`, `ZnsMemory`). The in-memory backend, a flat byte array with
  a write pointer per zone, refines a disk of zones that are growing sequences
  of sectors. Everything above works on that disk.
- **Layouts** (`Codec`, `InodeBlock`). Little-endian records in sectors and
  their round trips; inode entries with names packed into a sector and found
  again by a scan.
- **Checkpoint log** (`Checkpoints`). Two zones written in turn, and what a scan
  finds wherever the power fails.
- **Random zone** (`NatLog`, `Ring`, `NatFlush`, `Compaction`,
  `CompactionMeaning`, `CompactionRun`, `Rewrite`, `RandomZoneSteps`,
  `RandomZone`). Six zones as a ring of blocks that map inodes to addresses:
  replay, flush, and the rewrite of the full ring in place through a buffer of
  two zones, with its errors on rings that are not in order.
- **Mount** (`Mount`, `InodeNumbers`, `RewriteCrash`). The dirty block, the scan
  for the ring and the rewrite a mount performs before it has read anything;
  what it makes of every ring, and of a device whose power failed inside a
  rewrite.
- **Log and metadata** (`LogZone`, `InodeLba`, `InodeEntries`, `Inodes`,
  `Metadata`, `Remount`, `Isolation`). The append-only log, inode lookup, and a
  state machine over everything that happens to metadata. Whatever ran since the
  format, lookups find the last update of an inode. After a clean unmount a mount
  finds the last update of every flushed inode, except those that a flush on a
  full ring lost, if and only if the ring is not reported full; which inodes are
  lost, and which rings are reported full, is stated exactly.
- **Files** (`FileData`, `FileWrite`, `FileOverlay`, `FileRead`, `FileTruncate`,
  `FileIO`, `FileHistory`).
  Byte ranges split into sectors and indexed by data blocks of 511 addresses;
  whole histories of writes, failed writes and shrinking truncations refine flat
  byte strings.
- **Offload** (`Snapshots`, `Offload`, `Csd`, `Entropy`, `Sessions`,
  `SessionStore`). Snapshots, flattened addresses, the read kernel and the
  histogram kernel, and the lifetime of snapshots against open handles.
- **Lookup counts** (`Nlookup`). A read/write lock with upgrade, as the steps of
  any number of threads.

Methods over classes carry the loops and updates of the source; their contracts
tie them to functions and predicates on values, and the theorems are about
those. Sector size, entries per block and the zone layout are the source's
constants; number of zones, zone size and zone capacity are arbitrary.

## Conventions

- Memory that `malloc` leaves uninitialised is an argument (`junk`), an
  arbitrary array, or an arbitrary tail of a block, and so is the memory behind
  a buffer (`behind`): what is proved holds for every content of it.
- Device errors occur exactly where the in-memory backend reports them. Zone,
  sector and address arithmetic is unbounded; a device is valid when its last
  address fits 64 bits, which bounds every address computed.
- Code under `QEMUCSD_DEBUG` is not modelled. Some of the assumptions such code
  checks appear as preconditions.
- Locks, log output, measurements and the replies of FUSE are left out; the
  result of a call is its return code, and the reply of a read is a value.

## Where the code differs from its documentation or purpose

The model follows the code.

- The range check of the backend excludes the last sector of the device, so
  `log_append` ends in an error where "log full" is documented
  (`LogZone.FullLogIsAnError`).
- The sector count of `write` is wrong for some ranges
  (`FileWrite.NumSectorsExact`, `FileWrite.NumSectorsMiscounts`). One too long,
  the write overwrites the sector behind it (`FileWrite.WritingStray`); one
  short, its last sector is not written (`FileWrite.WritingShort`).
- `write_sector` does not fetch the old sector at offset 0, so bytes behind some
  overwrites are lost (`FileData.OverlayExactlyWhenClean`,
  `FileOverlay.WriteOverlaysExactly`).
- `ftruncate` to a larger size replaces the data block the file ends in
  (`FileTruncate.GrowKeepsDataExactly`). `write` calls it for offsets behind the
  end of the file.
- `flatten_data_blocks` steps to the next block once too often
  (`Offload.FlattenFailsExactly`), so the last stride of a file whose number of
  sectors is a multiple of 511 is never read (`Entropy.StridesMakeTheWhole`).
- `determine_random_ptr` takes one free sector for none unless the ring starts
  at its first zone (`Ring.PointerRecovered`).
- A mount that finds the ring full rewrites it before it has read any inode, and so
  empties it (`Mount.MountExactly`). When the ring only seemed full, because one
  sector was free, that rewrite fails in its last round and the mount with it,
  behind four zones that are gone (`Rewrite.EmptyRewriteOfOneFree`).
- A mount takes zone and sector of its positions from the checkpoint but no size. The
  pointer of a mounted file system is therefore not valid, although an invalid
  pointer is documented to mean a full random zone, until the first rewrite makes
  it valid (`Mount.MountExactly`, `Isolation.FreshInv`).
- A mount writes the dirty block before anything else and only an unmount removes it,
  so after a crash, and after a mount that failed, every mount is refused
  (`Mount.DirtyIsRefused`).
- The search for a free inode number at mount steps past an inode only when it is
  above the number found so far, so the first inode created after a mount can take
  the number of another one (`InodeNumbers.FreeInodeExactly`).
- On a full ring `update_nat_blocks` takes a block of inodes out of the set before it
  fails to write them, and `fsync` does not notice (`NatFlush.FlushOnFullRing`,
  `Metadata.FullFlushForgets`).
- A name of the documented maximal length passes the check of `create` but never
  fits into a block (`InodeBlock.FirstFits`).
- The flags of `setxattr` are checked the wrong way round
  (`Sessions.FlagsAreInverted`), and an event kernel that comes first keeps the
  file from being snapshotted until its owner has closed it
  (`Sessions.FirstKernelDecides`).
- After a power loss between the two steps of a checkpoint update nothing makes
  up for the missing reset: later checkpoints are lost, and updates fail for
  good once the zone is full (`Checkpoints.UpdatesAfterCut`).
- `inode_nlookup_decrement` is documented as thread safe, but two threads that
  decrement one inode at once must leave something of its count
  (`Nlookup.TwoDecrementsDangle`).
- A rewrite keeps a copy of the zones it evacuates in the buffer, but a mount never
  reads it: a power cut inside a round hides inodes (`RewriteCrash.MountInsideRound`).

## Model

| member | source | states |
|---|---|---|
| `ZnsMemory.NvmeZnsMemoryBackend.constructor` | opencsd/nvme_zns/memory_backend/src/nvme_zns_memory.cxx:33-64 | a new device is empty, with half of each zone as its capacity |
| `ZnsMemory.NvmeZnsMemoryBackend.Read` | opencsd/nvme_zns/memory_backend/src/nvme_zns_memory.cxx:90-111 | a read succeeds exactly when it is in range and below the write pointer, and returns those bytes of that sector; a whole sector is readable exactly when it is written and not the last of the device |
| `ZnsMemory.NvmeZnsMemoryBackend.Append` | opencsd/nvme_zns/memory_backend/src/nvme_zns_memory.cxx:113-153 | the zone grows by exactly the sectors the bytes fill, the offset padded with zeros, and no other zone changes; it fails without a trace exactly when it does not fit or reaches the last device sector |
| `ZnsMemory.NvmeZnsMemoryBackend.Reset` | opencsd/nvme_zns/memory_backend/src/nvme_zns_memory.cxx:155-170 | the zone becomes empty and no other zone changes |
| `ZnsMemory.WholeSectorInRange` | opencsd/nvme_zns/src/nvme_zns_backend.cxx:55-72 | a whole sector is in range exactly when it is not the last sector of the device |
| `ZnsMemory.AddrBelow` | opencsd/nvme_zns/memory_backend/src/nvme_zns_memory.cxx:76-84 | no byte of a sector has an address inside a later sector |
| `Disk.LbaRoundTrip` | opencsd/fuse_lfs/src/flfs.cxx:164-179 | an address decodes to the zone and sector it was made from |
| `Disk.LbaMonotone` | opencsd/nvme_zns/src/nvme_zns_backend.cxx:49-53 | addresses grow with the position on the device |
| `Codec.CheckpointRoundTrip` | opencsd/fuse_lfs/include/flfs_disc.hpp:91-96 | a checkpoint is read back from its sector as it was written |
| `Codec.NatRoundTrip` | opencsd/fuse_lfs/include/flfs_disc.hpp:132-139 | a NAT block is read back from its sector as it was written |
| `Checkpoints.UpdateTracks` | opencsd/fuse_lfs/src/flfs.cxx:278-319 | an update appends behind the newest checkpoint or into the other zone, leaves one non-empty checkpoint zone whose last sector is the new checkpoint, and touches no other zone |
| `Checkpoints.NewestAfterUpdates` | opencsd/fuse_lfs/src/flfs.cxx:278-319 | after any number of updates a scan finds the last one |
| `Checkpoints.CrashSafety` | opencsd/fuse_lfs/src/flfs.cxx:346-400 | after any history, with power failing before or after either device step of one more update, a scan finds the new checkpoint if its append happened and the previous one otherwise (zones of two sectors or more) |
| `Checkpoints.CutBetweenSteps` | opencsd/fuse_lfs/src/flfs.cxx:346-400 | between append and reset the scan finds the new checkpoint if and only if zones hold two sectors or the log moves forward |
| `Checkpoints.RestartAfterCut` | opencsd/fuse_lfs/src/flfs.cxx:364-387 | a restart from a cut between append and reset of a zone change finds the new checkpoint, with the zone left behind still full |
| `Checkpoints.UnfinishedLocated` | opencsd/fuse_lfs/src/flfs.cxx:364-387 | after a restart from such a cut, the remembered checkpoint is found if and only if the scan does not meet the zone that was never reset; if not, the first one of the second zone is |
| `Checkpoints.SecondUpdateIsLost` | opencsd/fuse_lfs/src/flfs.cxx:278-319 | a second update after a forward cut is not found: the scan returns the older checkpoint |
| `Checkpoints.UnfinishedUpdate` | opencsd/fuse_lfs/src/flfs.cxx:278-319 | an update on such a log appends to the zone in use and never resets the other; it fails, without a trace, if and only if the zone in use is full |
| `Checkpoints.UpdatesAfterCut` | opencsd/fuse_lfs/src/flfs.cxx:278-400 | however many updates follow such a cut and restart: after a forward cut the scan always returns the checkpoint of the cut; after a wrap-around it returns the newest one until its zone is full, and then the oldest one of the zone left full; every update fails from then on |
| `RandomZone.RandomZone.Mkfs` | opencsd/fuse_lfs/src/flfs.cxx:227-271 | all zones are reset, then exactly the super block and the first checkpoint are written |
| `RandomZone.RandomZone.UpdateCheckpointBlock` | opencsd/fuse_lfs/src/flfs.cxx:278-319 | from any position of a checkpoint, whatever the other zone holds, the method performs or refuses one update as specified; on a log in order it always succeeds; without a valid position nothing happens |
| `RandomZone.RandomZone.GetCheckpointBlockLocate` | opencsd/fuse_lfs/src/flfs.cxx:346-400 | the scan returns the located checkpoint and remembers its position, or fails exactly when there is none |
| `RandomZone.RandomZone.GetCheckpointBlock` | opencsd/fuse_lfs/src/flfs.cxx:326-338 | the remembered position is read as it is; on a log in order it and a scan of the device lead to the same checkpoint |
| `Ring.AppendBlockStep` | opencsd/fuse_lfs/src/flfs.cxx:583-636 | one append puts the block behind all others, keeps the pointer at the first free sector, and reports full exactly when no sector is left |
| `Ring.AppendAllRun` | opencsd/fuse_lfs/src/flfs.cxx:583-636 | a run of appends stores its blocks in order up to the capacity of the ring |
| `Ring.PointerRecovered` | opencsd/fuse_lfs/src/flfs.cxx:419-469 | the scan at mount finds the tracked pointer if and only if not (the ring starts behind its first zone and exactly one sector is free) |
| `Ring.RingPointerAgreement` | opencsd/fuse_lfs/src/flfs.cxx:419-469 | every run of appends from an empty ring, from any start zone: one segment with exactly the blocks, full reported on the append that fills it, and the pointer found again but for that one case |
| `RandomZone.RandomZone.AppendRandomBlock` | opencsd/fuse_lfs/src/flfs.cxx:583-636 | the method performs one append to the ring; a none block is refused |
| `RandomZone.RandomZone.DetermineRandomPtr` | opencsd/fuse_lfs/src/flfs.cxx:419-469 | the scanning loop ends where the ring specification says, wrap-around included |
| `NatLog.ReplayConcat` | opencsd/fuse_lfs/src/flfs.cxx:490-537 | later blocks override earlier ones in the replay |
| `RandomZone.RandomZone.ReadRandomZone` | opencsd/fuse_lfs/src/flfs.cxx:490-537 | the mount enters exactly the replay of the readable ring into the map, last entry wins, and known inodes keep their parents |
| `NatFlush.ReadableIsContents` | opencsd/fuse_lfs/src/flfs.cxx:490-537 | what the mount can read from the start of the ring is its whole contents |
| `NatLog.BlocksForMeaning` | opencsd/fuse_lfs/src/flfs.cxx:544-572 | the blocks filled from a set replay to exactly the current addresses of the set |
| `NatLog.BlocksForCount` | opencsd/fuse_lfs/src/flfs.cxx:642-649 | a set needs exactly as many blocks as it is estimated to need |
| `NatFlush.FlushSplits` | opencsd/fuse_lfs/src/flfs.cxx:544-572 | entries taken for blocks and entries left in the set are disjoint and together the set |
| `NatFlush.NatFlushRoundTrip` | opencsd/fuse_lfs/src/flfs.cxx:657-676 | with room, ceil(n/255) blocks are appended and the replay is overridden by the current addresses of the set; without, the ring is full, the written entries override, and written and left entries are the original set; full is reported if and only if room runs out |
| `NatFlush.FlushUsesRing` | opencsd/fuse_lfs/src/flfs.cxx:657-676 | the flush succeeds if and only if ceil(n/255) is below the free sectors; else the first blocks fill the ring, and the inodes of the others are left |
| `NatFlush.FlushOnFullRing` | opencsd/fuse_lfs/src/flfs.cxx:657-676 | on a full ring the flush writes nothing, fails unless the set is empty, and the inodes of its first block are gone from the set |
| `Mount.ReportsFullExactly` | opencsd/fuse_lfs/src/flfs.cxx:419-469 | the scan at mount reports a ring full if and only if it is, or it has a single free sector and does not start at its first zone |
| `NatLog.PackedMentions` | opencsd/fuse_lfs/src/flfs.cxx:490-572 | in blocks written by this file system every mentioned inode is one the replay knows |
| `RandomZone.RandomZone.FillNatBlock` | opencsd/fuse_lfs/src/flfs.cxx:544-572 | a block takes the smallest inodes of the set in order with their addresses, and exactly those leave the set |
| `RandomZone.RandomZone.UpdateNatBlocks` | opencsd/fuse_lfs/src/flfs.cxx:657-676 | the loop performs the specified flush from any pointer on the device, including what it leaves in the set when the ring fills up |
| `RandomZone.RandomZone.ComputeNatBlocks` | opencsd/fuse_lfs/src/flfs.cxx:642-649 | the estimate is the fewest blocks that have room for the set, at 255 entries a block |
| `Compaction.EvacuatedRing` | opencsd/fuse_lfs/src/flfs.cxx:843-853 | evacuating the first two zones takes exactly their blocks from the front of the ring and frees two zones at its end |
| `Compaction.NewBlocksFit` | opencsd/fuse_lfs/src/flfs.cxx:882-890 | the space accounting of a round never underflows: what two zones mention fits into two zones |
| `Compaction.CompactStepOutcome` | opencsd/fuse_lfs/src/flfs.cxx:843-912 | one round keeps the invariant, drops the first two zones, appends one entry for each pending inode found in them, and touches no zone outside the metadata |
| `CompactionMeaning.ProgressStep` | opencsd/fuse_lfs/src/flfs.cxx:831-921 | after each round the added blocks carry every live inode met so far exactly once with its current address |
| `CompactionRun.SafeAtEveryBoundary` | opencsd/fuse_lfs/src/flfs.cxx:843-912 | after each round the newest checkpoint on the device names the start of the ring, the buffer is empty, and every live inode of the old replay has its old or its current address |
| `CompactionRun.CompactionPreservesMeaning` | opencsd/fuse_lfs/src/flfs.cxx:831-921 | a whole rewrite of any full ring: same start, replay equal to the current addresses of the inodes the old ring mentioned, each written exactly once, in exactly as many blocks as the inodes first mentioned by each of its three parts take, at most ceil(live/255)+2, and a full ring exactly when that is all its sectors |
| `RewriteCrash.MountInsideRound` | opencsd/fuse_lfs/src/flfs.cxx:843-912 | when power fails inside a round the ring on the device gives everything while zones are copied; nothing between the first reset and the checkpoint; with the checkpoint appended, what was not evacuated, if and only if the scan finds it; and from then on also the new blocks that were written. No mount succeeds while the dirty block is there; without it a mount gives exactly that, and fails exactly when the ring is reported full |
| `RewriteCrash.HiddenExactly` | opencsd/fuse_lfs/src/flfs.cxx:843-912 | such a cut behind the checkpoint hides exactly the inodes whose entries were all evacuated and whose new entry is not written yet, unless the ring is reported full and the mount fails |
| `CompactionMeaning.CompactedReplay` | opencsd/fuse_lfs/src/flfs.cxx:831-921 | on blocks this file system wrote, the replay after a rewrite is the old one with every address made current |
| `Rewrite.CopyPairExactly` | opencsd/fuse_lfs/src/flfs.cxx:682-717 | two zones of the ring are copied if and only if both are full and the buffer is empty |
| `Rewrite.CopyPairLimited` | opencsd/fuse_lfs/src/flfs.cxx:682-717 | with a limit in one of the two zones, when the copy succeeds, and that it is everything in front of the limit |
| `RandomZone.RandomZone.BufferRandomBlocks` | opencsd/fuse_lfs/src/flfs.cxx:682-717 | zones outside the ring are refused; of any two others exactly as much is copied as specified, up to the limit, the first unreadable sector or the first that does not land where it came from; nothing but the buffer changes |
| `RandomZone.RandomZone.ProcessRandomBuffer` | opencsd/fuse_lfs/src/flfs.cxx:725-763 | exactly the pending inodes mentioned in the buffer move from the map to the set; an error exactly when a buffer zone is not full |
| `RandomZone.RandomZone.EraseRandomBuffer` | opencsd/fuse_lfs/src/flfs.cxx:769-775 | both buffer zones are emptied |
| `RandomZone.RandomZone.RewriteRound` | opencsd/fuse_lfs/src/flfs.cxx:843-912 | the statements of one round perform the specified round on any random zone, errors included |
| `Rewrite.TryIsRounds` | opencsd/fuse_lfs/src/flfs.cxx:831-921 | on a full ring, as on any with enough full zones, no round fails: the rewrite with its errors comes to the rounds of the compaction, and insufficient space is reported exactly when the pointer comes out invalid |
| `Rewrite.EmptyRewriteOfFull` | opencsd/fuse_lfs/src/flfs_init.cxx:77-83 | a rewrite of a full ring that knows no inode succeeds and leaves the ring empty, at the same start |
| `Rewrite.EmptyRewriteOfOneFree` | opencsd/fuse_lfs/src/flfs_init.cxx:77-83 | a rewrite of a ring with one free sector that knows no inode fails in its third round: the ring starts two pairs further on, on the device too, the contents of four zones are gone, and the buffer stays in use |
| `Rewrite.RewriteNamesLog` | opencsd/fuse_lfs/src/flfs.cxx:831-921 | rounds that succeed leave the start of the log they were given in the checkpoint, and any number of rounds, failed ones too, keep it there |
| `RandomZone.RandomZone.RewriteRandomBlocksFull` | opencsd/fuse_lfs/src/flfs.cxx:831-921 | the three rounds are performed as specified on any random zone, errors included; on a full ring they are the step of the runs, with the outcome above, and insufficient space is reported exactly when every sector of the ring was rewritten; unless there is an error the checkpoint names the start of the log that memory has |
| `RandomZone.RandomZone.RewriteRandomBlocks` | opencsd/fuse_lfs/src/flfs.cxx:783-807 | with an invalid pointer away from the start of the ring the rewrite above is performed, whatever the ring holds; otherwise nothing happens |
| `RandomZone.RandomZone.SyncNatBlocks` | opencsd/fuse_lfs/src/flfs.cxx:2362-2373 | on a ring with room, writing the set, with a rewrite when the ring fills up, loses no address the ring knew; it succeeds if and only if the ring is not full afterwards, the ring then knows the current address of the whole set, and its number of blocks is stated: in particular it succeeds whenever ceil(n/255) is below the free sectors, and when ceil(live/255) + 2 + ceil(n/255) is below the capacity of the ring; on a full ring it reports success, changes nothing on the device, and the inodes of one block are gone from the set |
| `RandomZoneSteps.SyncedFits` | opencsd/fuse_lfs/src/flfs.cxx:2362-2373 | the set gets into the ring, with a rewrite if need be, whenever all inodes that it and the ring know take few enough blocks |
| `LogZone.AppendSectorStep` | opencsd/fuse_lfs/src/flfs.cxx:981-998 | an append succeeds exactly while a sector before the last of the device is free, returns the address of a fresh sector holding the data, and otherwise changes nothing |
| `LogZone.LogLinearity` | opencsd/fuse_lfs/src/flfs.cxx:981-998 | over any run of appends the addresses strictly increase, each decodes to its data, and the run ends with an error at the last device sector, never with "log full" |
| `LogZone.FullLogIsAnError` | opencsd/fuse_lfs/src/flfs.cxx:928-942 | the documented result "log full" is never returned: where it would be due the append is an error |
| `LogZone.AdvanceIsNext` | opencsd/fuse_lfs/src/flfs.cxx:928-942 | no sector of the device lies between the pointer and the one it moves to, the address grows, and the result is log full, with an invalid pointer, if and only if no sector of the device lies behind |
| `LogZone.LogPtrRecovered` | opencsd/fuse_lfs/src/flfs.cxx:948-963 | after any run of appends, exhausted or not, the scan at mount arrives at the same pointer |
| `LogZone.GrowsKeeps` | opencsd/fuse_lfs/src/flfs.cxx:981-998 | what an address of the log denotes never changes while the log grows |
| `LogZone.LogZone.LogAppend` | opencsd/fuse_lfs/src/flfs.cxx:981-998 | the method performs the specified append; other lengths than a sector are refused |
| `LogZone.LogZone.AdvanceLogPtr` | opencsd/fuse_lfs/src/flfs.cxx:928-942 | the next sector in log order, none left out and none used twice; the pointer becomes invalid, and log full is returned, exactly when there is no next sector |
| `LogZone.LogZone.DetermineLogPtr` | opencsd/fuse_lfs/src/flfs.cxx:948-963 | the loop ends at the first unreadable log position and always terminates |
| `InodeBlock.EntryRoundTrip` | opencsd/fuse_lfs/include/flfs_disc.hpp:185-193 | an inode entry is read back from its 33 bytes as it was written |
| `InodeBlock.LongestPrefix` | opencsd/fuse_lfs/src/concurrent_datastructures/flfs_inode_entry.cxx:105-120 | a block takes the longest run of entries from the front that fits |
| `InodeBlock.FullExactly` | opencsd/fuse_lfs/src/concurrent_datastructures/flfs_inode_entry.cxx:91-134 | a block is reported full if and only if the records of all entries leave no room for a further entry |
| `InodeBlock.FirstFits` | opencsd/fuse_lfs/include/flfs_disc.hpp:197-199 | the first entry fits if and only if its name is shorter than the documented maximum: a name of that length never fits |
| `InodeBlock.PackedFound` | opencsd/fuse_lfs/src/flfs.cxx:1203-1224 | whatever bytes follow, every packed entry is found with exactly its entry and name |
| `InodeEntries.BlockHoldsInodes` | opencsd/fuse_lfs/src/concurrent_datastructures/flfs_inode_entry.cxx:91-134 | every inode listed for a block can be read back from it |
| `InodeEntries.InodeEntries.FillInodeBlock` | opencsd/fuse_lfs/src/concurrent_datastructures/flfs_inode_entry.cxx:91-134 | full is reported if and only if the next entry or a nameless one does not fit; only then the block starts with the packed prefix in inode order, and exactly its inodes are listed |
| `InodeEntries.InodeEntries.GetInodeEntry` | opencsd/fuse_lfs/src/concurrent_datastructures/flfs_inode_entry.cxx:42-54 | the entry in memory, if there is one |
| `InodeEntries.InodeEntries.UpdateInodeEntry` | opencsd/fuse_lfs/src/concurrent_datastructures/flfs_inode_entry.cxx:61-68 | the entry is filed under its own inode, no other changes |
| `InodeEntries.InodeEntries.EraseInodeEntries` | opencsd/fuse_lfs/src/concurrent_datastructures/flfs_inode_entry.cxx:74-81 | exactly the listed inodes leave |
| `InodeLba.InodeLbaMap.GetInodeLba` | opencsd/fuse_lfs/src/concurrent_datastructures/flfs_inode_lba.cxx:50-65 | the address of a known inode, or not found |
| `InodeLba.InodeLbaMap.UpdateInodeLba` | opencsd/fuse_lfs/src/concurrent_datastructures/flfs_inode_lba.cxx:100-122 | one inode gets a new parent and address |
| `InodeLba.InodeLbaMap.UpdateInodeLbaMap` | opencsd/fuse_lfs/src/concurrent_datastructures/flfs_inode_lba.cxx:128-154 | exactly the listed inodes get the address and keep their parents |
| `Inodes.Inodes.GetInode` | opencsd/fuse_lfs/src/flfs.cxx:1181-1229 | the entry in memory, or else the one found by scanning the block its address leads to |
| `Inodes.FlushKeepsEveryInode` | opencsd/fuse_lfs/src/flfs.cxx:1305-1323 | flushing a block changes no lookup of any inode; the packed inodes are on the device and noted for the random zone |
| `Inodes.FlushIsDone` | opencsd/fuse_lfs/src/flfs.cxx:1305-1323 | nothing happens while the entries leave room for another one, nothing but an error at the end of the log, and else exactly the inodes that fit are in the next sector of the log, have it as their address, left memory and are in the set |
| `Inodes.Inodes.FlushInodesIfFull` | opencsd/fuse_lfs/src/flfs.cxx:1305-1323 | the method performs that flush, only when a block can be filled, with exactly the effect just stated |
| `Metadata.StepKeeps` | opencsd/fuse_lfs/src/flfs.cxx:1237-1323 | every operation on the metadata, flushes on a full ring included, keeps its invariant, takes nothing from the log, changes no lookup but that of the inode it updates, and changes the set of lost inodes exactly as said |
| `Metadata.StepAchieves` | opencsd/fuse_lfs/src/flfs.cxx:1237-1323 | a log write stores its data in the next sector, a flush of inodes has its effect whenever a block can be filled, and a flush of the set empties it exactly while there is room and fills the ring otherwise |
| `Metadata.FlushStaysDurableExactly` | opencsd/fuse_lfs/src/flfs.cxx:657-676 | a flush of the set keeps every flushed inode durable if and only if the ring is not full, or it already gives the inodes of the next block their current address |
| `Metadata.FullFlushForgets` | opencsd/fuse_lfs/src/flfs.cxx:657-676 | on a full ring, an inode of the next block that the ring does not mention is found in memory, waits for no further flush, and the ring does not lead to it |
| `Metadata.RewriteMakesCurrent` | opencsd/fuse_lfs/src/flfs.cxx:831-921 | a rewrite in any reachable state: the ring gives exactly the inodes it gave before, as far as they exist, each with its current address |
| `Metadata.LastUpdateIsFound` | opencsd/fuse_lfs/src/flfs.cxx:1181-1229 | over every run a lookup finds the last update of the inode; flushes, log writes and rewrites are invisible |
| `Metadata.LostOverRuns` | opencsd/fuse_lfs/src/flfs.cxx:657-676 | the inodes lost after a run are those flushes on a full ring took, less those packed again or made current by a rewrite |
| `Metadata.CarefulStaysDurable` | opencsd/fuse_lfs/src/flfs.cxx:657-676 | a run in which no flush takes from the set, on a full ring, what the ring does not know loses nothing |
| `Metadata.RingKnowsExactly` | opencsd/fuse_lfs/src/flfs.cxx:490-537 | for a flushed inode that waits for no flush, the ring on the device gives its current address if and only if it is not lost |
| `Metadata.FoundInRing` | opencsd/fuse_lfs/src/flfs.cxx:346-400 | located checkpoint, ring replay and block scan alone lead to every flushed inode that is not lost exactly as it was |
| `Metadata.StoppedRewriteKnows` | opencsd/fuse_lfs/src/flfs.cxx:843-912 | when a rewrite stops after any of its rounds the ring still gives the current address of every such inode |
| `Mount.MountExactly` | opencsd/fuse_lfs/src/flfs_init.cxx:55-95 | a mount of a device whose random zone is in order leaves it dirty and the log as it was; it keeps a ring that is not reported full and finds its pointer, which is not valid; it empties a full one; and it fails on one that is reported full with a free sector, of which two zones are left |
| `Mount.MountGivesRingExactly` | opencsd/fuse_lfs/src/flfs_init.cxx:76-95 | a mount gives what the ring on the device gives if and only if the scan does not report it full, or it is full and gives nothing |
| `Mount.MountOfAnyRing` | opencsd/fuse_lfs/src/flfs_init.cxx:76-95 | whatever else the device holds, a ring that is not reported full is read as it is, and a mount fails on one that is while the buffer is in use |
| `Mount.MountKeepsLogStart` | opencsd/fuse_lfs/src/flfs_init.cxx:55-95 | a mount, successful or not, leaves the start of the log in the checkpoint |
| `RandomZone.RandomZone.VerifyDirtyblock` | opencsd/fuse_lfs/src/flfs_dirtyblock.cxx:34-44 | an error exactly when the dirty block is readable and says so |
| `RandomZone.RandomZone.WriteDirtyblock` | opencsd/fuse_lfs/src/flfs_dirtyblock.cxx:52-67 | the dirty block is appended to its zone, which is an error unless the zone was empty |
| `RandomZone.RandomZone.RemoveDirtyblock` | opencsd/fuse_lfs/src/flfs_dirtyblock.cxx:73-78 | the zone of the dirty block is emptied |
| `RandomZone.RandomZone.FindOrRecover` | opencsd/fuse_lfs/src/flfs_init.cxx:76-87 | the pointer is found, or the ring is rewritten first, exactly as specified, errors included |
| `RandomZone.RandomZone.RunInit` | opencsd/fuse_lfs/src/flfs_init.cxx:55-95 | from any device whose newest checkpoint names a ring, the mount ends in the specified state and result, with exactly the addresses it is said to give, and with the start of the log its checkpoint names |
| `InodeNumbers.FreeInodeExactly` | opencsd/fuse_lfs/src/flfs_init.cxx:97-101 | the number a mount hands out first is free if and only if the inodes without a gap that end with the highest one are odd in number, or there is none above 2 and 2 is free |
| `InodeNumbers.LaterInodesAreFree` | opencsd/fuse_lfs/src/flfs_init.cxx:97-101 | every number handed out after it is free |
| `InodeNumbers.DetermineInoPtr` | opencsd/fuse_lfs/src/flfs_init.cxx:97-101 | the loop over the inodes ends with that number |
| `Remount.HonestRun` | opencsd/fuse_lfs/src/flfs.cxx:544-572 | over every run, each address the ring gives leads to a block that holds the inode, and belongs to an inode that has an address in memory |
| `Remount.RemountExactly` | opencsd/fuse_lfs/src/flfs_init.cxx:55-104 | a clean unmount and a mount fail if and only if the ring is reported full with a free sector; otherwise they lead to a state with the invariant of the metadata and nothing lost, whose memory holds exactly what the ring gave, or nothing if it was full |
| `Remount.MountKnowsExactly` | opencsd/fuse_lfs/src/flfs_init.cxx:76-95 | for a flushed inode that waits for no flush, the mount has its current address if and only if the ring is not reported full and the inode is not lost |
| `Remount.SurvivesMount` | opencsd/fuse_lfs/src/flfs_init.cxx:55-95 | an inode that is flushed, waits for no flush and is not lost is found after a clean unmount and a mount as it was flushed if and only if the ring is not reported full; otherwise it is not found |
| `Remount.RunSurvivesMount` | opencsd/fuse_lfs/src/flfs_init.cxx:55-95 | after any run a clean unmount and a mount find the last update of each inode that is completely flushed and was not lost, if and only if the run did not leave a ring that is reported full |
| `Remount.StoppedRewriteSurvivesMount` | opencsd/fuse_lfs/src/flfs.cxx:843-912 | the same when a rewrite stops after any of its rounds |
| `Remount.LastUpdateOfALifetime` | opencsd/fuse_lfs/src/flfs_init.cxx:55-104 | over every sequence of runs with clean unmounts and mounts in between, a lookup finds the last update of the inode in all of them, as long as at every unmount it is settled and the ring is not reported full |
| `Isolation.FreshInv` | opencsd/fuse_lfs/src/flfs.cxx:227-271 | the mount of a freshly formatted device succeeds, with an empty ring, nothing known, and a pointer that is right but not valid |
| `Isolation.MountAfterAnyRun` | opencsd/fuse_lfs/src/flfs.cxx:227-271 | from format through any run to a clean unmount and a mount: the last update of every completely flushed inode that was not lost is found, if and only if the run did not leave a ring that is reported full |
| `Isolation.MountAfterCarefulRun` | opencsd/fuse_lfs/src/flfs.cxx:227-271 | the same for every completely flushed inode, when no flush takes from the set, on a full ring, what the ring does not know |
| `Isolation.LifetimeFromFormat` | opencsd/fuse_lfs/src/flfs_init.cxx:55-104 | from format through any sequence of runs, unmounts and mounts: the last update of every inode that was settled at each unmount is found |
| `Isolation.MetadataStepIsEvent` | opencsd/fuse_lfs/src/flfs.cxx:1237-1323 | every operation on the metadata leaves the files of a history alone; creating an inode adds an empty file |
| `FileWrite.NumSectorsExact` | opencsd/fuse_lfs/src/flfs.cxx:2261-2264 | the sector count of a write is right if and only if off % (4096 + size) > 4096 agrees with off % 4096 + size % 4096 >= 4096; one too many, and one too few, exactly when only the one or only the other holds |
| `FileWrite.NumSectorsOffByOne` | opencsd/fuse_lfs/src/flfs.cxx:2261-2264 | the sector count is never off by more than one, and in which direction |
| `FileWrite.NumSectorsMiscounts` | opencsd/fuse_lfs/src/flfs.cxx:2261-2264 | a write of 200 bytes at 4000 is counted one sector short, one of 8192 bytes at 8192 one too long |
| `FileWrite.AppendsNewSector` | opencsd/fuse_lfs/src/flfs_write.cxx:35-65 | each sector appended holds the new bytes, around them the old sector when it is entered behind its first byte, and otherwise whatever memory held |
| `FileWrite.WritingDone` | opencsd/fuse_lfs/src/flfs_write.cxx:89-145 | with the right count a write replaces exactly the sectors it touches and keeps every other address |
| `FileWrite.WritingStray` | opencsd/fuse_lfs/src/flfs_write.cxx:89-145 | counted one too long, a write replaces the sectors it touches and the one behind them, which gets the memory behind the data |
| `FileWrite.StrayBehindEnd` | opencsd/fuse_lfs/src/flfs_write.cxx:89-145 | counted one too long, a write that reaches the last sector of the file is as good as a right one |
| `FileWrite.WritingShort` | opencsd/fuse_lfs/src/flfs_write.cxx:89-145 | counted one short, a write leaves its last sector as it was, while the size grows as if it had been written; a new last sector gets no address |
| `FileWrite.WritingTorn` | opencsd/fuse_lfs/src/flfs_write.cxx:89-114 | a write that runs out of room after i sectors has replaced exactly the sectors in the data blocks it had filled, and the size is the old one |
| `FileData.CleanWriteOverlays` | opencsd/fuse_lfs/src/flfs_write.cxx:35-147 | a clean write lays its bytes over the flat file, whatever memory held |
| `FileData.OverlayExactlyWhenClean` | opencsd/fuse_lfs/src/flfs_write.cxx:43-51 | for all contents of memory a write overlays the file if and only if it reaches the end, ends on a sector boundary, or starts inside a sector and stays in it |
| `FileData.TornOverlays` | opencsd/fuse_lfs/src/flfs_write.cxx:89-114 | a failed write lays a prefix of its data over the flat file, up to the end of a data block or of the data and cut at the old size, whatever memory held |
| `FileData.TornExactlyWhenClean` | opencsd/fuse_lfs/src/flfs_write.cxx:89-114 | for all contents of memory a failed write does so if and only if its last sector is not in a data block that was filled, or the write is clean |
| `FileOverlay.WriteOverlaysExactly` | opencsd/fuse_lfs/src/flfs.cxx:2252-2276 | for an offset, a length and a size, a successful write overlays the flat file for every file, all data and all contents of memory if and only if its sectors are counted right, or one too long with nothing of the file behind, and it is clean; all of it stated in the three numbers |
| `FileOverlay.OutcomeSectors` | opencsd/fuse_lfs/src/flfs_write.cxx:89-145 | the sectors of the file behind a successful write, whatever its count |
| `FileData.FileKept` | opencsd/fuse_lfs/src/flfs_write.cxx:67-147 | no later append changes a file that it does not belong to |
| `FileHistory.ReadAfterWrite` | opencsd/fuse_lfs/src/flfs_read.cxx:63-161 | after every history of writes to any files, failed ones included, shrinking truncations and other appends each file holds what the same history makes of flat files |
| `FileHistory.ReadReturnsFlatFile` | opencsd/fuse_lfs/src/flfs_read.cxx:63-161 | the reply to a read of any range is that range of the flat file, cut at its end, or empty for none of it, after every history that leads to the state |
| `FileHistory.FlushIsElsewhere` | opencsd/fuse_lfs/src/flfs.cxx:1305-1323 | flushing inodes to the log is an event that leaves all files of a history alone |
| `FileIO.FileIO.AssignDataBlock` | opencsd/fuse_lfs/src/flfs.cxx:1024-1037 | exactly one block of one inode is replaced |
| `FileIO.FileIO.GetDataBlock` | opencsd/fuse_lfs/src/flfs.cxx:1044-1111 | the block in memory, or else the one at the end of the chain of links on the device; for unknown inodes the error of the lookup |
| `FileRead.LinkedBlockExactly` | opencsd/fuse_lfs/src/flfs.cxx:1044-1111 | the block at the end of a chain of n links, if and only if all of its sectors are readable |
| `FileIO.FileIO.WriteSector` | opencsd/fuse_lfs/src/flfs_write.cxx:35-65 | the specified sector goes to the log, with errors for too long data and unreadable old sectors |
| `FileIO.FileIO.WriteData` | opencsd/fuse_lfs/src/flfs_write.cxx:89-142 | the sector loop performs the write for any count of sectors, over any number of data blocks, leaves other files alone, and when the log runs out leaves its own file as a failed write does |
| `FileIO.FileIO.WriteRegular` | opencsd/fuse_lfs/src/flfs_write.cxx:67-147 | a write succeeds exactly when the inode is found and the log has room for its sectors; it changes one file and the size in its entry, no other lookup and no other file, and is an event of every history, whether it succeeds or fails |
| `FileIO.FileIO.Write` | opencsd/fuse_lfs/src/flfs.cxx:2252-2276 | the counted and positioned write, append mode included, has that effect for every range that starts inside the file, also where the count is wrong; the count, and when it overlays the flat file, are stated in offset, length and size |
| `FileIO.FileIO.ReadRegular` | opencsd/fuse_lfs/src/flfs_read.cxx:63-161 | the reply is the bytes of the file from the offset to the end of the range or of the file, and empty if there are none; and those of the flat file after every history |
| `FileIO.FileIO.Ftruncate` | opencsd/fuse_lfs/src/flfs.cxx:1435-1472 | the size changes; growing enters empty blocks exactly for the numbers from the block the file ends in to the last one the new size needs in whole sectors, all others stay; shrinking is an event of every history |
| `FileTruncate.ShrinkCuts` | opencsd/fuse_lfs/src/flfs.cxx:1445-1448 | shrinking cuts the flat file and nothing else |
| `FileTruncate.GrowKeepsDataExactly` | opencsd/fuse_lfs/src/flfs.cxx:1449-1464 | growing keeps the addresses of the file if and only if the whole sectors of the new size do not reach the block the file ends in, or the file ends on the boundary of a block |
| `FileTruncate.GrowLosesFirstSector` | opencsd/fuse_lfs/src/flfs.cxx:1449-1464 | a file of one sector made to take two loses its only address |
| `Snapshots.SnapshotReadsLikeFile` | opencsd/fuse_lfs/src/concurrent_datastructures/flfs_snapshot.cxx:137-155 | a snapshot holds exactly the blocks with sectors of the file and reads like the file |
| `Snapshots.SnapshotStore.CreateSnapshot` | opencsd/fuse_lfs/src/concurrent_datastructures/flfs_snapshot.cxx:137-155 | the copying loop makes that snapshot, of an inode other than 0; an unknown inode is an error |
| `Snapshots.SnapshotStore.InstallKernel` | opencsd/fuse_lfs/src/concurrent_datastructures/flfs_snapshot.cxx:45-93 | a first stream kernel also snapshots the file; on an existing snapshot only the kernel changes |
| `Snapshots.SnapshotStore.UpdateSnapshot` | opencsd/fuse_lfs/src/concurrent_datastructures/flfs_snapshot.cxx:102-129 | exactly one part of one snapshot is replaced |
| `Snapshots.SnapshotStore.HasSnapshot` | opencsd/fuse_lfs/src/concurrent_datastructures/flfs_snapshot.cxx:162-187 | a part exists if and only if its inode is not 0 |
| `Snapshots.SnapshotStore.GetSnapshot` | opencsd/fuse_lfs/src/concurrent_datastructures/flfs_snapshot.cxx:213-232 | the asked part of the snapshots of a context |
| `Snapshots.SnapshotStore.DeleteSnapshot` | opencsd/fuse_lfs/src/concurrent_datastructures/flfs_snapshot.cxx:239-250 | exactly one context loses its snapshots |
| `Snapshots.SnapshotStore.TruncateSnapshot` | opencsd/fuse_lfs/src/flfs_csd.cxx:293-323 | a truncate of a snapshotted file changes the size in the snapshot only |
| `Isolation.SnapshotIsIsolated` | opencsd/fuse_lfs/src/concurrent_datastructures/flfs_snapshot.cxx:137-155 | over every run of later operations the addresses of a snapshot denote the same bytes |
| `Isolation.OffloadedReadIsFromThePast` | opencsd/fuse_lfs/src/flfs_csd.cxx:165-243 | what a kernel reads from a snapshot at any later time is what a regular read returned when it was taken, exactly when the flattening of the range comes to an end |
| `Offload.FlattenFailsExactly` | opencsd/fuse_lfs/src/flfs_csd.cxx:62-81 | flattening a range of a snapshot fails if and only if the range reaches the last sector of the file and that sector is the last of a data block |
| `Offload.KernelBytes` | opencsd/fuse_lfs/src/bpf/flfs_bpf_read.c:53-64 | the kernel returns the bytes of the file from the start of the sector the offset lies in |
| `Offload.OffloadedEqualsRegular` | opencsd/fuse_lfs/src/flfs_csd.cxx:165-243 | at sector-aligned offsets that is the reply of a regular read |
| `Csd.FuseLfsCsd.FlattenDataBlocks` | opencsd/fuse_lfs/src/flfs_csd.cxx:62-81 | the loop collects exactly the addresses of the range, or stops where the source throws |
| `Csd.FuseLfsCsd.CreateCsdContext` | opencsd/fuse_lfs/src/flfs_csd.cxx:87-130 | the call carries size, offset, inode, file size and the address of every sector of the range |
| `Csd.FuseLfsCsd.PassthroughKernel` | opencsd/fuse_lfs/src/bpf/flfs_bpf_read.c:31-67 | the loop returns the first bytes of the sectors of the call, in order, with its error codes |
| `Csd.FuseLfsCsd.ReadSnapshot` | opencsd/fuse_lfs/src/flfs_read.cxx:167-228 | from the first byte on, the start of the snapshotted file |
| `Csd.FuseLfsCsd.ReadCsd` | opencsd/fuse_lfs/src/flfs_csd.cxx:165-243 | an error exactly when there is no snapshot or flattening fails; otherwise min(size, rest of the file) bytes, from the start of the sector the offset lies in, and at aligned offsets exactly that range of the file |
| `Entropy.BinsConserve` | opencsd/fuse_lfs/src/bpf/flfs_bpf_read_entropy.c:135-157 | the bins sum up to the bytes of all sectors read |
| `Entropy.HistConserves` | opencsd/fuse_lfs/src/bpf/flfs_bpf_read_entropy.c:147-157 | every byte is counted in exactly one bin |
| `Entropy.StridesMakeTheWhole` | python/csd-entropy-passthrough.py:61-74 | all strides of a snapshot are read if and only if the file is empty or its number of sectors is no multiple of 511; their bins then sum up to the histogram of all its sectors, which is that of the file if and only if the file ends on a sector |
| `Entropy.EntropyKernel.Run` | opencsd/fuse_lfs/src/bpf/flfs_bpf_read_entropy.c:113-159 | the nested loops compute that histogram in 32-bit bins, exact below 2^32 bytes |
| `Sessions.FlagsAreInverted` | opencsd/fuse_lfs/src/flfs.cxx:1595-1628 | the check of the create and replace flags does what its comment promises if and only if neither is given, or both are and a kernel is set |
| `Sessions.SetKernelExactly` | opencsd/fuse_lfs/src/flfs.cxx:1589-1679 | a request that is not accepted changes nothing; one that is stores its kernel in the first handle of its owner and the copy of the kernel in its snapshots, and nothing else |
| `Sessions.OneKernelStored` | opencsd/fuse_lfs/src/flfs.cxx:1640-1679 | the kernel of that type is stored in the handle; number, owner, flags and the other kernels stay |
| `Sessions.ServeKeeps` | opencsd/fuse_lfs/src/flfs.cxx:1942-2037 | every request keeps handles distinct and snapshots owned by open files |
| `Sessions.LifetimeOverRuns` | opencsd/fuse_lfs/src/flfs.cxx:1988-2037 | the same over every run of opens, kernel installations, truncates and releases |
| `Sessions.FileSnapshotIsStable` | opencsd/fuse_lfs/src/concurrent_datastructures/flfs_snapshot.cxx:45-93 | while snapshots of an owner exist only its own truncate changes the snapshot of the file |
| `Sessions.EventKernelFirst` | opencsd/fuse_lfs/src/concurrent_datastructures/flfs_snapshot.cxx:50-58 | a stream kernel that follows an event kernel, the first one of its owner, takes no snapshot of the file |
| `Sessions.KernelGivesFileExactly` | opencsd/fuse_lfs/src/concurrent_datastructures/flfs_snapshot.cxx:45-93 | after installing a kernel the owner has a snapshot of the file if and only if it had one already, or it had no snapshots and the kernel is a stream kernel |
| `Sessions.HavingFileIsDecided` | opencsd/fuse_lfs/src/concurrent_datastructures/flfs_snapshot.cxx:45-93 | over every run in which the snapshots of an owner stay, truncates included, it has a snapshot of the file after the run if and only if it had one before |
| `Sessions.FirstKernelDecides` | opencsd/fuse_lfs/src/concurrent_datastructures/flfs_snapshot.cxx:45-93 | over every run an owner has a snapshot of the file if and only if the first kernel it installed since it last had no snapshots is a stream kernel |
| `Sessions.SnapshotsExactly` | opencsd/fuse_lfs/src/flfs.cxx:1988-2037 | after any request an owner has snapshots if and only if it installed a kernel, or had snapshots and still has the file open |
| `Sessions.SnapshotsOverRuns` | opencsd/fuse_lfs/src/flfs.cxx:1988-2037 | after any run an owner has snapshots if and only if it had some, or installed a kernel in the run, and has had the file open ever since |
| `Sessions.ReleaseExactly` | opencsd/fuse_lfs/src/flfs.cxx:1988-2037 | the handle with the number goes, and the snapshots of its owner go if and only if no other handle of that owner is left |
| `Sessions.FileHandles.CreateFileHandle` | opencsd/fuse_lfs/src/concurrent_datastructures/flfs_file_handle.cxx:43-70 | a new handle with the next number goes to the end; numbers wrap around after 2^64 |
| `Sessions.FileHandles.GetFileHandle` | opencsd/fuse_lfs/src/concurrent_datastructures/flfs_file_handle.cxx:78-91 | the first handle of an owner |
| `Sessions.FileHandles.UpdateFileHandle` | opencsd/fuse_lfs/src/concurrent_datastructures/flfs_file_handle.cxx:118-132 | exactly the handle with that number is replaced |
| `Sessions.FileHandles.FindFileHandle` | opencsd/fuse_lfs/src/concurrent_datastructures/flfs_file_handle.cxx:140-163 | whether an owner has the file open |
| `Sessions.FileHandles.ReleaseFileHandle` | opencsd/fuse_lfs/src/concurrent_datastructures/flfs_file_handle.cxx:199-207 | exactly the handle with that number goes |
| `SessionStore.CsdSessions.Open` | opencsd/fuse_lfs/src/flfs.cxx:1942-1982 | a handle without kernels and with a fresh number is appended, snapshots stay |
| `SessionStore.CsdSessions.SetCsdXattr` | opencsd/fuse_lfs/src/flfs.cxx:1589-1679 | installing a kernel is one request of the session; the refusals; and an accepted one gives a snapshot of the file exactly when the owner had one, or had no snapshots and the kernel is a stream kernel |
| `SessionStore.CsdSessions.Truncate` | opencsd/fuse_lfs/src/flfs.cxx:1885-1901 | the size in the snapshot of the file changes if the owner has one, and nothing else; without one it is an error |
| `SessionStore.CsdSessions.Release` | opencsd/fuse_lfs/src/flfs.cxx:1988-2037 | an unknown number is an error; else that handle goes, and the snapshots of its owner exactly when it was the last one |
| `Nlookup.DoKeeps` | opencsd/fuse_lfs/src/concurrent_datastructures/flfs_nlookup.cxx:44-118 | every step of every thread keeps mutual exclusion, saved entries alive with enough in them, and zero entries attended to |
| `Nlookup.CountsInEveryInterleaving` | opencsd/fuse_lfs/src/concurrent_datastructures/flfs_nlookup.cxx:44-118 | in every interleaving in which a decrement begins only alone on its inode, or with all pending ones below the stored count: the stored count is the number of increments begun minus the sum of the decrements begun, apart from what threads still have to add or take; with all threads idle it is just that, and no zero entry is left |
| `Nlookup.NeverDangling` | opencsd/fuse_lfs/src/concurrent_datastructures/flfs_nlookup.cxx:44-118 | in these interleavings a thread that is to search waits exactly while another one writes, one that is to insert or erase exactly while another one holds the lock, and no thread waits otherwise: one that has found an entry always finds it still there, with enough in it |
| `Nlookup.TwoDecrementsDangle` | opencsd/fuse_lfs/src/concurrent_datastructures/flfs_nlookup.cxx:77-118 | two threads that decrement one inode by no more than is stored can leave one of them with an entry the other has erased if and only if they take all that is stored, whatever the other threads do meanwhile |

## Left out

- ZnsMemory.NvmeZnsMemoryBackend.constructor: zones of fewer than two sectors, whose capacity would be 0.
- ZnsMemory.NvmeZnsMemoryBackend.Append: only lengths that end on a sector boundary; for others the source zeroes as many bytes as lie in the last sector instead of those that are missing, and the file system never appends such a length. A zone that does not exist throws in the source and is excluded.
- RandomZone.RandomZone.ReadRandomZone: parents are not stated for inodes seen for the first time, which the source leaves uninitialised.
- RandomZone.RandomZone.FillNatBlock: contents are stated for sets of known inodes other than 0, which is all the file system puts into them; the branch for unknown inodes is only shown to end.
- RandomZone.RandomZone.RewriteRandomBlocksFull: starts of the ring in zones 4, 6 and 8 and a checkpoint log in order only; a rewrite moves the start by two zones, so no other start occurs.
- Csd.FuseLfsCsd.ReadSnapshot: from the first byte on only, its one use; at other offsets it starts with the wrong data block.
- FileIO.FileIO.Write: offsets behind the end of the file, which go through a growing `ftruncate`.
- FileIO.FileIO.ReadRegular: files with holes; the read stops at the first one and returns uninitialised bytes behind it.
- Csd.FuseLfsCsd.ReadCsd: snapshots with holes, such as one truncated to a larger size.
- FileHistory.ReadAfterWrite: growing truncations and short writes are no events, because they leave holes; writes that overwrite the sector behind them, or leave uninitialised bytes in the file, are none either.
- Nlookup.CountsInEveryInterleaving: decrements of one inode at once that together take all that is stored, after which a saved entry can be gone (`Nlookup.TwoDecrementsDangle`) and the source reads freed memory.
- SessionStore.CsdSessions.Open: numbers that are handed out again after 2^64 opens.
- Snapshots.SnapshotStore.CreateSnapshot: the result for an inode that is found but has missing data blocks.
- Offload.OffloadedEqualsRegular: does not tell apart the ranges on which flattening throws; `Isolation.OffloadedReadIsFromThePast` and `Csd.FuseLfsCsd.ReadCsd` do.
- RandomZone.RandomZone.RunInit: a device without a checkpoint, whose failed scan the source ignores, one whose checkpoint names no zone of the ring, and one whose ring has to be rewritten while the checkpoint log is not in order. The checks of the sector size and the super block come before it; the scan for the log pointer and the search for an inode number behind it are `LogZone.LogZone.DetermineLogPtr` and `InodeNumbers.DetermineInoPtr`.
- Remount.LastUpdateOfALifetime: creating an inode takes a number no inode has, which the first creation after a mount may not (`InodeNumbers.FreeInodeExactly`).
- Crashes between the two erasures at the end of a round of the rewrite, and what later operations make of a buffer that was not erased.
- `flush_inodes_always`, and so all of `fsync` but its last step: the first block it appends was never filled.
- `rewrite_random_blocks_partial`, `random_zone_distance`, `flush_data_blocks`, `log_garbage_collect`, SIT blocks and `write_csd`: stubs or unfinished.
- The format that `run_init` forces before everything else; a mount is what follows it, of any device that was unmounted.
- Directories and path lookup, permissions, `stat`, argument parsing and FUSE sessions: plumbing.
- The virtual machine: a kernel is its own loop over device reads, its result goes straight to the reply.
- The SPDK backend: foreign code behind the same interface.
