# FatFs, the read cache, the Z80 handshake and the calendar of the Pano CP/M machine, in Dafny

The machine is a Z80 with a RISC-V beside it. The RISC-V runs FatFs over an SD card, serves the Z80's disk
commands from image files, and is itself fed from SPI flash through a small cache. This project models the parts where
several mechanisms have to agree, and proves that they do:

- **FatFs** as compiled here (512-byte sectors, no long names, no exFAT, no fast seek, one volume, code page 437). Four
  layers, each refining a simple thing: the one-sector write-back window is the volume; the packed FAT is an array of
  numbers; the allocator works on linked lists in that array; an open file is a sequence of bytes with a position.
- **The CP/M disk**: (drive, track, sector) addresses laid over image files.
- **The read cache** `fpga/cache.v` and **the I/O handshake** `fpga/cpm_io.v`, clock by clock.
- **The calendar**: `mktime`, `gmtime_r` and the CP/M date.

`dafny verify dfyconfig.toml` checks everything.

## How it is put together

`Arith`, `Bytes` hold arithmetic and little-endian words. `FatCodec` and `Layout` are the FAT's packing and the volume's
geometry; `Mount` reads the geometry off a boot sector. `Disk` is the drive: calls may fail at any time, a failed call
leaves anything in its target, every image the drive has held is kept in a ghost log, and `failed` says whether any call
has failed. `Window` and `FatAccess` are `sync_window`, `move_window`, `get_fat` and `put_fat` on a class `Fatfs`.
`Chains`, `Alloc`, `FreeCount` and `Crash` are chains, `create_chain`, `remove_chain`, `f_getfree`, and what a power cut
leaves. `FileData`, `DataIo`, `FileState` and `File` hold the file invariant and a class `Fil`; `FileOpen`, `FileRead`,
`FileWrite`, `FileSeek`, `FileTruncate` and `FileSync` the calls; `DirEntry` and `OnDisk` the directory entry and an
independent decoder of a raw image; `OpenFiles` and `FileRun` several files at once and whole runs; `Witness` builds a small volume that meets their
invariants. `DirWalk` and
`ShortName` are directory access and 8.3 names, `DriveTable` and `CpmDisk` the CP/M disk. `ReadCache`, `Handshake` and
`Calendar` stand alone, but for the disk registers, which `CpmDisk` takes from `Handshake`.

Formats are stated twice: once in the functions the code uses, once byte by byte in numbers, in lemmas and in the contracts of
the main operations: `FatAccess.PlainEntry` for the FAT, `FileState.ByteIs` for a file's bytes, `DirEntry.EntryNames` and
`EntryStamped` for the directory entry, `Layout.EndsChain` for the end of a chain, `Mount.FieldPlaces` for the boot sector,
`CpmDisk.Moved` for a block of a CP/M drive.

Three ideas carry the file system proofs:

- `Fatfs.Logical()` is the raw drive overlaid with the dirty window, seen through the first FAT. `move_window` and
  `sync_window` do not change it; everything above speaks of it alone. `Fatfs.Fat()` is its decoded FAT.
- `FileState.Core` says that a file's chain, size, sectors and private buffer fit together; `FileState.Position` that the
  remembered cluster is the one of byte `fptr - 1` and that, mid-sector, the buffer is on the position's sector. Content is a
  sequence of `Option<Byte>`: a byte exposed by seeking past the end is `None` until it is written.
- `FileState.Frame` is what an operation on one file leaves alone: every FAT entry but those of its own chain and of the
  free clusters it takes, and every sector but the file's own.

## What the code does that one would not expect

- `f_getfree` stores what it has counted even when the scan fails, so a reserved entry on FAT12 or a disk error leaves a wrong
  "valid" count (`FreeCount.PartialScanCounterexample`; exact conditions in `FreeCount.GetFree`). On FAT16 and FAT32 the scan
  includes entries 0 and 1, and a successful scan is right exactly when they are not zero
  (`FreeCount.FullScanCounterexample`, `FreeCount.ScanIsExact`).
- A disk error between the mark and the link of a new cluster leaves a known free count one too high (`Alloc.CreateChain`). On
  FAT12 an entry may lie in two sectors, and a disk error between them leaves half of it stored (`FatAccess.HalfStored`).
- `find_volume` accepts a FAT32 volume that uses FSInfo and reserves a single sector. FSInfo is then the first sector of the
  FAT, and the first `sync_fs` with a count to store overwrites it (`Mount.InfoInFatExample`, `Mount.FindVolume`,
  `FileSync.SyncFs`). `Fatfs.Valid` shuts exactly these volumes out.
- `find_volume` computes its layout in wrapping 32-bit sums and accepts layouts that wrap (`Mount.WrappedExample`); what it
  accepts is sound exactly when none does (`Mount.ReadGeometry`).
- `f_sync` clears FA_MODIFIED even when `sync_fs` has failed, so a second try does nothing while the directory entry is still
  in the dirty window (`FileSync.SyncEntry`); and `FlushWriteCache` clears its marks before it knows.
- `fdco_out` lets sector 0 through, which is the last sector of the track or the Multicomp drive before
  (`DriveTable.SectorZero`, `DriveTable.SectorZeroOfNext`), and the track past the last one (`DriveTable.TrackPastLast`).
- `MountCpmDrives` opens the Multicomp image behind six others in the boot image's entry of `FpArray`. The system track is then
  that of the image, and writing to it, refused otherwise, succeeds (`DriveTable.SevenImages`, `CpmDisk.Fdc.FdcoOut`).
- `MountCpmDrive` sets a drive's geometry before it has opened the image: if that fails, an image mounted there before is left
  with the wrong one (`DriveTable.RemountExample`).
- An image of 8 MB mounted as a drive of its own gets 256 tracks of 128 sectors: its upper half is out of reach
  (`DriveTable.Formats`).
- After a truncation the clean sector buffer may hold a cluster that is given out again; only bytes not yet written can
  show it.
- Two clocks without a request keep the handshake safe (`Handshake.AlwaysSafe`); after a single one a request would see the
  previous ready (`Handshake.TwoClocksNeeded`).
- `get_date` is right exactly for the years 1978 to 2100 (`Calendar.GetDate`).
- `create_name` accepts a lone dot and makes a blank entry of it (`ShortName.BlankIsDot`).

## Model

| member | source | states |
|---|---|---|
| FatCodec.StoreReadsBack | fw/firmware/ff.c:1158-1284 | An entry stored by put_fat reads back through get_fat masked to the width of the FAT (12, 16 or 28 bits), and the four reserved bits of a FAT32 entry survive. |
| FatCodec.StoreLeavesOthers | fw/firmware/ff.c:1247-1280 | Storing an entry changes no other entry, though FAT12 neighbours share a byte and may straddle sectors; nor another entry's reserved bits. |
| FatCodec.Store12LeavesOthers | fw/firmware/ff.c:1248-1260 | The FAT12 case: the nibble of the shared byte that belongs to the neighbour is kept. |
| FatCodec.PairBytes | fw/firmware/ff.c:1176-1182 | Two FAT12 entries, the even one low, are three bytes read as one little-endian number, whatever their parity packing. |
| FatCodec.WideBytes | fw/firmware/ff.c:1184-1192 | A FAT16 entry is bytes 2c and 2c + 1; a FAT32 entry and its four reserved bits are bytes 4c to 4c + 3. |
| Bytes.Sub32IsRangeTest | fw/firmware/ff.c:1055-1057 | The unsigned test `winsect - fatbase < fsize` is membership of the range, for windows below as well as above it. |
| Layout.PowerOfTwoTest | fw/firmware/ff.c:3371-3372 | `csize & (csize - 1)` is zero exactly for powers of two. |
| Layout.MaskIsRemainder | fw/firmware/ff.c:3769 | Masking with a power of two less one is the remainder, so the masked sector offset is the offset within the cluster. |
| Layout.ClustersDisjoint | fw/firmware/ff.c:1141-1149 | No sector belongs to two clusters. |
| Layout.ClusterInData | fw/firmware/ff.c:1141-1149 | A cluster's sectors lie in the data area: inside the volume, off both FATs and FSInfo. |
| Layout.EocReadsBack | fw/firmware/ff.c:1596 | The end mark, stored, is 0xFFF, 0xFFFF or 0x0FFFFFFF by FAT type, and reads back as at least n_fatent. |
| Mount.ReadGeometry | fw/firmware/ff.c:3361-3410 | With wrapping 32-bit sums, a boot sector is accepted exactly if those sums pass the checks; when none overflows, exactly if its fields are those of a FAT volume whose FAT has room for its clusters, with exactly the geometry they mean; what is accepted after an overflow is never sound. |
| Mount.AcceptsFine | fw/firmware/ff.c:3361-3410 | Without overflow the checks accept exactly the boot sectors of sound volumes. |
| Mount.WrappedExample | fw/firmware/ff.c:3361-3410 | A boot sector that passes every check after an overflow: two FATs of 2^31 sectors count as none. |
| Mount.BootSectorReads | fw/firmware/ff.c:3361-3410 | Boot sectors with any fields the C types allow exist, so the examples are met byte for byte. |
| Mount.FieldPlaces | fw/firmware/ff.c:3361-3420 | Every field find_volume reads, at its byte offset: sizes in 16 bits, or in 32 where those are zero. |
| Mount.TypeByCount | fw/firmware/ff.c:3387-3393 | FAT12 up to 4085 clusters, FAT16 up to 65525, FAT32 above. |
| Mount.FloppyBoot | fw/firmware/ff.c:3361-3410 | A floppy boot sector given by its bytes, and the FAT12 volume it mounts as. |
| Mount.Fat16Boot | fw/firmware/ff.c:3361-3410 | The same for FAT16. |
| Mount.Fat32Boot | fw/firmware/ff.c:3361-3410 | The same for FAT32, with the 32-bit sizes. |
| Mount.FineIsSound | fw/firmware/ff.c:3361-3410 | An accepted geometry without overflow is sound: every FAT entry inside the first FAT, FATs, root and clusters in order and within 32-bit sector numbers, a power-of-two cluster size. |
| Mount.SoundIsFine | fw/firmware/ff.c:3361-3410 | Conversely, every sound volume a boot sector describes is accepted, and it is the only one: cluster count, type and bases follow. |
| Mount.WrappedIsUnsound | fw/firmware/ff.c:3361-3410 | A geometry reached through a wrapped sum does not satisfy the layout conditions. |
| Mount.LastEntryEnds | fw/firmware/ff.c:3403-3410 | The size test uses the byte just past the last FAT entry, for all three widths. |
| Mount.Boundaries | fw/firmware/ff.c:3388-3410 | The part after the sub-type is known: when it accepts, and every field it sets. |
| Mount.InfoInFat | fw/firmware/ff.c:3418-3432 | The sector sync_fs takes for FSInfo is a FAT sector exactly when one sector is reserved. |
| Mount.InfoInFatExample | fw/firmware/ff.c:3418-3432 | A FAT32 boot sector with one reserved sector and BPB_FSInfo32 = 1, given byte for byte, passes every check. |
| Mount.FindVolume | fw/firmware/ff.c:3361-3440 | Mounting succeeds exactly on the boot sectors ReadGeometry accepts; the file system object starts with a clean window and with the hints of FSInfo where the boot sector names it, else "unknown"; it meets the invariant of the other modules exactly when FSInfo is unused or two sectors or more are reserved. |
| Mount.HintsRoundTrip | fw/firmware/ff.c:3418-3432 | The free count and last cluster sync_fs stores in FSInfo are the ones mounting finds there. |
| Window.WriteBackKeepsLogical | fw/firmware/ff.c:1046-1066 | Writing the dirty window to its sector does not change the logical volume. |
| Window.SyncWindow | fw/firmware/ff.c:1046-1066 | Writes a dirty window to its sector, and to the sector fsize behind it if that is one of two FATs, and no other: the logical volume is unchanged, the copies agree, the window is clean on success and stays dirty on failure, every image written holds the logical FAT. |
| Window.MoveWindow | fw/firmware/ff.c:1070-1091 | Leaves the logical volume unchanged and shows its sector in the window; a failed read leaves the window nowhere. |
| Window.SameTable | fw/firmware/ff.c:1158-1191 | The decoded FAT depends on the first FAT's sectors only. |
| FatAccess.Clst2Sect | fw/firmware/ff.c:1141-1149 | First sector of a valid cluster c, database + csize * (c - 2); 0 exactly for the others. |
| FatAccess.ClustersInOrder | fw/firmware/ff.c:1141-1149 | Cluster 2 starts the data area, and every cluster starts csize sectors after the one before. |
| FatAccess.TableBytes | fw/firmware/ff.c:1158-1191 | Every entry of the decoded FAT, in the bytes of the image: which sector, which offset, which half of a byte. |
| FatAccess.PutByteIsUpdate | fw/firmware/ff.c:1252-1279 | A byte of the window on a FAT sector is one byte of the FAT. |
| FatAccess.StoredTable | fw/firmware/ff.c:1235-1284 | Storing an entry's bytes updates one element of the decoded FAT and its reserved bits nowhere. |
| FatAccess.GetFat | fw/firmware/ff.c:1158-1224 | The value of the entry in the logical FAT, and the same off the bytes of its sectors; 1 for a cluster out of range; 0xFFFFFFFF only after a disk error. |
| FatAccess.PutFat | fw/firmware/ff.c:1235-1284 | Updates exactly one element of the logical FAT, to the value masked to 12, 16 or 28 bits, which its bytes then hold; nothing else on the volume changes; FR_INT_ERR exactly out of range; a disk error leaves the FAT as it was, but for that element on FAT12; on FAT16 and FAT32 every image written meanwhile holds the FAT as it was before. |
| FatAccess.HalfStored | fw/firmware/ff.c:1247-1262 | A FAT12 store broken off between its two bytes is a store of another value in the same entry. |
| Chains.ChainDistinct | fw/firmware/ff.c:1425-1482 | A chain visits no cluster twice. |
| Chains.ChainUnique | fw/firmware/ff.c:1425-1482 | A start cluster determines its chain. |
| Chains.ChainExtend | fw/firmware/ff.c:1596-1600 | Marking a free cluster and linking it to the end of a chain makes a chain one longer. |
| Chains.ChainCut | fw/firmware/ff.c:1443-1447 | Making an element the end splits a chain in two. |
| Chains.Release | fw/firmware/ff.c:1449-1482 | What freeing the clusters linked from one does to any FAT, cyclic or corrupt: it terminates because the number of used entries falls, and stops at a free entry or fails at the value 1. |
| Chains.ReleaseChain | fw/firmware/ff.c:1449-1482 | On a well-formed chain exactly its clusters are freed. |
| Chains.StageOfChain | fw/firmware/ff.c:1449-1482 | Every intermediate FAT has some leading part of the chain freed, and nothing else. |
| Chains.ZerosUpdate | fw/firmware/ff.c:1455-1462 | How one store changes the number of free clusters. |
| Chains.ZerosIsSize | fw/firmware/ff.c:4665-4741 | The number of free clusters is the size of the set of clusters whose entries are zero. |
| Alloc.FreeOne | fw/firmware/ff.c:1450-1462 | Freeing one used cluster adds one to the free count and leaves the rest of the release to be done. |
| Alloc.FreeCluster | fw/firmware/ff.c:1450-1482 | One turn of the loop in remove_chain: next cluster, FAT and free count. After a disk error the count is still right on FAT16 and FAT32, and on FAT12 exactly when the torn entry is not free. |
| Alloc.ReleaseClusters | fw/firmware/ff.c:1449-1482 | The loop of remove_chain, on any FAT, computes Chains.Release; the free count stays exact, after a disk error too on FAT16 and FAT32, and on FAT12 exactly unless the torn entry reads as free; FSInfo is due if it changed. |
| Alloc.RemoveChain | fw/firmware/ff.c:1425-1510 | Ends the chain at pclst with 0xFFF, 0xFFFF or 0x0FFFFFFF by FAT type, unless the release comes back to it, and releases what follows; an out-of-range cluster is refused with nothing changed; a known free count stays exact, with the same condition after a disk error; every FAT written is the old one or a stage of the release. |
| Alloc.FindFree | fw/firmware/ff.c:1582-1595 | The wrapping search finds the first free cluster after the hint, and 0 only if there is none, from any start. |
| Alloc.Choose | fw/firmware/ff.c:1569-1595 | The cluster after the chain's end if it is free, else the first one found from the hint. |
| Alloc.ChosenInTurn | fw/firmware/ff.c:1569-1595 | What the search finds, told apart from how it looks: no free cluster comes earlier in turn after the hint. |
| Alloc.LinkNew | fw/firmware/ff.c:1596-1607 | Marks and links the cluster, moves the hint to it, takes one off a known free count, and makes FSInfo due. After a disk error a known count that was right still is exactly when the FAT has not changed, or when on FAT12 the torn link reads as free. |
| Alloc.UseOne | fw/firmware/ff.c:1596-1607 | Taking a free cluster takes one off the number of free ones. |
| Alloc.HalfLinkedCount | fw/firmware/ff.c:1596-1607 | Whether the number of free clusters has changed, when the disk fails before or after the new cluster is marked. |
| Alloc.CreateChain | fw/firmware/ff.c:1520-1611 | The cluster that already follows, or a free one linked in, its entry 0xFFF, 0xFFFF or 0x0FFFFFFF by FAT type: the next cluster, 2 after the last, if that is free, else the first in turn from the hint; 0 with an exact or unknown count only when none is free; only FAT entries of the chain and of the new cluster change; the count stays exact, after a disk error exactly under the condition of LinkNew; every FAT written is the old one or has just the new cluster marked. |
| FreeCount.GetFree | fw/firmware/ff.c:4665-4741 | A known count is returned as it is; otherwise the zero entries before the place the scan stopped, stored whether or not it failed. After each of FR_OK, FR_INT_ERR and FR_DISK_ERR, the condition on FAT and place under which the stored count is exact or unknown, both ways. |
| FreeCount.CountWords | fw/firmware/ff.c:4718-4736 | The FAT16/FAT32 scan counts the zero entries before the place it stopped, those of clusters 0 and 1 included; it stops early only on a disk error. |
| FreeCount.CountEntries | fw/firmware/ff.c:4688-4696 | The FAT12 scan counts the zero entries from 2 to the place it stopped: the end, the first entry of value 1, or a disk error. |
| FreeCount.ScanIsExact | fw/firmware/ff.c:4718-4736 | The FAT16/FAT32 scan gives the number of free clusters exactly when entries 0 and 1 are not zero. |
| FreeCount.StoppedScan | fw/firmware/ff.c:4688-4741 | A scan stopped anywhere gives the number of free clusters exactly when the leading entries it took for free are as many as the free clusters it did not reach. |
| FreeCount.FullScanCounterexample | fw/firmware/ff.c:4718-4736 | A FAT16 with a zero entry 0 for which a successful scan stores one too many. |
| FreeCount.PartialScanIsExact | fw/firmware/ff.c:4688-4741 | The count a failed FAT12 scan stores is right exactly when no cluster after the reserved entry is free. |
| FreeCount.PartialScanCounterexample | fw/firmware/ff.c:4688-4741 | A FAT on which it is wrong. |
| Crash.CreateSafe | fw/firmware/ff.c:1596-1600 | In every FAT create_chain lets the drive hold, no link leads to a free cluster, no two links to one cluster, and every file, the one being stretched included, has its chain from before; the FAT it leaves has all chains, the stretched one longer. |
| Crash.CutSafe | fw/firmware/ff.c:1443-1482 | In every FAT remove_chain behind a cluster lets the drive hold, the file being cut has the clusters it keeps and every other file its chain. |
| Crash.Stretched | fw/firmware/ff.c:1596-1607 | Linking a free cluster to the end of one of several disjoint chains lengthens that one, keeps the others and keeps them disjoint. |
| Crash.HeadSafe | fw/firmware/ff.c:1443-1482 | The file being cut has, at every moment, the clusters it is to keep. |
| Crash.StagesTidy | fw/firmware/ff.c:1449-1482 | Freeing clusters from one nothing links to keeps the FAT tidy at every stage. |
| Crash.LinkTidy | fw/firmware/ff.c:1596-1600 | The finished stretch extends its chain and keeps the FAT tidy. |
| Crash.ChainRun | fw/firmware/ff.c:1425-1611 | For any run of stretches and cuts of any files on FAT16 or FAT32: every image written to the drive has a tidy FAT in which every file has the chain from before the operation in progress or the one after it, so a power cut leaves at worst lost clusters. |
| FileData.SectorsDistinct | fw/firmware/ff.c:3787-3789 | The sectors of a file are all different. |
| FileData.HoldsPatch | fw/firmware/ff.c:3941-3949 | Bytes copied into the buffer are the file's content there, and nothing else changes. |
| FileData.HoldsDirect | fw/firmware/ff.c:3905-3925 | Whole sectors written past the buffer, with the buffer refreshed if it holds one of them, are the file's content there. |
| FileData.HoldsFlush | fw/firmware/ff.c:3897-3900 | Writing the dirty buffer back keeps the content. |
| FileState.CoreGrow | fw/firmware/ff.c:3872-3893 | Stretching a file's chain keeps its content and leaves every other cluster and sector alone. |
| FileState.NoNewOne | fw/firmware/ff.c:1596-1600 | No operation on a file puts the value 1 into the FAT, so none can fail with FR_INT_ERR that did not fail before. |
| FileState.BoundaryPosition | fw/firmware/ff.c:3768-3786 | On a cluster boundary the remembered cluster is the one before the position's. |
| FileState.PositionIsAt | fw/firmware/ff.c:3768-3786 | Off a cluster boundary it is the one at the position. |
| FileState.AtSector | fw/firmware/ff.c:3787-3789 | clst2sect of the current cluster plus the masked offset is the file's sector at the position. |
| FileState.DirectDelivers | fw/firmware/ff.c:3790-3808 | A direct read with the dirty buffer patched in delivers the content. |
| FileState.ByteOnDrive | fw/firmware/ff.c:3787-3789 | Byte p of an open file is byte p mod 512 of the raw sector database + csize * (chain[p / 512 / csize] - 2) + p / 512 mod csize, or of the dirty buffer where that holds it. |
| File.WriteBack | fw/firmware/ff.c:3897-3900 | Flushing the buffer changes neither content nor FAT. |
| File.Stretch | fw/firmware/ff.c:3872-3893 | Following or stretching the file's own chain from its k-th cluster; 0 only at the end of the chain. |
| FileRead.StartToRead | fw/firmware/ff.c:3768-3789 | On a sector boundary: the current cluster becomes that of the position, and the sector is the file's there. |
| FileRead.ReadDirect | fw/firmware/ff.c:3790-3809 | Whole sectors straight to the caller, within the cluster, with a dirty buffer patched over its sector. |
| FileRead.LoadToRead | fw/firmware/ff.c:3810-3821 | A dirty buffer is written back before another sector is loaded. |
| FileRead.ReadStep | fw/firmware/ff.c:3766-3831 | One turn of the loop delivers the content at the position and moves past it. |
| FileRead.FRead | fw/firmware/ff.c:3744-3834 | Returns exactly the bytes at the position, as many as asked or up to the end, whichever path they took, and even after a disk error the bytes counted are the content's, each found at the sector and offset its cluster number gives; content, chain and FAT unchanged; the position invariant holds again; errors and access as coded. |
| FileWrite.NextToWrite | fw/firmware/ff.c:3872-3893 | The cluster at a boundary, followed or newly linked; none only at the end of the file on a full volume. |
| FileWrite.LoadToWrite | fw/firmware/ff.c:3932-3939 | The sector is loaded unless the position is at the growing edge, where its old contents do not matter. |
| FileWrite.WriteDirect | fw/firmware/ff.c:3905-3926 | Whole sectors straight to the drive replace the content there. |
| FileWrite.WriteStep | fw/firmware/ff.c:3868-3951 | One turn of the loop writes a part of the request, or finds the volume full and changes nothing. |
| FileWrite.ClippedBound | fw/firmware/ff.c:3863-3866 | A request is cut at 4 GiB - 1, exactly when the sum would wrap. |
| FileWrite.FWrite | fw/firmware/ff.c:3844-3956 | Replaces exactly [fptr, fptr + n) with the first n bytes of the request, each at the sector and offset its cluster number gives, growing the file past its end; n falls short only on a full volume at the end of the file; other files' clusters and sectors are untouched; size stays below 2^32. |
| FileSeek.LandsAt | fw/firmware/ff.c:4388-4415 | Where a position lies that a walk over whole clusters has reached. |
| FileSeek.SeekStart | fw/firmware/ff.c:4367-4387 | The walk starts at the current cluster exactly where that is not beyond the target, else at the first, created if need be. |
| FileSeek.SeekWalk | fw/firmware/ff.c:4388-4410 | Follows or stretches the chain; a walk from the current cluster and one from the first agree on element k of the chain; it stops early only at the end of a full volume's chain. |
| FileSeek.SeekFinish | fw/firmware/ff.c:4410-4433 | Sets the position, extends the size with unspecified bytes, and puts the buffer on the position's sector. |
| FileSeek.FLseek | fw/firmware/ff.c:4285-4437 | The position becomes the offset (clipped to the size without write access), the content is extended up to it; it falls short only on a full volume; the chain grows only if the size does. |
| FileTruncate.ClustersForIsCeiling | fw/firmware/ff.c:4767-4779 | The number of clusters kept is the size divided by the cluster size, rounded up. |
| FileTruncate.CutBehind | fw/firmware/ff.c:4771-4779 | Ending the chain at the current cluster and releasing the rest leaves the head a chain and frees exactly the tail. |
| FileTruncate.DirtyCut | fw/firmware/ff.c:4780-4790 | A dirty buffer written after the release, possibly to a cluster just freed, still leaves the kept content right. |
| FileTruncate.FTruncate | fw/firmware/ff.c:4754-4795 | The content is cut at the position, exactly the clusters for it are kept, the last of them ending the chain with 0xFFF, 0xFFFF or 0x0FFFFFFF by FAT type if any are cut off, and the others are free; nothing happens at the end of the file. |
| DirEntry.SyncedEntryDecodes | fw/firmware/ff.c:4041-4047 | The stored entry decodes to start cluster, size and time; archive bit set; name, creation time and neighbouring entries untouched. |
| DirEntry.SyncedBytes | fw/firmware/ff.c:4041-4047 | Every byte of the stored entry: start cluster in 26 and 27, on FAT32 also 20 and 21, size in 28 to 31, time in 22 to 25, no access date in 18 and 19, bit 5 of byte 11; all other bytes of the sector stay. |
| DirEntry.FieldBytes | fw/firmware/ff.c:1845-1857 | Start cluster and size as they are read from those bytes. |
| DirEntry.InfoSectorDecodes | fw/firmware/ff.c:1111-1117 | The FSInfo sector carries its signatures, the free count and the last cluster, where the format puts them. |
| FileSync.SyncFs | fw/firmware/ff.c:1101-1131 | The window is written back and FSInfo is written when due with the current counts. With FSInfo off the FAT nothing else of the volume changes; on a FAT32 volume with one reserved sector the first FAT sector is lost, whatever it held. |
| FileSync.InfoClobbers | fw/firmware/ff.c:1107-1123 | What the FAT then reads: the signature in entry 0, and entries 1 to 120 free. |
| FileSync.SyncEntry | fw/firmware/ff.c:4030-4056 | The part behind the flush; when sync_fs fails, FA_MODIFIED is clear although the entry is only in the dirty window. |
| FileSync.FSync | fw/firmware/ff.c:3965-4059 | After FR_OK on a modified file the raw drive carries it: the entry's bytes 26, 27, 20, 21 and 28 to 31 name start cluster and size, archive bit, time and access date are set, chain and data are in place. In any case only the entry's fields, FSInfo and the file's own sectors have changed, the handle keeps content and position, and FA_MODIFIED can be clear only if the logical volume carries the file. |
| FileSync.RecordedRaw | fw/firmware/ff.c:3965-4059 | With a clean window the raw drive carries what the logical volume does. |
| OnDisk.RecordedDecodes | fw/firmware/ff.c:3965-4059 | A file so carried is read back by a decoder that follows directory entry and FAT alone. |
| OnDisk.DecodeReads | fw/firmware/ff.c:3688-3724 | What that decoder reads, in plain bytes: start and size at their offsets in the entry, every next cluster from its bytes in the first FAT, every byte of content from the sector its cluster number gives. |
| OnDisk.DecodesExactly | fw/firmware/ff.c:3965-4059 | When every byte has been written, what it reads back is exactly the content. |
| OnDisk.FollowChain | fw/firmware/ff.c:3688-3724 | Following the FAT from the start cluster yields the chain. |
| FileOpen.OpenFile | fw/firmware/ff.c:3688-3724 | A file recorded on the volume, opened, satisfies the file invariant at position 0, or at its end for appending; start cluster and size are those in bytes 26, 27, 20, 21 and 28 to 31 of the entry in the window. |
| FileOpen.SeekEnd | fw/firmware/ff.c:3705-3724 | The append walk ends in the cluster of the last byte, with the buffer on its sector. |
| OpenFiles.OtherIntact | fw/firmware/ff.c:1520-1611 | An operation on one file leaves every file with disjoint clusters intact: chain, content, buffer and directory entry. |
| OpenFiles.OneMoved | fw/firmware/ff.c:3744-3956 | An operation on one open file keeps the invariant over all of them: chains acyclic, ended and pairwise disjoint, directory entries in place. |
| OpenFiles.OneSynced | fw/firmware/ff.c:3965-4059 | So does f_sync of one, failing or not, except that a failure may leave a dirty window no modified file accounts for. |
| FileRun.Open | fw/firmware/ff.c:3688-3724 | Opening one more file keeps the invariant over all open files. |
| FileRun.Apply | fw/firmware/ff.c:3744-4795 | One call on one file acts on a byte sequence with a position as the simple form says, and leaves every other file as it was. |
| FileRun.SyncOne | fw/firmware/ff.c:3965-4059 | f_sync of one open file, even after another one failed: no content, no FAT entry and no other file changes, whether it fails or not. |
| FileRun.Count | fw/firmware/ff.c:4665-4741 | f_getfree with files open leaves them all alone. |
| FileRun.LeadKept | fw/firmware/ff.c:1520-1611 | No operation on a file changes entries 0 and 1 of the FAT. |
| FileRun.Run | fw/firmware/ff.c:3744-4795 | Any run of f_lseek, f_read, f_write, f_truncate and f_sync over any open files, and f_getfree, refines byte sequences with positions; it stops only on a disk error or a FAT entry of value 1; a free count right or unknown at the start stays so, and f_getfree then returns the number of free clusters, if entries 0 and 1 of a FAT16 or FAT32 are not zero. |
| FileRun.AllOnDrive | fw/firmware/ff.c:3965-4059 | When no open file is modified, the raw drive alone decodes to every file's content. |
| Witness.Start | fw/firmware/ff.c:3361-3440 | What mounting leaves of a sound, mirrored volume with FSInfo off the FAT is a state in which files can be opened and a run begins. |
| DirWalk.DirSdi | fw/firmware/ff.c:1692-1731 | Finds the entry at an offset in a static root or a chained directory; FR_INT_ERR exactly where there is none. |
| DirWalk.PlaceIs | fw/firmware/ff.c:1692-1731 | The place of an entry in numbers: 2 MB of 32-byte entries at most, sixteen to a sector, counted through the static root or along the chain; where there is none, no entry is found. |
| DirWalk.NextPlace | fw/firmware/ff.c:1740-1791 | The place of the next entry from that of this one, for sector and cluster changes and both kinds of table. |
| DirWalk.DirNext | fw/firmware/ff.c:1740-1791 | From an entry dir_sdi can find, dir_next without stretching finds exactly the one dir_sdi finds 32 bytes on, or reports that there is none. |
| ShortName.CreateName | fw/firmware/ff.c:2962-3022 | Accepts exactly the 8.3 names without forbidden characters, stores them in upper case and padded, and finds the next segment. |
| ShortName.GetName | fw/firmware/ff.c:2731-2740 | Prints an entry's name in at most 12 characters and a terminator. |
| ShortName.UpperAgain | fw/firmware/ff.c:274-281 | Up-casing by code page 437 is idempotent on the characters allowed in names. |
| ShortName.AllowedOnes | fw/firmware/ff.c:2996-3012 | The characters a name may hold, listed. |
| ShortName.StoredAs | fw/firmware/ff.c:274-281 | What every allowed character is stored as: letters in upper case, the letters of code page 437 by groups, the rest unchanged. |
| ShortName.PackedBytes | fw/firmware/ff.c:2962-3022 | The eleven stored bytes one by one: padding 0x20, and 0x05 for a leading 0xE5. |
| ShortName.OneName | fw/firmware/ff.c:2962-3022 | readme.txt is stored as "README  TXT" and printed as README.TXT. |
| ShortName.PrintPacked | fw/firmware/ff.c:2731-2740 | A stored name prints as body, dot and extension, with 0x05 restored to 0xE5. |
| ShortName.RoundTrip | fw/firmware/ff.c:2962-3022 | An accepted name, stored, printed and parsed again gives the same eleven bytes, exactly when it is not blank. |
| ShortName.BlankIsDot | fw/firmware/ff.c:2962-3022 | The only accepted name that is blank is the lone dot. |
| DriveTable.PositionInFile | fw/firmware/cpm_io.c:490-518 | The block of a valid (drive, track, sector) lies inside its image and below 4 GiB. |
| DriveTable.PositionsDisjoint | fw/firmware/cpm_io.c:490-518 | Different valid triples have disjoint blocks, Multicomp drives in their shared image included. |
| DriveTable.MeansItself | fw/firmware/cpm_io.c:490-518 | A valid triple is served at its own block and at no other's. |
| DriveTable.SectorZero | fw/firmware/cpm_io.c:500-505 | Sector 0, which the checks admit, is the last sector of the track before, |
| DriveTable.SectorZeroOfNext | fw/firmware/cpm_io.c:500-518 | and on track 0 of a Multicomp drive the last sector of the drive before. |
| DriveTable.TrackPastLast | fw/firmware/cpm_io.c:495-505 | The track past the last one, which they admit too, names no block of a drive with its own image. |
| DriveTable.SeekPosition | fw/firmware/cpm_io.c:505-518 | The wrapping position fdco_out computes is that of the block meant, sector 0 included. |
| DriveTable.Mounter.MountCpmDrive | fw/firmware/cpm_io.c:577-624 | Mounts an image of one of the four known sizes, with its tracks and sectors, on one of sixteen drives, over an earlier one if the letter repeats, and at most six of them. The table stays well laid out, every drive fitting its image, unless the new image of a larger format cannot be opened: exactly then the old image is left with the larger geometry. |
| DriveTable.Formats | fw/firmware/cpm_io.c:54-65 | The four sizes and geometries: 77 x 26, 255 x 128 and 256 x 16384 blocks of 128 bytes fill their images, 256 x 128 fill half of 8 MB. |
| DriveTable.RemountExample | fw/firmware/cpm_io.c:595-616 | A floppy drive so left with the geometry of a hard disk. |
| DriveTable.Mounter.MountMulticomp | fw/firmware/cpm_io.c:1060-1090 | If the image opens, lays up to 16 or 6 drives of 8 MB over it, as many as it has room for, over letters already used if need be; the table stays well laid out; if not, nothing changes. |
| DriveTable.SevenImages | fw/firmware/cpm_io.c:1005-1069 | Behind six other images the Multicomp image is opened in FpArray's last entry, the boot image's. |
| CpmDisk.Fdc.Locate | fw/firmware/cpm_io.c:505-518 | The file and position of a request: the block's position for a triple that names one, sector 0 included; the boot image for a Multicomp system track, unless a seventh image has taken its entry. |
| CpmDisk.Fdc.FdcoOut | fw/firmware/cpm_io.c:465-574 | The error codes in the order of the checks, with nothing touched; a read puts the block the registers name, 128 bytes at 128 * (track * sectors + sector - 1), 8 MB further for each Multicomp drive, into memory and changes no file; a write replaces that block alone and marks its image for flushing; both also for sector 0. With at most six images mounted the system track of a Multicomp drive A is read from the boot image and a write to it is refused; with seven it is track 0 of the Multicomp image, read and written like any other. |
| CpmDisk.Fdc.Command | fw/firmware/cpm_io.c:475-574 | The same for the registers as the Z80 has set them: the sector number is sector low plus 256 times sector high, the DMA address DMA low plus 256 times DMA high, and the block is the one they mean. |
| CpmDisk.StoredBlock | fw/firmware/cpm_io.c:465-574 | Replacing the block of one triple shows there and at no other valid triple. |
| CpmDisk.Fdc.Run | fw/firmware/cpm_io.c:465-574 | In any run of valid reads and writes at any DMA addresses, a read returns the block last written at its triple, or the block the image held at the start. |
| CpmDisk.Fdc.FlushWriteCache | fw/firmware/cpm_io.c:758-777 | Every marked image has its f_sync, whether or not another one fails, and no mark is left. No content is lost; if every f_sync succeeds, the raw drive alone decodes to every image's content. |
| CpmDisk.FlushStep | fw/firmware/cpm_io.c:762-776 | Syncing the image of a marked drive and clearing the mark leaves every other modified image marked. |
| ReadCache.Cache.Clock | fpga/cache.v:100-296 | One clock edge: both block RAMs, written first, and all registers together. |
| ReadCache.StepIdle | fpga/cache.v:198-210 | The idle clock finishes the reset sweep and accepts a request with its line read out. |
| ReadCache.StepCheck | fpga/cache.v:215-244 | A hit answers from a line known to equal memory; a miss asks for the other word first. |
| ReadCache.StepMiss1 | fpga/cache.v:245-256 | The first word is taken for the way to be replaced. |
| ReadCache.StepMiss2 | fpga/cache.v:257-265 | Once it is written the line is valid with one word stale; only the written half is trusted. |
| ReadCache.StepMiss3 | fpga/cache.v:266-279 | The second word is answered and completes the line. |
| ReadCache.StepWait | fpga/cache.v:280-293 | After it every valid line equals memory again and no tag is in both ways. |
| ReadCache.StepSweep | fpga/cache.v:189-197 | The sweep empties one line a clock. |
| ReadCache.StepKeeps | fpga/cache.v:100-296 | The invariant holds after every clock, whatever environment keeps its rules. |
| ReadCache.Run | fpga/cache.v:100-296 | From a reset on, for every sequence of requests, resets and memory latencies, every answer is the memory word at sys_addr, mem(sys_addr) where that is a multiple of 4, for the request held since the clock before. |
| Handshake.TickDevice | fpga/cpm_io.v:116-246 | Interface, Z80 and what has been served stay in step. |
| Handshake.TickHistory | fpga/cpm_io.v:116-246 | A register keeps what was put into it until the next OUT to its port. |
| Handshake.TickFirmware | fw/firmware/firmware.c:163-208 | The polling loop acts on a request that is still the one pending. |
| Handshake.TickJob | fw/firmware/cpm_io.c:465-480 | The disk command being run is the one of the Z80's OUT 13. |
| Handshake.TickJobRegs | fw/firmware/cpm_io.c:475-478 | It is run with the registers as they stood when it was issued, unless the Z80 sets one first. |
| Handshake.TickAnswer | fw/firmware/firmware.c:163-208 | While the Z80 takes an answer no command is running, and a disk status it reads is the latest one. |
| Handshake.TickLost | fw/firmware/cpm_io.c:295-297 | No command the Z80 has got past is forgotten before its status is read. |
| Handshake.AlwaysSafe | fpga/cpm_io.v:116-246 | For every interleaving in which the Z80 leaves two clocks between requests: a port served by firmware is ready only after the firmware served that access; IN returns the byte written for it; OUT 10, 11, 12, 15, 16 and 17 leave the byte in drive, track, sector low, DMA low, DMA high and sector high, which IN returns and which nothing else changes; IN 14 right after OUT 13 returns the status of that command, run with the registers as they stood. |
| Handshake.Run | fpga/cpm_io.v:116-246 | The same for the interface as an object driven clock by clock, tests seeing old values and the Z80 side overriding the RISC-V side. |
| Handshake.TwoClocksNeeded | fpga/cpm_io.v:238-245 | Two clocks are exactly needed: after one the old ready is still up, and a request made then would be answered unserved. |
| Calendar.GmtimeR | fw/firmware/gmtime.c:26-53 | The fields denote the given moment: an existing date, with weekday and day of the year. |
| Calendar.DenotesOnce | fw/firmware/gmtime.c:26-53 | A moment has only one such form. |
| Calendar.CivilByMonths | fw/firmware/gmtime.c:26-53 | A date exists exactly within the lengths of the months, listed, and the day of the year counts their days. |
| Calendar.YearOfMonths | fw/firmware/gmtime.c:26-53 | Twelve months make a year of 365 or 366 days. |
| Calendar.FourCenturiesOn | fw/firmware/mktime.c:32-44 | Four centuries are 146097 days. |
| Calendar.LeapDates | fw/firmware/gmtime.c:26-53 | 29 February 2000, and 28 February and 1 March 2100, with the seconds they denote. |
| Calendar.ClosedForm | fw/firmware/mktime.c:32-44 | The closed-form count with century corrections equals counting year by year. |
| Calendar.DaysTo | fw/firmware/mktime.c:32-44 | mktime's code for it, from 1970 on. |
| Calendar.Mktime | fw/firmware/mktime.c:9-56 | On an existing date: the moment it denotes, the right weekday, the other fields unchanged; -1 before 1970. |
| Calendar.RoundTrip | fw/firmware/mktime.c:9-56 | mktime(gmtime_r(t)) = t for every t >= 0. |
| Calendar.GetDate | fw/firmware/cpm_io.c:162-174 | The CP/M day number is days since 1970 less 2922 plus 1, exactly for the years 1978 to 2100. |

## Left out

- exFAT, long names, fast seek, TINY, expand, mkfs, locking, re-entrancy and string functions: compiled out.
- Path walking (dir_find, follow_path, dir_read, dir_register, dir_alloc) and with it creating, deleting and renaming files: opening starts at a directory entry already found; a file created or overwritten by f_open is not modelled.
- validate() and stale handles: a file object is assumed to belong to the mounted volume. One file opened through two handles is unsupported by this configuration and excluded.
- FileSeek.FLseek: between the steps of a failing walk the source's fptr is partly moved, while the model keeps the running position in a local; the handle is in error then either way.
- FileWrite.FWrite: on an error the content is no longer specified: how far a failed write got, and what the failing drive made of the sectors, is not modelled.
- FileSync.FSync: asks for the file's invariant, which a failed f_read, f_write, f_lseek or f_truncate does not promise; the source lets f_sync run on a handle in error.
- FileSync.SyncFs: CTRL_SYNC always succeeds in this firmware and is left out; the result of the FSInfo write is ignored, as in the source.
- GET_FATTIME is the constant of the build without a clock (1 January 2018).
- Crash.ChainRun: follows the FAT only: data sectors and directory entries in the images a power cut leaves are not followed, nor is a truncation to nothing, which frees the first cluster before the entry is updated. A write is one step, so a sector torn in two is not modelled. The state before the first write of a run is whatever an earlier call left; FAT12 is excluded, where one store may touch two sectors.
- Mount.FindVolume: a free count found in FSInfo is taken on trust, as in the source; that it is right is an assumption wherever exactness of the count is stated. Starts at the boot sector check_fs has found; partition tables, disk_initialize and write protection are left out.
- FreeCount.GetFree: f_getfree's mount of the volume is left out.
- DirWalk.DirNext: stretching a directory (stretch = 1) is left out.
- DriveTable.Mounter.MountCpmDrive: called before any Multicomp image is mounted, as in the source; reading the directory for image names, choosing the boot mode and the boot image doubling as drive A are left out.
- CpmDisk.Fdc.FdcoOut: a request past the end of an image, which the checks admit at the track past the last one and at sector 0 of track 0, is not followed: f_lseek then stretches the image. Memory past the Z80's 64 KiB takes the tail of a block whose DMA address is near the top.
- CpmDisk.Fdc.FlushWriteCache: the flush timer and IdlePoll are left out, and so is loading the boot sector afterwards.
- CpmDisk.Fdc.Run: covers fdco_out calls; flushes may come between runs.
- ReadCache: the victim is whatever the LRU bits say, quirk included, but nothing is proved about its being the least recently used; that answers arrive at all is not proved.
- Handshake: Z80 reset, the colour registers and the halt flag are left out; RISC-V writes to the disk registers, which the firmware never makes, have no effect in the model; ports other than 13 and 14 answer any byte or none, as console, clock and unused ports do. That a request is answered at all is not proved.
- Calendar.Mktime: what the normalisation makes of dates that do not exist is not characterised; time_t is unbounded; the read past __spm for tm_mon = 12 is excluded.
- Calendar: clock ports and BCD are left out.
- USB, keyboard, I2C, UART, display, SPI flash and DDR drivers, printf and the host tools: device plumbing and formatting.
