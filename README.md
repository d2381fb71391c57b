# FAT32 engine of the USB mass-storage driver, in Dafny

This project models the FAT32 engine of a USB mass-storage driver for Android (class
`FATHandler`). It also models the MODE SELECT command block of the driver's SCSI layer
(class `SCSIModeSelect10`).

The model works over a synchronous block device of 512-byte sectors. A read fails when a
sector is absent. A write fails when a sector is absent or refuses writes, and a failed
write changes nothing. Every engine call ends in one of three outcomes:

- `Done(v)`: the Java method returns `v`.
- `Crash`: the Java method throws a runtime exception. This covers a failed read
  dereferenced as `null`, an index past an array's end and a negative array size.
- `Diverge`: the Java method never returns. This is the chain walk on a FAT that loops.

Modules, in dependency order:

- `Bytes`: bytes, little-endian 32-bit words and the outcome types.
- `FatGeometry`: where a cluster's FAT entry lives, and where a data cluster starts.
- `BlockDevice`: the device value, `readBytes` and `writeBytes`.
- `FatTable`: the chain walk (`getClusterChain`) and the allocator (`setClusterChain`).
  Both are stated as functions over the device. The allocator's scan is measured against
  a reference list of the free clusters.
- `ClusterIo`: `readClusters` and `writeClusters`, including the reused write buffer.
- `Directory`: 32-byte directory records, long-name fragments (`parseLFN`), the decoder
  (`getFileEntries`) and the name matching of `changeDir` and `readFile`.
- `Navigation`: `mount`, `changeDir`, `changeDirBack`, `readFile` and `writeNewFile`.
  Each is a function from the device, the geometry and the navigation state (path,
  listing, free count) to the new state and the outcome.
- `FatEngine`: class `FatHandler`, which holds the device, the geometry and the
  navigation state as fields. It performs each operation with the loops of the Java code
  and updates its fields in place. Every method is proved equal to the function that
  specifies it.
- `ScsiModeSelect10`: the command's constructor and its 6-byte command block.

## Model

| member | source | states |
|---|---|---|
| Bytes.Le32RoundTrip | src/main/java/com/felhr/usbmassstorageforandroid/filesystems/fat32/FATHandler.java:311-315 | reading back the four little-endian bytes of a 32-bit value gives the value |
| Bytes.PutLe32 | src/main/java/com/felhr/usbmassstorageforandroid/filesystems/fat32/FATHandler.java:311-315 | patching a 4-byte entry into a sector stores the value there, and no other byte of the sector changes |
| FatGeometry.EntryLba | src/main/java/com/felhr/usbmassstorageforandroid/filesystems/fat32/FATHandler.java:620-624 | the entry's sector is at or after the FAT start, and its 128 entries include the entry |
| FatGeometry.EntrySectorIndex | src/main/java/com/felhr/usbmassstorageforandroid/filesystems/fat32/FATHandler.java:626-629 | the slot index is below 128 |
| FatGeometry.RealIndexes | src/main/java/com/felhr/usbmassstorageforandroid/filesystems/fat32/FATHandler.java:631-640 | the four byte offsets of slot i are 4i .. 4i+3 |
| FatGeometry.EntryAddressRoundTrip | src/main/java/com/felhr/usbmassstorageforandroid/filesystems/fat32/FATHandler.java:620-645 | cluster c's entry is at sector FatStart + c/128, bytes 4(c mod 128) .. +3, inside the sector, and decoding that address gives back c |
| FatGeometry.SlotAddressRoundTrip | src/main/java/com/felhr/usbmassstorageforandroid/filesystems/fat32/FATHandler.java:642-645 | the cluster decoded from slot i of FAT sector s is 128s + i, and that cluster's entry address is exactly (s, i) |
| FatGeometry.ClusterRunsOrdered | src/main/java/com/felhr/usbmassstorageforandroid/filesystems/fat32/FATHandler.java:349-355 | data clusters 2 ≤ c < d start at or after the data region and occupy disjoint sector runs in cluster order |
| BlockDevice.ReadBytes | src/main/java/com/felhr/usbmassstorageforandroid/filesystems/fat32/FATHandler.java:397-408 | a read succeeds exactly when every sector of the run is present, and returns count·512 bytes |
| BlockDevice.ReadBytesAt | src/main/java/com/felhr/usbmassstorageforandroid/filesystems/fat32/FATHandler.java:397-408 | sector k of a successful multi-sector read is the device's sector lba+k |
| BlockDevice.WriteBytes | src/main/java/com/felhr/usbmassstorageforandroid/filesystems/fat32/FATHandler.java:410-419 | a write reports true exactly when every sector is writable; it then stores sector k of the data at lba+k and leaves every other sector unchanged; a failed write changes nothing |
| FatTable.WalkedChainIsLinked | src/main/java/com/felhr/usbmassstorageforandroid/filesystems/fat32/FATHandler.java:245-266 | a finished walk starts at the given cluster, each element's entry names the next, only the last entry is the end-of-chain marker, and the walk is no longer than its fuel |
| FatTable.LinkedChainIsWalked | src/main/java/com/felhr/usbmassstorageforandroid/filesystems/fat32/FATHandler.java:245-266 | conversely, a chain linked on the FAT is exactly what the walk from its head returns, given enough fuel |
| FatTable.DivergeFollowsLinks | src/main/java/com/felhr/usbmassstorageforandroid/filesystems/fat32/FATHandler.java:250-264 | a walk reported as Diverge has read `fuel` readable FAT entries in a row, each naming the next cluster and none the end-of-chain marker: the loop is still running |
| FatTable.LongTrailRepeats | src/main/java/com/felhr/usbmassstorageforandroid/filesystems/fat32/FATHandler.java:250-264 | a run of readable FAT entries longer than 128 per device sector meets some cluster twice |
| FatTable.DivergeMeansCycle | src/main/java/com/felhr/usbmassstorageforandroid/filesystems/fat32/FATHandler.java:245-266 | with fuel above 128 per device sector, a Diverge walk has met some cluster twice, so the chain is a cycle on which `getClusterChain` never ends |
| FatTable.ZerosAreTheFreeClusters | src/main/java/com/felhr/usbmassstorageforandroid/filesystems/fat32/FATHandler.java:285-292 | the reference list of free clusters below a limit is strictly ascending and holds exactly the clusters whose entry reads zero |
| FatTable.ScanMeetsZeros | src/main/java/com/felhr/usbmassstorageforandroid/filesystems/fat32/FATHandler.java:280-327 | a successful scan returns the first n free clusters, in order, found inside the scanned sectors; running out means fewer than n are free there; a crash needs an unreadable FAT sector or a request for 0 |
| FatTable.FoundClustersOrdered | src/main/java/com/felhr/usbmassstorageforandroid/filesystems/fat32/FATHandler.java:284-296 | the clusters a successful scan returns are n > 0, strictly ascending and below the end-of-chain marker |
| FatTable.FirstFoundIsFree | src/main/java/com/felhr/usbmassstorageforandroid/filesystems/fat32/FATHandler.java:288-292 | the first cluster a successful scan returns has a zero FAT entry |
| FatTable.SetEntry | src/main/java/com/felhr/usbmassstorageforandroid/filesystems/fat32/FATHandler.java:299-317 | re-reading, patching and rewriting one FAT sector keeps the device well formed, with the same sectors and the same write failures |
| FatTable.SetEntryEffect | src/main/java/com/felhr/usbmassstorageforandroid/filesystems/fat32/FATHandler.java:299-317 | setting one entry on a writable sector changes that entry to the new value; no other entry and no other sector changes |
| FatTable.LinkFromEffect | src/main/java/com/felhr/usbmassstorageforandroid/filesystems/fat32/FATHandler.java:297-318 | on writable sectors the link pass points each found cluster's entry to the next cluster and the last one's to the marker; whether or not writes succeed, other entries and other sectors are unchanged |
| FatTable.LinkFromMakesChain | src/main/java/com/felhr/usbmassstorageforandroid/filesystems/fat32/FATHandler.java:297-318 | linking ascending clusters below the marker on a writable FAT makes them a chain and leaves every other entry as it was |
| FatTable.HeadLinkIsNotZero | src/main/java/com/felhr/usbmassstorageforandroid/filesystems/fat32/FATHandler.java:297-318 | after linking, the head of an ascending chain is no longer free |
| FatTable.AllocatedChainIsWalked | src/main/java/com/felhr/usbmassstorageforandroid/filesystems/fat32/FATHandler.java:272-329 | after a successful scan and the link pass over a writable FAT, walking from the first found cluster returns exactly the found list, and every other cluster's entry is unchanged |
| FatTable.Allocate | src/main/java/com/felhr/usbmassstorageforandroid/filesystems/fat32/FATHandler.java:272-329 | `setClusterChain(n)` keeps the device well formed, and a returned list has exactly n > 0 clusters |
| FatTable.AllocateOutcomes | src/main/java/com/felhr/usbmassstorageforandroid/filesystems/fat32/FATHandler.java:272-329 | a crash writes nothing and needs an unreadable FAT or a request for 0; the call always ends; a returned list is the first n free clusters, ascending, below the marker, all inside the FAT |
| FatTable.TooFewFreeWritesNothing | src/main/java/com/felhr/usbmassstorageforandroid/filesystems/fat32/FATHandler.java:324-326 | with a readable FAT holding fewer than n free entries, the call returns null and the device is unchanged |
| FatTable.ZeroRequestWritesNothing | src/main/java/com/felhr/usbmassstorageforandroid/filesystems/fat32/FATHandler.java:275-295 | a request for 0 clusters writes nothing and ends in an exception or null, never in a list |
| FatTable.FreeAreData | src/main/java/com/felhr/usbmassstorageforandroid/filesystems/fat32/FATHandler.java:289-292 | when the two reserved entries are in use, every free cluster is numbered 2 or more |
| FatTable.AllocatedAreDataClusters | src/main/java/com/felhr/usbmassstorageforandroid/filesystems/fat32/FATHandler.java:272-329 | when the two reserved entries are in use, a returned list holds only data clusters (≥ 2), in ascending order |
| FatTable.AllocatedChainHolds | src/main/java/com/felhr/usbmassstorageforandroid/filesystems/fat32/FATHandler.java:272-329 | a returned list over writable FAT sectors is exactly the chain walked from its head on the new device; every other cluster's entry is unchanged |
| FatTable.FailureAfterLinking | src/main/java/com/felhr/usbmassstorageforandroid/filesystems/fat32/FATHandler.java:319-326 | when the n-th free entry lies in the sector past the FAT, the call returns null even though the first found cluster was free before and is not free after |
| ClusterIo.ReadCluster | src/main/java/com/felhr/usbmassstorageforandroid/filesystems/fat32/FATHandler.java:379-380 | a successful cluster read returns exactly one cluster of bytes |
| ClusterIo.ReadClusters | src/main/java/com/felhr/usbmassstorageforandroid/filesystems/fat32/FATHandler.java:368-385 | `readClusters` always ends, and on success returns \|cs\| clusters of bytes |
| ClusterIo.ReadClustersSucceeds | src/main/java/com/felhr/usbmassstorageforandroid/filesystems/fat32/FATHandler.java:368-385 | the read succeeds exactly when every cluster of the list can be read |
| ClusterIo.ReadClustersLayout | src/main/java/com/felhr/usbmassstorageforandroid/filesystems/fat32/FATHandler.java:372-383 | in a successful read, cluster k's bytes sit at offset k · cluster bytes |
| ClusterIo.Chunk | src/main/java/com/felhr/usbmassstorageforandroid/filesystems/fat32/FATHandler.java:356-359 | the buffer for cluster k is the data's k-th cluster slice; a short last slice keeps the previous buffer's trailing bytes; a slice starting past the data's end is an exception |
| ClusterIo.ZeroBuffer | src/main/java/com/felhr/usbmassstorageforandroid/filesystems/fat32/FATHandler.java:348 | the fresh buffer has the cluster's length and is all zeros |
| ClusterIo.WriteFrom | src/main/java/com/felhr/usbmassstorageforandroid/filesystems/fat32/FATHandler.java:351-365 | the remaining writes keep the device well formed, with the same sectors and write failures |
| ClusterIo.WriteClusters | src/main/java/com/felhr/usbmassstorageforandroid/filesystems/fat32/FATHandler.java:344-366 | `writeClusters` keeps the device well formed, with the same sectors and write failures |
| ClusterIo.ReadBackRun | src/main/java/com/felhr/usbmassstorageforandroid/filesystems/fat32/FATHandler.java:397-408 | a run whose sectors hold the consecutive sectors of b reads back as b |
| ClusterIo.ChunkPrefix | src/main/java/com/felhr/usbmassstorageforandroid/filesystems/fat32/FATHandler.java:356-359 | the leading bytes of chunk j are the data's bytes from j · cluster bytes on |
| ClusterIo.WriteChunkEffect | src/main/java/com/felhr/usbmassstorageforandroid/filesystems/fat32/FATHandler.java:356-362 | writing chunk j to a writable cluster succeeds, and the cluster then holds the chunk's data bytes |
| ClusterIo.WriteFromFrame | src/main/java/com/felhr/usbmassstorageforandroid/filesystems/fat32/FATHandler.java:344-366 | whatever its outcome, `writeClusters` leaves every data cluster outside the list as it was |
| ClusterIo.WriteFromStep | src/main/java/com/felhr/usbmassstorageforandroid/filesystems/fat32/FATHandler.java:351-365 | a step onto a writable cluster succeeds, stores its chunk, and leaves writability unchanged |
| ClusterIo.StoreReadyStep | src/main/java/com/felhr/usbmassstorageforandroid/filesystems/fat32/FATHandler.java:351-365 | after a step, the conditions for a complete store hold from the next cluster on |
| ClusterIo.WriteFromReportsTrue | src/main/java/com/felhr/usbmassstorageforandroid/filesystems/fat32/FATHandler.java:344-366 | with distinct writable data clusters and no chunk past the data's end, every write succeeds and the call reports true |
| ClusterIo.WriteFromStores | src/main/java/com/felhr/usbmassstorageforandroid/filesystems/fat32/FATHandler.java:344-366 | with distinct writable data clusters and no chunk past the data's end, the write reports true and cluster cs[j] holds chunk j |
| ClusterIo.WriteFromSucceeded | src/main/java/com/felhr/usbmassstorageforandroid/filesystems/fat32/FATHandler.java:344-366 | conversely, a write of distinct data clusters that reports true has left chunk j in cluster cs[j] |
| ClusterIo.RunUntouched | src/main/java/com/felhr/usbmassstorageforandroid/filesystems/fat32/FATHandler.java:355-360 | writing one cluster leaves the bytes of every other data cluster unchanged |
| ClusterIo.RunsAgree | src/main/java/com/felhr/usbmassstorageforandroid/filesystems/fat32/FATHandler.java:397-408 | two devices that agree on a run read it alike |
| Directory.UnitOffset | src/main/java/com/felhr/usbmassstorageforandroid/filesystems/fat32/FATHandler.java:498-600 | both bytes of each of the 13 name units lie inside the 32-byte record |
| Directory.UnitOffsetsInOrder | src/main/java/com/felhr/usbmassstorageforandroid/filesystems/fat32/FATHandler.java:498-600 | the units start at bytes 1, 3, 5, 7, 9, 14, 16, 18, 20, 22, 24, 28 and 30, in that order |
| Directory.UnitBytes | src/main/java/com/felhr/usbmassstorageforandroid/filesystems/fat32/FATHandler.java:498-502 | a unit contributes one or two bytes, the first of them being the unit's first byte |
| Directory.TerminatorFrom | src/main/java/com/felhr/usbmassstorageforandroid/filesystems/fat32/FATHandler.java:498-600 | finds the first all-zero unit at or after k, or 13 when there is none |
| Directory.UnitsBeforeLength | src/main/java/com/felhr/usbmassstorageforandroid/filesystems/fat32/FATHandler.java:498-600 | t units contribute between t and 2t bytes |
| Directory.ParseLfnFromIsUnits | src/main/java/com/felhr/usbmassstorageforandroid/filesystems/fat32/FATHandler.java:498-600 | the units read from k on complete the reference up to the first terminator |
| Directory.ParseLfnIsUnitsBeforeTerminator | src/main/java/com/felhr/usbmassstorageforandroid/filesystems/fat32/FATHandler.java:494-618 | `parseLFN`'s fragment is exactly the units before the first terminator, one or two bytes each, at most 26 in all; nothing after the terminator reaches it |
| Directory.Record | src/main/java/com/felhr/usbmassstorageforandroid/filesystems/fat32/FATHandler.java:454 | each record copied out of the buffer is 32 bytes |
| Directory.StopFrom | src/main/java/com/felhr/usbmassstorageforandroid/filesystems/fat32/FATHandler.java:452-486 | decoding stops at the first record whose byte 0 is zero, or at the end of the buffer |
| Directory.EntriesAreWholeRecords | src/main/java/com/felhr/usbmassstorageforandroid/filesystems/fat32/FATHandler.java:452-489 | every decoded entry carries a whole 32-byte record |
| Directory.FreeCountOvershoots | src/main/java/com/felhr/usbmassstorageforandroid/filesystems/fat32/FATHandler.java:479-486 | the free-slot figure exceeds the number m of free records by one when m+1 is a multiple of 32, and by two otherwise |
| Directory.NormalRecords | src/main/java/com/felhr/usbmassstorageforandroid/filesystems/fat32/FATHandler.java:461-478 | the indices of the normal records lie among the records read |
| Directory.EntriesFollowNormalRecords | src/main/java/com/felhr/usbmassstorageforandroid/filesystems/fat32/FATHandler.java:452-489 | decoding yields one entry per normal record, in order, each holding that record and the long-name fragments gathered before it; other records yield none |
| Directory.NormalRecordsAscend | src/main/java/com/felhr/usbmassstorageforandroid/filesystems/fat32/FATHandler.java:452-489 | the entries come in strictly ascending record order |
| Directory.NoFragmentsGiveEmptyName | src/main/java/com/felhr/usbmassstorageforandroid/filesystems/fat32/FATHandler.java:464-477 | a normal record first in the directory or right after another normal record gets the empty long name |
| Directory.TwoFragmentsReversed | src/main/java/com/felhr/usbmassstorageforandroid/filesystems/fat32/FATHandler.java:466-473 | two long-name records before a normal one are joined last-gathered first |
| Directory.EntriesDependOnPrefix | src/main/java/com/felhr/usbmassstorageforandroid/filesystems/fat32/FATHandler.java:452-489 | what is decoded from the first q records depends only on their bytes |
| Directory.StopDependsOnPrefix | src/main/java/com/felhr/usbmassstorageforandroid/filesystems/fat32/FATHandler.java:479-486 | the stop point depends only on the bytes up to byte 0 of the first free record |
| Directory.DecodeIgnoresBytesAfterStop | src/main/java/com/felhr/usbmassstorageforandroid/filesystems/fat32/FATHandler.java:479-486 | buffers that agree up to byte 0 of the first free record decode to the same listing and free figure |
| Directory.DecodeRunAgrees | src/main/java/com/felhr/usbmassstorageforandroid/filesystems/fat32/FATHandler.java:452-489 | buffers that agree on a run of records decode that run alike |
| Directory.DeletedRecordsAreSkipped | src/main/java/com/felhr/usbmassstorageforandroid/filesystems/fat32/FATHandler.java:456-479 | two buffers whose records agree except one that is deleted in both produce the same entries and gathered names |
| Directory.FirstCluster | src/main/java/com/felhr/usbmassstorageforandroid/filesystems/fat32/FATHandler.java:102 | an entry's first cluster is a 32-bit value |
| Directory.Size | src/main/java/com/felhr/usbmassstorageforandroid/filesystems/fat32/FATHandler.java:163 | an entry's size is a 32-bit value |
| Directory.TrimSpaces | src/main/java/com/felhr/usbmassstorageforandroid/filesystems/fat32/FATHandler.java:95-98 | the short-name part is its prefix before the trailing spaces |
| Directory.FirstMatchFrom | src/main/java/com/felhr/usbmassstorageforandroid/filesystems/fat32/FATHandler.java:90-110 | the search returns the first index from j on whose entry answers to the name with the wanted directory flag, and none exactly when no entry answers |
| Directory.EqualsIgnoreCaseSymmetric | src/main/java/com/felhr/usbmassstorageforandroid/filesystems/fat32/FATHandler.java:99 | the case-insensitive comparison is symmetric and reflexive |
| Navigation.ClusterDataIsWholeRecords | src/main/java/com/felhr/usbmassstorageforandroid/filesystems/fat32/FATHandler.java:372 | the bytes of whole clusters are whole 32-byte records |
| Navigation.LoadDirectory | src/main/java/com/felhr/usbmassstorageforandroid/filesystems/fat32/FATHandler.java:103-106 | a directory read yields entries of whole records, and never ends exactly when its chain walk never ends |
| Navigation.ChangeDir | src/main/java/com/felhr/usbmassstorageforandroid/filesystems/fat32/FATHandler.java:88-111 | false exactly when no directory entry answers to the name, and then nothing changes; otherwise the first match is pushed on the path; a failed read leaves the listing and free count as they were |
| Navigation.ChangeDirBack | src/main/java/com/felhr/usbmassstorageforandroid/filesystems/fat32/FATHandler.java:113-145 | false exactly at the root, and then nothing changes; otherwise the last directory is popped; a failed read leaves the listing empty |
| Navigation.ChangeDirThenBack | src/main/java/com/felhr/usbmassstorageforandroid/filesystems/fat32/FATHandler.java:88-145 | from a coherent state, a successful `changeDir` followed by `changeDirBack` returns true and restores the state exactly |
| Navigation.NavigationKeepsCoherence | src/main/java/com/felhr/usbmassstorageforandroid/filesystems/fat32/FATHandler.java:88-145 | after a successful `changeDir` or `changeDirBack`, the listing and free count are those of the directory the path ends in |
| Navigation.CopyOf | src/main/java/com/felhr/usbmassstorageforandroid/filesystems/fat32/FATHandler.java:163 | the copy has length n, with the data's bytes first and zeros past the data's end |
| Navigation.ReadFile | src/main/java/com/felhr/usbmassstorageforandroid/filesystems/fat32/FATHandler.java:147-167 | null exactly when no file entry answers to the name; returned bytes are as long as the matching entry's size, which is below 2^31 |
| Navigation.ReadFileIsCopy | src/main/java/com/felhr/usbmassstorageforandroid/filesystems/fat32/FATHandler.java:160-163 | the returned bytes are the chain's bytes, cut or zero-padded to the entry's size |
| Navigation.ClustersForIsCeiling | src/main/java/com/felhr/usbmassstorageforandroid/filesystems/fat32/FATHandler.java:203-205 | the cluster count is the ceiling of length / cluster bytes: enough clusters, not one too many, and zero exactly for no bytes |
| Navigation.Splice | src/main/java/com/felhr/usbmassstorageforandroid/filesystems/fat32/FATHandler.java:220 | the raw record replaces the bytes from the index on; every other byte is unchanged |
| Navigation.NewFile | src/main/java/com/felhr/usbmassstorageforandroid/filesystems/fat32/FATHandler.java:173-228 | `writeNewFile` keeps the device well formed, with the same sectors and write failures |
| Navigation.NewFileInDirectory | src/main/java/com/felhr/usbmassstorageforandroid/filesystems/fat32/FATHandler.java:201-226 | allocation followed by the two writes keeps the device well formed |
| Navigation.StoreNewFile | src/main/java/com/felhr/usbmassstorageforandroid/filesystems/fat32/FATHandler.java:218-226 | placing the record, writing the directory back and writing the data keep the device well formed |
| Navigation.NoRoomWritesNothing | src/main/java/com/felhr/usbmassstorageforandroid/filesystems/fat32/FATHandler.java:201-208 | with too few free FAT entries for the file, nothing is written and success is never reported; once the directory is read the call returns false |
| Navigation.EmptyFileIsNeverWritten | src/main/java/com/felhr/usbmassstorageforandroid/filesystems/fat32/FATHandler.java:203-208 | an empty file requests no clusters, so nothing is written and success is never reported |
| Navigation.NewFileStoresData | src/main/java/com/felhr/usbmassstorageforandroid/filesystems/fat32/FATHandler.java:173-228 | when `writeNewFile` reports true, the allocation returned ascending clusters and the j-th holds chunk j of the data (given the reserved FAT entries are in use) |
| Navigation.InDirectoryStoresData | src/main/java/com/felhr/usbmassstorageforandroid/filesystems/fat32/FATHandler.java:201-226 | the same, once the directory has been read |
| Navigation.StoreNewFileWritesRecord | src/main/java/com/felhr/usbmassstorageforandroid/filesystems/fat32/FATHandler.java:218-226 | after a directory write that reports true, cluster j of the directory chain holds chunk j of the directory bytes with the new record at the first free record, and the data write keeps it there when the allocated clusters are not directory clusters |
| Navigation.StoreNewFileStoresData | src/main/java/com/felhr/usbmassstorageforandroid/filesystems/fat32/FATHandler.java:218-226 | after the directory write, a data write that reports true leaves chunk j in cluster cs[j] |
| Navigation.AddInt | src/main/java/com/felhr/usbmassstorageforandroid/filesystems/fat32/FATHandler.java:59 | Java's `int` sum: within the 32-bit range, congruent to the true sum modulo 2^32, and equal to it when it fits |
| Navigation.Mount | src/main/java/com/felhr/usbmassstorageforandroid/filesystems/fat32/FATHandler.java:50-71 | false exactly when the unit is not ready, or sector 0 reads and the index is past the partition table and is not the largest `int`; at the largest `int` the wrapped `index + 1` lets the lookup run off the table, an exception; failure leaves the navigation state unchanged; success takes partition index's geometry, keeps the path and makes the root directory the listing |
| Navigation.MountIsCoherent | src/main/java/com/felhr/usbmassstorageforandroid/filesystems/fat32/FATHandler.java:50-71 | mounting with an empty path leaves a coherent state |
| FatEngine.FatHandler.constructor | src/main/java/com/felhr/usbmassstorageforandroid/filesystems/fat32/FATHandler.java:41-48 | the handler starts at the root with an empty listing |
| FatEngine.FatHandler.GetClusterChain | src/main/java/com/felhr/usbmassstorageforandroid/filesystems/fat32/FATHandler.java:245-266 | the loop returns the chain walk, a chain linked on the FAT (FatTable.WalkedChainIsLinked) |
| FatEngine.FatHandler.SetClusterChain | src/main/java/com/felhr/usbmassstorageforandroid/filesystems/fat32/FATHandler.java:272-329 | the scan-and-link loops produce the device and result of FatTable.Allocate, which is characterised by the allocation lemmas |
| FatEngine.FatHandler.ScanSector | src/main/java/com/felhr/usbmassstorageforandroid/filesystems/fat32/FATHandler.java:284-323 | the inner loop over one FAT sector reaches the scan's verdict for it and notes each found cluster's sector and slot |
| FatEngine.FatHandler.NoteSlot | src/main/java/com/felhr/usbmassstorageforandroid/filesystems/fat32/FATHandler.java:291-294 | the i-th found cluster's sector and slot are recorded |
| FatEngine.FatHandler.LinkChain | src/main/java/com/felhr/usbmassstorageforandroid/filesystems/fat32/FATHandler.java:297-318 | the link loop leaves the device of FatTable.LinkFrom |
| FatEngine.FatHandler.LinkOne | src/main/java/com/felhr/usbmassstorageforandroid/filesystems/fat32/FATHandler.java:298-317 | one pass of the link loop takes the device one step along FatTable.LinkFrom |
| FatEngine.FatHandler.SetFatEntry | src/main/java/com/felhr/usbmassstorageforandroid/filesystems/fat32/FATHandler.java:299-317 | one link step leaves the device of FatTable.SetEntry |
| FatEngine.FatHandler.ReadClusters | src/main/java/com/felhr/usbmassstorageforandroid/filesystems/fat32/FATHandler.java:368-385 | the copy loop returns ClusterIo.ReadClusters |
| FatEngine.FatHandler.WriteClusters | src/main/java/com/felhr/usbmassstorageforandroid/filesystems/fat32/FATHandler.java:344-366 | the write loop returns the outcome and device of ClusterIo.WriteClusters |
| FatEngine.FatHandler.GetFirstFileEntryIndex | src/main/java/com/felhr/usbmassstorageforandroid/filesystems/fat32/FATHandler.java:428-441 | the offset of the first record whose byte 0 is zero, with every earlier record's byte 0 non-zero; an exception exactly when there is no such record |
| FatEngine.FatHandler.GetFileEntries | src/main/java/com/felhr/usbmassstorageforandroid/filesystems/fat32/FATHandler.java:443-492 | the entries returned and the free figure stored are Directory.Decode of the buffer; nothing else changes |
| FatEngine.FatHandler.JoinNames | src/main/java/com/felhr/usbmassstorageforandroid/filesystems/fat32/FATHandler.java:466-472 | the gathered fragments are joined last-gathered first |
| FatEngine.FatHandler.FindEntry | src/main/java/com/felhr/usbmassstorageforandroid/filesystems/fat32/FATHandler.java:90-110 | the search loop returns Directory.FirstMatch of the listing |
| FatEngine.FatHandler.Reload | src/main/java/com/felhr/usbmassstorageforandroid/filesystems/fat32/FATHandler.java:103-106 | reads a directory as Navigation.LoadDirectory does; success replaces the listing and free count; failure keeps them |
| FatEngine.FatHandler.ChangeDir | src/main/java/com/felhr/usbmassstorageforandroid/filesystems/fat32/FATHandler.java:88-111 | the new state and result are those of Navigation.ChangeDir |
| FatEngine.FatHandler.ChangeDirBack | src/main/java/com/felhr/usbmassstorageforandroid/filesystems/fat32/FATHandler.java:113-145 | the new state and result are those of Navigation.ChangeDirBack |
| FatEngine.FatHandler.ReadFile | src/main/java/com/felhr/usbmassstorageforandroid/filesystems/fat32/FATHandler.java:147-167 | the result is that of Navigation.ReadFile |
| FatEngine.FatHandler.WriteNewFile | src/main/java/com/felhr/usbmassstorageforandroid/filesystems/fat32/FATHandler.java:173-228 | the new device and result are those of Navigation.NewFile; the listing and free count are not refreshed |
| FatEngine.FatHandler.AllocateAndStore | src/main/java/com/felhr/usbmassstorageforandroid/filesystems/fat32/FATHandler.java:201-226 | the allocation and writes are those of Navigation.NewFileInDirectory |
| FatEngine.FatHandler.StoreEntryAndData | src/main/java/com/felhr/usbmassstorageforandroid/filesystems/fat32/FATHandler.java:218-226 | the record placement and both writes are those of Navigation.StoreNewFile |
| FatEngine.FatHandler.Mount | src/main/java/com/felhr/usbmassstorageforandroid/filesystems/fat32/FATHandler.java:50-71 | the new geometry, state and result are those of Navigation.Mount |
| FatEngine.FillChunk | src/main/java/com/felhr/usbmassstorageforandroid/filesystems/fat32/FATHandler.java:356-359 | the buffer copy fills exactly ClusterIo.Chunk; a copy starting past the data's end fails and leaves the buffer as it was |
| FatEngine.FirstZeroIsStop | src/main/java/com/felhr/usbmassstorageforandroid/filesystems/fat32/FATHandler.java:428-441 | the first zero probe is Directory.Stop; running off the end means there is no free record |
| FatEngine.CopyInto | src/main/java/com/felhr/usbmassstorageforandroid/filesystems/fat32/FATHandler.java:357-381 | the copied bytes replace those from the index on; the bytes before and after stay |
| ScsiModeSelect10.Create | src/main/java/com/felhr/usbmassstorageforandroid/scsi/SCSIModeSelect10.java:17-25 | the command keeps both flags and the length, with no data phase, direction 0 and control byte 0 |
| ScsiModeSelect10.CommandBuffer | src/main/java/com/felhr/usbmassstorageforandroid/scsi/SCSIModeSelect10.java:28-46 | the command block is 6 bytes |
| ScsiModeSelect10.FlagsByteBits | src/main/java/com/felhr/usbmassstorageforandroid/scsi/SCSIModeSelect10.java:32-38 | bit 4 of the flags byte is set exactly for page format, bit 0 exactly for save pages; the other bits are clear |
| ScsiModeSelect10.CommandBufferLayout | src/main/java/com/felhr/usbmassstorageforandroid/scsi/SCSIModeSelect10.java:28-46 | the block is opcode 0x55, the two flags decoded back from byte 1, two zero bytes, the converted length and a zero control byte |

## Left out

- The asynchronous command bridge (`waitTillNotification`, `scsiSuccessNotification`, the callback object) and the SCSI transport are not modelled. A device read or write here is one synchronous step on the device value.
- `testUnitReady` is a boolean parameter of `mount`. The MBR parser and the reserved-region parser are not part of this model. `mount` takes the parsed partition table as a list of geometries.
- Transient I/O errors are not modelled. A sector that reads once reads again, and a write fails only on absent or refusing sectors.
- `unMount`, `list` and `getPath` only forward to the transport or the path object, so they are not modelled. `resizeClusterChain` is an empty stub, so it is not modelled either.
- The `Path` class is not part of this model. Its behaviour is assumed: the current directory is the last entry of the path, `deleteLastDir` pops it, `isRoot` means the path is empty, `addDirectory` appends an entry to the path, `clearDirectoryContent` clears the listing only, `setDirectoryContent` replaces the listing (so a second `mount`, which does not clear first, shows only the root's entries), and `setFreeEntries` stores the count.
- `FileEntry` is not part of this model. Its parsing of a record is modelled by the FAT directory-record layout: attribute byte 11, first cluster in bytes 20-21 and 26-27, size in bytes 28-31, 8.3 name in bytes 0-10. Two of its behaviours decide which entry `changeDir` and `readFile` match, and both are assumed: Directory.ShortName trims trailing spaces from the base name and the extension and joins them with "." only when the extension is not blank, and Directory.IsDirectory tests bit 0x10 of byte 11.
- Navigation.NewFile: `FileEntry.getEntry(...).getRawFileEntry()` is the parameter `rawEntry`, applied to the first cluster and the size. The file name, the attribute flags and the timestamp are not modelled.
- Navigation.NewFile: the directory-resize branch only logs, and `fileEntriesRequired` has no other effect, so both are left out.
- Long names are kept as the bytes `parseLFN` collects. The UTF-8 decoding into a `String` is not modelled.
- Directory.EqualsIgnoreCase: the comparison folds ASCII letters only. Java's `equalsIgnoreCase` also folds other letters.
- Sectors are fixed at 512 bytes, as the engine assumes in its FAT arithmetic and write blocks.
- FatTable.Walk: `getClusterChain` loops forever on a cyclic FAT. The model bounds the walk by `fuel` FAT reads and reports `Diverge` beyond it. A chain longer than the fuel is also reported as `Diverge`. With fuel above 128 times the number of device sectors, `Diverge` happens only on a cycle (FatTable.DivergeMeansCycle).
- FatGeometry.Supported: the model requires cluster sizes of at least one sector, and cluster numbers (covering the scanned sectors) below the end-of-chain marker. A boot sector that violates this (for example zero sectors per cluster, a division by zero in `writeNewFile`) is not modelled.
- FatEngine.FatHandler.Mount: requires every geometry in the partition table to be supported.
- Navigation.Mount: when the partition's first sector cannot be read, `mount` throws after setting `partition` and a null reserved region. The model keeps the old geometry in that case.
- FatEngine.FatHandler.GetFileEntries: requires a whole number of 32-byte records. Its callers always pass whole clusters (Navigation.ClusterDataIsWholeRecords). On a partial last record, the Java copy would throw instead.
- Java `int` and `long` overflow is not modelled in the byte count of `readClusters`, the buffer length, the chunk offset `k * bufferLength` of `writeClusters` or the cluster count of `writeNewFile`. The wrapping `partitionIndex + 1` of `mount` is modelled (Navigation.AddInt). The `(int)` cast of the file size in `readFile` is modelled: a size of 2^31 or more is a negative array size, so an exception.
- ClusterIo.Chunk: the test `k * bufferLength + bufferLength <= data.length` is taken over unbounded integers. In Java the sum wraps negative when the data's length is within one cluster of 2^31; the full-buffer branch is then taken and its copy throws, where the model copies the short tail.
- FatEngine.FatHandler.constructor: takes a supported geometry. Java's constructor leaves `partition` and `reservedRegion` null until a successful `mount`, so a `writeNewFile`, `changeDir` or `readFile` before it throws a null-pointer exception; the model has no unmounted state and runs them on the given geometry.
- BlockDevice.ReadBytes: sector addresses are unbounded integers. `readBytes` and `writeBytes` pass the address through `UnsignedUtil.ulongToInt`, the 32-bit LBA field of READ(10) and WRITE(10), so an address of 2^32 or more (for example a cluster near 0x0FFFFFF8 with 16 or more sectors per cluster) reaches the device wrapped and may hit a present sector, where the model finds no sector and reports a crash. BlockDevice.WriteBytes has the same limit.
- BlockDevice.WriteBytes: takes whole sectors only. `writeBytes` rounds a partial last sector up, but every caller passes whole sectors.

Behaviour of the code that the model keeps as written:

- The allocator is not all-or-nothing. When the n-th free entry lies in the sector after the FAT (the scan reads `sectorsPerFat + 1` sectors), the links are written and null is returned (FatTable.FailureAfterLinking).
- `setClusterChain(0)` throws at the first free entry, where it stores into an empty array (FatTable.ZeroRequestWritesNothing). It does not simply return null. As a result, `writeNewFile` of an empty file never reports success.
- The end-of-chain test compares with `0xFFFFFFF` exactly. No 28-bit mask is applied.
- Failures throw rather than return error values. A failed read is dereferenced as `null`, and a full directory makes `getFirstFileEntryIndex` run off its buffer. There is no separate directory-full error.
- `writeNewFile` ignores the outcome of the directory write and goes on to write the data.
- `mount` does not reset the path. A failed `changeDir` keeps the entry pushed on the path. A failed `changeDirBack` leaves the listing empty.
