# EFSL in Dafny

A model of EFSL, the FAT12/16/32 file system in `EXP_IOT_CTRL_PROJECT/Utilities/efsl`, with proofs. The layers run on
each other as in the C code:

- **Sector cache** (`Slots.dfy`, `Room.dfy`, `IoMan.dfy`, `IoRuns.dfy`, `Partition.dfy`): class `IOManager` with its slots, header
  stacks and device, and a ghost flat sector map `view` that every method is specified by.
- **FAT** (`Geometry.dfy`, `FatEntry.dfy`, `Chain.dfy`, `Scan.dfy`, `Fat.dfy`): packed entries, the run-length cursor
  (class `ClusterChain`), allocation and release (class `FileSystem`). `Table()` is the FAT as a sequence of entries.
- **Files** (`Sizes.dfy`, `FileData.dfy`, `Directory.dfy`, `File.dfy`, `FileOpen.dfy`, `Search.dfy`, `Runs.dfy`,
  `OpenFiles.dfy`): class `File`; `Content()` is the file as a byte string.
- **Volumes** (`Volumes.dfy`, `Catalog.dfy`, `VolumeModel.dfy`, `Session.dfy`, `Lookup.dfy`): all files of a volume
  together, and whole runs of operations against the users' view of it, a map of files with contents and chains and a set
  of free clusters (class `Session` is the driver; it has no counterpart in the C code).
- **Formatter and mount** (`Mkfs.dfy`, `Coverage.dfy`, `Format.dfy`, `Mount.dfy`), and **`Limits.dfy`** with the exact
  conditions under which the code departs from what its callers would expect.

## Premises

- Device reads succeed and device writes take effect. The device is a sequence of 512-byte sectors.
- Cache clients write only through buffers they requested with the plain read-write mode, and use counts stay below 0xFF.
  With several buffers no request overallocates; with one buffer requests are nested.
- An access to a FAT entry needs one buffer, on FAT12 two (`Buffers`), because a 12-bit entry may lie in two sectors. Reading
  and deleting files needs as many to spare, extending a chain one more. The shipped configuration, one buffer and one stack
  slot, has two: enough for FAT16 and FAT32. On FAT12 it is refused the third exactly as `Limits.ThirdBuffer` says.
- A buffer pointer is modelled by its slot number. The header stack has one slot more than `NUMITERATIONS`, because it is
  indexed from 1 (`include/ioman.h:69` declares one less).
- The mounted geometry is well formed: the FAT covers all clusters, lies in front of the data area, the data area fits the
  partition, and the type follows from the cluster count (the limits of the Microsoft EFI FAT32 File System Specification
  v1.03, section "FAT Type Determination").
- Chains end in an end-of-chain mark and lie in 2..DataClusterCount+1 (that they are acyclic follows). A 32-bit entry in
  the middle of a chain has its upper four bits zero.
- The cursor's `ClusterCount` is 0 or right. `file_initFile` does not set it; `file_fclose` clears it.
- A file's directory record lies in no cluster that is the file's or free.
- Sizes: the end of a write plus one cluster is at most 2^32.

## Notes

- `fs_getLastCluster` leaves `Linear` alone when it restarts a cursor without position; the model clears it, which is the
  same under the cursor's invariant.
- `fat_allocClusterChain` writes the end-of-chain mark in the last pass of its loop or on giving up; the model has one
  such write, after the loop. `CLUSTER_PREALLOC_FILE` is 0, as configured.
- `File` and `ClusterChain` are separate objects here; in C the second is embedded in the first.
- `mkfs_makevfat` refuses partitions below 66581 sectors as too small, but its loop needs 66599 (`Mkfs.ChooseSize`); in
  between it writes a boot sector with cluster size 0 and returns 0.
- `fat_allocClusterChain` counts a self-link as a cluster (`Limits.OneClusterForTwo`; `ClusterCount` in the contract of
  `AllocClusterChain`), so after an append cut short in that way a known cluster count is one too large.
- A session knows the directories' clusters (`used`) and the sectors that hold directory records (`area`); both stay fixed.

## Model

| member | source | states |
|---|---|---|
| `Sessions.Session.Run` | EXP_IOT_CTRL_PROJECT/Utilities/efsl/source/file.c:226-348 | Every run of create, edit (open for appending, any write/seek/read calls, close) and delete operations on a volume, executed through file layer, FAT and sector cache, leaves exactly the files, contents, chains and free clusters that the same run leaves in the users' view of the volume, returns the same bytes, keeps the volume consistent after every operation, and touches nothing outside the partition |
| `Sessions.Session.CreateFile` | EXP_IOT_CTRL_PROJECT/Utilities/efsl/source/file.c:248-269 | Creating a file: exactly one new empty file on the first free cluster below DataClusterCount, or without clusters if there is none; its record byte for byte: name, attributes 0, first cluster, size 0, all else 0; every other file and directory record unchanged, volume consistent |
| `Sessions.Session.EditFile` | EXP_IOT_CTRL_PROJECT/Utilities/efsl/source/file.c:276-295 | Open for appending, any calls, close: content and chain are those of the users' view, whether the file had clusters or not; the record keeps every byte but its cluster's and size; every other file keeps its bytes and record |
| `Sessions.Session.DeleteFile` | EXP_IOT_CTRL_PROJECT/Utilities/efsl/source/ui.c:132-157 | Deleting a file: it is gone from the listing, the first byte of its record is 0xE5 and no other byte of the sector is different, all its clusters are free again, every other file and record unchanged |
| `Sessions.Session.CountFree` | EXP_IOT_CTRL_PROJECT/Utilities/efsl/source/fat.c:558-567 | Between operations, counting zero entries gives the number of free clusters of the users' view |
| `Sessions.Session.ClustersAccounted` | EXP_IOT_CTRL_PROJECT/Utilities/efsl/source/fat.c:456-525 | After every operation the free clusters, the files' and the directories' add up to DataClusterCount |
| `Sessions.Session.RecordHolds` | EXP_IOT_CTRL_PROJECT/Utilities/efsl/source/file.c:328-348 | Between operations the record of every file has, in bytes 26, 27, 20, 21 and 28 to 31, the first cluster of the file's chain and its size |
| `Lookups.CreateThenFind` | EXP_IOT_CTRL_PROJECT/Utilities/efsl/source/dir.c:261-279 | After a file has been created, a search of its directory by its name ends at its record and returns the cluster the file has got, 1 if it got none, if no earlier record has the name |
| `Lookups.FindListed` | EXP_IOT_CTRL_PROJECT/Utilities/efsl/source/dir.c:261-279 | For any file of a consistent volume a search by its name ends at its record and returns the first cluster of its chain, 1 if it has none, if no earlier record has the name; nothing changes |
| `Lookups.EditThenFind` | EXP_IOT_CTRL_PROJECT/Utilities/efsl/source/file.c:276-295 | After any calls on a file, opened for appending and closed, the search by its name still ends at its record and returns the first cluster of the chain it has by then |
| `Lookups.DeleteThenFind` | EXP_IOT_CTRL_PROJECT/Utilities/efsl/source/dir.c:261-279 | After it has been deleted, the search finds nothing, if no other record has the name and it does not begin with the mark of deleted files |
| `OpenFiles.Play` | EXP_IOT_CTRL_PROJECT/Utilities/efsl/source/file.c:105-218 | Every run of calls on several files open at the same time, in any order, does to each what it does to its byte string; cursors, known last clusters and cluster counts of the others stay right while one of them allocates, and no two chains meet |
| `OpenFiles.Call` | EXP_IOT_CTRL_PROJECT/Utilities/efsl/source/file.c:105-218 | One call on one of several open files |
| `OpenFiles.Undisturbed` | EXP_IOT_CTRL_PROJECT/Utilities/efsl/source/fat.c:456-499 | What growth of one chain leaves of another open file's chain, bytes and record |
| `Volumes.ClustersAddUp` | EXP_IOT_CTRL_PROJECT/Utilities/efsl/source/fat.c:456-525 | On every sound volume free clusters, the files' and the directories' add up to all clusters |
| `VolumeModels.WrittenIsRead` | EXP_IOT_CTRL_PROJECT/Utilities/efsl/source/file.c:105-144 | What is written in any pieces to a new file comes back byte for byte after close and reopen, a seek to 0 and reads in any pieces |
| `VolumeModels.RoundTripEnabled` | EXP_IOT_CTRL_PROJECT/Utilities/efsl/source/file.c:105-144 | That round trip can be carried out whenever the place is unused, there is a first cluster, there are the further ones the total calls for, and nothing wraps 32 bits |
| `VolumeModels.FirstIs` | EXP_IOT_CTRL_PROJECT/Utilities/efsl/source/fs.c:286-298 | The set of free clusters determines the cluster a new file gets |
| `VolumeModels.NextIs` | EXP_IOT_CTRL_PROJECT/Utilities/efsl/source/fat.c:467-487 | ... and with a chain's end the clusters, and their order, that the chain is extended by |
| `Catalogs.Updated` | EXP_IOT_CTRL_PROJECT/Utilities/efsl/source/file.c:153-218 | If one file's chain grew and only its sectors, the FAT and its own record changed, the volume is consistent again and every other file's record, chain and bytes are the same |
| `Catalogs.Removed` | EXP_IOT_CTRL_PROJECT/Utilities/efsl/source/ui.c:139-154 | The same for a deletion |
| `Volumes.GrowKeepsSound` | EXP_IOT_CTRL_PROJECT/Utilities/efsl/source/fat.c:456-499 | A new or a longer chain made of free clusters keeps all chains valid and pairwise disjoint, with every cluster free, used by a directory, or on a file's chain |
| `Volumes.DeleteKeepsSound` | EXP_IOT_CTRL_PROJECT/Utilities/efsl/source/fat.c:507-525 | Freeing one chain keeps all of that |
| `Volumes.OnOneChain` | EXP_IOT_CTRL_PROJECT/Utilities/efsl/source/fat.c:456-525 | No cluster is on two chains, and none that is on a chain is free |
| `Volumes.DeleteFrees` | EXP_IOT_CTRL_PROJECT/Utilities/efsl/source/fat.c:507-525 | A freed chain gives exactly its clusters back |
| `Volumes.EmptyFileKeepsSound` | EXP_IOT_CTRL_PROJECT/Utilities/efsl/source/file.c:256-269 | A new file without clusters keeps all of that, although the reserved entry 0 is overwritten |
| `Runs.Play` | EXP_IOT_CTRL_PROJECT/Utilities/efsl/source/file.c:105-144 | Every run of file_write, file_setpos and file_read on an open file does, call by call, what it does to a byte string with a position; the chain grows exactly to what the size needs, and nothing but the first FAT and the file's clusters changes |
| `Runs.WriteThenRead` | EXP_IOT_CTRL_PROJECT/Utilities/efsl/source/file.c:105-144 | On one opening: writes in any pieces, a seek to 0 and reads in any pieces give the concatenation |
| `Runs.WritesAppend` | EXP_IOT_CTRL_PROJECT/Utilities/efsl/source/file.c:121-128 | Writing pieces at the end appends their concatenation |
| `Runs.ReadsGather` | EXP_IOT_CTRL_PROJECT/Utilities/efsl/source/file.c:105-112 | Reading pieces from the start gives the file up to the sum of the requests or its end |
| `Runs.AllocatedGrew` | EXP_IOT_CTRL_PROJECT/Utilities/efsl/source/fat.c:456-499 | An allocation takes only clusters that were free and changes no entry outside the grown chain |
| `Runs.GrewCount` | EXP_IOT_CTRL_PROJECT/Utilities/efsl/source/fat.c:456-499 | It lowers the number of free clusters by exactly the clusters added |
| `Runs.CandidatesCount` | EXP_IOT_CTRL_PROJECT/Utilities/efsl/source/fat.c:467-487 | Whatever chain is extended, the sweep can take exactly the free clusters in 2..DataClusterCount |
| `Scans.CandidatesAfter` | EXP_IOT_CTRL_PROJECT/Utilities/efsl/source/fat.c:456-499 | Allocating in several steps takes the same clusters in the same order as allocating at once |
| `Files.File.FRead` | EXP_IOT_CTRL_PROJECT/Utilities/efsl/source/file.c:45-96 | A read returns min(size, FileSize - offset) bytes of the file, 0 at or past the end or if the file is not open, fills the buffer with exactly those bytes and leaves the rest of the buffer, the disc and the held buffers unchanged; if offset + size wraps round to at most the file size, 0 is returned |
| `Files.File.Read` | EXP_IOT_CTRL_PROJECT/Utilities/efsl/source/file.c:105-112 | The same at the file position, which advances by the result |
| `Files.File.SetPos` | EXP_IOT_CTRL_PROJECT/Utilities/efsl/source/file.c:137-144 | A position inside the file or at its end is taken, any other refused |
| `Files.File.FWrite` | EXP_IOT_CTRL_PROJECT/Utilities/efsl/source/file.c:153-218 | Not open for writing, or without clusters: nothing happens and 0 is returned. Otherwise the chain grows by the clusters missing as far as there are free ones; if the allocation reports failure nothing is written, else as much as fits goes to the offset asked for. If that is not all, the file size becomes the old size plus the number written, modulo 2^32, in the object and in bytes 28 to 31 of the record, and no other byte of the record's sector and no other sector outside the first FAT and the chain is different; if the write began at the end, the file is then old + data[..r] and ends where its clusters end. A refused write leaves the file the same. With enough free clusters and offset <= FileSize: returns size, the file becomes old[..offset] + data + old[offset+size..], and nothing but the first FAT and the file's own sectors changes; for offset <= FileSize and nonempty data size is returned only then |
| `Files.File.Write` | EXP_IOT_CTRL_PROJECT/Utilities/efsl/source/file.c:121-128 | The same at the file position, which advances by the result |
| `Files.File.ReadLoop` | EXP_IOT_CTRL_PROJECT/Utilities/efsl/source/file.c:61-95 | The read loop copies the stretch of the chain's bytes across sectors and clusters, by the direct and the buffered path; it gives 0 if the chain ends first |
| `Files.File.WriteLoop` | EXP_IOT_CTRL_PROJECT/Utilities/efsl/source/file.c:177-211 | The write loop overlays the chain's bytes as far as the chain reaches and changes only sectors of the chain |
| `Files.File.Reserve` | EXP_IOT_CTRL_PROJECT/Utilities/efsl/source/file.c:169-175 | How the chain grows before the transfer, and when the allocation lets the write go on |
| `Files.File.RequiredClusters` | EXP_IOT_CTRL_PROJECT/Utilities/efsl/source/file.c:481-504 | The number returned is max(0, ceil((offset+size)/clustersize) - chain length), counting the chain if its length is unknown |
| `Files.File.Create` | EXP_IOT_CTRL_PROJECT/Utilities/efsl/source/file.c:256-269 | A record that is, byte for byte, the name, attributes 0, the first cluster, and zeros; the least free cluster below DataClusterCount as a chain of its own, a file of size 0; without a free cluster the reserved entry 0 is overwritten and the file has no clusters |
| `Files.CreatedBytes` | EXP_IOT_CTRL_PROJECT/Utilities/efsl/source/dir.c:79-93 | The default record with its cluster set, and after the size has been set, in bytes |
| `Files.FileSpliced` | EXP_IOT_CTRL_PROJECT/Utilities/efsl/source/file.c:153-218 | FAT growth followed by a transfer that fits is a splice of the file's bytes |
| `Files.MemCpy` | EXP_IOT_CTRL_PROJECT/Utilities/efsl/source/plibc.c:58-64 | Copying backwards byte by byte splices the source into the buffer |
| `FileData.OtherChainKept` | EXP_IOT_CTRL_PROJECT/Utilities/efsl/source/file.c:153-218 | A write to one file changes no byte of any chain that shares no cluster with it |
| `FileData.StoreOnChain` | EXP_IOT_CTRL_PROJECT/Utilities/efsl/source/file.c:197-206 | A store into one sector of a chain is the same store into the chain's bytes |
| `FileData.SectorsDiffer` | EXP_IOT_CTRL_PROJECT/Utilities/efsl/source/fs.c:235-253 | Different sectors of a chain are different sectors of the partition |
| `FileData.ByteOnDisc` | EXP_IOT_CTRL_PROJECT/Utilities/efsl/source/fs.c:235-253 | Where every byte of a chain is on the disc: cluster c at reserved + FATs * FAT size + (FAT32: 0, else root entries / 16) + (c - 2) * sectors per cluster |
| `Sizes.RequiredExact` | EXP_IOT_CTRL_PROJECT/Utilities/efsl/source/file.c:481-504 | The formula in wrapping 32-bit arithmetic equals the number of clusters missing whenever the chain covers the file and totals fit, although an intermediate result may go below zero |
| `FileOpen.OpenRead` | EXP_IOT_CTRL_PROJECT/Utilities/efsl/source/file.c:238-247 | Size (bytes 28 to 31) and chain (first cluster in bytes 26, 27, 20, 21) from the directory record, position 0, open for reading; the cursor's cluster count is left as it was |
| `FileOpen.OpenAppend` | EXP_IOT_CTRL_PROJECT/Utilities/efsl/source/file.c:276-295 | The same, positioned at the end and open for writing; a file without clusters gets the first free one, in the FAT and in bytes 26, 27, 20 and 21 of its record |
| `FileOpen.InitFile` | EXP_IOT_CTRL_PROJECT/Utilities/efsl/source/file.c:358-371 | The fields file_initFile sets |
| `FileOpen.Close` | EXP_IOT_CTRL_PROJECT/Utilities/efsl/source/file.c:328-348 | The size of a file open for writing goes to bytes 28 to 31 of its record and nowhere else, the chain's bytes stay, every field of the object is cleared |
| `FileOpen.Remove` | EXP_IOT_CTRL_PROJECT/Utilities/efsl/source/ui.c:132-157 | The first byte of the record becomes 0xE5, no other byte of its sector changes, and exactly the chain's entries are cleared (entry 0 for a file without clusters) |
| `Directories.SetThenRead` | EXP_IOT_CTRL_PROJECT/Utilities/efsl/source/dir.c:102-126 | First cluster and size are read back as set, and neither disturbs the other |
| `Directories.ClusterBytes` | EXP_IOT_CTRL_PROJECT/Utilities/efsl/source/dir.c:102-110 | A cluster number set is, in bytes: high half at 20, low half at 26, lowest byte first; every other byte is the same |
| `Directories.SizeBytes` | EXP_IOT_CTRL_PROJECT/Utilities/efsl/source/dir.c:119-126 | A size set is four bytes at 28; every other byte is the same |
| `Directories.StoreInRecord` | EXP_IOT_CTRL_PROJECT/Utilities/efsl/source/dir.c:62-69 | A store inside one record leaves every other record's cluster and size |
| `Searches.FindInBuf` | EXP_IOT_CTRL_PROJECT/Utilities/efsl/source/dir.c:155-229 | The first of sixteen records that has the name (or is free), long-name records excepted; 0 exactly if there is none; else the cluster number in bytes 26, 27, 20 and 21 of the record, 1 for cluster 0 and for a free place (first byte 0 or 0xE5) |
| `Searches.PassedOver` | EXP_IOT_CTRL_PROJECT/Utilities/efsl/source/dir.c:155-208 | Records are passed over exactly if attribute bits 0 to 3 are all set, whether a name or a free place is looked for |
| `Searches.FindInCluster` | EXP_IOT_CTRL_PROJECT/Utilities/efsl/source/dir.c:238-253 | The first hit in a cluster's sectors, and the first cluster its record holds |
| `Searches.FindInDir` | EXP_IOT_CTRL_PROJECT/Utilities/efsl/source/dir.c:261-279 | On a directory with clusters: the first hit over the whole chain and the first cluster its record holds, or 0 exactly if no record of it is a hit; nothing on disc changes |
| `Searches.CreatedIsFound` | EXP_IOT_CTRL_PROJECT/Utilities/efsl/source/dir.c:155-184 | The record of a created file is found by its name |
| `Searches.RemovedIsFree` | EXP_IOT_CTRL_PROJECT/Utilities/efsl/source/dir.c:192-208 | The record of a deleted file is a free place and no longer found by its name |
| `FatEntries.SetThenGet` | EXP_IOT_CTRL_PROJECT/Utilities/efsl/source/fat.c:142-196 | For all three types: a set entry reads back as the value cut to its width, and every other entry is unchanged, neighbouring 12-bit nibbles included |
| `FatEntries.EntryOnDisc` | EXP_IOT_CTRL_PROJECT/Utilities/efsl/source/fat.c:86-133 | Every entry byte by byte, in the sectors from the reserved ones on: 12-bit entries at c + c/2, low half or high half first as the cluster is even or odd, 16- and 32-bit ones at 2c and 4c, lowest byte first |
| `FatEntries.CoversExactly` | EXP_IOT_CTRL_PROJECT/Utilities/efsl/source/fat.c:44-75 | The premise that the FAT covers all clusters holds exactly if all bytes of every entry lie in it |
| `FatEntries.EntryLocated` | EXP_IOT_CTRL_PROJECT/Utilities/efsl/source/fat.c:44-75 | Sector and offset computed for an entry are where its first byte is; only a 12-bit entry can continue in the next sector, which is still a FAT sector |
| `FatEntries.StraddlesIff` | EXP_IOT_CTRL_PROJECT/Utilities/efsl/source/fat.c:263-298 | A 12-bit entry continues in the next sector exactly for two clusters out of 1024 |
| `FatEntries.ReadEntry` | EXP_IOT_CTRL_PROJECT/Utilities/efsl/source/fat.c:86-133 | The getters' formulas decode the entry as defined on the FAT's byte string, also across a sector boundary |
| `FatEntries.StoreNarrow` | EXP_IOT_CTRL_PROJECT/Utilities/efsl/source/fat.c:142-196 | The two byte stores of a 12-bit entry, in one sector or across two, set that entry only |
| `FatEntries.StoreWide` | EXP_IOT_CTRL_PROJECT/Utilities/efsl/source/fat.c:142-196 | The one store of a 16- or 32-bit entry sets that entry only |
| `Fats.FileSystem.GetNextClusterAddress` | EXP_IOT_CTRL_PROJECT/Utilities/efsl/source/fat.c:86-133 | Returns the entry; nothing changes |
| `Fats.FileSystem.GetNextClusterAddressWBuf` | EXP_IOT_CTRL_PROJECT/Utilities/efsl/source/fat.c:263-298 | The same with the entry's sector in a buffer already held |
| `Fats.FileSystem.SetNextClusterAddress` | EXP_IOT_CTRL_PROJECT/Utilities/efsl/source/fat.c:142-196 | Sets the entry; no other entry, no sector outside the first FAT and no held buffer changes |
| `Fats.FileSystem.SetNextClusterAddressWBuf` | EXP_IOT_CTRL_PROJECT/Utilities/efsl/source/fat.c:309-350 | The same with the entry's sector in a buffer already held |
| `Chains.ChainDistinct` | EXP_IOT_CTRL_PROJECT/Utilities/efsl/source/fat.c:367-405 | A chain that reaches an end-of-chain mark visits no cluster twice |
| `Chains.ChainUnique` | EXP_IOT_CTRL_PROJECT/Utilities/efsl/source/fat.c:367-405 | The first cluster determines the chain |
| `Chains.EndMarks` | EXP_IOT_CTRL_PROJECT/Utilities/efsl/source/fat.c:206-253 | End-of-chain values by number: from FF8, FFF8 and, the upper four bits ignored, 0FFFFFF8 on; the marks written are FFF, FFFF, 0FFFFFFF |
| `Fats.FileSystem.GetNextClusterChain` | EXP_IOT_CTRL_PROJECT/Utilities/efsl/source/fat.c:367-405 | One step along the chain, the run length being exactly the number of consecutive clusters that FAT sector shows, cut to eight bits, and sound; at the end nothing moves and the last cluster is remembered |
| `Fats.FileSystem.LogicToDiscCluster` | EXP_IOT_CTRL_PROJECT/Utilities/efsl/source/fat.c:418-446 | From any correct cursor: the l-th cluster if the chain has one, else -1 with the cursor parked on the last cluster; the cursor stays correct |
| `Fats.FileSystem.GetLastCluster` | EXP_IOT_CTRL_PROJECT/Utilities/efsl/source/fs.c:413-430 | The last cluster of the chain, and a cursor that stays correct |
| `Fats.FileSystem.AllocClusterChain` | EXP_IOT_CTRL_PROJECT/Utilities/efsl/source/fat.c:456-499 | The chain is extended by the first n free clusters in sweep order (behind its end up to DataClusterCount, then from 2), or by all there are, and closed; no other entry changes; the result is 0 if n links were made, else the number of links, cut to 16 bits; cluster count, free count and cursor follow |
| `Fats.FileSystem.LookAround` | EXP_IOT_CTRL_PROJECT/Utilities/efsl/source/fat.c:467-487 | The sweep loop: what is linked at every position, that it ends, and when it stops short |
| `Scans.SweepStep` | EXP_IOT_CTRL_PROJECT/Utilities/efsl/source/fat.c:467-487 | One look of the sweep: a zero entry is a cluster not met before, which gets linked, or the newest cluster, which gets linked to itself |
| `Scans.SweepCloses` | EXP_IOT_CTRL_PROJECT/Utilities/efsl/source/fat.c:470-495 | The final end-of-chain mark repairs a self-link |
| `Scans.ReportsSuccess` | EXP_IOT_CTRL_PROJECT/Utilities/efsl/source/fat.c:467-498 | The 16-bit result reports success if and only if there are enough free clusters, or none at all, or all but one and the second sweep passes the newest, or the sweep stopped short after a multiple of 65536 links |
| `Scans.ShortOfManyReportsSuccess` | EXP_IOT_CTRL_PROJECT/Utilities/efsl/source/fat.c:467-498 | A FAT with 65536 free clusters where a request for 65537 reports success |
| `Scans.ChosenFacts` | EXP_IOT_CTRL_PROJECT/Utilities/efsl/source/fat.c:456-499 | The clusters taken are free, distinct, in range, min(n, free clusters in 2..DataClusterCount) many |
| `Chains.CandidatesExact` | EXP_IOT_CTRL_PROJECT/Utilities/efsl/source/fat.c:467-487 | The two sweeps offer exactly the free clusters in 2..DataClusterCount, each once |
| `Chains.CandidatesInOrder` | EXP_IOT_CTRL_PROJECT/Utilities/efsl/source/fat.c:467-487 | ... those behind the chain's end first, then those in front of it, each part in ascending order |
| `Chains.ExtendIsChain` | EXP_IOT_CTRL_PROJECT/Utilities/efsl/source/fat.c:456-499 | Linking unused clusters behind a chain and closing it makes the longer chain |
| `Chains.ExtendFrame` | EXP_IOT_CTRL_PROJECT/Utilities/efsl/source/fat.c:456-499 | ... and changes no entry but the old tail's and the new clusters' |
| `Fats.FileSystem.UnlinkClusterChain` | EXP_IOT_CTRL_PROJECT/Utilities/efsl/source/fat.c:507-525 | Exactly the chain's entries are zeroed although each is freed while the walk is ahead; entry 0 for a file without clusters; the free count rises by the length plus one |
| `Chains.ClearedPrefix` | EXP_IOT_CTRL_PROJECT/Utilities/efsl/source/fat.c:507-525 | Clearing the clusters behind the walk leaves the rest of the chain walkable |
| `Fats.FileSystem.CountClustersInChain` | EXP_IOT_CTRL_PROJECT/Utilities/efsl/source/fat.c:527-540 | The length of the chain, 0 for a first cluster below 2 |
| `Fats.FileSystem.DiscToLogicCluster` | EXP_IOT_CTRL_PROJECT/Utilities/efsl/source/fat.c:542-556 | The position of a member of the chain: the inverse of LogicToDiscCluster; 0 for other clusters |
| `Fats.FileSystem.GetNextFreeCluster` | EXP_IOT_CTRL_PROJECT/Utilities/efsl/source/fs.c:286-298 | The first free cluster in [start, DataClusterCount), 0 if there is none |
| `Fats.FileSystem.CountFreeClusters` | EXP_IOT_CTRL_PROJECT/Utilities/efsl/source/fat.c:558-567 | The number of free clusters in 2..DataClusterCount+1; nothing changes |
| `Fats.FileSystem.SetFirstCluster` | EXP_IOT_CTRL_PROJECT/Utilities/efsl/source/dir.c:102-110 | Both halves of the record's cluster number are stored, nothing else changes |
| `Geometries.DataAreaPlacement` | EXP_IOT_CTRL_PROJECT/Utilities/efsl/source/fs.c:143-179 | The data area ends inside the volume; it begins behind the root area if and only if the root area is a whole number of sectors (empty on FAT32) |
| `Geometries.ClusterInside` | EXP_IOT_CTRL_PROJECT/Utilities/efsl/source/fs.c:235-253 | Every sector of a cluster lies behind the first FAT and inside the partition |
| `Geometries.ClustersDisjoint` | EXP_IOT_CTRL_PROJECT/Utilities/efsl/source/fs.c:235-253 | Distinct clusters share no sector |
| `Geometries.SectorToClusterInverts` | EXP_IOT_CTRL_PROJECT/Utilities/efsl/source/fs.c:257-275 | fs_sectorToCluster gives the cluster back for every sector of it |
| `Mounts.IsValidFat` | EXP_IOT_CTRL_PROJECT/Utilities/efsl/source/fs.c:69-79 | True exactly with the magic number; without it the buffer stays held |
| `Mounts.InitFs` | EXP_IOT_CTRL_PROJECT/Utilities/efsl/source/fs.c:47-60 | -1 exactly if bytes 510 and 511 are not 55 AA, -2 exactly if they are and the parameters are not acceptable, else 0 and the geometry the boot sector's bytes describe: fields at 11 to 47, cluster count modulo 2^32, type at 4085 and 65525, where every cluster begins; sectors unchanged |
| `Mounts.MountDescribes` | EXP_IOT_CTRL_PROJECT/Utilities/efsl/source/fs.c:86-253 | Loading, sanity check, counting, type and placement, for every boot sector, in terms of its bytes |
| `Mounts.Floppy` | EXP_IOT_CTRL_PROJECT/Utilities/efsl/source/fs.c:86-253 | The boot sector fields of a 1.44 MB floppy give 2847 clusters, FAT12, first cluster at sector 33 |
| `Mkfs.Alternates` | EXP_IOT_CTRL_PROJECT/Utilities/efsl/source/mkfs.c:54-74 | For every cluster size tried the estimates alternate: each even one is at least, each odd one at most, its successor |
| `Mkfs.AroundFixedPoint` | EXP_IOT_CTRL_PROJECT/Utilities/efsl/source/mkfs.c:54-74 | Any FAT size that exactly fits the data beside it lies between the odd and the even estimates |
| `Mkfs.EstimateFits` | EXP_IOT_CTRL_PROJECT/Utilities/efsl/source/mkfs.c:54-74 | No estimate makes the data area underflow |
| `Mkfs.FatLargeEnough` | EXP_IOT_CTRL_PROJECT/Utilities/efsl/source/mkfs.c:73-77 | The final FAT has at least as many entries as there are clusters, and FATs and clusters fit the volume |
| `Mkfs.ChooseSize` | EXP_IOT_CTRL_PROJECT/Utilities/efsl/source/mkfs.c:52-84 | From 66599 sectors on the loop stops at the largest cluster size with enough clusters; between 66581 and 66598 it runs through with cluster size 0 |
| `Mkfs.MakeVfat` | EXP_IOT_CTRL_PROJECT/Utilities/efsl/source/mkfs.c:37-153 | Refused with 1 and unchanged exactly below 66581 sectors. Otherwise 0, and only sector 0 and the 2 fs sectors from 32 on are different: the boot sector byte by byte, zeros, and entries 0 to 2 at the start of each FAT. From 66599 sectors on the cluster size is the largest of 64, ..., 1 that makes 65541 clusters; below, it is 0 |
| `Mkfs.BootIs` | EXP_IOT_CTRL_PROJECT/Utilities/efsl/source/mkfs.c:86-138 | The boot sector byte by byte: jump, DSCOSMSH, parameters, media byte F8, sector counts, root cluster 2, 13371337, DISCOSMASH!, FAT32, 55 AA, zeros elsewhere |
| `Formats.BootLoads` | EXP_IOT_CTRL_PROJECT/Utilities/efsl/source/mkfs.c:86-140 | The boot sector is read back field by field as intended, with the magic number |
| `Formats.FormatThenMount` | EXP_IOT_CTRL_PROJECT/Utilities/efsl/source/fs.c:86-203 | If the loop stopped by its break, the boot sector passes the sanity check and yields the formatter's own cluster count, FAT32 and root cluster 2 |
| `Formats.RunThroughNotSane` | EXP_IOT_CTRL_PROJECT/Utilities/efsl/source/mkfs.c:52-84 | If the loop ran through, the volume fails the sanity check |
| `Formats.FormattedEntries` | EXP_IOT_CTRL_PROJECT/Utilities/efsl/source/mkfs.c:142-150 | In both FAT copies: the two reserved entries, an end mark for cluster 2, zeros for all other entries there is room for |
| `Formats.FormattedFat` | EXP_IOT_CTRL_PROJECT/Utilities/efsl/source/mkfs.c:142-150 | If the sector count meets that condition, the FAT holds the chain [2] and every other cluster is free |
| `Formats.FormattedConsistent` | EXP_IOT_CTRL_PROJECT/Utilities/efsl/source/mkfs.c:37-153 | ... and the formatted volume is a consistent one without files, all clusters but the root directory's free |
| `Coverage.FatSectorsAre` | EXP_IOT_CTRL_PROJECT/Utilities/efsl/source/mkfs.c:54-74 | For the cluster size chosen the final FAT size is (ns - 32) / (128 c + 2), and one more if the remainder is at least c; it has room for all entries if and only if c <= remainder < 127 c + 2 |
| `Coverage.CoversIff` | EXP_IOT_CTRL_PROJECT/Utilities/efsl/source/mkfs.c:45-84 | The FAT has room for the entries of all clusters if and only if c <= (ns - 32) % (128 c + 2) < 127 c + 2 |
| `Formats.FormattedCovers` | EXP_IOT_CTRL_PROJECT/Utilities/efsl/source/mkfs.c:45-84 | The same for the mounted geometry |
| `Formats.EntryInBootSector` | EXP_IOT_CTRL_PROJECT/Utilities/efsl/source/fat.c:44-75 | Where it has not, the entry of the last cluster is looked for in the boot sector; that of the last cluster an allocation can take too exactly if the remainder is below c |
| `Formats.FatTooSmall` | EXP_IOT_CTRL_PROJECT/Utilities/efsl/source/mkfs.c:45-84 | An instance: 66722 sectors |
| `Mounts.Start` | EXP_IOT_CTRL_PROJECT/Utilities/efsl/source/mkfs.c:37-153 | Format, set up a cache, mount: a session on an empty consistent volume can begin, with any number of buffers, if the sector count meets that condition, and the FAT covers the clusters only then |
| `IoMan.IOManager.constructor` | EXP_IOT_CTRL_PROJECT/Utilities/efsl/source/ioman.c:41-71 | An empty cache stands for the device as it is, whatever the buffer memory and reference counts were |
| `IoMan.IOManager.FindSectorInCache` | EXP_IOT_CTRL_PROJECT/Utilities/efsl/source/ioman.c:295-303 | A valid slot with that sector, -1 exactly if there is none |
| `IoMan.IOManager.FindFreeSpot` | EXP_IOT_CTRL_PROJECT/Utilities/efsl/source/ioman.c:306-314 | An invalid slot, -1 exactly if there is none |
| `IoMan.IOManager.FindUnusedSpot` | EXP_IOT_CTRL_PROJECT/Utilities/efsl/source/ioman.c:317-345 | -1 exactly if every slot is in use; else an unused slot, a clean one if any is clean, of least reference count among its kind, the last of those |
| `IoMan.IOManager.Points` | EXP_IOT_CTRL_PROJECT/Utilities/efsl/source/ioman.c:354-361 | The eight-bit score never wraps and stays below the sentinel 0xFF |
| `Slots.ScoreInEightBits` | EXP_IOT_CTRL_PROJECT/Utilities/efsl/source/ioman.c:354-361 | Accumulated in eight bits from sixteen-bit products it is the exact score |
| `Slots.CleanFirst` | EXP_IOT_CTRL_PROJECT/Utilities/efsl/source/ioman.c:354-361 | No clean buffer scores worse than a dirty one |
| `IoMan.IOManager.FindOverallocableSpot` | EXP_IOT_CTRL_PROJECT/Utilities/efsl/source/ioman.c:348-367 | -1 exactly if every stack is full; else the first slot of least score among those with room |
| `IoMan.IOManager.FlushSector` | EXP_IOT_CTRL_PROJECT/Utilities/efsl/source/ioman.c:389-407 | A dirty slot's bytes go to its sector on the device; the represented map does not change |
| `IoMan.IOManager.GetSector` | EXP_IOT_CTRL_PROJECT/Utilities/efsl/source/ioman.c:446-498 | The buffer handed out holds the sector's current bytes, the represented map does not change, buffers held stay held; refused exactly if the sector is not cached, every buffer is in use and the stack is full; which slot is taken, its new header and what is written back, in every case, with use and reference counts that saturate at 255 |
| `IoMan.Modes` | EXP_IOT_CTRL_PROJECT/Utilities/efsl/source/ioman.c:446-498 | The modes the file system uses: reading never marks a buffer writable, with the exempt bit it is not counted; plain read-write marks and counts on every path |
| `IoMan.IOManager.ReleaseSector` | EXP_IOT_CTRL_PROJECT/Utilities/efsl/source/ioman.c:501-516 | With several buffers any hold can be given back, with one buffer any on the sector asked for last; the last use of an overallocated buffer brings back the saved sector number, status, use count and that sector's current bytes |
| `IoMan.IOManager.DirectSectorRead` | EXP_IOT_CTRL_PROJECT/Utilities/efsl/source/ioman.c:519-544 | The sector's current bytes whether cached or not; nothing changes in the represented map; which slot keeps them |
| `IoMan.IOManager.DirectSectorWrite` | EXP_IOT_CTRL_PROJECT/Utilities/efsl/source/ioman.c:547-574 | The represented map changes in that sector only, whether cached, cacheable or written through |
| `IoMan.IOManager.Store` | EXP_IOT_CTRL_PROJECT/Utilities/efsl/source/ioman.c:446-498 | A client's write through a buffer it holds (with one buffer: for the sector asked for last) changes the represented map in that sector only |
| `Slots.OverallocateOk` | EXP_IOT_CTRL_PROJECT/Utilities/efsl/source/ioman.c:478-495 | Saving a header and reusing the buffer loses no write and keeps cache and holds coherent |
| `Slots.PopOk` | EXP_IOT_CTRL_PROJECT/Utilities/efsl/source/ioman.c:195-207 | Bringing a saved header back does too, also if the same sector was requested at two depths |
| `Slots.CapacitySuffices` | EXP_IOT_CTRL_PROJECT/Utilities/efsl/source/ioman.c:446-498 | With fewer holds than buffers (or than stack slots plus one for a single buffer) a request is never refused |
| `Rooms.RoomIff` | EXP_IOT_CTRL_PROJECT/Utilities/efsl/source/ioman.c:446-498 | A request finds a buffer without reusing one in use among several, and is not refused by a single one, exactly if the sector is held or fewer sectors are held than there are buffers; with one buffer, if the sector is on top or the runs of holds on one sector are at most as many as the stack slots |
| `Rooms.UsageIs` | EXP_IOT_CTRL_PROJECT/Utilities/efsl/source/ioman.c:121-140 | The use count of a cached sector is the number of its holds; with one buffer, the length of the last run |
| `IoRuns.Run` | EXP_IOT_CTRL_PROJECT/Utilities/efsl/source/ioman.c:446-574 | For any number of buffers: every run of requests, stores and releases through any usable hold, and direct reads and writes, in which every request finds room, shows the clients what a flat sector map would show them, and after every one of them no sector is in two slots, clean slots equal the device and the device is current for every sector not cached |
| `IoRuns.ReadsLastWritten` | EXP_IOT_CTRL_PROJECT/Utilities/efsl/source/ioman.c:446-574 | On that map a request or direct read after any run gives the bytes last written to the address by any route |
| `IoRuns.Requested` | EXP_IOT_CTRL_PROJECT/Utilities/efsl/source/ioman.c:163-172 | The reference count of a cached sector grows by the number of requests without the exempt bit, up to 255 |
| `IoRuns.GivesWay` | EXP_IOT_CTRL_PROJECT/Utilities/efsl/source/ioman.c:317-345 | Of two sectors read through two buffers, a third one takes the place of the one with fewer counted requests, the second's if they are equal up to 255 |
| `Partitions.Partition.GetSect` | EXP_IOT_CTRL_PROJECT/Utilities/efsl/source/partition.c:117-120 | The partition's sector in a new buffer; partition, device around it and older buffers unchanged |
| `Partitions.Partition.DirectSectorWrite` | EXP_IOT_CTRL_PROJECT/Utilities/efsl/source/partition.c:146-151 | Changes that sector of the partition and nothing around the partition |
| `Limits.FullVolumeSucceeds` | EXP_IOT_CTRL_PROJECT/Utilities/efsl/source/fat.c:467-499 | On a full volume the allocation takes nothing and reports success for any request |
| `Limits.OneClusterForTwo` | EXP_IOT_CTRL_PROJECT/Utilities/efsl/source/fat.c:467-487 | A FAT where a request for two clusters takes one and reports success |
| `Limits.ShortWriteSize` | EXP_IOT_CTRL_PROJECT/Utilities/efsl/source/file.c:189-193 | After a write cut short by the end of the chain the size still fits the chain if and only if the write began at the end of the file |
| `Limits.BeyondTheEnd` | EXP_IOT_CTRL_PROJECT/Utilities/efsl/source/file.c:159-217 | A write at an offset beyond the file size: the size grows by its length only, so that data at or beyond the new size is not in the file |
| `Limits.WritesAsCountedIff` | EXP_IOT_CTRL_PROJECT/Utilities/efsl/source/file.c:159-217 | A complete write is the splice its allocation and new size are computed for, whatever the clusters held, if and only if offset <= FileSize or there is no data |
| `Limits.MarkedIff` | EXP_IOT_CTRL_PROJECT/Utilities/efsl/source/ioman.c:450-494 | Of a served request with the write bit the slot is marked writable if and only if the sector was cached, or a buffer in use was reused, or the mode is exactly read-write |
| `Limits.UnmarkedModes` | EXP_IOT_CTRL_PROJECT/Utilities/efsl/source/ioman.c:470-472 | Two modes with the write bit for which the mark is lost |
| `Limits.WriteWithoutClusters` | EXP_IOT_CTRL_PROJECT/Utilities/efsl/source/fat.c:456-462 | For a file without clusters the allocation reports success exactly if the number asked for is a multiple of 65536; then the data goes to the sector the 32-bit formula gives for cluster 0, in front of the data area |
| `Limits.WrittenIntoFat` | EXP_IOT_CTRL_PROJECT/Utilities/efsl/source/fs.c:235-253 | A volume and a write for which that sector is in the second FAT |
| `Limits.ThirdBuffer` | EXP_IOT_CTRL_PROJECT/Utilities/efsl/source/fat.c:481-485 | With one buffer and one stack slot, linking two clusters on FAT12 is refused a buffer exactly if the entry written continues in the next sector and the two entries are in different sectors |

## Left out

- STM32 drivers, LCD and I2C code, interrupt handlers, lwIP port and network configuration: register writes and foreign calls.
- The SD card interface: replaced by the block device of the model.
- Return codes of the flush functions, `ioman_flushRange` and `ioman_flushAll`: whether they go on past the first dirty slot depends on the convention of an interface that is not shown. The device write itself is modelled.
- IoMan.IOManager.GetSector: overallocation with two or more buffers is excluded; a hidden sector can be loaded again into another slot, so coherence is not a property of the code there.
- With one buffer, releasing or writing through another hold than those on the sector asked for last: the buffer shows that sector.
- Path and name handling (`fs_findFile`, `file_normalToFatName`, `file_validateChar`): operations of a session name a file by the place of its record; finding the record in a directory with clusters is modelled in `Search.dfy`.
- The fixed root area of FAT12 and FAT16 as a directory: the search covers only half of it and releases its last buffer twice.
- `dir_addCluster`, `mkdir`, `listFiles`, `ls`: directories of a session have a fixed set of sectors.
- `FreeClusterCount` as a meaningful quantity: its exact changes are in the contracts of AllocClusterChain and UnlinkClusterChain, but it does not track the free clusters.
- The second FAT copy in normal operation: only the first is written.
- Dates, times, error codes and debug output; `file_fclose` with time support.
- Files.File.FWrite: excludes a file without clusters whose write needs a nonzero multiple of 65536 clusters; what happens then is in Limits.WriteWithoutClusters and Limits.WrittenIntoFat.
- Runs.Play: calls for which there are too few clusters are outside the runs; one such call is described by Files.File.FWrite.
- OpenFiles.Play: the same.
- Sessions.Session.EditFile: the same; the clusters needed are those the edit's limit calls for.
- Searches.FindInDir: first clusters 0 and 1, which stand for the fixed root area, are not modelled.
- Mounts.Start: says nothing about the volume if the sector count does not meet the condition of Coverage.CoversIff; where the missing entries are then looked for is in Formats.EntryInBootSector.
