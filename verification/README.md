# exFAT and VFS cache core of the LiteOS kernel, in Dafny

A model of the exFAT driver (`fs/exfat`) and of the vnode and path caches (`fs/vfs`), with the claims its
documentation and code rest on proved for all inputs, all runs and all device failures the contracts name.

- **Volume.** The partition is one sequence of bytes. FAT, mirror and cluster heap are read off it by
  functions (`Layout`, `Chains`, `Bitmap`); `Volumes.Volume` holds the superblock fields and the in-memory
  bitmap. Every sector access may fail; a failed write leaves the device as it was. Failures are counted, so
  that contracts can say what holds when none occurred; what the directory routines count is bounded by it.
- **Clusters and files.** `Allocator` has the scan, allocation with rollback, release and chain walk;
  `Counting` the used count; `Files`, `FileIO` and `FileRuns` truncation, read, write, release and runs;
  `Contents` what a file's clusters hold and what a write makes of them; `FileSpec` the machine on values
  that runs without faults are shown to follow; `Mounts` the way from a boot sector to a mounted volume.
- **Directories.** `Dentries` has the 32-byte entries and their sets, `Directories` the view of a slot array
  as entries, `DirStore` and `DirChange` the routines that scan and change it, `DirMap` the refinement to a
  map from folded names, `Renames` the rename protocol. `DentryIO` reads and writes slots on the volume,
  `DirVolume` says what that means for directories in disjoint chains, and `DirStore.Store` is such a volume.
  Each slot write appends its state to a ghost history, so that claims range over every prefix of the writes.
- **Both.** `Whole` puts files and directories on one volume under one invariant and runs them together.
- **Formats.** `Boot`, `VolumeFlags`, `Checksum`, `Names`, `Unicode`, `Calendar`, `Timestamps`.
- **VFS.** `IntrusiveList` has the kernel's circular lists as pointers; `PathCaches` and `VnodeLists` are built
  on them, and `VnodeTable` on both.

## Findings

Where the code does not do what one would expect, the model follows the code and the exact condition is proved.

- A write that starts at or past the old end of a file, in a cluster that still holds bytes of it, wipes those
  bytes; a plain append is the common case (`Contents.WritePreservesIff`).
- Renaming a file to a name that folds to its own, when the directory entry does not yet name the first
  cluster the driver holds in memory, tombstones the only entry first; if the new set lands in the same slots
  it is tombstoned too, and the rename reports success. When no access fails, some prefix of the writes leaves
  the file under neither name exactly if the rename is such a clash and `Renames.Opens` holds; the file stays
  lost exactly if `Renames.Forfeits` does (`Renames.Rename`, `Renames.OntoSelf`, `Renames.ClashHappens`).
- After a failed write of the boot sector the in-memory flags have already changed, so the same request then
  succeeds without writing (`VolumeFlags.FailThenSucceed`).
- Civil time is exact only while the year fits an int (`Calendar.CivilRoundTrip`).
- A cluster count within two of 2^32 wraps and is accepted (`Boot.CountFits`, `Boot.WrapIsAccepted`).
- A slot past the end of a contiguous directory is read from, and written to, the next clusters of the volume
  (`DentryIO.GetDentry`, `DentryIO.SetDentry`, `DentryIO.FirstPastEnd`).
- With two FATs a failed mirror write leaves the first FAT changed and the mirror old (`Volumes.Volume.EntSet`).
- A rename builds the attributes of the entry anew from the source's type, so that others than directory and archive
  are lost (`Renames.Rename`, `Dentries.BuiltKind`).
- Hashing a vnode does not ask whether it is in a bucket already; a second insertion breaks the bucket it was in,
  be it another one or the same (`IntrusiveList.ListAddAgain`, `IntrusiveList.ListAddSame`).

## Model

| member | source | states |
|---|---|---|
| `FileRuns.Perform` | fs/exfat/exfat_file.c:1261-1554 | Over any script of truncate, write, read, unlink, create and mkdir on any number of files, with any device access failing: live chains are acyclic, pairwise disjoint, marked in the bitmap and as long as the size on disk demands, with one FAT always, with two unless a write failed; the table of live files changes as the script says; while no write fails the on-disk bitmap stays equal to memory; a run without any fault is code by code a run of the value machine of FileSpec and leaves the used count exact |
| `FileRuns.Step` | fs/exfat/exfat_file.c:1558-1600 | The same for each single operation |
| `FileSpec.RunNoSpaceIff` | fs/exfat/exfat_cluster.c:703-708 | Along every run an operation reports no space exactly when it asks for more clusters than are free then |
| `FileSpec.RunConserves` | fs/exfat/exfat_file.c:1261-1554 | Free clusters and clusters of files add up to the same over every run |
| `Files.FsInvSays` | fs/exfat/exfat_file.c:1253-1259 | What the invariant says of each file: distinct clusters of the heap, all marked, none in the on-disk bitmap, exactly ceil(size on disk / cluster size) of them, none shared with another file |
| `Files.Extend` | fs/exfat/exfat_file.c:1261-1384 | Growth keeps the old chain as a prefix and appends only clusters that were free, the first ones in cyclic order from the search pointer, as many as the new size needs beyond what is allocated; no file byte changes; which error for which input; ENOSPC only if the request exceeds the free clusters; a failure leaves the inode as it was, and bitmap and used count too unless a further access fails while it is undone |
| `Files.TailOf` | fs/exfat/exfat_file.c:1310-1330 | The bounded walk to the tail ends on the last cluster of the chain |
| `Files.LinkNew` | fs/exfat/exfat_file.c:1348-1367 | Linking the new chain to the old tail, or giving it back when the link fails, leaves every other file as it was |
| `Files.Shrink` | fs/exfat/exfat_file.c:1416-1554 | Cutting leaves exactly the prefix of the required length and clears exactly the bits of the rest; after a failure the inode is either unchanged or cut, and only bits of the rest are cleared |
| `Files.WalkTo` | fs/exfat/exfat_file.c:1390-1414 | The walk to the new tail ends on the cluster that many hops along the chain |
| `FileRuns.Truncate` | fs/exfat/exfat_file.c:1558-1595 | Which of growth, cut and nothing is done, what each makes of size, chain, free space, used count and on-disk bitmap, and which error for which input |
| `FileRuns.GrowAndCut` | fs/exfat/exfat_file.c:1261-1554 | Growing a file without spare clusters and cutting it back restores its chain, the bitmap, the used count and the sizes |
| `FileRuns.Release` | fs/exfat/exfat_inode.c:1676-1711 | Unlink frees exactly the file's chain and leaves every other file stored |
| `FileRuns.AllocNewDir` | fs/exfat/exfat_inode.c:864-910 | A new directory gets the first free cluster in cyclic order from the search pointer, zero-filled; a failure restores bitmap and used count unless a read of the rollback fails; no space only if none is free; data of clusters in use never changes |
| `FileIO.Read` | fs/exfat/exfat_file.c:849-957 | A read delivers exactly the bytes from the position up to the length or the end of the file, or after a fault a prefix of them, and advances the position by what it delivered |
| `FileIO.GetClusterAt` | fs/exfat/exfat_file.c:794-831 | The idx-th cluster of a chained or contiguous file |
| `FileIO.Write` | fs/exfat/exfat_file.c:1079-1249 | A write leaves the file's clusters holding the specified bytes, zero-filled tails included, changes no byte of any other file, and reports short counts after faults; without faults size, cluster count, free space and code are those of the value machine; which error for which input |
| `FileIO.WriteThenRead` | fs/exfat/exfat_file.c:849-1249 | Writing, going back and reading gives the bytes written |
| `Contents.WriteInPlace` | fs/exfat/exfat_file.c:1158-1222 | A write inside the file is a plain splice |
| `Contents.WritePreserves` | fs/exfat/exfat_file.c:1178-1185 | Bytes the file had and the write does not cover stay, unless the start lies at or past the old end in a cluster that still holds old bytes |
| `Contents.WritePreservesIff` | fs/exfat/exfat_file.c:1178-1185 | That condition is exact: where it fails there are files whose bytes are wiped |
| `Contents.WriteRound` | fs/exfat/exfat_file.c:1158-1222 | One round of the loop advances the written prefix by its chunk and touches no other cluster |
| `Contents.CountForFits` | fs/exfat/exfat_file.c:1253-1259 | The cluster count is the least number of clusters that hold the bytes |
| `Allocator.AllocCluster` | fs/exfat/exfat_cluster.c:684-801 | A success takes exactly n distinct clusters that were free, as an end-marked chain, namely the first n free ones in cyclic order from the cluster the descriptor names, else from the search pointer, else from the first cluster, and changes no other bit or FAT entry; a failure restores used count, search pointer and descriptor, and the bitmap unless a read fails after the rollback has begun; no space exactly when n exceeds the free count; while no write fails the on-disk bitmap stays equal to memory, whatever the outcome |
| `Allocator.AllocStep` | fs/exfat/exfat_cluster.c:726-781 | One round keeps what was built a chain of formerly free clusters, or rolls everything back unless a read fails after the rollback has begun |
| `Allocator.Rollback` | fs/exfat/exfat_cluster.c:653-680 | The rollback clears bits of the chain under construction and of the orphan and of nothing else, all of them when no FAT read fails, and keeps the on-disk bitmap equal to memory when no write fails |
| `Allocator.FindFree` | fs/exfat/exfat_cluster.c:612-651 | The scan returns the first free cluster in cyclic order from the hint, and fails exactly when none is free |
| `Allocator.ScanReaches` | fs/exfat/exfat_cluster.c:634-647 | The cyclic scan visits every data cluster, each at one position |
| `Allocator.FreeCluster` | fs/exfat/exfat_cluster.c:509-575 | Freeing clears exactly the chain's bits, a prefix of them after a fault, and keeps an exact used count exact |
| `Allocator.ChainWalk` | fs/exfat/exfat_cluster.c:180-223 | An always-continuing walk succeeds only along a chain that ends, visiting it in order, once; the bound is never hit on such a chain, and a cyclic FAT gives an I/O error |
| `Counting.CountUsed` | fs/exfat/exfat_cluster.c:432-460 | The byte table with the tail mask counts exactly the marked data clusters |
| `Counting.MaskKeeps` | fs/exfat/exfat_cluster.c:453-456 | Masking the last byte keeps exactly its lowest digits |
| `Counting.OnesOfByte` | fs/exfat/exfat_cluster.c:47-64 | The table holds the number of ones of each byte |
| `Chains.ChainDistinct` | fs/exfat/exfat_cluster.c:90-160 | A FAT chain that ends never repeats a cluster |
| `Chains.CyclicIsNoChain` | fs/exfat/exfat_cluster.c:203-222 | Links that come back to a cluster belong to no chain, so the walk along them cannot succeed |
| `Chains.ChainBound` | fs/exfat/exfat_cluster.c:634-634 | No chain is longer than the number of data clusters |
| `Chains.ChainJoin` | fs/exfat/exfat_file.c:1351-1351 | Linking a tail to the head of a disjoint chain joins them |
| `Chains.ChainCut` | fs/exfat/exfat_file.c:1506-1506 | Ending a chain in the middle leaves two chains |
| `Volumes.Volume.GetNext` | fs/exfat/exfat_cluster.c:90-161 | A FAT entry is read as next cluster, end of chain or error, with reserved, free, bad and out-of-range values told apart |
| `Volumes.Volume.EntSet` | fs/exfat/exfat_cluster.c:247-328 | Setting an entry changes that entry and no other, and no cluster byte; the mirror stays equal; a failure before the first write changes nothing, and with two FATs a failure of the second write leaves the first FAT changed and the mirror as it was |
| `Volumes.Volume.StoreBit` | fs/exfat/exfat_cluster.c:464-495 | The in-memory bit changes whether or not its sector is written; a successful write keeps disk and memory equal and touches no user data |
| `Volumes.Volume.SetBitmap` | fs/exfat/exfat_cluster.c:579-610 | Range check, then the bit and its sector |
| `Volumes.Volume.ClearBitmap` | fs/exfat/exfat_cluster.c:464-495 | Range check, then the bit and its sector |
| `Volumes.Volume.ZeroCluster` | fs/exfat/exfat_inode.c:805-850 | A success leaves the cluster all zero; no other cluster changes either way |
| `Layout.EntryWrite` | fs/exfat/exfat_cluster.c:285-305 | Replacing an entry's four bytes changes that FAT entry and no cluster |
| `Layout.ClusterWrite` | fs/exfat/exfat_file.c:329-344 | Writing inside a cluster changes that stretch of that cluster and no FAT entry |
| `Boot.Parse` | fs/exfat/exfat_module.c:542-622 | The parser accepts exactly the sectors whose fields meet its checks |
| `Boot.LaidIsRead` | fs/exfat/exfat_module.c:542-622 | The fields that the parser reads are those a formatter lays out as section 3.1 of the exFAT file system specification says, whatever the other bytes are |
| `Boot.AcceptedGeometry` | fs/exfat/exfat_module.c:610-619 | An accepted sector describes FATs with an entry for every cluster, and regions that are apart |
| `Boot.RegionsApart` | fs/exfat/exfat_module.c:590-619 | Each cluster's FAT entry lies inside its FAT; first FAT, mirror and every cluster occupy disjoint sectors |
| `Boot.CountFits` | fs/exfat/exfat_module.c:596-596 | The cluster count plus two does not wrap exactly up to the 32-bit limit |
| `Boot.WrapIsAccepted` | fs/exfat/exfat_module.c:596-619 | A sector whose count wraps to zero passes every check |
| `Mounts.Mount` | fs/exfat/exfat_cluster.c:352-411 | A mount succeeds exactly if the boot sector passes every check, the bitmap its entry describes covers the clusters and can be read, and then makes a volume of the geometry in the sector that meets the invariant all other operations need, with the in-memory bitmap equal to the one on disk and an exact used count |
| `DentryIO.GetDentry` | fs/exfat/exfat_file.c:69-149 | The entry read is slot i of the directory's bytes; past the end a chained directory gives an error, and a contiguous one gives the bytes of the cluster that many further on exactly if that is in the heap and no read fails |
| `DentryIO.SetDentry` | fs/exfat/exfat_file.c:268-349 | Writing slot i makes the directory's slots the old ones with slot i replaced, and changes 32 bytes of one cluster; past the end of a contiguous directory that cluster is none of its own |
| `DentryIO.FirstPastEnd` | fs/exfat/exfat_file.c:104-108 | The first slot past the end of a contiguous directory is the first one of the next cluster on the volume |
| `DirVolume.SetSlot` | fs/exfat/exfat_file.c:268-349 | On a volume whose directories lie in disjoint chains, a slot write changes one slot of one directory and no cluster outside them |
| `DirVolume.GetSlot` | fs/exfat/exfat_file.c:69-149 | A slot read delivers the slot of that directory, for slots it has |
| `DirVolume.ReadSet` | fs/exfat/exfat_file.c:162-217 | On any directory, without a failed read, a set is returned exactly if the slots from there on make one, also where they run past the end of a contiguous directory into the next clusters |
| `DirVolume.SetInside` | fs/exfat/exfat_file.c:162-217 | For a set inside its directory that is the set of the directory; it differs only for a contiguous directory within 19 slots of its end |
| `DirStore.Store.Set` | fs/exfat/exfat_file.c:268-349 | The state the directory routines are proved on is what the volume's clusters hold, after every slot write |
| `DentryIO.OtherSlots` | fs/exfat/exfat_file.c:268-349 | Any other slot, read through any chain, is as before |
| `VolumeFlags.Flags.Mark` | fs/exfat/exfat_module.c:507-530 | Only the dirty bit changes, latched flags stay, the boot buffer agrees with the flags; after a success disk and memory agree exactly if this call changed the flags or they agreed before |
| `VolumeFlags.Flags.SetFlags` | fs/exfat/exfat_module.c:472-495 | Latched flags are merged in, and the buffer differs from the mounted sector in the two flag bytes only |
| `VolumeFlags.FailThenSucceed` | fs/exfat/exfat_module.c:479-495 | After a failed write the same request succeeds without writing, and the disk stays unmarked |
| `VolumeFlags.Flags.Toggle` | fs/exfat/exfat_module.c:507-530 | All of this holds after any sequence of marks with any writes failing; the last mark decides the flag, and the disk has it unless a write failed |
| `VolumeFlags.VerifyBootRegion` | fs/exfat/exfat_super.c:101-144 | Verification succeeds exactly when all twelve sectors can be read and sector 11 repeats the sum of sectors 0 to 10 |
| `VolumeFlags.DirtyKeepsVerified` | fs/exfat/exfat_super.c:113-123 | After any marks the region on disk verifies exactly if it did at mount |
| `Checksum.Calc16` | fs/exfat/exfat_module.c:79-92 | The loop computes the fold over the covered bytes of the step that Step16Rotates describes |
| `Checksum.Step16Rotates` | fs/exfat/exfat_module.c:86-90 | A step adds the byte, modulo 2^16, to the word whose bit k is bit k + 1 of the sum and whose top bit is its bit 0, and there is only one such word |
| `Checksum.CoveredIs` | fs/exfat/exfat_module.c:64-92 | Left out are exactly bytes 2 and 3 of a directory set, and bytes 106, 107 and 112 of a boot sector |
| `Checksum.Calc32` | fs/exfat/exfat_module.c:64-77 | The loop computes the fold over the covered bytes of the step that Step32Rotates describes |
| `Checksum.Step32Rotates` | fs/exfat/exfat_module.c:71-76 | The same rotation in 32 bits |
| `Checksum.ChunkedIsWhole` | fs/exfat/exfat_inode.c:1066-1080 | Summing a set entry by entry, each seeded with the sum so far, gives the sum of the whole set |
| `Checksum.SkippedDoNotMatter` | fs/exfat/exfat_module.c:71-73 | Bytes the checksum leaves out do not influence it |
| `Dentries.BuiltIsValid` | fs/exfat/exfat_inode.c:922-1094 | For every name of 1 to 255 units the written set has 2 + ceil(len/15) entries, passes the whole-set checksum, and gives back name, first cluster and size |
| `Dentries.BuiltTextIff` | fs/exfat/exfat_inode.c:2268-2300 | The rename extractor gives the name back exactly if it holds no zero unit |
| `Dentries.ExtractName` | fs/exfat/exfat_inode.c:174-216 | The lookup extractor accepts exactly the sets of the right shape and returns the name they carry |
| `Dentries.ExtractText` | fs/exfat/exfat_inode.c:2268-2300 | The rename extractor returns the units up to the first zero or the length limit |
| `DirChange.RefreshedValid` | fs/exfat/exfat_inode.c:2738-2755 | New times and a new checksum keep a valid set valid |
| `DirChange.RefreshedBytes` | fs/exfat/exfat_inode.c:1981-2004 | Besides the times and the checksum every byte of the file entry is what it was |
| `DirChange.SyncMetadata` | fs/exfat/exfat_inode.c:2701-2768 | After every write, and at the end, one slot differs at most: the file entry of the set, valid before and after, has the new times and the checksum that goes with them, and no directory shows a different entry; without faults it succeeds exactly if a valid set is there |
| `DirStore.Lookup` | fs/exfat/exfat_inode.c:350-411 | The scan that skips whole sets and stops at the first unused slot or at the bound returns the first matching live entry; not found only if none matches, nothing failed and no set is broken |
| `DirStore.Store.GetSet` | fs/exfat/exfat_file.c:162-217 | A set is returned exactly if it starts with a file entry and its announced secondary entries are all there |
| `DirStore.Validate` | fs/exfat/exfat_file.c:226-251 | A set passes exactly if its stored checksum is that of the whole set |
| `DirMap.LookupMap` | fs/exfat/exfat_inode.c:350-411 | A lookup returns what the directory's map says for the folded name |
| `DirMap.CreateMap` | fs/exfat/exfat_inode.c:1107-1247 | At every stage of creating an absent name the map is the old one or has gained exactly that key |
| `DirMap.UnlinkMap` | fs/exfat/exfat_inode.c:1574-1641 | At every stage of an unlink's writes the map has lost exactly that key |
| `DirMap.Do` | fs/exfat/exfat_inode.c:1107-1247 | One lookup, creation or removal steps the map as its result says, and unless an access fails the result is the one that the name, the slots and the sets of the directory call for; the set of a created name is the one asked for, kind and hash included |
| `DirMap.Session` | fs/exfat/exfat_inode.c:1107-1247 | Any session on a directory follows the map step by step, each result for its reason, whatever accesses fail |
| `DirChange.AllocSlot` | fs/exfat/exfat_file.c:399-463 | The window returned is the leftmost of n reusable slots with no unused slot before it; no space only if there is none |
| `DirChange.AddEntry` | fs/exfat/exfat_inode.c:1107-1247 | At every slot write the directory shows what it showed or has gained exactly the new entry; a success has gained it and written exactly the built set into the leftmost window; no live entry is hidden behind the terminator |
| `Dentries.BuiltKind` | fs/exfat/exfat_inode.c:922-974 | The set of a directory has the directory attribute and the flag of a contiguous run, that of a file the archive attribute and the flag of a chain; the stamp, the name length and hash and the valid size are those given |
| `DirChange.WriteSet` | fs/exfat/exfat_inode.c:922-1094 | The same for the writes of the two init functions alone |
| `DirChange.Unlink` | fs/exfat/exfat_inode.c:1604-1641 | From the first tombstone on the directory has lost exactly the entry, and nothing else; a success has cleared the in-use bit of every entry of the set and changed no other byte; without faults it succeeds exactly on a valid set |
| `Dentries.TombstoneKeeps` | fs/exfat/exfat_inode.c:1628-1632 | Setting the in-use bit again brings a deleted entry back |
| `Directories.FillView` | fs/exfat/exfat_file.c:399-463 | Filling a window of reusable slots keeps every other entry and the terminator |
| `Directories.DeleteView` | fs/exfat/exfat_inode.c:1627-1634 | Tombstoning a set removes its entry and keeps the terminator |
| `Names.Compare` | fs/exfat/exfat_nls.c:253-293 | Zero exactly for names equal after folding, otherwise the sign of their dictionary order |
| `Names.FoldIsByCharacter` | fs/exfat/exfat_nls.c:271-274 | Folding the units of a text folds its characters: those of the basic plane by the table, the others not at all |
| `Names.BeforeTransitive` | fs/exfat/exfat_nls.c:270-290 | The order is transitive |
| `Names.BeforeTotal` | fs/exfat/exfat_nls.c:270-290 | The order is total |
| `Renames.Rename` | fs/exfat/exfat_inode.c:2302-2617 | After every prefix of the slot writes the old or the new name still shows the file in front of the terminator, and success moves exactly that key, unless the rename is a clash; without faults that every-prefix property fails exactly if the rename is a clash and Opens: the scan reaches what answers to the new name, and it may be overwritten; the file is lost for good and success reported exactly if moreover no room for the new set lies before the old one; outside a clash success is exactly Opens with room for the new set; after every write and at the end every entry of every directory that is not under the old name in the one or the new name in the other is at its slot, and none but the new one appears; directories other than the two and those that hold their own sets keep every slot; each of the codes success, not a directory, is a directory, not empty, no space and I/O error is returned exactly for its reason in the directories as they were, a failed access standing for any; a refused rename writes nothing, one without room has only taken the target away; on success the new set has the source's kind, the hash of the name and, but for refreshed times, every byte it was built with, and the parents' own sets have the new times |
| `Renames.FramedMaps` | fs/exfat/exfat_inode.c:2302-2617 | So under any other name every directory delivers what it delivered, whatever became of the rename |
| `Renames.KeptIsFound` | fs/exfat/exfat_inode.c:2529-2617 | When disk and memory agree, every such state delivers the source's first cluster and size under the old or the new name |
| `Renames.LookupDelivered` | fs/exfat/exfat_inode.c:350-411 | Where a name is delivered, the lookup scan finds it unless an access fails, and never another file |
| `Renames.ClashHappens` | fs/exfat/exfat_inode.c:2481-2487 | A sound directory of one cluster and a rename in it that meets the conditions for losing the file |
| `Renames.OntoSelf` | fs/exfat/exfat_inode.c:2529-2617 | When the target found is the source itself and no access fails, something is written, and the outcome is success with the file gone if the new set lands on the old one, else an error with the file under the new name |
| `Renames.Resolve` | fs/exfat/exfat_inode.c:2409-2493 | The scan for the target finds the entry that answers to the folded name, if any |
| `Renames.CheckEmpty` | fs/exfat/exfat_inode.c:2501-2526 | An overwritten directory passes only if it holds no file entry |
| `Renames.SetArchive` | fs/exfat/exfat_inode.c:2571-2591 | Setting the archive bit of a renamed file writes the bytes already there |
| `Renames.PerformActs` | fs/exfat/exfat_inode.c:2302-2617 | Over any run of lookups, creations, removals and renames, time refreshes included, every directory stays terminated, with unique folded names that both extractors read alike, and each act has made of the directories what its code says and has left every entry it does not name, each result for its reason in the directories before; the count of failed accesses before and after each act is one of the device |
| `Whole.Perform` | fs/exfat/exfat_file.c:1558-1600 | Over any script of file operations, directory operations and new directories on one volume, with any device access failing: no cluster ever belongs to two of the files and directories, every directory stays sound, and each operation changes what it names and no byte of any other file, no entry of any other directory; a write leaves the written bytes over the old ones, a change of size only appends or cuts off clusters; a file operation during which the device fails no access has sizes, cluster counts, free space and code as the machine of FileSpec says, and a directory operation then succeeds unless names, slots or free space forbid it; with one FAT always, with two unless a write failed |
| `Whole.OnFiles` | fs/exfat/exfat_file.c:1079-1600 | A file operation changes no slot of any directory and no byte of any other file, makes of its own file what was written or cut, and without faults follows the machine whatever directories there are |
| `Whole.Act` | fs/exfat/exfat_inode.c:2302-2617 | A directory operation changes no byte of any file, no size and no free space, and makes of the directories what its code says; while the device fails no access it succeeds unless names or slots forbid it |
| `Whole.Mkdir` | fs/exfat/exfat_inode.c:1107-1324 | Slots are found, a cluster is taken from the free space, the entry written and the parent's times refreshed: on success the parent has gained exactly the name and there is one directory more, of unused slots, in the first free cluster from the search pointer, marked in its set as a directory in a contiguous run, with one free cluster less; on failure nothing has changed, or a failed write has left the name; the result is the one that the name, the slots, the sets and the free space call for, unless an access fails |
| `Unicode.GrammarExact` | fs/exfat/exfat_nls.c:153-241 | The UTF-8 decoder accepts exactly the octet strings of section 4 of RFC 3629 |
| `Unicode.Utf8Exact` | fs/exfat/exfat_nls.c:153-241 | It accepts exactly the encodings of scalar values (section 3 of RFC 3629) and reads off those values |
| `Unicode.Utf16Exact` | fs/exfat/exfat_nls.c:70-141 | The UTF-16 reader accepts exactly the encodings of sections 2.1 and 2.2 of RFC 2781 |
| `Unicode.Utf8RoundTrip` | fs/exfat/exfat_nls.c:70-241 | UTF-8 to UTF-16 and back is the identity on well-formed input |
| `Unicode.Utf16RoundTrip` | fs/exfat/exfat_nls.c:70-241 | UTF-16 to UTF-8 and back is the identity on well-formed input |
| `Unicode.Utf8ToUni` | fs/exfat/exfat_nls.c:153-241 | The loop fills the array with the UTF-16 form, and reports malformed input and a short buffer |
| `Unicode.UniToUtf8` | fs/exfat/exfat_nls.c:70-141 | The loop fills the array with the UTF-8 form, and reports malformed input and a short buffer |
| `Calendar.CivilIsTheCalendar` | fs/exfat/exfat_inode.c:1727-1754 | The formula starts at 1970-01-01 and advances day by day through the Gregorian calendar |
| `Calendar.CivilRoundTrip` | fs/exfat/exfat_inode.c:1727-1773 | Seconds to civil time and back is the identity exactly while the year fits an int, and gives valid days |
| `Calendar.CivilRoundTripBack` | fs/exfat/exfat_inode.c:1727-1773 | Civil time to seconds and back is the identity on every valid time from 1970 on whose year fits an int |
| `Timestamps.MtimeRoundTrip` | fs/exfat/exfat_inode.c:1829-1907 | Modify and create times survive the disk format to the second, clamped to its range |
| `Timestamps.AtimeRoundTrip` | fs/exfat/exfat_inode.c:1819-1907 | Access times come back clamped and rounded down to an even second |
| `Timestamps.StampRoundTrip` | fs/exfat/exfat_inode.c:1829-1907 | Loading a stamp as this driver writes it and storing it again gives the same fields |
| `Timestamps.ZonedStamp` | fs/exfat/exfat_inode.c:1885-1907 | A stamp of local time within sixteen hours of UTC, with its zone in quarters of an hour, is decoded to the same instant, clamped, the odd second being the one the hundredths carry, whatever the time offset of the mount |
| `Timestamps.UnzonedStamp` | fs/exfat/exfat_inode.c:1885-1907 | A stamp without a zone is decoded as local time of the mount, whose offset is in minutes |
| `Timestamps.EveryStamp` | fs/exfat/exfat_inode.c:1851-1883 | A stamp that is no time of the calendar gives the earliest time; any other is the packed form of some second, so that the two cases above are all there are |
| `Timestamps.AcceptsIsValid` | fs/exfat/exfat_inode.c:1864-1882 | The decoder's day check is the calendar's |
| `IntrusiveList.ListAdd` | kernel/include/los_list.h:188-194 | Insertion after a node of a ring gives the ring with the new node in that place |
| `IntrusiveList.ListTailInsert` | kernel/include/los_list.h:215-218 | The node becomes the last item behind the header |
| `IntrusiveList.ListHeadInsert` | kernel/include/los_list.h:239-242 | The node becomes the first item behind the header |
| `IntrusiveList.ListDelete` | kernel/include/los_list.h:263-269 | The ring is as before without the node, which points nowhere |
| `IntrusiveList.InsertThenDelete` | kernel/include/los_list.h:188-269 | Deleting what was inserted gives the list back |
| `IntrusiveList.Lists.Insert` | kernel/include/los_list.h:239-242 | Among lists that share no node, insertion changes one of them and leaves the others linked |
| `IntrusiveList.Lists.Append` | kernel/include/los_list.h:215-218 | So does insertion at the tail |
| `IntrusiveList.Lists.Unhook` | kernel/include/los_list.h:263-269 | So does deletion, also of a node alone in its ring; the node is then in no list |
| `IntrusiveList.ListAddAgain` | kernel/include/los_list.h:188-194 | Inserting a node that is in another list breaks that list |
| `IntrusiveList.ListAddSame` | kernel/include/los_list.h:239-242 | Inserting a node that is in the same list leaves no list behind the header |
| `PathCaches.Cache.Alloc` | fs/vfs/path_cache.c:112-145 | An entry is made exactly if the name is not too long and there is memory; it is the newest of the log, and its three nodes head the rings of its bucket, its parent and its child |
| `PathCaches.Cache.Free` | fs/vfs/path_cache.c:147-160 | The entry leaves the log and its nodes leave all three rings, and nothing else does |
| `PathCaches.Cache.Lookup` | fs/vfs/path_cache.c:162-177 | A lookup returns the child of the newest live entry for the parent and name |
| `PathCaches.Cache.FreeAll` | fs/vfs/path_cache.c:179-197 | Freeing entries while walking their ring frees exactly the entries it had |
| `PathCaches.Cache.Purge` | fs/vfs/path_cache.c:179-206 | After a purge the log lacks exactly the entries that start from the vnode or lead to it |
| `PathCaches.BucketFinds` | fs/vfs/path_cache.c:162-177 | Searching one bucket finds what searching the whole log would |
| `PathCaches.PurgedIsGone` | fs/vfs/path_cache.c:199-206 | After a purge no lookup starts from the vnode and none returns it |
| `PathCaches.EntryPlaces` | fs/vfs/path_cache.c:106-145 | Each live entry is in exactly its bucket, its parent's child list and its child's parent list |
| `PathCaches.NewestAfterFree` | fs/vfs/path_cache.c:147-177 | Freeing an entry changes a lookup only if it was the newest for that name |
| `VnodeLists.Racks.Push` | fs/vfs/vnode.c:157-211 | A vnode on no list becomes the first of one of the three rings, and nothing else moves |
| `VnodeLists.Racks.Append` | fs/vfs/vnode.c:157-166 | Or the last |
| `VnodeLists.Racks.Remove` | fs/vfs/vnode.c:194-194 | A vnode leaves its ring, and nothing else moves |
| `VnodeLists.Racks.Unhash` | fs/vfs/vnode.c:193-193 | Deleting the hash node takes the vnode out of the one bucket it is in, or out of none |
| `VnodeLists.Racks.HashInsert` | fs/vfs/vnode_hash.c:128-138 | The vnode's node heads the ring of its bucket, and every other ring is as before |
| `VnodeLists.Racks.PointsToItself` | fs/vfs/vnode.c:158-158 | A hash node points to itself exactly if its vnode is in no bucket |
| `VnodeTable.Table.Free` | fs/vfs/vnode.c:180-217 | A vnode in use is refused; otherwise it leaves its list, its hash bucket and the path cache, and goes to the head of the free list unless it is a device vnode |
| `VnodeTable.Table.GetFromFree` | fs/vfs/vnode.c:82-99 | The head of the free list, none exactly if it is empty |
| `VnodeTable.Table.FreeIdle` | fs/vfs/vnode.c:107-120 | Walking the ring of active vnodes and freeing on the way, exactly the first idle ones up to the limit are freed, in its order; the path cache and the buckets lose exactly what those had there |
| `VnodeTable.Table.Reclaim` | fs/vfs/vnode.c:101-132 | The first up to ten idle vnodes in LRU order are freed and the last of them handed out; none exactly if none is idle |
| `VnodeTable.Table.Alloc` | fs/vfs/vnode.c:134-178 | The vnode handed out is the head of the free list, else a new one below the maximum if there is memory, else the last of the first ten idle ones, which are freed; only then do path cache and buckets lose anything; it is clean and heads the virtual list or ends the active one; none exactly if none is free, none can be made and none is idle |
| `VnodeTable.AllGone` | fs/vfs/vnode.c:189-192 | What sweeping leaves: the cache entries that mention none of the freed vnodes, and the other vnodes in the buckets |
| `VnodeTable.Table.Refresh` | fs/vfs/vnode.c:322-330 | The vnode becomes the most recently used |
| `VnodeTable.Table.ClearCache` | fs/vfs/vnode.c:755-776 | Exactly the idle vnodes of the active list are freed |
| `VnodeTable.Table.HashInsert` | fs/vfs/vnode_hash.c:128-138 | The vnode heads its bucket, and free vnodes stay in none |
| `VnodeTable.Table.Perform` | fs/vfs/vnode.c:82-217 | Over any run that allocates, frees, uses, mounts, names, hashes and reclaims vnodes, each stays in exactly one ring, every ring stays linked, the free counter counts the free list, and free vnodes are in no bucket and no cache entry; each operation does to the lists, their order, the buckets, the path cache, the total and the references what the value machine Moves says |

## Left out

- Concurrency: mutexes and spin locks; each locked section is one step.
- Memory: buffers are values, so aliasing and heap-allocation failures inside helpers are not modelled, except where a vnode or a path cache entry is allocated.
- Volume sizes: at most 0x10000000 data clusters, the bound of the source's scans; file sizes then stay far below 2^64 and their arithmetic does not wrap.
- Device: a failed sector write is taken to leave the device unchanged.
- Bitmap placement: the on-disk bitmap is a run of consecutive clusters, as the source addresses it.
- Mounts.Mount: takes the partition to reach to the end of the cluster heap and the bitmap to lie in the heap, which the source does not check; what the bitmap's entry in the root directory says is a parameter.
- Volume-dirty bracket around truncation: in `Files` it is a step that may fail; its effect on the flags is in `VolumeFlags`.
- Write-back of sizes and first clusters to the stream entry: the driver does none after a write or truncation, so chain invariants range over in-memory inodes.
- The clusters of an overwritten rename target are released as in `FileRuns.Release`; `Renames` covers the directory writes only.
- Names reach `DirChange.AddEntry` and `Renames.Rename` decoded; decoding is `Unicode`. They are C strings, hence without zero units.
- Name hash: computed as the source does, without up-casing, and used by no scan.
- Up-case table: assumed to have its 65536 entries; loading it is not modelled.
- DirStore.Store.GetSet: a set that runs past the end of a contiguous directory counts as unreadable, where the source reads on; the exact result there is `DirVolume.ReadSet`.
- Renames.Rename: the slots of an overwritten directory are those of the directory that starts at its first cluster, whatever size its entry gives; if none of the directories at hand does, it counts as unreadable.
- Whole.Perform: directories are given as inodes whose size is known, and cluster sizes fit the 32 bits the superblock has for them; a file and its directory entry are changed by separate operations of a script.
- Directory readdir, attribute changes, statfs, unmount and mount options.
- Growth of a directory: the directories of a `DirStore.Store` keep their clusters.
- VnodeTable.Table.HashInsert: takes a vnode that is in no bucket, as every caller does right after allocating it; what the source does otherwise is `IntrusiveList.ListAddAgain` and `IntrusiveList.ListAddSame`.
- VnodeLists.Racks.HashInsert: the same.
- Wiping a freed vnode and initialising its path cache lists again when it is handed out: both lists are empty throughout.
- VFS path walking, mount crossing, and the file-system callback that runs when a vnode is freed.
- VfsHashGet and VfsHashRemove: a bucket search and the removal that freeing a vnode performs anyway.
- LOS_ListAddList and the other splicing helpers of the list header.
- System calls, console and other kernel modules.
