# FAT32 driver, block layer and keyboard console: a Dafny model

This project models the small FAT32 file system of the kernel (`src/fat32.c`), the two block layers it
runs on (`src/external/external-inserter.c` and `src/disk.c`), and the keyboard line editor with its
screen echo (`src/keyboard.c`, `src/framebuffer.c`), and proves what makes them correct.

**How it is laid out**

- `Bytes`, `Layout`: machine integers, the 32-byte directory entry (the short entry of section "FAT
  Directory Structure" of the Microsoft FAT32 File System Specification 1.03, with this system's
  changes), the 64-slot table and the 512-word FAT, with encoders and decoders that undo each other.
- `Chains`: the FAT as a linked structure (free list, allocation, chains, release).
- `Volume`: every driver call as a function on a value `Fs(fat, disk)`: the cached FAT and the clusters.
  A call yields a return code, the new cached FAT and the **log** of cluster writes in the order they
  reach the disk, so a power cut is a prefix of the log.
- `Codes`: what every call returns, by the slots of the parent's table and independent of how the calls search.
- `DiskFormat`: the same data as bytes: where every field lies, what formatting writes, and which bytes a
  call changes.
- `Tree`, `TreeSteps`, `TreeEdits`: the directory tree on the disk, ownership of clusters, the invariant
  `Inv`, and what each kind of cluster write does to the tree.
- `Safety`, `WriteProof`, `DeleteProof`, `Runs`, `PowerCuts`: crash safety, exact ownership and
  refinement, per call and over whole runs.
- `RoundTrips`, `DeleteTargets`, `Ownership`, `Accounting`: what one call means for the next, which entry a
  `delete` removes, who owns what, counting.
- `Traps`: for each promise of the file system that holds only under a condition, a run from a blank disk
  that ends where it fails.
- `BlockDevice`, `Driver`: the RAM disk and the driver itself as imperative code over a byte image, a FAT
  array and a directory buffer. Each method is proved equal to its function in `Volume`.
- `AtaDisk`: the port-driven block driver over a model drive, proved to agree with the RAM disk.
- `Console`, `Keyboard`: the line editor as a value with transitions, and the handlers that update the
  globals and arrays in place.

**What the state looks like to a user.** `View(s)` maps each live location (directory cluster, slot 1 to
63) to a node: a directory with its cluster, or a file with its name, extension and exact bytes.
`Safe(s)` is the invariant every run keeps, power cuts included. `Exact(s)` adds that no cluster is lost,
which every run without power cuts keeps.

**What callers must do** (`Runs.Fits`). The parent is a directory of the tree (or, for `write`, a cluster
whose FAT entry is zero, which is refused), and the unbounded scans have something to find: a free FAT
entry, `n + 1` of them for a file of `n` clusters, and a slot that is not live. The driver adds the size of
a file to the size it finds in the slot, so `Runs.Allowed` asks one thing more: the recorded size stands for
as many clusters as the file takes (`WriteProof.KeepsCount`). `WriteRefines` proves this guard exact: among
the calls that fit, the allowed ones are those after which the volume is safe. A call that only fits may
still be interrupted before its last cluster write. A slot whose recorded size is 0 (`FreshSlot`) always
qualifies, and is exactly what makes the stored bytes those of the buffer. The driver methods ask for less:
only what keeps their scans and table accesses inside the arrays. `read` and `read_directory` change neither
the disk nor the FAT, as their methods state, so runs do not list them.

**Where the promise does not hold as such**, the code is kept, the exact condition is proved, and `Traps`
reaches the failing case from a blank disk:

- A reused slot keeps the deleted file's size. `StoreSafeIff` and `StaleDelete`: when that makes the volume
  unsafe, and when a later `delete` walks past end-of-file off the table; `DeleteUndoesWrite`: when the FAT
  is restored; `RoundTripNeedsFreshSlot`: when `read` accepts the right buffers; `DeletedSlotIsStale`: when
  the slot is reused. `StaleTrap`: write, delete, write.
- Dead entries still match: `DeletedNameStillMatches`, `ReadOfDeletedFile`, and `ReadTrap` for a file of
  three clusters or more.
- `delete` compares a prefix: `DeleteCodes`, `DeleteReaches`, and `PrefixTrap` with "a" and "ab".
- Directories are never refused as duplicates: `MakeThenLookup` with `MakeTrap`, and `ReadReturnsNode` and
  `MakeHides` with `HideTrap`, a file that is still in the tree and cannot be read.
- The last round of a `write` looks one entry further than it needs: `AllocationBound`, `FreshCapacity`.
- A power cut can lose clusters: `WriteCutLeaks`, `DeleteCutLeaks`, and `Conservation` counts them.
- A row is 80 cells but columns count to 255, so a long text can overwrite itself: `PutsShows` with
  `NothingHidden` and `HidesItself`.
- A backspace on an empty line at column 0 climbs into the row above: `EchoRun`, and `InputAfterPuts` for
  every prompt.

**Where code and comments disagree, the code is followed.** `read` returns 2 for "not found" and -1 for
a buffer that is too small, where `src/header/filesystem/fat32.h:214` says 3 and 2; `read` copies whole
clusters, so the buffer must hold the size rounded up; only slot 0 of a new table is filled, although
`src/header/filesystem/fat32.h:147-148` announces a parent entry in slot 1; the size a full cluster adds
is written as `CLUSTER_MAP_SIZE * CLUSTER_BLOCK_COUNT`, which happens to be 2048.

## Model

| member | source | states |
|---|---|---|
| Runs.ReachableSafe | src/fat32.c:95-130 | every state of every run of allowed writes, deletes, remounts and power cuts after any cluster write, also of calls that only fit, from power-up on a blank disk, is safe; without power cuts it is exact |
| Runs.RunSafe | src/fat32.c:262-450 | crash safety over whole runs from any safe state |
| Runs.RunExact | src/fat32.c:262-450 | exact ownership over whole runs without power cuts |
| Runs.StepSafe | src/fat32.c:262-450 | one event keeps the volume safe; after a power cut the tree is the old one or the completed call's; a remount changes nothing |
| Runs.WriteRefines | src/fat32.c:262-367 | `write` adds exactly one binding, with the stored bytes, at an unused location, or changes nothing; when it succeeds; it keeps the volume safe, and loses no cluster, exactly when the call is allowed; into a slot without a size the stored bytes are the buffer's |
| Runs.WriteIsAtomic | src/fat32.c:301-363 | published last: for any slot, a cut before the last cluster write leaves a safe volume with the old tree, after it the completed call |
| Runs.WriteLogQuiet | src/fat32.c:325-363 | for any slot, every cluster write but the last goes to a free cluster or only allocates more |
| Runs.DeleteRefines | src/fat32.c:369-450 | `delete` removes exactly one binding or changes nothing |
| Runs.DeleteIsAtomic | src/fat32.c:417-436 | unpublished first: after the first cluster write the tree is already the new one |
| Runs.FormatExact | src/fat32.c:114-130 | formatting a blank disk gives an exact volume with an empty root and nothing else |
| Runs.FreshCapacity | src/fat32.c:325-336 | a fresh volume takes a file of any name in its root exactly up to 508 clusters; the names already in the table are refused with 1 |
| PowerCuts.WriteCutLeaks | src/fat32.c:301-363 | a cut in a successful `write` loses clusters exactly between the first FAT write and the publishing write, or at its end if the call was not allowed |
| PowerCuts.DeleteCutLeaks | src/fat32.c:403-407 | a cut in a successful `delete` loses clusters exactly between its two writes |
| Codes.ReadCodes | src/fat32.c:183-221 | for every volume and request: 2 exactly when no slot, live or dead, has the name and extension; otherwise the first that has gives 1 for a set directory bit, -1 for a buffer smaller than its size, 0 else |
| Codes.ReadDirectoryCodes | src/fat32.c:226-259 | for every volume and request: 2 exactly when the parent is free or no live slot has the name; otherwise the first live one that has gives 0 and its cluster for a directory, 1 else |
| Codes.WriteCodes | src/fat32.c:264-291 | 2 exactly when the parent is free on the disk, 1 exactly when it is not and a file meets a slot with its name and extension, else 0; failures write nothing; the cached table plays no part |
| Codes.WriteFills | src/fat32.c:293-363 | the last cluster write is the parent's table with the first unmarked slot filled and every other slot as it was |
| Codes.DeleteCodes | src/fat32.c:377-449 | 1 exactly when no live slot from 1 on is meant by the name; otherwise the first that is gives 2 for a directory with something live in slots 1 to 63, else 0 and exactly its location leaves the tree; failures change nothing |
| Codes.TargetIsFirstMeant | src/fat32.c:377-446 | the slot `delete` settles on is the first of slots 1 to 63 that is meant |
| Codes.CacheIsBelieved | src/fat32.c:203-433 | `read`, `read_directory` and `delete` go by the cached table, whatever the disk holds |
| Volume.HitIff | src/fat32.c:381-412 | the comparison over the C string's length accepts exactly the names that agree with every byte before the entry's first zero byte |
| DiskFormat.SlotOnDisk | src/header/filesystem/fat32.h:76-93 | every field of a directory entry at its byte offset, numbers with the low byte first; a slot is live exactly when byte 12 is 0xAA |
| DiskFormat.FatOnDisk | src/header/filesystem/fat32.h:51-54 | FAT entry c is the four bytes at 4c, low byte first |
| DiskFormat.SignedIff | src/fat32.c:107-112 | a disk counts as formatted exactly when its first block is the boot block, byte for byte |
| DiskFormat.FormattedImage | src/fat32.c:114-130 | every byte formatting writes, for any cached table: boot block, reserved FAT entries in front of the cached rest, the root's cluster; all else untouched |
| DiskFormat.StoredOnDisk | src/fat32.c:319-363 | a file write changes 19 bytes of one slot of the parent, the FAT, the clusters it takes, and no other byte of the disk |
| DiskFormat.MadeOnDisk | src/fat32.c:301-309 | `mkdir` writes the same 32 bytes into one slot of the parent and the start of a zeroed cluster, the FAT, and no other byte |
| DiskFormat.DeletedOnDisk | src/fat32.c:400-436 | `delete` clears the mark and sets the undelete flag of one slot, writes the FAT, and changes no other byte |
| Volume.LinkCount | src/fat32.c:201 | the 16-bit count is the ceiling modulo 65536, so exact only up to 65535 clusters |
| Safety.QuietState | src/fat32.c:325-361 | a disk that only saw writes to free clusters and allocating FATs mounts to the same tree |
| TreeEdits.Publish | src/fat32.c:363 | writing an entry into its parent table keeps the invariant and adds one node and its clusters |
| TreeEdits.Unpublish | src/fat32.c:400-404 | writing an entry back as dead keeps the invariant and removes one node and its clusters; a removed directory was empty, so no child is orphaned |
| TreeSteps.Frame | src/fat32.c:174-450 | changing clusters nobody uses keeps the invariant and every node |
| Tree.DirsUnique | src/fat32.c:298-310 | the directories are exactly the clusters reachable from cluster 2 |
| Tree.DirOwner | src/fat32.c:298-310 | a directory other than the root is owned by exactly one live entry |
| Tree.UsedIsAllocated | src/fat32.c:301-361 | every directory and every owned cluster has a non-zero FAT entry |
| Tree.ChainAvoidsDirs | src/fat32.c:325-361 | no file's chain runs through a directory |
| WriteProof.StoreFile | src/fat32.c:311-364 | a file write whose recorded size stands for the right number of clusters adds one node with the stored bytes |
| WriteProof.StoreFileNoLeak | src/fat32.c:325-361 | and every cluster it allocated belongs to that node |
| WriteProof.StoreSafeIff | src/fat32.c:318-363 | a file write keeps the volume safe, and exact if it was, exactly when the recorded size stands for the clusters the file took |
| WriteProof.FreshBytes | src/fat32.c:341-357 | the stored bytes are those of the buffer exactly when the slot carried no size |
| WriteProof.StagedChain | src/fat32.c:323-361 | the chain of the new entry starts at the recorded head and is the first n free clusters, ending in end-of-file |
| WriteProof.FileLogStores | src/fat32.c:325-361 | after i rounds the blocks are in their clusters and the FAT on disk links them |
| WriteProof.FileLogQuiet | src/fat32.c:325-361 | none of those rounds touches an allocated cluster |
| WriteProof.SizeOfFresh | src/fat32.c:341-347 | the recorded size, added up modulo 2^32, is the requested one exactly when the slot carried none |
| WriteProof.StoreDirectory | src/fat32.c:298-310 | making a directory adds one node and one directory cluster, the first free one, holding an empty table |
| WriteProof.StoreDirectoryNoLeak | src/fat32.c:298-310 | and leaks nothing |
| DeleteProof.DeleteRemovesOne | src/fat32.c:384-437 | a successful `delete` removes exactly its node |
| DeleteProof.DeleteNoLeak | src/fat32.c:399-436 | and gives every cluster of the entry back |
| DeleteProof.Unpublished | src/fat32.c:403-436 | between the two writes the entry is gone and the volume is safe |
| DeleteProof.MatchingIsBounded | src/fat32.c:381 | the comparison never leaves the 11 name and extension bytes of a live entry |
| DeleteProof.DeleteAlwaysFits | src/fat32.c:369-450 | on a safe volume `delete` never leaves the tables it walks |
| DeleteProof.FreedIsOwned | src/fat32.c:420-433 | the clusters it clears are exactly those the entry owns |
| RoundTrips.WriteThenRead | src/fat32.c:174-222 | into a fresh slot: `read` returns 0 and the same bytes, followed by zeros to the cluster boundary |
| RoundTrips.ReadAfterWrite | src/fat32.c:194-217 | after a file write into any slot: which buffers `read` accepts, and how many of the file's clusters it copies |
| RoundTrips.RoundTripNeedsFreshSlot | src/fat32.c:194-198 | `read` accepts exactly the buffers of at least the written size if and only if the slot was fresh, wrapped sizes included |
| RoundTrips.DeletedSlotIsStale | src/fat32.c:417-422 | the slot of a deleted file is the one the next write takes exactly when every earlier slot is live, and then it is not fresh |
| RoundTrips.DeletedNameStillMatches | src/fat32.c:186 | after a delete, `read` of the name is not "not found", and a file write of the name is refused |
| RoundTrips.ReadOfDeletedFile | src/fat32.c:201-215 | reading a deleted file stays inside the FAT exactly when it had at most two clusters |
| DeleteTargets.DeleteReaches | src/fat32.c:377-446 | `delete` of a live entry's own name removes that entry exactly when no earlier live slot is meant by the name (agrees with it up to its first zero byte, and for a file has the extension) and a directory holds nothing live |
| DeleteTargets.StaleDelete | src/fat32.c:417-433 | after a file write into any slot, `delete` of it stays inside the FAT exactly when the recorded size stands for no more clusters than the file took, and frees that many of them |
| DeleteTargets.DeleteUndoesWrite | src/fat32.c:417-433 | deleting a file just written, from any slot, restores the whole FAT in memory and on disk exactly when the recorded size stands for as many clusters as the file took |
| Traps.StaleTrap | src/fat32.c:341-422 | from a blank disk: write, delete, and write a file of another name, which returns 0; the volume is then safe, and `delete` of that file stays inside the FAT, exactly when both sizes together need no more clusters than the second, so never for a file of whole clusters |
| Traps.ReadTrap | src/fat32.c:201-215 | from a blank disk: write, delete, and read the same file, which returns 0 and stays inside the FAT exactly up to two clusters |
| Traps.PrefixTrap | src/fat32.c:381 | from a blank disk: "a" and "ab" are stored, and `delete` of "ab" succeeds, removes "a" and leaves "ab" |
| Traps.MakeTrap | src/fat32.c:283-309 | from a blank disk: two directories of one name are both in the tree, and `read_directory` only ever finds the first, or the root if it bears that name |
| Traps.HideTrap | src/fat32.c:186-191 | from a blank disk: two files, the first deleted, and a directory made under the name of the second; the second is still in the tree with its bytes, and `read` of it returns 1 |
| RoundTrips.SelfLookup | src/fat32.c:224-260 | a directory looked up in itself under its own name is found, with code 0 |
| RoundTrips.FoundIsDirectory | src/fat32.c:237-256 | what `read_directory` finds is a directory of the tree |
| RoundTrips.MakeThenLookup | src/fat32.c:293-309 | a new directory is found under its name exactly when no earlier entry bears it, and it is empty apart from slot 0 |
| Ownership.ExactOwnership | src/fat32.c:262-450 | in an exact volume every allocated cluster from 3 on has exactly one owner |
| Ownership.FileChain | src/fat32.c:420-428 | a live file's chain has ceil(filesize / 2048) climbing links ending in end-of-file |
| Ownership.OneParent | src/fat32.c:303-309 | a directory has one parent entry, which mirrors its own slot 0 |
| Ownership.UniqueFile | src/fat32.c:283-290 | in every state of every run two live files of a directory never share name and extension |
| Ownership.ReadReturnsNode | src/fat32.c:183-217 | `read` of a live file returns 1 exactly when an earlier slot, live or dead, is a directory's with its name and extension, else -1 for a buffer that is too small, and else 0 and exactly its node's bytes |
| Ownership.MakeHides | src/fat32.c:283-309 | making a directory keeps every file of the parent in the tree, and hides one that `read` found before exactly when it has the same name, no extension, and a later slot |
| Accounting.Conservation | src/fat32.c:399-433 | on every safe volume, allocated FAT entries >= 3 + live subdirectories + the sum of ceil(filesize / 2048) over live files, with equality exactly if no cluster is lost |
| Chains.AllocationRound | src/fat32.c:327-336 | the two scans of round i find exactly the i-th and the next entry of the free list |
| Chains.AllocationBound | src/fat32.c:325-336 | for every n: the n rounds of the loop run without a scan off the table exactly when n + 1 entries are free, and then link the first n free clusters |
| Chains.FirstFree | src/fat32.c:277-280 | where an unbounded scan for a free entry stops |
| Chains.FreeFacts | src/fat32.c:327-336 | the free list is increasing and holds exactly the free clusters |
| Chains.LinkedIsChain | src/fat32.c:338-346 | linking increasing clusters one to the next builds one well-formed chain |
| Chains.ChainWalk | src/fat32.c:424-428 | walking a well-formed chain visits distinct, increasing clusters inside the table, despite the 16-bit truncation |
| WriteProof.WalkPastEnd | src/fat32.c:424-428 | a walk along a chain stays inside the table exactly up to the chain's length |
| Chains.EndOf | src/fat32.c:332-340 | in a forward table following links from any cluster climbs and ends inside the table |
| Chains.FreeingUndoesLinking | src/fat32.c:430-433 | clearing a freshly linked chain restores the table |
| Chains.LinksIsCeiling | src/fat32.c:159-167 | `divceil` by the cluster size is the least sufficient number of clusters |
| Volume.ChainReadWalk | src/fat32.c:201-215 | on a well-formed chain the early exit of `read` never cuts it short |
| Volume.ChainReadCut | src/fat32.c:201-215 | asked for any number of links, `read` copies that many, or the whole chain if it is shorter |
| Volume.GatherBlocks | src/fat32.c:348-357 | the clusters of a file hold the buffer padded with zeros |
| Volume.FirstNamed | src/fat32.c:183-219 | the slot `read` and the duplicate check settle on: the first with the name and extension, live or not |
| Volume.FirstLiveNamed | src/fat32.c:237-256 | the slot `read_directory` settles on: the first live one with the name |
| Layout.TableRoundTrip | src/header/filesystem/fat32.h:76-99 | a directory table survives the trip to disk and back, and so does every cluster read as a table |
| Layout.FatRoundTrip | src/header/filesystem/fat32.h:51-54 | the same for the FAT |
| Layout.InitTable | src/fat32.c:142-157 | the self entry of a new table, all other slots untouched |
| Driver.Fat32Driver.Initialize | src/fat32.c:95-105 | format if the signature is missing, else load the FAT |
| Driver.Fat32Driver.IsEmptyStorage | src/fat32.c:107-112 | true exactly when block 0 does not hold the signature |
| Driver.Fat32Driver.CreateFat32 | src/fat32.c:114-130 | the image and the cached FAT after formatting |
| Driver.Fat32Driver.InitDirectoryTable | src/fat32.c:142-157 | slot 0 filled in place |
| Driver.Fat32Driver.ReadClusters | src/fat32.c:132-135 | for every 8-bit count, the count modulo 64 consecutive clusters are copied into the buffer |
| Driver.Fat32Driver.WriteClusters | src/fat32.c:137-140 | for every 8-bit count, the count modulo 64 consecutive clusters are replaced one after the other |
| Driver.Fat32Driver.ReadCluster | src/fat32.c:132-135 | one cluster copied into a buffer, as every caller asks |
| Driver.Fat32Driver.WriteCluster | src/fat32.c:137-140 | one cluster replaced, every other unchanged, and the write logged, as every caller asks |
| Driver.Fat32Driver.Write | src/fat32.c:262-367 | code, cached FAT, disk and log of cluster writes are those of the specified call |
| Driver.Fat32Driver.AddDirectory | src/fat32.c:298-310 | the directory branch |
| Driver.Fat32Driver.AddFile | src/fat32.c:311-364 | the file branch with its loop |
| Driver.Fat32Driver.StoreRound | src/fat32.c:325-361 | one round: the link, the size added, the block and then the FAT written |
| Driver.Fat32Driver.LastBlock | src/fat32.c:348-355 | the last block is the rest of the buffer and zeros |
| Driver.Fat32Driver.Clusterise | src/fat32.c:313-317 | the rounding of `write` agrees with `divceil` |
| Driver.Fat32Driver.ScanFree | src/fat32.c:277-280 | the scan over the FAT stops at the first free entry |
| Driver.Fat32Driver.ScanDead | src/fat32.c:293-296 | the scan over the table stops at the first slot that is not live |
| Driver.Fat32Driver.Delete | src/fat32.c:369-450 | code, cached FAT, disk and log are those of the specified call |
| Driver.Fat32Driver.RemoveDirectory | src/fat32.c:384-409 | refused with 2 and nothing written unless slots 1 to 63 are all dead |
| Driver.Fat32Driver.RemoveFile | src/fat32.c:412-438 | the entry written back as dead, then the chain cleared and the FAT written |
| Driver.Fat32Driver.ReleaseChain | src/fat32.c:421-433 | the two loops clear exactly the chain as it was |
| Driver.Fat32Driver.Read | src/fat32.c:174-222 | code and buffer are those of the specified call; disk and FAT are unchanged |
| Driver.Fat32Driver.CopyChain | src/fat32.c:204-215 | the copying loop |
| Driver.Fat32Driver.ReadDirectory | src/fat32.c:224-260 | code and buffer are those of the specified call; disk and FAT are unchanged |
| BlockDevice.PutCluster | src/fat32.c:132-140 | distinct clusters are disjoint byte ranges of the image |
| BlockDevice.PutClusters | src/fat32.c:137-140 | laying n clusters over the image is writing them one by one |
| BlockDevice.ClustersInARow | src/fat32.c:132-135 | a stretch of the image is its clusters one after the other |
| BlockDevice.ReadBlocks | src/external/external-inserter.c:13-21 | the buffer is overlaid with the addressed blocks |
| BlockDevice.WriteBlocks | src/external/external-inserter.c:23-31 | the image is overlaid with the buffer at the addressed blocks |
| AtaDisk.AddressSplits | src/disk.c:19-23 | the register values recombine to the address exactly when it fits 28 bits, and the drive register selects block addressing on the first drive |
| AtaDisk.Select | src/disk.c:19-24 | after the six port writes the drive is at the addressed block, ready for the transfer |
| AtaDisk.WriteBlocks | src/disk.c:37-54 | the drive ends up exactly as the RAM disk would |
| AtaDisk.ReadBlocks | src/disk.c:16-35 | the buffer ends up exactly as the RAM disk would fill it |
| AtaDisk.WritesAgree | src/disk.c:37-54 | a drive and a RAM disk holding the same bytes still do after the same write |
| AtaDisk.StoreThenLoad | src/disk.c:16-54 | for every block count, reading back what was written restores the buffer |
| Console.LineEditing | src/keyboard.c:114-168 | the C string delivered on Enter is the fold of push and pop over the mapped keys, and equals the pushes no later backspace is waiting for; nothing of an earlier line is delivered behind it |
| Console.TextFollowsEdits | src/keyboard.c:126-164 | at every point before Enter the line buffer is that fold |
| Console.KeptIsFold | src/keyboard.c:144-160 | editing from the left and reading off from the right give the same line |
| Console.KeyTables | src/keyboard.c:14-52 | both scancode tables are what is printed on the keys, for all 256 codes |
| Console.Cell | src/framebuffer.c:18-24 | low byte the character; high byte background and foreground, or all ones for characters from 128 on, whose sign is extended |
| Console.CellAddress | src/framebuffer.c:18-24 | rows and columns count modulo 256, a row is 80 cells |
| Console.EchoStep | src/keyboard.c:131-162 | one key keeps the screen row and the line buffer in step and touches no other cell, except a backspace on an empty line at column 0, which moves into the row above |
| Console.EchoRun | src/keyboard.c:131-162 | a whole stream leaves the cursor on its row exactly when the line starts at a non-zero column or in the top row or no backspace meets it empty; then the row shows exactly the buffered line and everything before it is untouched |
| Console.EnterAfter | src/keyboard.c:149-155 | Enter after a stream that kept its row: the cursor goes to column 0 of the next row, the column behind the line is remembered, the line is terminated and stays on the screen, and no cell changes |
| Console.EnterAnywhere | src/keyboard.c:149-155 | the same cursor and line facts in any state with input on |
| Console.BackspaceAnywhere | src/keyboard.c:131-148 | backspace in any state: where the cursor goes, the one cell it blanks, and that nothing else changes |
| Console.CharacterAnywhere | src/keyboard.c:156-162 | a character in any state: appended and drawn in white on black, the next cell blanked, and nothing else |
| Console.InputOff | src/keyboard.c:114-124 | with input off no key reaches the line or the screen |
| Console.TailUntouched | src/keyboard.c:63-67 | behind the greatest length of the line the buffer stays as it was |
| Console.InputAfterPuts | src/keyboard.c:170-186 | after `puts` of any text: when the row is in step; every stream of keys keeps it so unless the text ends in a newline, and then exactly those streams in which no backspace meets an empty line; a single backspace loses it |
| Console.PutsCursor | src/keyboard.c:170-186 | where the cursor is after any number of characters of `puts` |
| Console.PutsShows | src/keyboard.c:170-186 | `puts` of any text: every character but the newlines is on the screen at its row and column, in its colour, unless a later one touches its cell; the cell behind the last is blank; nothing else changes |
| Console.NothingHidden | src/keyboard.c:170-186 | a text that starts no further right than column 80 never touches a cell twice |
| Console.HidesItself | src/keyboard.c:170-186 | from column 82 it can |
| Console.PromptThenInput | src/keyboard.c:170-186 | after a one-row prompt the input starts behind it; its characters are on the screen, and what was printed before it is untouched |
| Console.ShortStreamsFit | src/keyboard.c:158-159 | a stream no longer than the buffer never overruns it |
| Keyboard.KeyboardDriver.KeyboardIsr | src/keyboard.c:114-168 | the globals, the line buffer and the screen after one interrupt |
| Keyboard.KeyboardDriver.KeyboardStateActivate | src/keyboard.c:63-67 | input on, line empty, buffer cleared |
| Keyboard.KeyboardDriver.GetKeyboardBuffer | src/keyboard.c:75-79 | the first 120 bytes are copied, the rest of the target is untouched |
| Keyboard.KeyboardDriver.PutString | src/keyboard.c:170-186 | the cursor and the screen after `puts` |
| Keyboard.KeyboardDriver.FramebufferWrite | src/framebuffer.c:18-24 | one cell, addressed by 8-bit row and column, gets the character and its attribute |

## Left out

- Power loss inside one cluster write, or inside formatting: a cluster write is one step, and runs start from a complete format.
- Parents that are not directories: a cluster with a non-zero FAT entry that is no directory of the tree is excluded from runs, since `write` would overwrite it as a table.
- Runs that go on after a completed file write whose recorded size stands for another number of clusters: the volume is then not safe, as `StoreSafeIff` proves.
- Scans that run off the FAT or the directory table: the bound is proved, what lies behind the arrays in memory is not modelled.
- Struct memory: FAT and tables are typed arrays that are encoded and decoded when they cross to the image, instead of being reinterpreted in place.
- `Driver.Fat32Driver.Write`: the caller's buffer is an immutable sequence, so aliasing between it and the driver's own state is not modelled.
- Console.Cell: colours keep their low four bits, as the 16-bit cell does; cursor ports and `framebuffer_clear` are left out.
- Keyboard port: both reads of the data port in one interrupt give the same scancode; the 256-byte copy made by the system call behind the line is not modelled.
- `puts` of 256 characters or more: its counter has 8 bits, so the loop never ends.
- ATA status polling, drive errors and the PIC acknowledgement: hardware effects; the drive model is always ready.
- Time stamps are carried in the directory entry and never read; `undelete` is set on deletion and never read.
- Paging, GDT, IDT, interrupt entry code, the user shell and the unfinished command parser.
- The inserter's `main`: standard input and output around one `write`.
