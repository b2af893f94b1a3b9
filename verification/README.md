# File systems of the AqeousOS kernel, modelled and proved in Dafny

Four independent stacks of the kernel's file-system layer, each as loops over in-place buffers
the way the C code has them, with the abstract state they keep:

- **The inode file system** (`ext2/fs.c`, `ext2/fs.h`). `Layout` gives the on-disk format: 512-byte
  blocks of bytes, inode records, indirect blocks and the allocation bitmap, and what they mean
  (`Image`). `BlockTree` says who owns which block: `owner` is the inverse of "the block at position
  p of inode i". `FileData` reads an inode as a byte sequence (`Content`). `InodeCache` is the
  reference-counted cache as a state machine over its calls. `FileSystem` is the class: raw disk and
  cache slots, methods `Balloc` ... `Writei`, and `Valid()`, which every method keeps. `Path`
  (`skipelem`), `Directory` (records and the map they denote), `Names` (`dirlookup`, `dirlink`) and
  `Namex` (path walking) stand on it.
- **The FAT reader** (`fat/fat.c`, the branch without `MODE_EXFAT`). `Fat` has the cluster-chain
  cursor and the 12/16/32-bit entries, `LongNames` the state machine that reassembles long names. The
  format is Microsoft's "FAT: General Overview of On-Disk Format", version 1.03, sections "FAT Data
  Structure" and "FAT Long Directory Entries".
- **The ext2 block bitmap and block tree** (`ext2/ext2_fs.c`), module `Ext2`. The tree is the `i_block`
  scheme of "The Second Extended File System: Internal Layout", section "i_block".
- **AqFS 2 extents** (`AqFS/`). `AqAllocator` is the allocation table, `AqFiles` the header page and
  extents of a file on the disk, `Aqfs` the operations, with a ghost map from sectors to owners.

Method contracts say which function of the old state the new state is, or which outcome is returned
and exactly when; lemmas say what those functions and predicates mean.

Places where the code does not do what its format or its own reading side promises; the model
follows the code, and each has its exact condition:

- `ext2_inode_entry_blocks` takes the locations for the doubly indirect part from offset 12 again
  instead of 268, so what it stores reads back only if no doubly indirect block is needed, or the
  list repeats itself there (`Ext2.RoundTripExactly`, `Ext2.RoundTripUpTo268`); 269 distinct locations
  are the smallest list that fails (`Ext2.RoundTripFailsAt269`). With exactly 12 blocks, and for no other
  number, it also spends a block on an empty indirect block (`Ext2.TwelveWastesOne`).
- Formatting hands the AqFS allocator as many sectors as the whole partition has, starting behind the
  tables, so an extent lies inside the partition exactly if enough went out before it
  (`AqAllocator.InsidePartition`), and the very first sector, the root directory's, never does
  (`AqAllocator.RootOutside`).
- The long-name checksum is taken after a first byte 0x05 was replaced by 0xe5, so a file whose short
  name begins with that byte never gets its long name (`LongNames.FoundUnlessFive`, and one such pair of
  entries in `LongNames.FiveLosesItsName`).
- FAT32 entries are compared with all 32 bits, although the high four are reserved
  (`Fat.ReservedBits`): the chain is followed exactly as far as the entries are clean
  (`Fat.WalksAgree`), and at the first that is not, a read comes back short (`Fat.ReservedBitsCutShort`;
  `Fat.ReservedBitsLoseCluster` for the entry 0x10000003).
- Whether a piece of a file was read is only seen by the global `errno`, which nothing in `fat.c` clears, so after
  any failed read the next read of data in a cluster chain fails too (`Fat.ReadWorksExactly`, and one such read in `Fat.OldErrorFailsRead`).
- `dirlink` keeps the low 16 bits of an inode number, so its success binds the name to that inode exactly
  for numbers between 0 and 65536 (`Names.DirlinkBinds`): 65536 binds nothing, 65537 binds inode 1.
- A path walk is not always the lookup of its components one after the other: letting go of a directory
  can free it, if nothing else keeps it, and coming back to it is a panic; so is a free inode under a name
  (`Namex.LoneGoesAway`, `Namex.ParentIsFree`). A walk ends where the path leads exactly if none of its
  stations is free, locked or gone by then, and none lacks whole records or a cache slot where the walk
  needs them (`Namex.RunEndsExactly`); `Namex.RunFreesExactly` says which inodes it frees.

## Model

| member | source | states |
|---|---|---|
| Layout.InodeRoundTrip | Kernel/Source/FileSystem/ext2/fs.h:32-39 | decoding the 64 bytes of an encoded inode gives every field back, the thirteen addresses included |
| Layout.DecodeSpells | Kernel/Source/FileSystem/ext2/fs.h:31-39 | each field of a record is the little-endian number in its own bytes: type 0-1, major 2-3, minor 4-5, links 6-7, size 8-11, address k from byte 12 + 4k on |
| Layout.WordsAre | Kernel/Source/FileSystem/ext2/fs.c:373-376 | entry k of an indirect block is the number in its bytes 4k to 4k + 3 |
| Layout.PutRecordUpdates | Kernel/Source/FileSystem/ext2/fs.c:213-221 | writing record inum%IPB of an inode block changes that record and none of the other seven |
| Layout.SetWordUpdates | Kernel/Source/FileSystem/ext2/fs.c:373-376 | `a[bn] = addr` in an indirect block changes that entry and no other of the 128 |
| Layout.BitUpdates | Kernel/Source/FileSystem/ext2/fs.c:66-68 | setting or clearing bit bi of a block changes that bit and no other |
| Layout.TestBitIs | Kernel/Source/FileSystem/ext2/fs.c:64-66 | bit bi of a block is binary digit bi % 8 of its byte bi / 8, counted from the lowest |
| Layout.BitOnDisk | Kernel/Source/FileSystem/ext2/fs.h:47-51 | block b is in use exactly if digit b % 8 of the disk's byte 512 * bmapstart + b / 8 is 1 |
| Layout.InodeOnDisk | Kernel/Source/FileSystem/ext2/fs.h:41-45 | inode i is the 64 bytes of the disk from 512 * inodestart + 64 * i on, field by field |
| Layout.PutBitRefines | Kernel/Source/FileSystem/ext2/fs.c:89-94 | changing one bit in the raw bitmap block is exactly changing one block's state in the abstract disk |
| Layout.PutInodeRefines | Kernel/Source/FileSystem/ext2/fs.c:208-221 | writing one raw inode record is exactly changing one inode of the abstract disk |
| BlockTree.NoSharingNoLeak | Kernel/Source/FileSystem/ext2/fs.c:56-96 | under the invariant, no two positions (direct, indirect pointer, indirect entry) of any inodes hold the same block, and a bit above the metadata is set if and only if some position holds that block |
| BlockTree.PutGood | Kernel/Source/FileSystem/ext2/fs.c:360-378 | allocating the first free block into an empty position keeps ownership exact and touches no other inode |
| BlockTree.FilledStored | Kernel/Source/FileSystem/ext2/fs.c:360-378 | an empty position gets the first free block and a filled one changes nothing at all; owners and the blocks of all other inodes stay |
| BlockTree.BmapFills | Kernel/Source/FileSystem/ext2/fs.c:354-382 | after bmap the block is mapped (with its indirect block), every position mapped before is unchanged, ownership holds |
| BlockTree.BmapGrows | Kernel/Source/FileSystem/ext2/fs.c:354-382 | mapping the block right behind the mapped ones gives a file with exactly one block more and no hole |
| BlockTree.BmapCost | Kernel/Source/FileSystem/ext2/fs.c:354-382 | mapping a block works exactly if as many blocks are free as it costs (none, one, or two with the indirect block), and free blocks and those of the file stay the same in sum |
| BlockTree.TruncatedGood | Kernel/Source/FileSystem/ext2/fs.c:389-417 | clearing exactly one inode's blocks and its addresses keeps ownership exact for all the others |
| BlockTree.ClearOne | Kernel/Source/FileSystem/ext2/fs.c:395-412 | the next block itrunc frees is still marked in use, so "freeing free block" cannot happen, and freeing it clears exactly that block |
| FileData.SpliceReadBack | Kernel/Source/FileSystem/ext2/fs.c:432-490 | reading back a written range gives what was written; every byte before and behind it is unchanged |
| FileData.OthersKeep | Kernel/Source/FileSystem/ext2/fs.c:460-490 | what touches only blocks of inode i leaves inode record, block map and bytes of every other inode unchanged |
| FileData.BytesAfterBmap | Kernel/Source/FileSystem/ext2/fs.c:354-382 | bmap does not change a byte in any block that was mapped before |
| FileData.WriteStep | Kernel/Source/FileSystem/ext2/fs.c:476-482 | one round of writei's loop turns a file with the first part of src in place into one with the next part in place too |
| FileData.WritingDone | Kernel/Source/FileSystem/ext2/fs.c:484-489 | when all of src is in place and the size is the larger of the old size and off+n, the content is the old one with src spliced in at off |
| InodeCache.StepKeepsInv | Kernel/Source/FileSystem/ext2/fs.c:229-334 | each of iget, idup, ilock, iunlock, iput keeps: at most one slot in use per (dev, inum), `ref` is the number of handles, every handle finds its inode in its slot, only slots in use are locked |
| InodeCache.EveryRunIsSafe | Kernel/Source/FileSystem/ext2/fs.c:158-334 | that holds after every interleaving of those calls |
| InodeCache.RecycledOnlyWhenFree | Kernel/Source/FileSystem/ext2/fs.c:247-259 | a slot comes to stand for another inode only at ref 0, when nobody holds a handle on it |
| InodeCache.LockIsExclusive | Kernel/Source/FileSystem/ext2/fs.c:275-311 | while a slot is locked no step locks it again, and it stays locked until an unlock of it |
| InodeCache.OnlyILockLocks | Kernel/Source/FileSystem/ext2/fs.c:275-300 | a slot becomes locked by ilock on it and by nothing else |
| InodeCache.GetKeepsInv | Kernel/Source/FileSystem/ext2/fs.c:229-262 | iget, by cache hit or by recycling, adds exactly one handle and keeps the cache's invariant |
| FileSystem.EmptyDisk | Kernel/Source/FileSystem/ext2/fs.h:11-16 | a disk with no inode in use and only its metadata marked taken satisfies the disk invariant |
| FileSystem.NoHoles | Kernel/Source/FileSystem/ext2/fs.c:354-382 | in every valid state a file's block bn is mapped if and only if bn*BSIZE is below the file's size |
| FileSystem.FileByteOnDisk | Kernel/Source/FileSystem/ext2/fs.c:354-382 | byte x of a file is byte x % 512 of the disk block whose number is address x / 512 of the inode, or behind the first twelve the number at that place of the indirect block |
| FileSystem.FileSystem.constructor | Kernel/Source/FileSystem/ext2/fs.c:163-181 | an empty cache on a disk in order is a valid state |
| FileSystem.FileSystem.Balloc | Kernel/Source/FileSystem/ext2/fs.c:56-78 | takes the lowest free block, sets its bit and zeroes it; panics if and only if no block is free |
| FileSystem.FileSystem.Bfree | Kernel/Source/FileSystem/ext2/fs.c:81-96 | clears exactly the block's bit; panics if and only if it was clear |
| FileSystem.FileSystem.Iupdate | Kernel/Source/FileSystem/ext2/fs.c:208-224 | the inode's record on disk becomes the copy in memory, nothing else changes |
| FileSystem.FileSystem.SetFields | Kernel/Source/FileSystem/ext2/fs.c:208-224 | changing link count, major and minor number of a locked inode in memory and writing it back keeps the whole invariant, every content, and every other inode |
| FileSystem.FileSystem.Bmap | Kernel/Source/FileSystem/ext2/fs.c:354-382 | returns the block mapped at bn, mapping it (and the indirect block) first if needed; changes nothing if it was mapped; panics exactly if bn is out of range or blocks run out |
| FileSystem.FileSystem.Itrunc | Kernel/Source/FileSystem/ext2/fs.c:389-417 | never panics; the bits cleared are exactly those of the inode's data blocks and indirect block; size and addresses become 0 in memory and on disk |
| FileSystem.FileSystem.Iget | Kernel/Source/FileSystem/ext2/fs.c:229-262 | the slot already holding the inode gets one reference more, else the first free slot is recycled; panics only with every slot in use; it is the IGet step of the cache |
| FileSystem.FileSystem.Idup | Kernel/Source/FileSystem/ext2/fs.c:264-272 | one reference and one handle more, the IDup step of the cache |
| FileSystem.FileSystem.Ilock | Kernel/Source/FileSystem/ext2/fs.c:275-300 | locks the slot, which then holds the record on disk, as the ILock step of the cache; waits exactly if the lock is taken; panics exactly for a null pointer, a slot nobody refers to, or a record just read that has type 0 |
| FileSystem.FileSystem.Iunlock | Kernel/Source/FileSystem/ext2/fs.c:303-311 | unlocks a locked slot, as the IUnlock step of the cache; panics exactly for a null pointer, an unlocked slot or one nobody refers to |
| FileSystem.FileSystem.Ialloc | Kernel/Source/FileSystem/ext2/fs.c:185-205 | the first free record becomes one of the type asked for with no links, no bytes and no blocks, all other files untouched, and a handle on it is returned; panics exactly if there is no free record or no slot |
| FileSystem.FileSystem.Iput | Kernel/Source/FileSystem/ext2/fs.c:319-334 | drops one reference, as the IPut step of the cache; the last one of an unlinked valid inode also frees exactly its blocks and its record, every other file unchanged; otherwise the disk is untouched |
| FileSystem.FileSystem.Readi | Kernel/Source/FileSystem/ext2/fs.c:432-456 | for an offset inside the file or at its end, without wrap-around: returns the smaller of the count asked for and what is left, and exactly those bytes, over any number of blocks; -1 otherwise; allocates nothing and changes nothing |
| FileSystem.FileSystem.Writei | Kernel/Source/FileSystem/ext2/fs.c:460-490 | accepts exactly offsets up to the end whose range does not wrap and stays below 140 blocks, -1 otherwise with nothing changed; splices src into the file at off, leaves every other inode and its bytes unchanged, keeps the whole invariant, and leaves the cached inode equal to its record on disk; panics exactly if fewer blocks are free than the file needs on top of its own |
| FileSystem.FileSystem.WriteLoop | Kernel/Source/FileSystem/ext2/fs.c:476-482 | the loop puts all of src in place block by block, or runs out exactly if there are too few blocks |
| FileSystem.FileSystem.FinishWrite | Kernel/Source/FileSystem/ext2/fs.c:484-489 | writing the inode back only when the size grew still leaves memory and disk equal |
| Path.Skipelem | Kernel/Source/FileSystem/ext2/fs.c:574-597 | the name is the first 14 bytes, with a NUL behind fewer, of the first run of bytes other than '/'; the rest starts at the next such run, or is empty; null exactly if the path has nothing but slashes; in terms of components, it takes off the first one |
| Path.ComponentsElement | Kernel/Source/FileSystem/ext2/fs.c:583-596 | removing an element in front removes the first component and no other |
| Path.ComponentsOfJoin | Kernel/Source/FileSystem/ext2/fs.c:559-572 | the components of /a/b/c are a, b and c, each as a directory keeps it |
| Path.CutIsCanon | Kernel/Source/FileSystem/ext2/fs.c:588-593 | what is kept of a path element is what a directory keeps of a name: its first 14 bytes |
| Path.SameIsCanon | Kernel/Source/FileSystem/ext2/fs.c:495-499 | strncmp over 14 bytes says "equal" exactly if the names agree up to their NUL or 14th byte |
| Path.PaddedName | Kernel/Source/FileSystem/ext2/fs.c:551-552 | a name stored with strncpy into 14 bytes reads back as the name cut to 14 bytes |
| Directory.FindIsLookup | Kernel/Source/FileSystem/ext2/fs.c:503-526 | scanning for a name finds exactly what the directory's map holds, for every name |
| Directory.EntryPlace | Kernel/Source/FileSystem/ext2/fs.h:53-59 | record k of a directory is the 16 bytes from 16k on: inode number in two, name in fourteen |
| Directory.LinkedMap | Kernel/Source/FileSystem/ext2/fs.c:543-556 | putting a record for a new name into an empty slot or at the end adds exactly that binding |
| Directory.SplicedEntries | Kernel/Source/FileSystem/ext2/fs.c:551-556 | splicing an encoded record into the directory's bytes replaces or appends that record and no other |
| Names.Dirlookup | Kernel/Source/FileSystem/ext2/fs.c:503-526 | returns a counted handle on the inode of the first live record with the name and its offset, null if there is none, and panics exactly for a non-directory, a partial last record, or no free slot |
| Names.Dirlink | Kernel/Source/FileSystem/ext2/fs.c:530-557 | an existing name is refused with -1 and nothing changed; a new one becomes a record, every other file unchanged and references balanced; the outcome, each of the five panics included, is a function of the state before |
| Names.DirlinkRefinesMap | Kernel/Source/FileSystem/ext2/fs.c:530-557 | on the map of names, for the 16-bit number that is stored: refusal exactly for bound names, otherwise exactly one binding more (none if the number is 0), names stay distinct |
| Names.DirlinkBinds | Kernel/Source/FileSystem/ext2/fs.c:530-557 | for any 32-bit number and a new name: the directory then binds the name to that number if and only if it lies strictly between 0 and 65536 |
| Names.Dirlink65536BindsNothing | Kernel/Source/FileSystem/ext2/fs.c:551-556 | with 65536 the directory's map stays as it was |
| Names.Dirlink65537BindsOne | Kernel/Source/FileSystem/ext2/fs.c:551-556 | with 65537 the name is bound to inode 1 |
| Namex.WalkViaParent | Kernel/Source/FileSystem/ext2/fs.c:603-649 | namei(p) is the lookup of p's last component in nameiparent(p), for every graph of directories |
| Namex.WalkAppend | Kernel/Source/FileSystem/ext2/fs.c:612-632 | walking a concatenated path is walking on from where the first part ends |
| Namex.RunReachesTarget | Kernel/Source/FileSystem/ext2/fs.c:612-636 | a walk that neither panics nor waits ends where the path leads in the graph as it was at the start, whatever it freed on its way |
| Namex.RunFreesOnlyLone | Kernel/Source/FileSystem/ext2/fs.c:319-334 | a walk frees only inodes that no link and no other handle keeps |
| Namex.RunEndsExactly | Kernel/Source/FileSystem/ext2/fs.c:612-636 | a walk ends where the path leads if and only if no station of the path has its lock taken, is free, was freed earlier on the walk, lacks the name with its last record cut short, or finds no cache slot for what the name stands for |
| Namex.RunFreesExactly | Kernel/Source/FileSystem/ext2/fs.c:612-636 | such a walk frees an inode if and only if it leaves it, no link names it and nobody else holds it |
| Namex.RunUndisturbedExactly | Kernel/Source/FileSystem/ext2/fs.c:612-636 | so a walk ends where the path leads without writing the disk if and only if nothing holds it up and it leaves no such inode |
| Namex.ParentIsFree | Kernel/Source/FileSystem/ext2/fs.c:275-300 | from a removed directory whose ".." names a freed inode, a longer path through ".." panics, where lookup finds nothing |
| Namex.LoneGoesAway | Kernel/Source/FileSystem/ext2/fs.c:319-334 | going twice into a directory that only the walk holds panics, where lookup finds an inode |
| Namex.RoomIs | Kernel/Source/FileSystem/ext2/fs.c:229-262 | the walk finds no slot for an inode exactly if nobody holds it, it is not where the walk stands, and the cache was full before (but for at most one slot, if the walk itself needs one) |
| Namex.BusyIs | Kernel/Source/FileSystem/ext2/fs.c:275-284 | the slot the walk stands on is locked exactly if somebody had that inode locked before |
| Namex.Descend | Kernel/Source/FileSystem/ext2/fs.c:613-631 | one round of the loop is one step of the walk: the lock of this inode is taken, it is free, not a directory, the place to stop, without the name, or there is no slot, or on to the next inode with one handle on it |
| Namex.Namex | Kernel/Source/FileSystem/ext2/fs.c:603-636 | from any state whose directories name inodes inside the table, the outcome is a function of that state: the walk over the components from root or current directory (one short with `parent`, and the last component in name), or its panic, or waiting for a lock on the path; one reference more on the result, none on a failing path; the inodes freed are those the walk frees, and with none the disk is not written |
| Namex.Namei | Kernel/Source/FileSystem/ext2/fs.c:638-643 | the same for a whole path; what it returns is where the path leads in the graph before the call |
| Namex.Nameiparent | Kernel/Source/FileSystem/ext2/fs.c:645-649 | the same for the parent directory, with the last component |
| Namex.Follow | Kernel/Source/FileSystem/ext2/fs.c:612-636 | the loop ends as the walk over the graph does, with references balanced and no lock changed |
| Namex.PathStarts | Kernel/Source/FileSystem/ext2/fs.c:607-610 | a path with a leading slash starts at inode 1, any other at the current directory |
| Fat.JunkIsIrrelevant | Kernel/Source/FileSystem/fat/fat.c:500-517 | reading two bytes into a 32-bit variable: whatever its upper half held does not affect the decoded entry |
| Fat.Fat12Decodes | Kernel/Source/FileSystem/fat/fat.c:485-517 | for any 12-bit values packed two per three bytes, reading at c + c/2, shifting for odd c and masking gives the c-th value |
| Fat.Fat16Decodes | Kernel/Source/FileSystem/fat/fat.c:485-517 | for 16-bit values stored one behind the other, the entry of cluster c decodes to the c-th |
| Fat.Fat32Decodes | Kernel/Source/FileSystem/fat/fat.c:485-517 | the same for 32-bit values |
| Fat.FollowOnDisk12 | Kernel/Source/FileSystem/fat/fat.c:484-530 | the step from cluster c reads the two bytes of the disk at c + c/2 behind the FAT's start, and takes the upper or lower twelve bits of their number |
| Fat.FollowOnDisk16 | Kernel/Source/FileSystem/fat/fat.c:484-530 | the same from the two bytes at 2c |
| Fat.FollowOnDisk32 | Kernel/Source/FileSystem/fat/fat.c:484-530 | the same from the four bytes at 4c |
| Fat.LinkIs | Kernel/Source/FileSystem/fat/fat.c:522-530 | a number from the end mark on ends the chain; below it, one from 2 up to the number of clusters continues it, any other breaks it |
| Fat.ReservedBits | Kernel/Source/FileSystem/fat/fat.c:505-530 | ignoring the reserved high bits of a FAT32 entry would give the same step exactly if they are zero or the chain ends there |
| Fat.WalksAgree | Kernel/Source/FileSystem/fat/fat.c:505-530 | the reader's chain is that of the format up to a cluster exactly if every entry before it has no reserved bit set or ends the chain |
| Fat.ReservedBitsCutShort | Kernel/Source/FileSystem/fat/fat.c:505-560 | at the first other entry a read ends with that cluster, although the format's chain does not end there |
| Fat.ReservedBitsLoseCluster | Kernel/Source/FileSystem/fat/fat.c:505-560 | on one volume, entry 0x10000003 makes a read of two clusters stop after one |
| Fat.WalkStuck | Kernel/Source/FileSystem/fat/fat.c:522-530 | a chain that has ended or broken stays so for every later cluster |
| Fat.ShiftParts | Kernel/Source/FileSystem/fat/fat.c:464-468 | logical cluster and offset inside it make up the file offset |
| Fat.ClusterPlace | Kernel/Source/FileSystem/fat/fat.c:538-540 | cluster c >= 2 lies c - 2 clusters behind the first data sector, if that is in 32 bits |
| Fat.ClustersAdjoin | Kernel/Source/FileSystem/fat/fat.c:538-540 | cluster 2 is at the first data sector, and each cluster begins where the one before it ends |
| Fat.FilePlace | Kernel/Source/FileSystem/fat/fat.c:464-552 | byte x of a file is the byte of the disk at the place of its cluster number x / size, plus the rest |
| Fat.ReadFromMeans | Kernel/Source/FileSystem/fat/fat.c:476-560 | a successful read returns the file's bytes in order, and fewer than asked only where the chain ends |
| Fat.ReadWorksExactly | Kernel/Source/FileSystem/fat/fat.c:476-560 | a read succeeds exactly if every byte asked for can be read or lies behind the end of the chain, and no error was left over from before, unless there is nothing to read |
| Fat.ReadDataMeans | Kernel/Source/FileSystem/fat/fat.c:438-560 | by file offsets: a read succeeds exactly if every byte asked for can be read or is behind the end and no error is left over, unless it has nothing to read; it returns the file's bytes from the offset on, fewer only at the end |
| Fat.RootMeans | Kernel/Source/FileSystem/fat/fat.c:450-463 | the root directory of FAT12 and FAT16: its bytes from the offset on, cut at its last sector; failure exactly beyond the disk |
| Fat.OldErrorFailsRead | Kernel/Source/FileSystem/fat/fat.c:547-550 | on that volume, a read that works fails with an error left over |
| Fat.Reader.ReadData | Kernel/Source/FileSystem/fat/fat.c:438-560 | whatever earlier reads left in the cursor, returns the bytes, the count or the failure of walking the chain from its first cluster; a left-over error fails it at the first piece of data; the error variable is set afterwards exactly if it was or the read failed; keeps the cursor where a walk would be; terminates on any FAT |
| Fat.Reader.Seek | Kernel/Source/FileSystem/fat/fat.c:478-536 | moves the cursor to the wanted cluster, or stops where the chain ends or breaks |
| Fat.Reader.constructor | Kernel/Source/FileSystem/fat/fat.c:425-428 | mounting leaves the cursor unset |
| Fat.Reader.Open | Kernel/Source/FileSystem/fat/fat.c:904-908 | switching to another file makes the cursor forget the old chain |
| LongNames.Complete | Kernel/Source/FileSystem/fat/fat.c:721-778 | whatever came before, long entries with ids n..1 and the short entry's checksum, then that short entry, give its 13n units in order |
| LongNames.LongNameRoundTrip | Kernel/Source/FileSystem/fat/fat.c:721-778 | a name of 13n units written into n entries, five units from byte 1, six from byte 14 and two from byte 28, in front of a short entry with their checksum, comes back whole |
| LongNames.UnitsOfEntry | Kernel/Source/FileSystem/fat/fat.c:143-153 | an entry laid out so has those 13 units, the long-name attribute and its checksum |
| LongNames.NameSumIs | Kernel/Source/FileSystem/fat/fat.c:759-760 | the checksum is that of the eleven bytes, each round half the sum, its lowest bit moved to 128, plus the byte, modulo 256 |
| LongNames.Sound | Kernel/Source/FileSystem/fat/fat.c:721-778 | any long name given comes from such a run, with nothing but skipped entries in between |
| LongNames.SkippingIsFree | Kernel/Source/FileSystem/fat/fat.c:748-750 | entries that are not long-name entries do not affect the assembly |
| LongNames.WorkaroundChangesSum | Kernel/Source/FileSystem/fat/fat.c:752-764 | the checksum the code compares is that of the bytes on disk exactly if the first byte is not 0x05 |
| LongNames.FoundUnlessFive | Kernel/Source/FileSystem/fat/fat.c:752-778 | a long name whose checksum is that of the bytes on disk is found exactly if the first byte is not 0x05 |
| LongNames.FiveLosesItsName | Kernel/Source/FileSystem/fat/fat.c:752-778 | a short entry of byte 5 and zeros behind a long entry with its checksum gets no long name |
| LongNames.Iterator.Next | Kernel/Source/FileSystem/fat/fat.c:699-778 | the loop answers as the state machine does over the entries it passed: a short entry with its long name if any, never one that is deleted or has a high attribute bit; end of directory; or an error, also one left over from before; or the 32-bit offset overflows; every write stays inside the 0x40*13 units |
| LongNames.Iterator.Long | Kernel/Source/FileSystem/fat/fat.c:721-746 | the long-entry branch with its in-place buffer is one step of the state machine |
| Ext2.Group.FindRun | Kernel/Source/FileSystem/ext2/ext2_fs.c:123-142 | finds the lowest run of n clear bits, most significant bit first and across bytes, or that there is none |
| Ext2.TakenIs | Kernel/Source/FileSystem/ext2/ext2_fs.c:128-132 | block k is in use exactly if digit 7 - k % 8 of byte k / 8 is 1, so byte by byte from the most significant bit |
| Ext2.AddressIs | Kernel/Source/FileSystem/ext2/ext2_fs.c:149-150 | block k lies 1024 * k bytes behind the first one |
| Ext2.Group.TakeBackwards | Kernel/Source/FileSystem/ext2/ext2_fs.c:141-164 | marking backwards sets exactly the n bits of the run and notes their sectors in ascending order |
| Ext2.Group.FormatBlockBitmap | Kernel/Source/FileSystem/ext2/ext2_fs.c:94-196 | the lowest free run of n blocks is taken, its sectors returned and zeroed on disk, and the bitmap's own block on disk equals the one in memory again; null exactly for n = 0 or no run, and then nothing changes |
| Ext2.Group.constructor | Kernel/Source/FileSystem/ext2/ext2_fs.c:101-109 | the bitmap in memory starts as the one on disk |
| Ext2.NoBlockTwice | Kernel/Source/FileSystem/ext2/ext2_fs.c:94-196 | over any run of calls no two results have a block in common |
| Ext2.FormatAll | Kernel/Source/FileSystem/ext2/ext2_fs.c:94-196 | running the function over any list of sizes is such a run, and each list returned has the sectors of its result |
| Ext2.NoSectorTwice | Kernel/Source/FileSystem/ext2/ext2_fs.c:94-196 | the lists of different calls have no sector in common |
| Ext2.EveryNumberHasPath | Kernel/Source/FileSystem/ext2/ext2_fs.c:626-807 | every block number in range maps to one path of in-bounds slots, and the path determines the number |
| Ext2.EveryPathHit | Kernel/Source/FileSystem/ext2/ext2_fs.c:626-807 | every path of the direct, single, double and triple tree is the path of a number in range |
| Ext2.LookupIsDescent | Kernel/Source/FileSystem/ext2/ext2_fs.c:626-807 | the four branches of the lookup are the descent along the number's path, 0 as soon as a pointer is 0 |
| Ext2.Group.SinglyCreate | Kernel/Source/FileSystem/ext2/ext2_fs.c:198-221 | a fresh block holds the nblocks locations from the offset on; nothing else on disk differs; null only with the bitmap full |
| Ext2.Group.Doubly | Kernel/Source/FileSystem/ext2/ext2_fs.c:293-320 | the doubly indirect tree leads to the locations from number 12 on; its blocks were free, are pairwise distinct and as many as it has rows plus one; no other bit and no other sector changed |
| Ext2.Group.EntryBlocks | Kernel/Source/FileSystem/ext2/ext2_fs.c:254-350 | up to 268 locations read back by number and every other number reads as 0; beyond, number i reads location i - 256; the tree's blocks were free and are pairwise distinct, no other bit and no other sector changed; fails only with the bitmap full |
| Ext2.InUseKept | Kernel/Source/FileSystem/ext2/ext2_fs.c:254-350 | so a block that was in use before stays in use and keeps its content |
| Ext2.TwelveWastesOne | Kernel/Source/FileSystem/ext2/ext2_fs.c:254-350 | the blocks taken for the tree are as many as it needs, but for exactly twelve locations, which cost one more |
| Ext2.RoundTripExactly | Kernel/Source/FileSystem/ext2/ext2_fs.c:254-350 | all stored locations read back if and only if location i equals location i - 256 for every i from 268 on |
| Ext2.RoundTripUpTo268 | Kernel/Source/FileSystem/ext2/ext2_fs.c:254-350 | for a list without repetitions: if and only if it has at most 268 blocks |
| Ext2.RoundTripFailsAt269 | Kernel/Source/FileSystem/ext2/ext2_fs.c:254-350 | 269 distinct locations do not read back |
| AqAllocator.Allocator.constructor | Kernel/Source/FileSystem/AqFS/AqfsAllocator.c:84-108 | one chunk of the whole size, starting 18 sectors behind the base |
| AqAllocator.Allocator.Choose | Kernel/Source/FileSystem/AqFS/AqfsAllocator.c:38-52 | for any table: no entry that fits is smaller than the one chosen, and an entry other than the first is chosen only if it fits |
| AqAllocator.Allocator.Alloc | Kernel/Source/FileSystem/AqFS/AqfsAllocator.c:24-73 | hands out the topmost sectors of the live chunk, exactly if they are enough |
| AqAllocator.AllocAll | Kernel/Source/FileSystem/AqFS/AqfsAllocator.c:24-73 | over any run of calls the i-th result is the i-th extent computed from the sizes before it, and what is left is what they leave |
| AqAllocator.ExtentsDisjoint | Kernel/Source/FileSystem/AqFS/AqfsAllocator.c:53-70 | of any such run, an extent handed out later lies wholly below an earlier one |
| AqAllocator.Burn | Kernel/Source/FileSystem/AqFS/Aqfs.c:147-175 | formatting a partition makes an allocator for as many sectors as the partition has, from begin + metaSpread + 20 on |
| AqAllocator.InsidePartition | Kernel/Source/FileSystem/AqFS/Aqfs.c:147-175 | an extent of a run on that allocator lies inside the partition exactly if at least metaSpread + 20 sectors were gone before it |
| AqAllocator.RootOutside | Kernel/Source/FileSystem/AqFS/Aqfs.c:165-175 | the first sector handed out after formatting, the root directory's, lies behind the partition |
| AqFiles.Bookkeeping | Kernel/Source/FileSystem/AqFS/Aqfs.c:511-577 | data_size is the sum of `used`, every extent but the last is full, the last has less than 512 bytes of slack |
| AqFiles.FillExtent | Kernel/Source/FileSystem/AqFS/Aqfs.c:520-535 | reading the last sector, patching it and writing it back appends to the extent and keeps all its earlier bytes |
| AqFiles.FillBody | Kernel/Source/FileSystem/AqFS/Aqfs.c:520-543 | filling up the last extent appends those bytes to the file, whatever its other extents |
| AqFiles.ExtendBody | Kernel/Source/FileSystem/AqFS/Aqfs.c:544-588 | a new extent linked behind a full one appends its bytes to the file |
| AqFiles.FileKept | Kernel/Source/FileSystem/AqFS/Aqfs.c:412-470 | what does not touch a file's own sectors leaves its descriptor, chain and content as they were |
| AqFiles.ReadsPiece | Kernel/Source/FileSystem/AqFS/Aqfs.c:427-443 | the sectors read for a part of an extent hold that part of the file |
| Aqfs.Aqfs.constructor | Kernel/Source/FileSystem/AqFS/Aqfs.c:165-175 | a freshly formatted disk is a valid state with all of its sectors free |
| Aqfs.Aqfs.Create | Kernel/Source/FileSystem/AqFS/Aqfs.c:192-229 | exactly if a sector is left: a new, empty file on the topmost free sector, one sector fewer free; every other file keeps its descriptor and content |
| Aqfs.Aqfs.NewHeader | Kernel/Source/FileSystem/AqFS/AqfsTools.c:457-488 | an empty page on eight fresh sectors, exactly if there are eight |
| Aqfs.Aqfs.FreeSlot | Kernel/Source/FileSystem/AqFS/AqfsTools.c:517-532 | the first entry without the magic number is the one behind the last used |
| Aqfs.Aqfs.Enter | Kernel/Source/FileSystem/AqFS/Aqfs.c:551-588 | the page as finally written has the new entry last and linked from the one before |
| Aqfs.Aqfs.EntryCA | Kernel/Source/FileSystem/AqFS/AqfsTools.c:620-641 | finds the entry that holds a byte of the file, and the byte's place in it |
| Aqfs.Aqfs.Append | Kernel/Source/FileSystem/AqFS/Aqfs.c:472-591 | the file's content grows by exactly the buffer, every other file's descriptor and content is unchanged, all bookkeeping is kept; it succeeds exactly if the sectors it needs are left, and says how many are left then and how full the file is |
| Aqfs.Aqfs.Read | Kernel/Source/FileSystem/AqFS/Aqfs.c:412-470 | returns exactly the slice asked for of everything appended so far, across extents |
| Aqfs.RunAll | Kernel/Source/FileSystem/AqFS/Aqfs.c:192-591 | every call of a run of creations and appends for which sectors, entries and sizes suffice by the running totals succeeds, the totals come out as computed, and the new files are those computed |
| Aqfs.RunAllThenRead | Kernel/Source/FileSystem/AqFS/Aqfs.c:192-591 | after such a run, reading a file, old or new, gives the slice asked for of its old content with its own buffers behind |
| Aqfs.InterleavingIsInvisible | Kernel/Source/FileSystem/AqFS/Aqfs.c:472-591 | over any run of creations and appends, a file, old or made on the way, ends up with exactly its own buffers concatenated in order behind what it had |
| Aqfs.MadeAreNew | Kernel/Source/FileSystem/AqFS/Aqfs.c:192-229 | the files a run makes are new and pairwise different |

## Left out

- The log, the buffer cache and sleep locks of the inode file system: `log_write` is a direct write and a lock is a flag of its slot; waiting for it is the outcome `Waits`, at which the call is left. Crash recovery is not modelled.
- FileSystem.FileSystem.Iput: the window in which iput works without the cache lock is one atomic step, which assumes that an inode without links is not looked up again.
- FileSystem.FileSystem.Iget: `ref` is unbounded; the wrap-around of the counter is not modelled.
- FileSystem.FileSystem.Readi: a device inode ends in the outcome `Driver`; the driver itself, and so the value it returns, is not part of the model. The same holds for writei. `NDEV`, `NINODE`, `ROOTDEV` (param.h) and the type codes (stat.h) are not part of this model; they are parameters or distinct constants.
- FileSystem.FileSystem.Bfree: it reads the superblock again; the model has it as a constant.
- FileSystem.FileSystem.Writei: after the panic for lack of blocks nothing is said about the state, because the kernel halts there.
- Namex.Namex: assumes that directories name inodes inside the table (behind it the code takes other blocks for inode records), and that no other process changes the disk during the walk. At a lock somebody else holds the walk ends with `Waits`.
- Path.PaddedName: `strncpy` is the standard one. The one in `Kernel/Source/KLibrary/Sources/string.c` copies 14 bytes whatever they are and writes a NUL behind them.
- `stati` and the calls above the inode layer (files, system calls).
- FAT: the exFAT branch, the checks of the boot sector in `fat_mount`, UTF-16 to UTF-8, the conversion of 8.3 names, comparing names, labels and serial numbers.
- Fat.Reader.ReadData: a failing `disk_read` and `error()`, neither of which is part of this model, are taken to set `errno`; offset plus length must stay below two terabytes, which 32-bit file sizes do.
- LongNames.Iterator.Next: `ssize_t` is taken to have 32 bits, as on the i686 the kernel is built for; its overflow, behind 2^26 entries (the format allows 65536 in a directory), is undefined in C and the outcome `OffsetOverflow` here.
- Ext2.Group.FormatBlockBitmap: the bitmap's block is a cell of its own, apart from the group's blocks, whose sector numbers must fit 32 bits.
- Ext2.Group.EntryBlocks: blocks of the disk are named by their first sector and taken not to overlap; the triply indirect part, which starts from a wrapped-around count, and `ext2_write_block_of_set`, `ext2_write`, `ext2_free_blocks`, directories and inode tables are not modelled.
- AqFS: directories and paths, virtual handles, `AqFree` (a stub that frees nothing), deleting, and the write of the allocation tables to their own sectors below the first extent.
- Aqfs.Aqfs.Append: one header page per file, so at most 112 extents; buffers are not empty, no longer than 2^32 - 512 bytes (rounding up a longer one would wrap), and file sizes stay below 2^32. The link to a second page rests on `id` fields that are never set.
- Aqfs.Aqfs.Read: ranges inside the file only; behind the end the chain leads back to its first entry.
- AqAllocator.Allocator.Alloc: one table with one live chunk, which is all that ever comes about; unused entries of a fresh table are taken to be zero.
- A buffer of sectors written from memory ends in whatever follows the data there; the model lets those bytes be anything.
