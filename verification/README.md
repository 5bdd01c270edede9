# ext2fuse: a verified model of its storage core

ext2fuse serves an ext2 file system from user space. Underneath it lies `lib/ext2fs`, which keeps a
file system consistent with a few stateful algorithms: a tree of block numbers per file, free-space
bitmaps with counters, an LRU block cache, an inode cache, directory blocks of variable-length
records, counts of links per inode, and the trivial database `tdb` with transactions, crash recovery
and an allocator of its own. This project models those algorithms in Dafny and proves what they are
for.

Structs that the C code updates in place are classes with the same fields, and each operation is a
method on them, proved against a specification; what the specification is worth is proved in lemmas.

| file | what it models |
|---|---|
| `TdbOverlay` | a transaction's list of pending writes over the database file |
| `TdbDisk` | a file on a disk that may crash: unsynced writes reach it in any combination, word by word |
| `TdbLog`, `TdbRecovery`, `TdbCommit` | the recovery log, recovery after a crash, and commit |
| `TdbOverrun`, `TdbLostLog` | a log that passes the end of the file, and a commit that is lost by it |
| `TdbWords`, `TdbFreelist`, `TdbHash` | the words and bytes of the database file, its boundary-tag allocator, and the hash chains on it |
| `BlockIter`, `BlockCalls`, `BlockMap` | the block iterator, the calls it makes, and the mapping from logical to disk blocks |
| `TruncTree`, `Truncate` | truncation by sticky flags, on trees and on the disk |
| `FreeSpace` | bitmaps, group and superblock counters, the search for a free block or inode |
| `BlockPaths`, `Bmap`, `ExpandDir` | allocation of a block of a file, by mapping and by the appending iterator |
| `DataBlocks`, `FileIo` | reading and writing a file through its one-block buffer |
| `UnixCache` | the eight-entry write-back cache of the I/O channel |
| `InodeTable` | the inode cache, its one-block buffer, and the scan over all inodes |
| `DirBlock`, `DirOps`, `Icount` | directory blocks, and whole directories, as lists of entries; inode counts as a map |
| `Backups`, `Sizing` | which groups hold backup superblocks; the sizing loops of a new file system |
| `Arith`, `Bytes`, `Wrappers` | division, alignment, byte strings and 32-bit words, optional values |

## What is proved

* **A commit is atomic.** Every disk state a commit passes through is recorded. From whatever a crash
  makes of any of them, and however often recovery is itself cut short, survived or finished and run
  again, recovery ends with all of the old contents or all of the new; after a successful commit with
  the new. This holds of a commit if and only if its log does not pass the end of the file, or has
  nothing but padding there and the transaction puts nothing but padding there. When a commit succeeds,
  and in which area its log then lies, has an exact condition as well. The file recovered is one
  the next commit can start from. The one state recovery passes through that a crash may not survive is
  named, with the exact condition under which it is fatal.
* **A transaction is a byte array**: reads return the file with the writes so far applied, and writing
  the pending elements at commit yields exactly that.
* **The allocator tiles the file**: every byte of the data region is in one record, which is allocated
  or on the free list; no two free neighbours; no operation touches an allocated record of someone
  else; allocation needs at most one expansion, and gives back all but 52 bytes of what it does not
  need. On top of it **tdb is a map** for any hash function,
  read from and written to the bytes of the records, where no key or data ever touches a record size.
* **The iterator and the mapping agree**, holes included. **Truncation** leaves the mapping cut at the
  new length and the count of blocks right for every file; it leaves exactly the indirect blocks that
  are still needed if and only if every indirect block is reached by the flags, which every file
  without holes satisfies and a sparse file need not.
* **Allocation has a frame**: only the logical block asked for changes, only free blocks are used, none
  is shared, counters stay right. The same holds for the lowest unmapped block of a directory that
  `ext2fs_expand_dir` fills through the iterator.
* **Caches do not show**: the block cache, the inode cache and the file buffer read and write like the
  plain device, the plain table and a plain byte string.
* **Compact structures refine simple ones**: directory blocks, inode counts, bitmaps and counters. In a
  directory of several blocks, link adds one entry and lookup finds it, and unlink removes the first
  match if and only if that is not the first record of a later block.
* **Layout**: the backup enumerator lists exactly the groups the membership tests accept; the sizing
  loops terminate with sound geometry, of the largest groups that will do, which holds as many inodes as
  wanted under an exact condition.

## Where the code does not meet the intended behaviour

Each of these is stated in the model as a lemma rather than assumed away.

* Recovery cuts the file before it clears the recovery head on disk for good: a crash between the cut
  and the last sync can leave a head that names an area, or a marked log, that does not lie in the file
  any more, and then recovery fails (`TdbRecovery.RecoveryCutCrash`, `TdbRecovery.CutCanBeFatal`).
* A crash after the head of a new recovery area is written, and before its record is, leaves a record
  of padding, whose length of 0x42424242 lies past the end of the file; recovery leaves it there
  (`TdbCommit.CrashInNewArea`, and `TdbCommit.RecoveredIsReady` for exactly when). The comment at the
  write of the head (lib/ext2fs/tdb.c:1726) speaks of a sync that is not there. A later log longer
  than the rest of the file is then taken to fit. If the transaction has not grown the file enough, its
  commit fails; if it has, the log is written past the end of the file, and what is there is overwritten
  with padding when the new part is filled, and then with the transaction's own data. Such a commit is
  atomic exactly if all bytes of the log past the end are padding, in the log and in the transaction;
  this is so in particular if only the tailer lies past the end (`TdbCommit.TransactionCommit`,
  `TdbCommit.AtomicExactly`). Otherwise a crash can leave a file on which recovery fails, if the log is
  cut off before the data of its last range, or on which recovery succeeds and leaves contents that are
  neither the old nor the new (`TdbOverrun.PaddedLogOutcome`, `TdbOverrun.OverwrittenOutcome`,
  `TdbCommit.OverrunCanBeFatal`). Two commits and a crash are enough for either
  (`TdbLostLog.LoseBothContents`).
* An indirect block outside the file system ends the iteration over its tree, but the error is lost if
  the inode has a later tree that is in order: reading the root of that one overwrites the error code
  (`BlockCalls.BadBlockReported`).
* Truncating a sparse file can leave an indirect block with nothing below it
  (`Truncate.LeftFileIsPruned`, `Truncate.SparseFileKeepsEmptyBlock`, `Truncate.ShortenSparseFile`).
* Unlink reports success but does not remove a match that is the first record of a later directory
  block; instead a length is raised at the offset where the block before had its last record, which can
  corrupt the block (`DirBlock.UnlinkDirectory`, `DirBlock.UnlinkCorrupts`). The first name linked into
  a block added to a directory is such a match (`DirBlock.UnlinkFromAddedBlock`).
* The number of inodes can stay below the number wanted, even at zero, since the count per group is
  rounded down to a multiple of eight (`Sizing.SizeFileSystem`, `Sizing.FilledReaches`,
  `Sizing.NoInodeAtAll`).
* A count of 65535 wraps to zero on increment (`Icount.InodeCounts.Increment`).
* The two tests for backup groups differ on negative numbers (`Backups.TestsAgree`).

## Model

| member | source | states |
|---|---|---|
| TdbOverlay.ByteAtCovered | lib/ext2fs/tdb.c:1208-1263 | in a list of disjoint elements the order of the search does not matter: any element covering a byte gives it |
| TdbOverlay.Transaction.Start | lib/ext2fs/tdb.c:1454-1556 | a new transaction shows the file unchanged, and its mirror of the hash heads is the table in the file |
| TdbOverlay.Transaction.Read | lib/ext2fs/tdb.c:1208-1263 | succeeds exactly inside the file and returns the base file with the pending writes applied; a failure is remembered as an error of the transaction; terminates on shrinking length |
| TdbOverlay.Transaction.Write | lib/ext2fs/tdb.c:1269-1388 | the list of elements becomes exactly the one stated apart from the code; elements stay disjoint, none straddles the old end of file; exactly the bytes written change; the mirror takes a write of a hash head |
| TdbOverlay.Transaction.TransactionWrite | lib/ext2fs/tdb.c:1269-1388 | for writes inside the file, with hash heads written as aligned words, the contents become the old ones with the range replaced and the mirror equals the table |
| TdbOverlay.Transaction.Expand | lib/ext2fs/tdb.c:1419-1429 | the contents grow by padding bytes, everything else is kept |
| TdbOverlay.Transaction.Cancel | lib/ext2fs/tdb.c:1562-1610 | nothing of the transaction is left |
| TdbOverlay.Transaction.NextHashChain | lib/ext2fs/tdb.c:1393-1403 | skips only chains whose head in the transaction's view is zero, and stops at one that is not |
| TdbOverlay.CommitYieldsView | lib/ext2fs/tdb.c:1933-1955 | writing the elements over the file, grown in any way, gives exactly the view of the transaction |
| TdbDisk.CrashAfterSync | lib/ext2fs/tdb.c:1615-1635 | once synced, a crash leaves what the program saw |
| TdbDisk.CrashOfOneWord | lib/ext2fs/tdb.c:1829-1843 | with one unsynced change of one aligned word, a crash leaves the file before or after it |
| TdbLog.RecordRoundTrip | lib/ext2fs/tdb.c:1064-1081 | a record header written to the file is read back |
| TdbLog.LogRoundTrip | lib/ext2fs/tdb.c:2059-2076 | parsing the log gives back exactly the saved ranges, from any of them on, and stops before the tailer |
| TdbRecovery.LiveRecovers | lib/ext2fs/tdb.c:2004-2124 | from a marked log recovery gives the old size and the old contents outside the recovery head and area |
| TdbRecovery.Recover | lib/ext2fs/tdb.c:2004-2124 | fails exactly on an unreadable log, leaves an unmarked file alone, otherwise makes of the file what the specification says through the recorded disk states |
| TdbRecovery.WriteBack | lib/ext2fs/tdb.c:2059-2078 | succeeds exactly when the log parses and all its ranges lie in the file, and writes them back in order |
| TdbRecovery.Clear | lib/ext2fs/tdb.c:2080-2118 | sync, clear the head if the area lies past the recovered end, clear the mark, cut the file, sync: every state on the way is recorded |
| TdbRecovery.RecoveryTraceEnds | lib/ext2fs/tdb.c:2004-2124 | the last recorded state of a recovery is the recovered file, synced |
| TdbRecovery.RecoveryCrash | lib/ext2fs/tdb.c:2059-2104 | a crash at any point of recovery before the cut, with any subset of unsynced words, leaves an image that recovers to the old contents |
| TdbRecovery.OldSideForEver | lib/ext2fs/tdb.c:2004-2124 | any number of recoveries, cut short at any point or finished, with only the fatal crashes after the cut left out, ends with the old contents if it starts on the old side |
| TdbRecovery.CommittedForEver | lib/ext2fs/tdb.c:2004-2124 | any number of recoveries of a committed file leaves it alone |
| TdbRecovery.RecoveredSettles | lib/ext2fs/tdb.c:2004-2124 | recovery of a live log leaves no live log, no head naming an area past the end of the file, and no mark in an area that starts before it |
| TdbRecovery.RecoverOnce | lib/ext2fs/tdb.c:2004-2124 | recovering a recovered file does nothing |
| TdbRecovery.CrashAfterCut | lib/ext2fs/tdb.c:2105-2118 | after the cut a crash is fatal if and only if it leaves a head that names an area the cut has removed, or a marked log the cut has shortened; otherwise the old contents come back |
| TdbRecovery.RecoveryCutCrash | lib/ext2fs/tdb.c:2105-2118 | the same if-and-only-if for the state a whole recovery is in when it has cut the file |
| TdbRecovery.CutCanBeFatal | lib/ext2fs/tdb.c:2105-2118 | whenever the log does not lie in the file as it is cut, there is a crash image there from which recovery fails |
| TdbCommit.RecoverySize | lib/ext2fs/tdb.c:1641-1655 | the size computed is exactly that of the encoded log of old contents and its tailer |
| TdbCommit.AreaForIs | lib/ext2fs/tdb.c:1708 | a new area is the least that ends the log with its tailer at a page boundary |
| TdbCommit.BuildLog | lib/ext2fs/tdb.c:1777-1804 | the blob is the encoding of the old contents of the ranges that lie in the old file |
| TdbCommit.RecoveryAllocate | lib/ext2fs/tdb.c:1661-1736 | succeeds if and only if the recovery head is readable and the log fits in the existing area by the length in its record or the new area ends below 4 GiB; in the first case nothing is written and that area is used, in the second the new one starts at the old size of the transaction and has the log with its tailer rounded up to pages; every state on the way still reads as the old file |
| TdbCommit.SetupRecovery | lib/ext2fs/tdb.c:1742-1846 | succeeds if and only if there is a place for the log, and says which area is used; then it ends with a complete, synced, marked log, every state on the way survivable, also when the file is lengthened for the log |
| TdbCommit.WriteElements | lib/ext2fs/tdb.c:1933-1955 | while the elements are written the log stays live, if what they put into the part of it past the old end is the padding it holds there; at the end the file is the transaction's |
| TdbCommit.ExpandFile | lib/ext2fs/tdb.c:882-918 | the file is filled with padding from its old size on, whether it ended there or not; every state on the way is the old file grown, with padding in place of what lay past that size |
| TdbCommit.TransactionCommit | lib/ext2fs/tdb.c:1851-1996 | succeeds if and only if there was no error and, unless nothing was written, the log has a place: in the existing area as far as the transaction reaches, or in a new one below 4 GiB; it says which; on success the file holds the new contents, synced and unmarked; the commit is atomic over all its disk states if and only if its log does not pass the end of the file, or what the log and the transaction have past that end is padding; on failure the file is untouched |
| TdbCommit.CommitIsAtomic | lib/ext2fs/tdb.c:1742-2124 | from any crash image of any state of a commit, through any number of interrupted recoveries, recovery succeeds with all of the old contents or all of the new |
| TdbCommit.RecoveredIsReady | lib/ext2fs/tdb.c:1661-1736 | after any crash of a commit and recovery, the file is one the next commit can start from, but for its length if the log had just lengthened it; if its recovery area lay in the file before, it does now if and only if the crash did not leave the head of a new area with a record of padding |
| TdbCommit.CrashInNewArea | lib/ext2fs/tdb.c:1727-1733 | such a crash image exists in every new area, recovery does not change it, and the length read there lies in the file only if that has more than 0x42424242 bytes after the area |
| TdbOverrun.PaddedLogFound | lib/ext2fs/tdb.c:1917-1930 | in the state right after the file is lengthened, recovery finds the log if and only if all its bytes past the old end are padding bytes |
| TdbOverrun.PaddedLogOutcome | lib/ext2fs/tdb.c:1917-1930 | recovery of that state fails if and only if the log is cut off before the data of its last range; it gives the old contents if and only if all the log's bytes past the old end are padding; else it succeeds with other contents |
| TdbOverrun.LastRangeChanged | lib/ext2fs/tdb.c:2059-2078 | of a marked log that differs only in the data of its last range, recovery succeeds, and the contents are not the old ones |
| TdbOverrun.OverwrittenOutcome | lib/ext2fs/tdb.c:1933-1955 | if the bytes lost were padding, but the transaction then writes others there, recovery succeeds with contents that are not the old ones |
| TdbOverrun.PaddedLogFatal | lib/ext2fs/tdb.c:1917-1930 | recovery fails if the old end of the file cuts off the log before the data of its last range: the next header is padding, and a length of padding passes the end of every log of up to 0x42000000 bytes |
| TdbCommit.OverrunCanBeFatal | lib/ext2fs/tdb.c:1917-1930 | a commit that loses more than padding has a state in which a crash leaves a file that recovery fails on, or, if the log is cut in the data of its last range, recovers to something that is not the old contents |
| TdbCommit.AtomicExactly | lib/ext2fs/tdb.c:1851-2124 | over all crashes of all states of a commit and any number of interrupted recoveries, with only the fatal crashes after the cut left out: always all old or all new contents, if and only if nothing but padding is lost and overwritten |
| TdbLostLog.CrashInFirstCommit | lib/ext2fs/tdb.c:1698-1733 | for any database without a recovery area, of the size and contents `NoAreaYet` says: the file after a crash in its first commit and recovery has a recovery head, and an area of padding there |
| TdbLostLog.LoseBothContents | lib/ext2fs/tdb.c:1661-1996 | a second transaction on that file commits, and has a crash from which recovery gives neither the old contents nor the new; it fails if the first area was full to the last byte, else it succeeds |
| TdbLostLog.NoAreaInZeros | lib/ext2fs/tdb.c:1708-1709 | files of zeros are such databases, if they are large enough for the writes and stay below 0x21000000 bytes with two pages; both outcomes occur with pages of 4096 bytes |
| TdbLog.ParseExact | lib/ext2fs/tdb.c:2059-2076 | a log area is parsed to given ranges if and only if it starts with their encoding |
| TdbWords.SetByteOf | lib/ext2fs/tdb.c:746-770 | setting one byte of a word changes that byte and no other |
| TdbWords.PutBytesAt | lib/ext2fs/tdb.c:746-770 | after a byte string is written its bytes are there and every other byte is as it was |
| TdbWords.PutBytesWords | lib/ext2fs/tdb.c:746-770 | only words with a byte of the string in them change |
| TdbFreelist.Allocator.constructor | lib/ext2fs/tdb.c:3570-3611 | a new database is sound, with nothing allocated |
| TdbFreelist.Allocator.RemoveFromFreelist | lib/ext2fs/tdb.c:2159-2175 | finds the record on the list exactly if it is there, and takes out it alone |
| TdbFreelist.Allocator.UpdateTailer | lib/ext2fs/tdb.c:2179-2188 | the last word of the record holds its total size |
| TdbFreelist.Allocator.RecFreeRead | lib/ext2fs/tdb.c:2129-2154 | on a sound list it never repairs or refuses a record |
| TdbFreelist.Allocator.AbsorbRight | lib/ext2fs/tdb.c:2206-2224 | afterwards no free record follows; allocated records are untouched |
| TdbFreelist.Allocator.AbsorbLeft | lib/ext2fs/tdb.c:2226-2262 | afterwards no free record precedes; allocated records are untouched |
| TdbFreelist.Allocator.Free | lib/ext2fs/tdb.c:2192-2287 | the hole becomes free space at the front of the list, all invariants hold again, allocated records keep their places and bytes |
| TdbFreelist.Allocator.AllocateOfs | lib/ext2fs/tdb.c:2294-2347 | the list element becomes one allocated record that is long enough, shortened to the length asked for, rounded up to words, if it is longer by more than the least record, and whole otherwise; others are untouched |
| TdbFreelist.Allocator.FindFit | lib/ext2fs/tdb.c:2369-2408 | returns a record under twice the request, or the smallest that fits; nothing only if nothing fits |
| TdbFreelist.Allocator.Expand | lib/ext2fs/tdb.c:923-990 | the file grows to whole pages, by room for at least ten records, and nothing allocated changes |
| TdbFreelist.Allocator.Allocate | lib/ext2fs/tdb.c:2355-2427 | a new record that is long enough and longer by 52 bytes at most, with the promised fit; at most one expansion, none exactly when something fitted |
| TdbFreelist.FreeingRecord | lib/ext2fs/tdb.c:2192-2287 | freeing takes the one record from the allocated ones and keeps the bytes of all the others |
| TdbFreelist.RestIsFree | lib/ext2fs/tdb.c:2303-2345 | what is left of a free record when its front is taken is on the free list, as one record that reaches at least to where the old one ended |
| TdbFreelist.EveryByteInOneRecord | lib/ext2fs/tdb.c:2192-2427 | each byte of the data region is in exactly one record, which is allocated or on the free list |
| TdbFreelist.NotPadding | lib/ext2fs/tdb.c:2239-2242 | the size of a record is never mistaken for the bytes the file is padded with |
| TdbFreelist.OtherPointer | lib/ext2fs/tdb.c:998-1002 | writing a chain pointer damages no record size, no tailer and no free list |
| TdbFreelist.OwnRecord | lib/ext2fs/tdb.c:1077-1081 | an owner may write header and body of its record up to the size at its end, if the header keeps the size and does not mark it free: allocator invariants, that size and every byte of the other allocated records stay |
| TdbHash.ViewShows | lib/ext2fs/tdb.c:2963-2987 | the abstract map is the only one that shows exactly the live entries |
| TdbHash.ViewPut | lib/ext2fs/tdb.c:3311-3446 | a live entry added or overwritten is one binding of the map replaced |
| TdbHash.ViewDrop | lib/ext2fs/tdb.c:3219-3269 | a live entry removed or marked dead is one binding dropped |
| TdbHash.TidyMarked | lib/ext2fs/tdb.c:3235-3252 | marking a record dead in a chain with room for one keeps the bound on the dead records of every chain |
| TdbHash.Tdb.constructor | lib/ext2fs/tdb.c:3570-3611 | a new database is the empty map, with no dead records |
| TdbHash.Tdb.RecRead | lib/ext2fs/tdb.c:1064-1075 | on a sound database no record that a chain leads to is refused, for its magic or for a next pointer outside the file |
| TdbHash.Tdb.Find | lib/ext2fs/tdb.c:2963-2987 | finds the live record of the key, or none exactly if there is none, collisions or not |
| TdbHash.Tdb.Fetch | lib/ext2fs/tdb.c:3041-3058 | returns what the map binds the key to |
| TdbHash.Tdb.UpdateHash | lib/ext2fs/tdb.c:3007-3033 | an update is refused exactly if the key is missing, or its record is too short for key, data and size; else the data replaces the old in the bytes after the key, and nothing changes outside header and body of that record, its size at the end included |
| TdbHash.Tdb.DoDelete | lib/ext2fs/tdb.c:3124-3156 | the record leaves its chain and its space is freed; other entries and chains stay |
| TdbHash.Tdb.CountDead | lib/ext2fs/tdb.c:3158-3178 | the number of dead records in the chain |
| TdbHash.Tdb.PurgeDead | lib/ext2fs/tdb.c:3183-3216 | no dead record is left in the chain, the live ones are the same, and no other chain has more dead records |
| TdbHash.Tdb.FindDead | lib/ext2fs/tdb.c:3280-3304 | a dead record of the chain that is long enough, or none exactly if there is none |
| TdbHash.Tdb.DeleteHash | lib/ext2fs/tdb.c:3219-3269 | succeeds exactly if the key is bound, and drops that binding; its record is freed if no dead records are allowed, and else marked dead, nothing else changing as long as the chain has room for a dead record; no chain ever has more dead records than allowed |
| TdbHash.Tdb.Delete | lib/ext2fs/tdb.c:3271-3275 | the same for a key |
| TdbHash.Tdb.Store | lib/ext2fs/tdb.c:3311-3446 | insert, replace and modify succeed exactly when the key is absent, always, or present, and then bind it; no record is freed or allocated if the one of the key has room for the new data; no chain ever has more dead records than allowed |
| TdbHash.Tdb.StoreNew | lib/ext2fs/tdb.c:3356-3433 | a key not in the database is added, its bytes written into a dead record of its chain, if dead records are allowed and one is long enough, or a new one |
| TdbHash.DataInPlace | lib/ext2fs/tdb.c:3019-3030 | data written after the key, with or without a new header, is read back with the key, and only words between header and the size at the end change |
| TdbHash.RecordPut | lib/ext2fs/tdb.c:3374-3433 | header, key and data written into a record read back as that entry, and only words before the size at its end change |
| TdbHash.RepAtSame | lib/ext2fs/tdb.c:3041-3058 | an entry depends on the words of its record before the size at its end and on no others |
| BlockIter.BlockContext.IterateInd | lib/ext2fs/block.c:42-114 | does to the context what the specification of the iteration says, for any callback and flags |
| BlockIter.BlockContext.IterateDind | lib/ext2fs/block.c:116-190 | the same for a double indirect block |
| BlockIter.BlockContext.IterateTind | lib/ext2fs/block.c:192-267 | the same for a triple indirect block |
| BlockIter.BlockContext.IterateInode | lib/ext2fs/block.c:269-395 | the same for the direct blocks and the three trees of an inode |
| BlockCalls.IteratorCalls | lib/ext2fs/block.c:42-395 | every call of the iteration, in order, whatever its flags: an indirect block is handed out before the blocks it holds, after them in a depth-first iteration, and not at all if only data is asked for |
| BlockCalls.BadBlockReported | lib/ext2fs/block.c:58-394 | an error is returned if and only if a tree of the inode has an indirect block outside the file system and no later tree of it that is there is in order |
| BlockMap.ScanExact | lib/ext2fs/bmap.c:140-270 | the list of mapped blocks of a range increases strictly and holds exactly the mapped indices |
| BlockMap.IteratorVisitsMapping | lib/ext2fs/block.c:269-395 | with a callback that only looks, the iteration changes nothing and sees the list of mapped blocks |
| BlockMap.IteratorAgreesWithMapping | lib/ext2fs/block.c:42-395 | visits are strictly increasing and block b is visited at j if and only if the mapping takes j to b, holes included |
| TruncTree.FlagsAreAlignment | src/truncate.c:146-184 | a dropped data block marks a level for deletion exactly if it starts a tree of that level |
| TruncTree.CutLeaves | src/truncate.c:68-190 | the sticky-flag cut of a tree is the closed form that deletes a block iff a dropped mapped block from the first kept one on starts a tree of its level |
| TruncTree.LeftShows | src/truncate.c:68-190 | the data blocks left are exactly the mapped ones up to the last one to keep, whatever holes there are |
| TruncTree.CutAccounts | src/truncate.c:68-190 | each block of the tree is either left or given back, once, and the total counts those left |
| TruncTree.LeftIsPruned | src/truncate.c:68-190 | what is left is what should be if and only if every indirect block that empties is reached by a flag |
| Truncate.IterationCutsFile | lib/ext2fs/block.c:42-395 | the iterator with the truncating callback does on disk what the cut does to the trees, and touches no other block |
| Truncate.LeftFileIsPruned | src/truncate.c:68-262 | truncation leaves exactly the right tree if and only if the flags reach every indirect block that empties |
| Truncate.HoleFreeIsPruned | src/truncate.c:68-262 | which every file without holes satisfies, for every shorter length |
| Truncate.SparseFileKeepsEmptyBlock | src/truncate.c:146-184 | for every block size, a file with only its second block after the direct ones mapped and cut to the direct ones keeps an indirect block that should go |
| Truncate.FileSystem.DoShorten | src/truncate.c:207-262 | refuses to lengthen; otherwise sets the size, leaves mapped exactly the blocks that hold a byte below the new length, leaves the closed-form trees, frees every other block exactly once, and counts the blocks left into i_blocks |
| Truncate.BlockKept | src/truncate.c:221-223 | a block is kept if and only if it holds a byte below the new length |
| Truncate.SectorsAreBytes | src/truncate.c:246-256 | i_blocks counts the bytes of all blocks in whole units of 512 |
| Truncate.TruncationOfFile | src/truncate.c:207-262 | from fresh flags the iteration leaves, frees and counts as stated, for every file |
| Truncate.ShortenedMapping | src/truncate.c:207-262 | afterwards a logical block is mapped as before up to the last one kept and not at all after it |
| Truncate.ShortenSparseFile | src/truncate.c:207-262 | do_shorten on that file: no logical block is mapped any more, and still the inode has its indirect block and i_blocks counts it |
| FreeSpace.SetBit | lib/ext2fs/bitops.c:36-46 | sets that bit of the array and no other, and tells what it was |
| FreeSpace.OnIsShift | lib/ext2fs/bitops.c:36-73 | bits are numbered from the least significant one of a byte on |
| FreeSpace.ClearBit | lib/ext2fs/bitops.c:48-58 | clears that bit and no other, and tells what it was |
| FreeSpace.Bitmap.Test | lib/ext2fs/bitops.c:60-68 | membership in the set the bitmap stands for |
| FreeSpace.Bitmap.Mark | lib/ext2fs/gen_bitmap.c:33-41 | adds an item in range, changes nothing out of range |
| FreeSpace.Bitmap.Unmark | lib/ext2fs/gen_bitmap.c:43-51 | removes an item, changes nothing out of range |
| FreeSpace.GroupsAfter | lib/ext2fs/alloc_stats.c:42-54 | the group counters are right afterwards if and only if the bit was in range and really changed |
| FreeSpace.GroupsSum | lib/ext2fs/alloc_stats.c:42-54 | counters right in every group add up to the number of free items |
| FreeSpace.FreeNone | lib/ext2fs/alloc.c:79-103 | a count of zero means that nothing is free, and the other way round |
| FreeSpace.FreeItems.AllocStats | lib/ext2fs/alloc_stats.c:20-54 | the item changes state, and the counters of group and superblock stay right if and only if the bit changed |
| FreeSpace.FreeItems.FreeAll | lib/ext2fs/alloc_stats.c:42-54 | giving back distinct items in use keeps the counters right |
| FreeSpace.FreeItems.NewBlock | lib/ext2fs/alloc.c:79-103 | a free block; no block from the goal, or from the first block if the goal is past the end, up to it is free, on around the end; failure exactly if none is free |
| FreeSpace.FreeItems.NewInode | lib/ext2fs/alloc.c:38-73 | a free inode that is not reserved; no usable inode from the first of the directory's group up to it is free, on around the end; failure exactly if none is free |
| BlockPaths.LeafPut | lib/ext2fs/bmap.c:37-138 | a subtree put into a hole changes only the paths through the hole |
| BlockPaths.AttachTree | lib/ext2fs/bmap.c:37-98 | storing a zeroed new block in an indirect block fills that hole of the tree and nothing else |
| BlockPaths.PlaceInjective | lib/ext2fs/bmap.c:140-270 | different logical blocks have different places in the tree |
| BlockPaths.FileBlockIsLeaf | lib/ext2fs/bmap.c:140-270 | mapping by division is following the path of digits |
| Bmap.OpenInode.AllocBlock | lib/ext2fs/alloc.c:109-146 | a free block, zeroed and marked, with the counters right; failure only when none is free, and then nothing changes |
| Bmap.OpenInode.IndBmap | lib/ext2fs/bmap.c:37-98 | looks up or adds one number in an indirect block, changing only what the path leads to |
| Bmap.OpenInode.DindBmap | lib/ext2fs/bmap.c:100-118 | the same through two levels |
| Bmap.OpenInode.TindBmap | lib/ext2fs/bmap.c:120-138 | the same through three levels |
| Bmap.OpenInode.Bmap | lib/ext2fs/bmap.c:140-270 | on success the block asked for is mapped and every other as before; only free blocks are used, no more than the way to the block has, and counters stay right; nothing is added to a mapped block |
| Bmap.TruncationFreesOwned | src/truncate.c:68-262 | the blocks a truncation gives back are in use and distinct, and the file still owns its own |
| ExpandDir.FirstFreeIsNewBlock | lib/ext2fs/alloc.c:79-103 | the block the callback takes is the one the search for a free block finds |
| ExpandDir.TakenCounted | lib/ext2fs/alloc_stats.c:42-54 | counters right before a free block is taken are right afterwards |
| ExpandDir.NodeSearch | lib/ext2fs/block.c:42-267 | the appending iteration below a block finds the lowest index without a block and fills it with all that is missing on the way, or passes |
| ExpandDir.ExpandSearch | lib/ext2fs/expanddir.c:30-82 | the same for a whole inode whose first block is mapped |
| ExpandDir.Directory.ExpandDir | lib/ext2fs/expanddir.c:84-129 | maps the lowest unmapped logical block to a free block, which then holds a good directory block without entries, keeps every other, shares nothing, keeps the free counters right, and raises size and i_blocks by what was added; else tells a full device from a full map |
| DataBlocks.MappedApart | lib/ext2fs/bmap.c:140-270 | in a file whose blocks are used once no two logical blocks share a disk block |
| DataBlocks.DataNotIndirect | lib/ext2fs/bmap.c:37-138 | nor is a data block an indirect block of the file |
| DataBlocks.DataWriteKeeps | lib/ext2fs/fileio.c:105-137 | so writing a data block leaves the tree that maps the file as it is |
| FileIo.PieceInFlat | lib/ext2fs/fileio.c:253-297 | a piece put into one block is that piece of the whole byte string replaced |
| FileIo.WrittenImage | lib/ext2fs/fileio.c:105-137 | writing the buffer to its block changes what the device holds for that logical block only |
| FileIo.FileHandle.constructor | lib/ext2fs/fileio.c:38-83 | a freshly opened handle shows what the device holds |
| FileIo.FileHandle.Flush | lib/ext2fs/fileio.c:105-137 | the byte string is unchanged, and on success the device holds it; failure only when the buffer holds changes, its block is missing, and no block is free |
| FileIo.FileHandle.SyncBufferPosition | lib/ext2fs/fileio.c:143-157 | the buffer is at the block of the position, and the byte string is unchanged; failure only when the changed buffer has no block and none is free |
| FileIo.FileHandle.LoadBuffer | lib/ext2fs/fileio.c:168-192 | a filled buffer is the block of the byte string, zeros for a hole |
| FileIo.FileHandle.Write | lib/ext2fs/fileio.c:253-297 | exactly the written prefix of the data replaces the bytes at the position; all of it on success; refused exactly on a handle that is not writable, and failing only when the changed buffer has no block and none is free |
| FileIo.FileHandle.Read | lib/ext2fs/fileio.c:211-250 | returns exactly the bytes from the position up to the size, holes as zeros, and changes nothing; failure only when a changed buffer has no block and none is free |
| FileIo.FileHandle.Lengthen | src/truncate.c:278-330 | the file grows by zeros and the position is put back; on failure the contents are as before; each outcome has its condition |
| FileIo.FileHandle.DoWrite | src/ext2fs.c:523-581 | a gap is filled with zeros, the data lies at its offset, the size is the most reached; refused exactly on a handle that is not writable; on failure, only when the changed buffer has no block and none is free, a prefix of the data may show |
| FileIo.FileHandle.DoRead | src/ext2fs.c:480-510 | the bytes of the file at the offset, up to its end; failure only as for a read |
| FileIo.FileHandle.Close | lib/ext2fs/fileio.c:195-208 | leaves the device holding the contents of the file |
| UnixCache.UnixChannel.FindCachedBlock | lib/ext2fs/unix_io.c:301-326 | the entry of the block if there is one, which then has the latest access time, else an unused entry or else the least recently used |
| UnixCache.UnixChannel.ReuseCache | lib/ext2fs/unix_io.c:331-341 | a dirty block is written back before its entry goes to another, with the latest access time |
| UnixCache.UnixChannel.FlushCachedBlocks | lib/ext2fs/unix_io.c:346-374 | the device equals the logical contents, no entry is dirty, none is in use if invalidated, and else the same blocks stay cached |
| UnixCache.UnixChannel.Flush | lib/ext2fs/unix_io.c:677-691 | the device equals the logical contents |
| UnixCache.UnixChannel.SetBlksize | lib/ext2fs/unix_io.c:504-525 | a new block size loses nothing, and the old one changes nothing |
| UnixCache.UnixChannel.WriteByte | lib/ext2fs/unix_io.c:645-672 | the logical contents and the device have the bytes replaced, and no entry is stale |
| UnixCache.UnixChannel.ReadBlk | lib/ext2fs/unix_io.c:528-591 | the bytes of the device, as it would be without a cache, from block * size + offset on, as many as -count or count * size; the last block read through the cache is then in it |
| UnixCache.UnixChannel.ReadCached | lib/ext2fs/unix_io.c:556-588 | blocks from their entries, and the uncached ones between them read in runs |
| UnixCache.UnixChannel.ReadUncached | lib/ext2fs/unix_io.c:567-587 | a run of blocks read at once, up to the next block that is cached; each is then put in its entry, of which the last one keeps its block |
| UnixCache.UnixChannel.WriteBlk | lib/ext2fs/unix_io.c:593-643 | the logical contents have the data in place of the bytes from block * size + offset on; the device too for large, negative and write-through counts; the last block written through the cache is then in it |
| UnixCache.UnixChannel.WriteThrough | lib/ext2fs/unix_io.c:619-640 | after writing through, entries and device agree |
| UnixCache.UnixChannel.WriteBack | lib/ext2fs/unix_io.c:619-640 | otherwise the entries hold the data, dirty, one entry per block |
| UnixCache.WriteAndRead | lib/ext2fs/unix_io.c:504-672 | bytes written one way are read as blocks of any other size: after a byte write and a change of block size, a block read returns those bytes |
| InodeTable.InodesApart | lib/ext2fs/inode.c:550-565 | two inodes never share a byte of the device |
| InodeTable.SlotOf | lib/ext2fs/inode.c:546-560 | slot i of the table of group g belongs to inode g * perGroup + i + 1 |
| InodeTable.OthersKept | lib/ext2fs/inode.c:613-724 | writing one inode leaves all others as they are |
| InodeTable.CacheWritten | lib/ext2fs/inode.c:631-638 | a cache updated for the written inode is right for the written device |
| InodeTable.InodeCache.ReadInode | lib/ext2fs/inode.c:507-604 | the inode on the device, cached or not; if not, it takes the next entry of the cache in turn; an error exactly for a number out of range |
| InodeTable.InodeCache.ReadBytes | lib/ext2fs/inode.c:566-587 | also when the inode lies across two blocks |
| InodeTable.InodeCache.WriteInode | lib/ext2fs/inode.c:613-724 | the device changes in the bytes of that inode only, and cache and buffer follow |
| InodeTable.InodeCache.WriteBytes | lib/ext2fs/inode.c:689-717 | also when the inode lies across two blocks |
| InodeTable.InodeScan.constructor | lib/ext2fs/inode.c:108-175 | a scan starts before inode 1 |
| InodeTable.InodeScan.NextBlockgroup | lib/ext2fs/inode.c:222-237 | goes on to the first slot of the next group |
| InodeTable.InodeScan.GetNextBlocks | lib/ext2fs/inode.c:312-364 | reads at least one more block of the table of the group, from where the last ended |
| InodeTable.InodeScan.TakeSlot | lib/ext2fs/inode.c:431-489 | the next slot, also when part of it was left in the buffer |
| InodeTable.InodeScan.Next | lib/ext2fs/inode.c:387-495 | each call yields the next inode number with its inode from the slot ReadInode uses, up to the last, and then 0 |
| DirBlock.DirContext.ProcessDirBlock | lib/ext2fs/dir_iterate.c:137-221 | walks the records as specified for any callback, and writes the block only if changed and not corrupt |
| DirBlock.WalkLinks | lib/ext2fs/link.c:33-91 | linking keeps the tiling of a good block and does to its records what the record-level specification says |
| DirBlock.LinkAddsOne | lib/ext2fs/link.c:33-137 | adds exactly one entry and keeps the others in order; or changes none, and then no single record had room |
| DirBlock.WalkUnlinks | lib/ext2fs/unlink.c:36-68 | unlinking keeps the tiling of a good block and does to its records what the record-level specification says |
| DirBlock.UnlinkRemovesFirst | lib/ext2fs/unlink.c:36-101 | removes exactly the first match; changes nothing without one |
| DirBlock.UnlinkLeavesFirst | lib/ext2fs/unlink.c:45-63 | in a block before which a record was seen, a match that is its first record stays in use, and any other first match is removed |
| DirBlock.WalkPasses | lib/ext2fs/unlink.c:36-63 | a block without a match stays as it is, and the record seen before is then its last one |
| DirBlock.Unlink | lib/ext2fs/unlink.c:73-101 | the blocks of a directory are walked in turn with the same state, up to the first match; errors as specified |
| DirBlock.UnlinkDirectory | lib/ext2fs/unlink.c:36-101 | success exactly if something matches; the first match is removed if and only if it is not the first record of a later block, and then nothing else changes; otherwise it stays and one length is raised |
| DirBlock.UnlinkCorrupts | lib/ext2fs/unlink.c:62-67 | if the block before has one record and the matching first record is longer than half its block, the block is corrupt afterwards |
| DirBlock.UnlinkFromAddedBlock | lib/ext2fs/unlink.c:36-101 | for every block size and name: the first name linked into a block added to a directory is still there after it is unlinked with success |
| DirBlock.UnlinkUndoesLink | lib/ext2fs/unlink.c:36-101 | unlinking a fresh name just linked restores the entries |
| DirBlock.LinkThenUnlink | lib/ext2fs/link.c:33-137 | the same on the bytes of the block |
| DirBlock.WalkLooksUp | lib/ext2fs/lookup.c:34-49 | finds the first entry in use with the name and changes nothing |
| DirBlock.DirIterate | lib/ext2fs/dir_iterate.c:44-84 | the blocks of a directory are walked in turn with the same private data, until the callback stops |
| DirBlock.NewDirBlock | lib/ext2fs/newdir.c:31-75 | a good block, empty or with the entries for itself and its parent |
| DirBlock.BytesOfRecord | lib/ext2fs/ext2_fs.h:688-694 | a record is its inode, its length, the length of its name, its type and its name, little-endian |
| DirOps.LinkWalks | lib/ext2fs/link.c:33-137 | over a whole directory link adds the one entry and keeps the others in order; or changes none, and then no record of any block had room |
| DirOps.Link | lib/ext2fs/link.c:100-137 | the same for the call: success exactly if the entry is added, and the blocks stay good |
| DirOps.Lookup | lib/ext2fs/lookup.c:29-71 | the inode of the first entry in use with the name in the whole directory, or an error exactly if there is none |
| DirOps.LinkedIsFound | lib/ext2fs/lookup.c:29-71 | a name linked for the first time is found from then on, and no other name is found differently |
| Icount.InodeCounts.Lookup | lib/ext2fs/icount.c:333-401 | finds the element or the place to insert it, for any pivot between low and high and any cursor |
| Icount.InodeCounts.InsertEl | lib/ext2fs/icount.c:282-326 | the list stays strictly sorted, with one new element |
| Icount.InodeCounts.SetInodeCount | lib/ext2fs/icount.c:403-432 | changes the count of that inode only |
| Icount.InodeCounts.Fetch | lib/ext2fs/icount.c:487-505 | the count of the inode; an error exactly out of range |
| Icount.InodeCounts.Increment | lib/ext2fs/icount.c:507-562 | one more modulo 65536 for that inode, no other changes, with or without the bitmap of larger counts |
| Icount.InodeCounts.Decrement | lib/ext2fs/icount.c:564-605 | one less for that inode; an error exactly out of range or at zero; only a count of one is in the bitmap of single counts, and a count of zero leaves that of larger ones |
| Icount.InodeCounts.Store | lib/ext2fs/icount.c:607-640 | the count given for that inode, no other changes; a count of one is in the bitmap of single counts, a larger one in the other |
| Backups.TestRootDown | lib/ext2fs/closefs.c:25-36 | accepts exactly the powers of the base, and zero |
| Backups.TestRootUp | src/ext2fs.c:660-666 | accepts exactly the powers of the base other than one |
| Backups.BgHasSuper | lib/ext2fs/closefs.c:38-49 | with sparse superblocks accepts exactly groups 0, 1 and the powers of 3, 5 and 7 |
| Backups.GroupSparse | src/ext2fs.c:668-673 | accepts the same and every negative number |
| Backups.TestsAgree | src/ext2fs.c:668-673 | the two tests agree exactly from group 0 on |
| Backups.ListBackups | lib/ext2fs/res_gdt.c:29-56 | returns the least counter and multiplies it by its base |
| Backups.BackupsAreSpecial | lib/ext2fs/res_gdt.c:29-56 | started at 1, 5 and 7, successive results increase strictly and are exactly the groups from 1 on that the test accepts |
| Sizing.InodesPerGroup | lib/ext2fs/initialize.c:253-285 | the largest choice not above the request whose total fits in 32 bits, a multiple of 8 within one bitmap block |
| Sizing.FilledBounds | lib/ext2fs/initialize.c:256-277 | filling the table's blocks and rounding to eight stays within a bitmap block |
| Sizing.SizeFileSystem | lib/ext2fs/initialize.c:210-331 | terminates, and grants exactly the sizes of the largest groups not passed over; then the geometry is sound, the last group is full or has room for its overhead and 50 blocks, and the inodes reach the number wanted if and only if the count tried first fits in 32 bits and fills up to the share of a group |
| Sizing.GrantedExactly | lib/ext2fs/initialize.c:210-331 | a request is granted some sizes if and only if all larger groups, in steps of eight blocks, are too crowded with inodes, with all blocks or without the last group, and these are not, and leave room for the fixed structures |
| Sizing.OnePer4096Bytes | lib/ext2fs/initialize.c:221-229 | by default there is an inode for every 4096 bytes, or for every block if blocks are larger |
| Sizing.RoomToGrow | lib/ext2fs/initialize.c:69-93 | the reserved descriptor blocks are just enough for a file system 1024 times as large or as large as the format allows, or as many as a block can list |
| Sizing.FilledReaches | lib/ext2fs/initialize.c:256-277 | filling the blocks of the table and rounding to eight reaches the count exactly if the rounding takes no more than the filling gave, as it does when eight divides the inodes per block |
| Sizing.CountReaches | lib/ext2fs/initialize.c:231-285 | the count settled on by the retries reaches the number wanted exactly if the first try does |
| Sizing.NoInodeAtAll | lib/ext2fs/initialize.c:224-285 | a request for twelve inodes over a hundred groups that is granted with none |

## Left out

* I/O errors, failing allocations of memory, locks, memory mapping, byte swapping, FUSE requests, permissions and option parsing.
* Changes of the file length are ordered with respect to syncs; within the file, a crash may keep any unsynced aligned word.
* Nested transactions and the no-sync flag of tdb; a transaction starts on a file with nothing unsynced.
- TdbCommit.TransactionCommit: the pending elements have to be disjoint from the part of the recovery area that lies in the file, and what freeing an old area writes is a parameter; a database that would pass 4 GiB is refused; a log that passes the end of the file is written by pwrite, since memory mapping is not modelled; that a commit is not atomic is shown for logs of at most 0x42000000 bytes.
- TdbCommit.RecoveredIsReady: a log that passes the end of the file can leave it, after a crash before the file has its new size, at a length that is not a multiple of four, from which the model does not go on.
- TdbFreelist.Allocator.Free: the recovery area is not part of the allocator's heap, because its tailer is not at the end of its record.
- TdbHash.Tdb.Store: traversals, whose locks keep deleted records in their chains, are not modelled.
- TdbHash.Tdb.UpdateHash: lengths and offsets are unbounded numbers, while the code adds them in 32 bits.
- BlockIter.BlockContext.IterateInode: the reference block and offset given to the callback are left out, as is the Hurd translator block.
- Bmap.OpenInode.Bmap: BMAP_SET is left out, since nothing in the repository uses it; a logical block past the triple indirect tree is not asked for; after a failure indirect blocks already added stay attached and i_blocks is not raised.
- ExpandDir.Directory.ExpandDir: the directory's first block has to be mapped; the blocks in use are a set rather than the bits of a bitmap.
- Truncate.FileSystem.DoShorten: the handle's copy of the inode has to be the inode on disk; shrinking through a handle that stays open is not modelled.
- FreeSpace.FreeItems.AllocStats: the count of directories in a group is left out; an item outside every group is not asked for.
- FileIo.FileHandle.DoWrite: sizes are one number, where do_write looks at the low 32 bits only; time stamps are left out; the zeroing of a newly allocated data block is overwritten at once by the buffer and not shown.
- FileIo.FileHandle.Flush: the contents of data blocks are kept beside the blocks of pointers; a write to a data block changes both views of that block.
- UnixCache.UnixChannel.WriteBlk: write-through is fixed for a channel, as nothing in the repository changes it; blocks past the end of the device are not asked for.
- InodeTable.InodeCache.ReadInode: only buffers of the standard size, inode numbers from 1 on, and a writable file system.
- InodeTable.InodeScan.Next: no bad blocks, no missing tables, no callback at the end of a group.
- DirBlock.DirContext.ProcessDirBlock: the flag DIRENT_FLAG_INCLUDE_REMOVED, which nothing in the repository passes, and the kind of entry given to the callback are left out.
- DirBlock.Unlink: the directory is a sequence of blocks; reading them through the block iterator is not shown.
- DirOps.Link: the check for a read-only file system and the index flag of the directory's inode are left out.
- DirBlock.WalkLinks: names without NUL bytes; blocks below 64 KiB.
- Icount.InodeCounts.Store: the counts kept in a tdb file, the hint list and the capacity of the list are left out.
- Sizing.SizeFileSystem: inode sizes divide the block size.
* Rename, rmdir, mkdir and permission checks, symbolic links, block wiping, directory hashes, the journal, resize inode and imager code, extended attributes, and the superblock and bitmap writers.
