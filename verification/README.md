# SNFS in Dafny

A verification project for SNFS, a small network file server: its file system on a virtual disk, its request server, the
user-level thread library under it, and the chunked reads and writes of its client library.

The core is the file system layer. A device is a flat array of bytes cut into blocks of 512; blocks 0-9 hold two free maps
and a table of 64 inodes; files and directories have up to ten direct blocks; and three caches sit on top: ten blocks with
write-back, four inodes, four directory pages. The project has it three times. `FsObject.FileSystem` is the C structure:
arrays updated in place, one method per C function, loops where the C code has loops. The modules `BlockStore`, `FsState`,
`FsFiles`, `FsDirs`, `FsMeta`, `FsCopying` and `FsStart` say the same as functions on an immutable state, and every method
is proved to compute its function. `FsRuns` states what all of it is for: a map from inode numbers to byte sequences, and a
tree of names. The lemmas between the second and the third are the bulk of the proofs.

The server's ring and monitor protocol (`ServerBuffer`, `ServerProtocol`) and the thread library's hand-off (`UserThreads`,
`HandOff`) are an object proved against functions, and a state machine over all interleavings built from those functions.
`ThreadQueue` is the linked queues with their one recycled node, on which the library object is built. `ClientIo` is the
client's loops against a server file that other clients may be changing, and `ClientOnServer` runs the write requests
against the file system itself.

Check the whole project with `dafny verify dfyconfig.toml`.

## How to read it

- `FsInv.Inv` is the invariant of the file system. Its parameter `Owners` is bookkeeping for the proofs: for every block the
  (inode, place) it was allocated for, for every inode the (directory, position) of its entry. `FsReachable` restates what
  follows for every reachable state without that bookkeeping; every reachable state satisfies `Inv` for some `Owners`
  (`FsReachable.ReachableInv`).
- The content of a block is its cached copy if there is one, else the disk (`BlockStore.View`). The record of a file is the
  first cached copy of its inode, else the table row (`FsCoherence.Eff`): that is what the calls themselves look at. An
  inode is coherent (`FsCoherence.CoherentAt`) while it has one copy at most and a clean copy agrees with the table; files
  are followed one by one, so an incoherent inode says nothing about others.
- The page a search or a listing gets for a block of a directory is `FsPages.PageRead`; `FsPages.Afresh` says that it comes
  from the disk.
- `time(NULL)` is an unknown function of the number of calls made so far. Nothing depends on it except where a lemma says so.
- A call that would leave an array, use a variable never set, or end the process gives `Abort` or `Fault`. `FsRuns.Proper`
  lists what callers must respect; under it neither happens in any run.
- The number of blocks is a parameter n with 10 < n <= 4096: the free map has 4096 bits.

## Where the code does less than it seems to

Each of these is a lemma, most with the exact condition under which the code does what one expects.

- A file that is created and then written without having been looked up is not read back at first: the write updates the
  table row and a second copy of the inode and leaves a clean copy of the empty inode in front of it in the cache
  (`FsWriteCalls.GrownCall`, `FsStale.CreateWriteReadIsEmpty`). The repository's own create-write-read test does this from
  line 21 on; its first request looks up "/", which leaves the inode number unset. A write to an inode cached on entry, or
  one that does not grow the file, is read back.
- That lasts until the first copy is pushed out of the cache by a call on any other inode, even one that only asks for its
  attributes (`FsPushedOut.AttributesOfAnotherShowTheWrite`; a read of the file itself puts it off,
  `FsPushedOut.ReadDelaysTheWrite`). A file whose inode is not coherent can change under calls
  that do not name it; `FsCalls.LookingUpChangesIff` says exactly when, the calls say exactly to what, and
  `FsRuns.RunsShowACopy` bounds it over runs.
- So one large `my_write` is one splice only if its first piece shows up: the file was looked up before, or that piece does
  not make it longer, or the cache slots fall right. Otherwise the first piece is cut off at the old end of the file, and
  of a new file all of it is missing (`ClientOnServer.ChunksAreOneSpliceIff`,
  `ClientOnServer.CreatedWriteLosesFirstPiece`): the later pieces go to the cached copy that has not seen it.
  `ClientIo.MyWrite` covers servers on which any of the pieces fail to show up.
- A name created in a directory that already has entries is on the disk but is not found by the next search, unless its
  entry began a new block, and a listing shows a line without a name in its place (`FsCreated.CreatedNameFoundIff`,
  `FsCreated.CreatedNameListedIff` and their forms for a clock that strictly increases; `FsStale.SecondNameIsMissing` and
  `FsStale.SecondNameIsNotListed` are runs). So names need not be unique. A hit is always an entry on the disk, and
  `FsHits.SearchAnswers` says which of several.
- A search that hits behind the page it saw first notes the entry there, so that listings show it in a line that is not its
  own (`FsHits.NextListingShows`, with a run in `FsNoted.LookupBringsLastNameForward`).
- `fs_copy` never shows its data: it fills the table row while readers use the dirty copy of the empty inode cached before.
  The copy reads back exactly when the source is empty (`FsCopying.CopyReadsBackIff`, with a run in
  `FsCopyRun.CopyIsOnDiskAndReadsEmpty`); a target directly in the root is always refused
  (`FsCopying.CopyIntoRootFails`).
- A failed `fs_write` keeps the contents, as `fs.h` promises, but one that fails for want of disk blocks first takes every
  block that was free and keeps it (`FsWriting.WriteFails`). It is without a trace in the free map exactly if the inode has
  no entries for the blocks it needs or none was free (`FsWriteCalls.FailedWriteTakesAllIff`;
  `FsStale.FailedWriteLeavesNoRoom` is a run).
- Zeroed block slots pose as block 0, and a failed read is cached as if it had succeeded (`BlockStore.ReadsTheDiskIff`,
  `BlockStore.FailedReadIsCached`).
- `fs_format` of a file system in use erases the data but keeps marks, inodes and caches, so the files stay
  (`FsStart.FormatKeepsFiles`, `FsStart.FormatEmptiesIff`); the server formats only what it has just made.
- `fs_lookup("/")` returns 1 without an inode number (`FsSearch.LookupSound`).
- The comments of `fs.h` give 0 for a successful lookup; the code returns 1 for found and 0 for missing. The model follows
  the code.
- `my_read` clips to the file's end, and ends, only if offset plus count does not wrap (`ClientIo.ClipIff`,
  `ClientIo.ReadEndsIff`).

## Model

| member | source | states |
|---|---|---|
| BlockDevice.Device.constructor | snfs_server/block.c:46-50 | the allocation has num*size bytes computed in 32 bits, all zero; it holds the whole device exactly when the product fits |
| BlockDevice.Device.New | snfs_server/block.c:41-52 | no device exactly when that product is zero; otherwise every block reads as zeros |
| BlockDevice.Device.Read | snfs_server/block.c:73-87 | fills the buffer with the block at that number, touches nothing behind it, and leaves the buffer alone for a number past the end |
| BlockDevice.Device.Write | snfs_server/block.c:90-105 | as a sequence of blocks, exactly one block is replaced; a number past the end changes none |
| Bitmap.FindFree | snfs_server/fs.c:255-264 | the answer is the first clear bit from a position on; none means all are set |
| Bitmap.SetChangesOneBit | snfs_server/fs.c:248-252 | setting a bit of the byte map changes that bit and no other, also within the same byte |
| Bitmap.FindFreeIsNext | snfs_server/fs.c:255-264 | when exactly the numbers below n are marked, the next free one is n |
| Slots.Victim | snfs_server/fs.c:139-148 | the slot replaced is the lowest among those with the oldest time |
| BlockStore.AddChangesOne | snfs_server/fs.c:138-161 | eviction loses nothing: an insertion changes the content of the inserted block only, and keeps clean slots equal to the disk and blocks cached once |
| BlockStore.CachedReadRefines | snfs_server/fs.c:168-187 | a read gives the content of the block and changes the content of none |
| BlockStore.CachedWriteRefines | snfs_server/fs.c:189-207 | a write changes the content of that block only, whatever it evicts |
| BlockStore.CacheRefinesPlainDisk | snfs_server/fs.c:127-207 | over any run of accesses and any clock the cached disk answers like a plain array of blocks |
| BlockStore.ReadsTheDiskIff | snfs_server/fs.c:463-466 | a first read is faithful on every disk exactly for blocks 1 to n-1: zeroed slots pose as block 0 |
| BlockStore.FailedReadIsCached | snfs_server/fs.c:179-186 | a read past the end fails once and is then reported as successful with the old bytes of the first buffer |
| ExactLru.CachedAreTheMostRecent | snfs_server/fs.c:127-207 | over any run of cached_block_read and cached_block_write from the zeroed cache, with a positive, strictly increasing clock, the cached blocks are exactly the ten most recently accessed |
| ExactLru.RecencyPlace | snfs_server/fs.c:127-161 | the place in that recency order is the number of distinct blocks accessed since |
| FsRecency.RunsCacheTheMostRecent | snfs_server/fs.c:127-161 | the same for whole runs of fs_* calls from the formatted disk: the cache holds exactly the ten blocks that reads, writes, allocations and copies touched most recently |
| FsInodeOrder.RunsKeepInodesByUse | snfs_server/fs.c:507-541 | over any run from the formatted disk, with times that strictly increase, the inodes in the four slots, slot by slot, and the next victim are those of a machine without a clock that puts a slot last whenever a lookup, a listed type, a write or a copy uses it |
| FsPageOrder.RunsKeepPagesByUse | snfs_server/fs.c:306-427 | the same for the four directory pages: a search uses the first page of its directory that is cached and then the blocks it reads, a listing the blocks it lists, and the least recently used page is the one replaced |
| FsMeta.StoreMeta | snfs_server/fs.c:227-241 | storing writes the two maps and the eight table blocks and no block from 10 on |
| FsMeta.StoreThenLoad | snfs_server/fs.c:209-241 | loading the stored bytes gives back both maps and the whole inode table |
| FsMeta.StoredWord | snfs_server/fs.c:227-241 | row n of the stored table is the 64 bytes at 64*(n mod 8) of block 2 + n/8: type, size, ten block numbers and four reserved words, little-endian |
| FsInv.StoreAdd | snfs_server/fs.c:138-161 | an insertion, whatever it evicts, writes to blocks of files only |
| FsInv.WriteBackOk | snfs_server/fs.c:530-534 | writing back a replaced inode keeps the table sound, every directory's row and every inode's type |
| FsInv.AcquireKeepsInv | snfs_server/fs.c:653-673 | looking an inode up keeps the invariant of the whole structure and finds exactly the used inodes |
| FsCoherence.AddKeepsOthers | snfs_server/fs.c:518-541 | after any inode has taken the oldest slot, the record in use of every other is the one before or, exactly if its first copy was in that slot, the next copy or the written-back row; no new record appears, and a coherent inode keeps its own |
| FsCoherence.AcquireKeepsCoherence | snfs_server/fs.c:653-673 | the same for the lookup every call starts with, for every inode: only an inode whose first copy is pushed out by an uncached one changes its record, and no coherent one does |
| FsContent.ReadLoopOk | snfs_server/fs.c:685-736 | the block loop delivers exactly the bytes asked for, whatever it evicts on the way |
| FsAlloc.AllocLoopOk | snfs_server/fs.c:795-811 | the allocation takes consecutive fresh blocks, zeroed, until done or the disk is full, and changes no block in use |
| FsSplice.WriteLoopOk | snfs_server/fs.c:824-866 | the write loop lays the buffer over the file's bytes, changes no block of another inode and never fails |
| FsWriting.WriteSucceeds | snfs_server/fs.c:773-888 | with room for it, the record written through holds old[..o] + buffer + the rest, at size max(size, o+count); no block of another inode changes, and of the inode table and cache only that record, its second copy and the slot written back for it |
| FsWriting.WriteFails | snfs_server/fs.c:784-803 | without room the result is -1 and no record's used range and no block in use changed; the blocks marked afterwards are those before if the inode has no entries for what the write needs, else all there are |
| FsCalls.GetAttrsOk | snfs_server/fs.c:544-594 | succeeds for exactly the used inodes but 0 with its number, type, size in use and, for a directory, how many entries that size holds; ends the process for inode 0 alone; every file then contains exactly what looking that inode up leaves in use |
| FsCalls.ReadOk | snfs_server/fs.c:645-738 | answers for exactly the files with exactly bytes [offset, offset+min(count, size-offset)); every file then contains exactly what looking that inode up leaves in use |
| FsCalls.QuietKeepsMeta | snfs_server/fs.c:150-154 | no eviction caused by reading writes to blocks 0-9 |
| FsCalls.QuietKeepsEntries | snfs_server/fs.c:150-154 | no eviction caused by reading changes an entry of any directory |
| FsCalls.QuietFiles | snfs_server/fs.c:150-161 | no write-back of an inode or a block caused by reading changes the content of a file whose inode is coherent |
| FsCalls.LookingUpChangesIff | snfs_server/fs.c:518-541 | fs_get_attrs or fs_read of an inode changes what a file contains exactly if the inode is another one that has to be brought in, the file's first copy is in the slot it takes, and the record left behind has other content; for a coherent inode never |
| FsWriteCalls.WriteOk | snfs_server/fs.c:741-888 | succeeds exactly when there is room; if the inode was cached on entry or the file does not grow, its content becomes one splice; every other file, and every file after a failure, contains exactly what the one or two insertions of this inode leave in use, and coherent ones keep their content; directories and metadata blocks stay |
| FsWriteCalls.GrownCall | snfs_server/fs.c:868-884 | a growing write to an uncached inode is read back exactly when the second cache slot it takes is not behind the first; otherwise readers see the splice cut off at the old size |
| FsWriteCalls.FailedWriteTakesAllIff | snfs_server/fs.c:784-803 | a failed write of a file leaves the free map as it was exactly if the inode has no entries for the blocks needed or none was free; otherwise no free block is left |
| FsTree.DirectoriesAreSmall | snfs_server/fs.c:927-935 | counting over the whole tree: no directory exceeds 62 entries or two blocks, so its block index needs no check |
| FsSearch.DirSearchSound | snfs_server/fs.c:306-427 | any hit, from however stale a page, is an on-disk entry of that directory with that name; no index leaves its array |
| FsSearch.ColdSearchExact | snfs_server/fs.c:342-427 | with no cached page of the directory a name is found exactly when the disk has it |
| FsPages.SearchExact | snfs_server/fs.c:306-427 | in any state and under any clock a name is found exactly if it is on the first cached page of the directory or among its entries as the page cache lets them be read |
| FsPages.AfterMiss | snfs_server/fs.c:334-424 | after a search that missed no cached page of the directory has the name anywhere, and the last page is cached |
| FsPages.PageReadIs | snfs_server/fs.c:351-398 | each page a search or a listing reads is the one cached at the beginning or, if that was replaced on the way or never there, the disk's |
| FsHits.SearchAnswers | snfs_server/fs.c:306-427 | in any state and under any clock a search answers with the first place that has the name on the first cached page, for one stamp; else with the first entry that has it as the pages are then read, and that entry is put in the first nameless place of the page seen first, if there is one; else it misses |
| FsHits.LookupAnswers | snfs_server/fs.c:597-643 | in any state fs_lookup refuses a path that does not begin with a slash, returns without an inode for one of slashes alone, and otherwise gives found, missing or refused exactly as these answers lead from the root, each in the state in which it is looked for |
| FsHits.NextListingShows | snfs_server/fs.c:407-415 | with the first block's page cached first, a hit in the second block makes the next listing show the entry found in the line of the first nameless place, with times that strictly increase |
| FsNoted.LookupBringsLastNameForward | snfs_server/fs.c:407-415 | a run: 33 files are created in the root, the last is looked up, and a listing of two lines then shows the first and the last |
| FsSearch.LookupSound | snfs_server/fs.c:597-643 | a found inode is reached from the root along on-disk entries with the path's names; the result without an inode number is exactly that for a path of slashes |
| FsWalk.ColdLookupExact | snfs_server/fs.c:597-643 | with the page cache still zeroed the answer is exactly where the names lead along the first entries on the disk: found, missing, or refused at something that is no directory |
| FsWalk.PathRoundTrip | snfs_server/fs.c:616-640 | splitting a path at its slashes gives back the names it was made of |
| FsMake.EntriesAfter | snfs_server/fs.c:937-944 | after an append the entries are the old ones and the new one, nothing else, with the name read back as written |
| FsMake.MakeSteps | snfs_server/fs.c:919-951 | the steps behind the search add one entry, one empty inode and the stored metadata, keep the tree, and fail exactly for want of a block |
| FsNamespace.MakeNodeOk | snfs_server/fs.c:891-955 | creation succeeds exactly for a good name the search misses while an inode and a block are left; it takes the next inode, adds exactly one entry, changes no other row and no file's copies, and otherwise changes the page cache only |
| FsNamespace.ReaddirOk | snfs_server/fs.c:1025-1135 | never leaves its arrays; at most 62 lines for any limit, even from a stale inode; every name listed is on the disk; files then contain exactly what looking the directory's inode up leaves in use |
| FsListing.ReaddirExact | snfs_server/fs.c:1025-1135 | in any state and under any clock the listing is exactly the entries of the inode it works with, as the page cache lets them be read, in order and with their types |
| FsListing.ColdReaddirExact | snfs_server/fs.c:1059-1130 | a case of that: with neither inode nor page cached the listing is the directory's entries on the disk in order with their types |
| FsListing.AttrsCountEntries | snfs_server/fs.c:579-582 | the number of entries reported is the directory's own unless a cached copy is used, and never more |
| FsCopying.CopyLoopOk | snfs_server/fs.c:1212-1250 | the copy loop fills the new row with consecutive fresh blocks whose content equals the source's, and fails exactly when the disk is too small |
| FsCopying.CopyDataOk | snfs_server/fs.c:1186-1259 | with the new file there, the rest succeeds exactly if the source's copy was replaced, so that nothing is left to copy, or the disk has room; unless it was replaced, the new table row has the source's size, fresh blocks and content; the new file reads empty, and of other inodes the records in use are those that holding both leaves |
| FsCopying.CopyReadsBackIff | snfs_server/fs.c:1139-1270 | after a successful fs_copy the new file's table row has the source's content exactly if the source's copy was not replaced or the source is empty, and readers see the source's content in it exactly if that is empty |
| FsCopyRun.CopyIsOnDiskAndReadsEmpty | snfs_server/fs.c:1139-1270 | a directory and a file in it are made, the file looked at, written and copied within the directory: the copy succeeds, its data is in the new file's row, the new file reads empty and the source as it was |
| FsCopying.CopyIntoRootFails | snfs_server/fs.c:1160-1177 | a copy whose target is directly in the root fails, whatever the source; files then contain exactly what looking the source's inode up leaves in use |
| FsCopying.CopyOk | snfs_server/fs.c:1139-1270 | the call leaves the defined behaviour exactly for a path of slashes or a target longer than its buffers; otherwise it stays in its arrays, adds at most one empty file, under the target's name in the directory its path leads to, changes no file whose inode is coherent, and of any other file makes no new record and changes the content of none |
| FsCopyLaw.CopyWorksIff | snfs_server/fs.c:1139-1270 | fs_copy succeeds exactly if the source path is found and is a file, the target fits its buffers, its directory part is found and is a directory, the name is good and the search there misses it, an inode and, if the last page is full, a block are left, and the disk has room for the data or the source's cached copy is replaced; then exactly that entry is added there, and blocks 0-9 stay as the creation stored them |
| FsCopying.CopyShows | snfs_server/fs.c:1139-1270 | exactly what every file, coherent or not, contains after fs_copy; once both inodes exist it fails only for want of blocks, and then the new file stays, empty, and no block is free |
| FsStart.FormattedOk | snfs_server/fs.c:475-504 | the formatted disk satisfies the invariant and holds no file |
| FsStart.FormattedImage | snfs_server/fs.c:489-503 | blocks 0-9 of the formatted disk load back to the maps and table in memory |
| FsStart.FormatKeepsFiles | snfs_server/fs.c:482-503 | formatting a file system in use zeroes every data block on the disk but keeps exactly the files there were, their rows and the caches |
| FsStart.FormatEmptiesIff | snfs_server/fs.c:482-503 | so it leaves no file exactly when there was none |
| FsRuns.StepOk | snfs_server/fs.h:59-160 | every call keeps the invariant, stays inside its arrays and acts on files and entries as the abstract map and tree allow |
| FsRuns.NoRunFaults | snfs_server/fs.c:544-1270 | no run of proper calls from a formatted disk leaves an array, whatever the clock |
| FsRuns.RunsRefineFileMap | snfs_server/fs.c:518-888 | disk, table and caches together are a map from inode to bytes: all replies and the final contents of a run are ones the map allows, while writes are shown |
| FsRuns.RunsRefineEachFile | snfs_server/fs.c:518-888 | every single file is a byte sequence in any run in which the writes to it were shown, whatever happened to others |
| FsRuns.RunsShowACopy | snfs_server/fs.c:518-888 | from any reachable state and until the next write to it, a file contains, and every read of it returns from, one of the copies its inode had in that state or its row, whatever else is called; copies disappear, none changes and none is new |
| FsRuns.RunsRefineTree | snfs_server/fs.c:306-1022 | in any run a creation adds exactly its own entry for an inode no entry named, no other call but a copy changes a directory, and lookups and listings name what is there |
| FsReachable.UsedBlocksAreMarked | snfs_server/fs.c:795-805 | a block used by any record, cached copies included, is marked, at least 10 and on the device |
| FsReachable.NoBlockIsShared | snfs_server/fs.c:795-811 | such a block has one (inode, place) only: no two files or directories share one, stale copies included |
| FsReachable.FreeMapsArePrefixes | snfs_server/fs.c:489-498 | used blocks and used inodes are initial segments of the numbers |
| FsReachable.LinksGoUp | snfs_server/fs.c:937-944 | entries lead from used directories to used inodes with larger numbers |
| FsReachable.OneEntryEach | snfs_server/fs.c:937-944 | every used inode from 2 on has exactly one entry |
| FsReachable.AllReachedFromRoot | snfs_server/fs.c:937-944 | every used inode is reached from inode 1 along entries |
| FsReachable.NoWayBack | snfs_server/fs.c:994-1011 | no chain of entries returns to where it began |
| FsReachable.EntriesCountInodes | snfs_server/fs.c:919-948 | the directories' sizes over 16 add up to the used inodes minus two, and each directory is small |
| FsReachable.LookupIsSound | snfs_server/fs.c:597-643 | the lookup property in every reachable state |
| FsReachable.CreatedImageStays | snfs_server/fs.c:946-951 | after a creation blocks 0-9 load back to the maps and table in memory, and no later read, write, lookup, attribute or listing call changes them |
| FsStale.FirstWrite | snfs_server/fs.c:749-765 | the exact condition under which the first write to an uncached empty file is read back, else it reads empty |
| FsStale.CreateWriteReadIsEmpty | Tests/test_snfs_create_write_read.c:21-36 | the requests of those lines, create in the root, write, read: all succeed, and the read returns nothing |
| FsPushedOut.AttributesOfAnotherShowTheWrite | snfs_server/fs.c:518-541 | three files are created, the first is written, then attributes are asked for: of the root, the second and the third file; up to the last request the first file contains nothing, after it what was written, under any positive clock that never goes back |
| FsPushedOut.ReadDelaysTheWrite | snfs_server/fs.c:653-673 | the same calls with a read of the first file before the others are looked at, with times that strictly increase: the read renews its empty copy, so the third look pushes out the written one and the file still reads empty |
| FsStale.FailedWriteLeavesNoRoom | snfs_server/fs.c:784-803 | on a formatted disk a file is created and a write to it fails for want of blocks: a small write that would have succeeded now fails too |
| FsCreated.CreatedNameFoundIff | snfs_server/fs.c:914-944 | in any state and under any clock a created name is found by the next search exactly if some entry with that name lies in a block whose page is then read from the disk; with at most 32 entries before, exactly if there were 0 or 32 |
| FsCreated.CreatedNameFoundTicking | snfs_server/fs.c:914-944 | in every reachable state, with times that strictly increase, exactly if the number of entries before was a multiple of 32 |
| FsCreated.CreatedNameListedIff | snfs_server/fs.c:1040-1130 | the same for the next listing: with at most 32 entries before, the name is listed exactly if there were 0 or 32, the limit goes beyond them and the directory's inode was not cached |
| FsCreated.CreatedNameListedTicking | snfs_server/fs.c:1040-1130 | in every reachable state, with times that strictly increase: exactly if the number before was a multiple of 32, the limit goes beyond it and the directory's inode was not cached |
| FsClock.StampsAreOlder | snfs_server/fs.c:318-396 | in any run, with times that strictly increase, every cached page was stamped before now |
| FsStale.SecondNameIsMissing | snfs_server/fs.c:914-944 | two names created in the root of a fresh disk, the second looked up: missing |
| FsStale.SecondNameIsNotListed | snfs_server/snfs.c:194-217 | the same two names listed: the second line has no name and a type on which the service ends the process |
| FsObject.FileSystem.constructor | snfs_server/fs.c:437-472 | builds the zeroed device, the zeroed caches and the loaded metadata |
| FsObject.FileSystem.Load | snfs_server/fs.c:209-224 | maps and table become what blocks 0-9 hold |
| FsObject.FileSystem.StoreData | snfs_server/fs.c:227-241 | the arrays after the loop are the state function StoreMeta of the state before |
| FsObject.FileSystem.Format | snfs_server/fs.c:475-504 | a new structure becomes the formatted file system, which satisfies the invariant |
| FsObject.FileSystem.FindBlock | snfs_server/fs.c:127-135 | the slot found, and the one stamp it costs |
| FsObject.FileSystem.AddBlock | snfs_server/fs.c:138-161 | the in-place insertion is the state function Add |
| FsObject.FileSystem.CachedRead | snfs_server/fs.c:168-187 | buffer, status and state as the state function says |
| FsObject.FileSystem.CachedWrite | snfs_server/fs.c:189-207 | state as the state function says, with its one or two stamps |
| FsObject.FileSystem.FirstFree | snfs_server/fs.c:255-264 | the loop over the byte array finds the first clear bit |
| FsObject.FileSystem.FindInode | snfs_server/fs.c:508-515 | the first slot with the inode |
| FsObject.FileSystem.CacheInode | snfs_server/fs.c:518-541 | the in-place insertion, with the row read after the write-back through the same table |
| FsObject.FileSystem.GetAttrs | snfs_server/fs.c:544-594 | state and reply as the state function says; valid states stay valid |
| FsObject.FileSystem.Read | snfs_server/fs.c:645-738 | the caller's array holds the reply in its first places and is otherwise untouched; state as the state function says |
| FsObject.FileSystem.Allocate | snfs_server/fs.c:784-820 | the allocation loop over the arrays |
| FsObject.FileSystem.WriteBytes | snfs_server/fs.c:824-866 | the write loop over the arrays; its block index stays below ten |
| FsObject.FileSystem.Write | snfs_server/fs.c:741-888 | from a valid state: state and reply as the state function says, valid again |
| FsObject.FileSystem.Search | snfs_server/fs.c:306-427 | both passes of the search over the page slots |
| FsObject.FileSystem.NoteEntry | snfs_server/fs.c:406-415 | the entry goes to the first nameless place of the page, or nowhere |
| FsObject.FileSystem.Lookup | snfs_server/fs.c:597-643 | the token loop; valid states stay valid |
| FsObject.FileSystem.Create | snfs_server/fs.c:891-955 | state and reply as the state function says, valid again |
| FsObject.FileSystem.Mkdir | snfs_server/fs.c:958-1022 | the same for a directory |
| FsObject.FileSystem.Readdir | snfs_server/fs.c:1025-1135 | 64 places are enough whatever the limit; the lines are those of the state function |
| FsObject.FileSystem.Copy | snfs_server/fs.c:1139-1270 | from a valid state and for any paths: state and reply as the state function says, valid again; Abort marks the places where the program goes on undefined |
| ServerBuffer.RequestRing.Get | snfs_server/server.c:85-92 | returns what the slot holds and moves the reading position around the ring |
| ServerBuffer.RequestRing.Put | snfs_server/server.c:94-101 | overwrites the slot at the writing position and moves that around the ring |
| ServerBuffer.RequestRing.Take | snfs_server/server.c:186-188 | with a request available, the oldest one and no other leaves the buffer |
| ServerBuffer.RequestRing.Add | snfs_server/server.c:240-253 | with fewer than ten requests, the new one joins behind them and overwrites none |
| ServerProtocol.StepKeepsInv | snfs_server/server.c:178-258 | the invariant survives every step of any thread |
| ServerProtocol.NoLostWakeUp | snfs_server/server.c:184-190 | unless a signal is just due, a sleeping consumer means an empty ring and a sleeping producer a full one |
| ServerProtocol.SignalReachesProducer | snfs_server/server.c:186-190 | a sleeping producer is always the one a single signal wakes |
| ServerProtocol.NeverStuck | snfs_server/server.c:184-255 | without spurious wake-ups some thread can always move, and a consumer never finds an empty slot |
| ServerProtocol.ExactlyOnceInOrder | snfs_server/server.c:85-101 | requests taken are a prefix of those put, at most ten lie between, the positions differ by their number mod 10, and the ring still holds them all |
| ServerProtocol.AnsweredOnceEach | snfs_server/server.c:193-220 | requests taken are those answered and those in hand, each once; an answer carries its request's serial number and says whether its type is one of the eight served |
| ThreadQueue.Queues.Create | sthread_lib/queue.c:10-17 | a new empty queue; the other queues keep their threads although the spare node is forgotten |
| ThreadQueue.Queues.IsEmpty | sthread_lib/queue.c:55-58 | true exactly for a queue without threads |
| ThreadQueue.Queues.First | sthread_lib/queue.c:61-65 | the first thread of a queue with threads |
| ThreadQueue.Queues.Insert | sthread_lib/queue.c:31-52 | the thread joins at the end of that queue and all other queues are unchanged, whether or not the node is a recycled one |
| ThreadQueue.Queues.Remove | sthread_lib/queue.c:68-82 | the first thread leaves that queue and all other queues are unchanged; the node becomes the spare one, in no queue, or is freed |
| ThreadQueue.Queues.DanglingLast | sthread_lib/queue.c:68-82 | an emptied queue whose last pointer leads into another queue's node still works, and so does the other |
| UserThreads.Library.MutexLock | sthread_lib/sthread_user.c:555-577 | on linked queues: from an object that shows t to one that shows the state function Lock of t; fails exactly when nobody is ready |
| UserThreads.Library.MutexUnlock | sthread_lib/sthread_user.c:579-596 | on linked queues: from t to the state function Unlock of t |
| UserThreads.Library.MonitorInit | sthread_lib/sthread_user.c:607-618 | a monitor with a mutex of its own, both with new queues |
| UserThreads.Library.MonitorWait | sthread_lib/sthread_user.c:637-660 | on linked queues: from t to the state function Wait of t; fails exactly when nobody is ready |
| UserThreads.Library.MonitorSignal | sthread_lib/sthread_user.c:662-678 | on linked queues: from t to the state function Signal of t |
| HandOff.NextKeepsInv | sthread_lib/sthread_user.c:555-678 | the invariant survives every operation and every exchange by a scheduler |
| HandOff.EveryoneInOnePlace | sthread_lib/sthread_user.c:555-678 | over any run each thread is in as many places as at the start, at most one: active, ready, one mutex queue or one monitor queue |
| HandOff.QueuesInOrder | sthread_lib/sthread_user.c:579-678 | over any run a free mutex has no waiters, owners leave its queue and sleepers leave a monitor in the order they came, and nobody sleeps while owning the monitor's mutex |
| HandOff.ReturningOwns | sthread_lib/sthread_user.c:559-576 | over any run a thread that returns from lock, at once or after blocking, or from wait, owns the mutex |
| HandOff.OwnerUntilItGivesUp | sthread_lib/sthread_user.c:555-678 | mutual exclusion over any run: the owner of a mutex stays its owner until it calls unlock, or wait on a monitor of that mutex, itself |
| HandOff.OthersChangeNothing | sthread_lib/sthread_user.c:579-678 | unlock, wait and signal of a thread that does not own the mutex change nothing |
| HandOff.ReadyInOrder | sthread_lib/sthread_user.c:571-591 | over any run without exchanges by a scheduler the processor goes to the threads in the order in which they became ready |
| HandOff.CrashIff | sthread_lib/sthread_user.c:571-573 | the removal from an empty ready list happens exactly when a thread must block and no other can run |
| ClientIo.ClipIff | snfs_lib/myfs.c:167-169 | the clipping of a read is right exactly when offset plus count does not wrap in 32 bits |
| ClientIo.ReadEndsIff | snfs_lib/myfs.c:167-188 | on a file nobody changes the loop of a read ends exactly when offset plus count does not wrap in 32 bits |
| ClientIo.SpliceTwice | snfs_lib/myfs.c:215-227 | two splices, the second where the first ended, are one |
| ClientIo.ShownPiecesAreOneSplice | snfs_lib/myfs.c:215-227 | when every piece of a large write shows up the pieces are one splice, clipped to the file's end |
| ClientIo.Remote.Read | snfs_server/snfs.c:91-110 | a served read of at most 1024 bytes is the clipped range of the file |
| ClientIo.Remote.Write | snfs_server/snfs.c:113-135 | a served write of at most 1024 bytes splices and reports the size of the result if it shows up, else only what lies within the old size is seen and that size reported; a refused one changes nothing; ServedWrite proves this of the file system and says when a write shows up |
| ClientIo.MyRead | snfs_lib/myfs.c:145-191 | terminates; delivers exactly the clipped range and moves the offset behind it, or -1 exactly if a request, the last one, was refused, with a proper prefix delivered; offsets stay within the server's file; ReadEndsIff covers sums that wrap |
| ClientIo.MyWrite | snfs_lib/myfs.c:193-230 | terminates; a success has sent exactly the pieces of the buffer, in order, and -1 means that the last request was refused; the descriptor ends with the size reported last, undisturbed the file's own; undisturbed, the file is what these pieces make of it, whichever of them show up, with -1 for a proper prefix of them; if all do, it is one splice at the write offset whatever the length |
| ClientIo.WriteThenRead | snfs_lib/myfs.c:145-230 | undisturbed and with writes that show up, what my_write wrote at the read offset the next my_read of that length delivers, also behind the old end of the file |
| ClientOnServer.ServedWrite | snfs_server/snfs.c:113-135 | one write request against the file system: the file and the size reported are what Remote.Write assumes, with the exact condition for showing up; other files contain exactly what the insertions leave in use; afterwards the inode is cached, and while it is, writes to it show up |
| ClientOnServer.ChunksAreOneSpliceIff | snfs_lib/myfs.c:215-227 | the pieces of one my_write, all served, are a run of fs_* calls and one splice of the file exactly if the first piece shows up; otherwise that piece is cut off at the old end and the others are appended there; other files contain what the first piece alone makes of them |
| ClientOnServer.OutcomeIsInPieces | snfs_lib/myfs.c:215-227 | what the file system makes of the pieces is what MyWrite says of a server on which all pieces but perhaps the first show up |
| ClientOnServer.CreatedWriteLosesFirstPiece | snfs_lib/myfs.c:193-230 | a file just created and written with one my_write of 1025 to 2048 bytes: both pieces are served, the first reports size 0, and the file reads back as the second piece alone |

## Left out

- FsWrite: sums are not taken modulo 2^32; this differs from the code only for buffers of more than 2^32 - 5120 bytes, and
  the server passes at most 1024.
- FsLookup: the 200-byte copy of the path is not modelled; longer paths are outside the model.
- FsCopy: what the program does behind the places where `FsCopying.CopyFaults` holds is not modelled: a target written
  behind its two 14-byte buffers, or an inode number never set.
- MyRead: requires that offset plus count fits 32 bits, since a method has to end; `ReadEndsIff` says that beyond that the
  loop does not end on a file nobody changes.
- Interleaving inside the fs_* calls: each call is one step, and the cache mutex, which `fs_create`, `fs_mkdir` and part of
  the loops do not hold, is not modelled.
- Devices of ten blocks or fewer, or of more than 4096 blocks, such as the server's default of 16384: the free map is read
  and written beyond its 512 bytes there.
- The host-file image of the device (`block_load`, `block_store`) and the simulated delays.
- Sockets, message layouts, the dispatch of services beyond the question whether a type has a handler, printing and exit.
- The server's end of process on a failed receive or send, and liveness under an unfair lock.
- The thread library's scheduler, yield, sleep, join, exit and time slices: any exchange of the active thread with a ready
  one stands for them. Spin locks and interrupt levels, since operations are atomic steps, and context switching.
- `delete_queue`, which frees a queue's nodes and threads.
- The pthread wrappers, taken as the rules of the server's state machine: an unfair lock and spurious wake-ups.
- The client's open-file list and path splitting, which would only add easy members.
- `fs_dump` and the other dump functions.
