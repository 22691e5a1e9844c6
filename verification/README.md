# Verification of Reliance Edge

A Dafny model of the hard cores of Reliance Edge, a transactional copy-on-write
file system, with proofs of what each core promises.  The configuration modelled
is the richest one: writable, the POSIX API with working directories, symbolic
links followed, atomic rename, deletion of open inodes, no byte swapping.
Configuration values (buffer, handle, task, volume and inode counts, block and
name sizes, block numbers) are symbolic constants with only the constraints the
code needs.

`dafny verify dfyconfig.toml` checks the whole project.

Disk reads and writes may fail at any time.  Directories, the buffers and the
volume carry a constant `sound` that says the disk never does; where it holds,
the contracts leave an operation no failure but those it is to report.

## Contents

Shared numbers are in `Constants`, error numbers in `Errors`.

**Path resolution** (`Components`, `FileSystem`, `Resolver`, `PathMeaning`,
`PathWalker`, `PathLookup`, `PathLaws`, `VolumePrefix`).  `Resolver` is a short recursive
reading of section 4.13 of IEEE Std 1003.1-2017: split the path, follow each
symbolic link by resolving its names, fail with ELOOP at the ninth nested link.
`PathWalker.Walker` is the step machine of posix/path.c with its stack of
partly read links and its `NAME_MAX + 1` byte window.  `PathMeaning` says what a
state of that machine still has to do; every step preserves it, so the machine
refines the resolver for every file system, path, start and flags.  It ends on
every file system, cyclic links included, by a lexicographic measure.  `PathLaws`
says what the resolver means by the directories and links alone: where dot and
dot-dot lead, that paths compose, that a name followed by dot-dot cancels, and
that a link leads where its target does.

**Paths of directories** (`DirPath`, `TreePath`).  DirInodeToPath() rebuilds the
path of a directory in place by shifting the buffer right; on a well-formed tree
looking the result up from the root finds the same directory.

**Heap** (`HeapLayout`, `Heap`, `Memory`).  Headers tile the pool at all times;
allocation is best fit, freeing coalesces, resizing keeps the data whether it
stays, slides left over its own bytes or moves.  Requests are rounded up in 32
bits, as in the code, and payload may hold any bytes, header sentinels included.

**Block buffers** (`BufferView`, `Recency`, `BufferCache`).  The buffers and the
disk together are one map from blocks to contents.  Every operation says which
blocks read differently afterwards, also when a write fails, when it fails, and
which buffers it may have given up; the victim is always the unreferenced buffer
used longest ago.

**Directories** (`Arithmetic`, `DirLayout`, `DirEntries`, `Directories`,
`DirTree`, `DirRename`).  A directory's entries at their byte offsets, with
headers and unusable tails, are a finite map from names to inodes; rename moves
one binding or none, and parent links stay a tree.  Each refusal of a rename is
stated with its exact guard, in the order of the code.

**Handles** (`References`, `Descriptors`, `OpenFiles`).  Reference counts of open
inodes equal the handles and working directories that point at them; by counting,
a slot is always available; descriptors of earlier mounts are refused.

**Block allocation** (`AllocCounts`, `AllocScan`, `Imap`).  The counters of free and almost
free blocks are exact over any run of allocating, freeing, committing, rolling
back and mounting; a committed block is never handed out; whatever a failed
transaction leaves on disk, mounting yields the committed state or the new one.

**Checksums and nodes** (`Crc`, `Nodes`).  The three CRC-32 updates agree; a
stamped node is accepted as its type alone, at exactly the later times, and a
change confined to four consecutive bytes is detected.

**Arguments** (`Cycles`, `GetOpt`, `ArgScan`, `ArgMeaning`).  The cycles by which two
blocks of arguments are exchanged, the whole scan that puts options before
operands, and when that keeps what the arguments mean.

## Where the code and its comments differ

The model follows the code in each case.

- core/driver/dir.c:298 asserts that the index is the first of its block; the
  search goes backwards, so there it would be the last.  No block is sparse and
  the branch is not taken (`Directories.Directory.NotSparse`), unless an earlier
  deletion failed with EIO after freeing some blocks.
- Such a deletion reports failure, and may have removed the entry all the same
  (`Directories.Directory.RedDirEntryDelete`); a rename may then report EIO and
  have moved the binding (`DirRename.Volume.RedDirEntryRename`).
- core/driver/dir.c:700-702 promises ENOENT for an empty name on rename; it is
  EINVAL (`DirRename.Volume.Refusal`, part of the contract of RedDirEntryRename()).
- core/driver/imap.c documents EINVAL for a block whose bit is already set; the
  code raises a critical error and returns EFUBAR.
- posix/posix.c promises that dropping the last reference frees an orphan.
  OpenInoDeref() tests the read-only state of the current volume before making
  the orphan's volume current.  `OpenFiles.OrphanLeftBehind` is a run that leaves
  an orphan which nothing refers to on a writable volume; the contracts of
  `OpenFiles.Posix.ChangeDirectory` and `OpenFiles.Posix.TaskUnregister` say
  exactly when the promise is kept (`OpenFiles.SettledAsOwnVolumePermits`).
  HandleClose() makes the volume current first and so keeps it.
- util/heap.c refuses some pointers that it handed out: `Heap.RangeTestAccepts`
  says exactly which, `Heap.RangeTestRefuses` is one.
- util/heap.c:508-511 takes for a header whatever holds the sentinel.  A pointer
  that was never handed out is accepted if and only if payload before it spells
  the sentinel (`Heap.Heap.FindHanded`), which a caller may well have written
  (`Heap.PayloadForges`).  All that is promised of freeing and resizing excludes
  that.
- util/heap.c:202 and util/heap.c:382 round a request up in 32 bits.  It covers
  the size and a header if and only if it does not wrap (`Heap.RequestWraps`);
  otherwise RedHeapAlloc() may hand out a block with no payload.
- core/driver/imapinline.c:166-167 says that the scan returns ENOSPC when every
  block was searched.  It comes back to its start, and so ends, if and only if it
  did not start inside an allocable bitmap byte whose blocks are all in use
  (`AllocScan.ScanEnds`); from there, on a full volume, it never ends
  (`AllocScan.FullVolumeNeverEnds`).  The exact free count keeps
  RedImapAllocBlock() from calling it on a full volume.
- RedVolTransact() moves the counters before it flushes.  If it fails, they are
  wrong if and only if some block was almost free, and the volume becomes
  read-only (`Imap.Volume.RedVolTransact`).
- RedImapBlockSet() accepts the allocation of a block that the committed state
  uses, and then miscounts; `Imap.Volume.RedImapBlockSet` says exactly when.
- RedPathVolumeLookup() makes the volume current even when it then returns ENOENT.

## Model

| member | source | states |
|---|---|---|
| PathWalker.PathWalk | posix/path.c:587-665 | for every file system, start, path and flags, the parent, inode, last name or error is that of the recursive resolver; EINVAL and the root directory error as the callers rely on |
| PathWalker.Walker.Run | posix/path.c:605-641 | the loop ends, and what it has left to do stays the same at every turn |
| PathWalker.Walker.PathWalkNext | posix/path.c:692-747 | the next name comes from the innermost link, else from the path, and names the step the resolver takes next |
| PathWalker.Walker.PathWalkFollow | posix/path.c:773-879 | dot, dot-dot and lookups step as resolving that name does, the final lookup only if asked for |
| PathWalker.Walker.SymlinkNext | posix/path.c:905-1133 | entering, reading and leaving nested links leaves the remaining resolution unchanged; errors are those of the resolver |
| PathWalker.Walker.ReadName | posix/path.c:1009-1066 | the retry loop makes progress past redundant separators and ends with a whole name, an over-long one, or the end of the target in the buffer |
| PathWalker.AdvancedDecreases | posix/path.c:994-1129 | the bytes left to read in the stacked links, ordered from the outermost, decrease with every name |
| PathMeaning.WindowReads | posix/path.c:1009-1066 | what a window of the target shows of the next name does not depend on where the window falls |
| PathMeaning.TakeName | posix/path.c:1105-1126 | taking a name from a link leaves exactly the names after it, up to the first NUL of the target |
| PathMeaning.RejectName | posix/path.c:1097-1104 | a name over the limit makes the whole resolution ENAMETOOLONG |
| PathMeaning.LeaveLevel | posix/path.c:1070-1092 | an exhausted link resumes the one outside it; an empty target is ENOENT |
| PathMeaning.EnterLevel | posix/path.c:970-985 | below the nesting limit, entering a link starts its names in the directory that holds it |
| PathWalker.Walker.PushLink | posix/path.c:959-985 | ELOOP exactly when the stack is full, as the resolver says; otherwise the link is the new top of the stack and the remaining resolution is unchanged |
| Components.NamesOfJoin | posix/path.c:692-747 | splitting a path at a separator splits its names, redundant separators and all |
| Components.NamesOfName | posix/path.c:692-747 | a string without separators is its own single name |
| PathLookup.RedPathLookup | posix/path.c:388-407 | the inode of the resolver, or its error |
| PathLookup.RedPathToName | posix/path.c:471-512 | parent and last name without looking it up; EINVAL exactly if the last name is dot or dot-dot |
| PathLookup.LastNameAt | posix/path.c:496-507 | whether the last name is dot or dot-dot is decided at its start |
| PathLookup.NestedLinks | posix/path.c:44-70 | a chain of links resolves exactly if no more than eight are nested |
| PathLookup.CircularLinks | posix/path.c:44-70 | links that name only one another give ELOOP |
| PathLaws.DotDotIsParent | posix/path.c:807-829 | dot-dot leads from a directory to the parent it records, with the parent of that, and from the root to the root |
| PathLaws.DotIsHere | posix/path.c:799-806 | dot, like a path without names, stays in the directory |
| PathLaws.MustBeSearchable | posix/path.c:799-815 | no name is resolved in a directory that must not be searched, dot and dot-dot included: EACCES |
| PathLaws.NameIsEntry | posix/path.c:831-875 | a name leads to the inode of its first entry and reports the directory as its parent; a symbolic link at the end is the result itself if links are not to be followed there |
| PathLaws.NoEntryIsError | posix/path.c:862-866 | a name without an entry is ENOENT |
| PathLaws.OverlongIsError | posix/path.c:862-866 | a name over the limit is ENAMETOOLONG, there or not |
| PathLaws.StartsInDirectory | posix/path.c:605-632 | resolution starts in a directory that exists, can be read and was not removed, and fails at once otherwise |
| PathLaws.NameIsNamed | posix/path.c:851-875 | a last name that is not to be looked up is named in its directory, there or not |
| PathLaws.PathsCompose | posix/path.c:605-641 | a path below another resolves from the directory that the other leads to, errors included; trailing separators change nothing |
| PathLaws.NothingBelowFile | posix/path.c:605-641 | a name below what is no directory is ENOTDIR |
| PathLaws.DotDotCancels | posix/path.c:807-829 | in any path, the name of a directory followed by dot-dot cancels |
| PathLaws.LinkIsTarget | posix/path.c:959-1066 | a link leads where its target resolves, from the root if that is absolute and from the directory of the link if not, unless links are nested too deep |
| PathLaws.AbsoluteLinkLeads | posix/path.c:1024-1040 | in a tree, a link to the rebuilt path of a directory leads there from anywhere, at every depth below the limit |
| PathLaws.DotDotLinkLeads | posix/path.c:974-983 | a link to dot-dot leads to the parent of the directory that holds it |
| VolumePrefix.Volumes.RedPathVolumePrefixLookup | posix/path.c:179-278 | the volume with the longest matching prefix, else the one without a prefix, becomes current; else ENOENT and the current volume stays |
| VolumePrefix.OneVolume | posix/path.c:211-243 | no path belongs to two volumes, so the order of the volumes does not matter |
| VolumePrefix.Volumes.RedPathVolumeLookup | posix/path.c:304-336 | succeeds exactly if nothing but separators follows the prefix; the volume becomes current either way |
| DirPath.DirInodeToPath | posix/posix.c:6655-6792 | the string and its NUL if they fit, ERANGE exactly if they do not, despite the shifts in place |
| DirPath.PutBefore | posix/posix.c:6743-6751 | the name goes before what the buffer held, which moves right intact |
| DirPath.LacksChild | posix/posix.c:6700-6742 | EFUBAR exactly if the parent lacks an entry for its child |
| TreePath.PathResolves | posix/posix.c:6655-6792 | in a well-formed tree the rebuilt path resolves to the directory it was rebuilt from |
| TreePath.RoundTrip | posix/posix.c:6655-6792 | rebuilding and looking up gives the same directory whenever the path fits |
| Memory.MemMove | util/memory.c:140-192 | the destination holds what the source held, also when they overlap |
| Heap.Heap.constructor | util/heap.c:99-138 | of memory that may hold anything, one free block and the terminating header |
| Heap.Heap.HeapBlockAlloc | util/heap.c:149-180 | the block is split if the rest can hold a header, and the headers tile the pool again |
| HeapLayout.TakenFits | util/heap.c:149-172 | no more than a header is given beyond the request, and what is split off has room for more than a header |
| Heap.Heap.HeapBlockFree | util/heap.c:260-306 | the block is merged with its free neighbours; no two adjacent blocks are free |
| Heap.Heap.RedHeapAlloc | util/heap.c:191-247 | for the request rounded in 32 bits: NULL exactly if no free block fits, else a smallest one that fits; all other data is kept; the block covers the size exactly if the rounding does not wrap |
| Heap.Rounded | util/heap.c:202 | the least multiple of the alignment that is no less than the size |
| Heap.RequestWraps | util/heap.c:202 | the request rounded in 32 bits covers the size and a header if and only if it does not wrap; otherwise it is a header or less |
| Heap.Heap.FindHanded | util/heap.c:508-511 | in range, the sentinel test accepts a pointer if and only if it was handed out or payload before it spells the sentinel |
| Heap.PayloadForges | util/heap.c:508-511 | payload that a caller writes can make the test accept a pointer never handed out |
| Heap.Heap.RedHeapFree | util/heap.c:493-521 | a pointer is accepted exactly if it passes the range test and was handed out or is forged by payload; except for a forged one, exactly what was handed out is freed, all other data is kept, and a refusal changes nothing |
| Heap.Heap.RedHeapRealloc | util/heap.c:323-484 | the first bytes up to the smaller size are kept whether it moves, grows, slides or shrinks, and failure changes nothing, except for forged pointers and sizes whose rounding wraps |
| Heap.Heap.ReallocInPlace | util/heap.c:431-462 | growing into the neighbours, sliding left with overlap and splitting off the rest keep the data |
| Heap.Heap.RedHeapCalloc | util/heap.c:660-689 | NULL if and only if an element rounded up, or all of them, is no 32-bit number, or no free block fits the total and a header; else room for all elements, zeroed; except for totals that wrap with their header |
| Heap.CallocOverflowIs | util/heap.c:668-682 | the overflow tests refuse exactly the totals that are no 32-bit numbers, elements being rounded up to the least multiple of the alignment |
| Heap.Heap.RedHeapCheck | util/heap.c:573-648 | always 0 |
| Heap.CallocFits | util/heap.c:668-682 | what is not refused as overflowing is large enough and a 32-bit number |
| Heap.RangeTestAccepts | util/heap.c:345-346 | the pointer test accepts a pointer handed out if and only if its block is not one of two small last ones |
| Heap.RangeTestRefuses | util/heap.c:500-501 | a pointer handed out that the test refuses |
| Heap.FreedOnce | util/heap.c:508-516 | a pointer is no longer handed out once it was freed |
| HeapLayout.FreedCoalesced | util/heap.c:260-306 | freeing leaves no two adjacent free blocks |
| HeapLayout.FreedShape | util/heap.c:260-306 | the merged block spans the block and its free neighbours, and every other block is as it was |
| HeapLayout.Splice | util/heap.c:149-306 | replacing some blocks by others of the same span, with matching headers, keeps the tiling and its links |
| BufferCache.Cache.RedBufferGet | core/driver/buffer.c:153-323 | a buffered block succeeds exactly if it is of this type and not new, else EFUBAR; an unbuffered one is EBUSY exactly if all buffers are referenced, and otherwise fails only if the victim, used longest ago, cannot be written out or the block read (on a sound disk, exactly if it is not new and not a valid node of its type); then at most the victim was given up; the buffer holds what the block reads as, or zeros if new, and no other block reads differently |
| BufferCache.Cache.FindVictim | core/driver/buffer.c:204-218 | of the unreferenced buffers the one used longest ago, discarded ones first |
| BufferCache.Cache.BufferWrite | core/driver/buffer.c:715-748 | writes out one buffer; of metadata only the header changes, and what is written is a valid node of its type; a failed write changes no block that a reader sees |
| BufferCache.Cache.RedBufferPut | core/driver/buffer.c:330-350 | one reference less; the count of used buffers stays exact |
| BufferCache.Cache.RedBufferDirty | core/driver/buffer.c:415-430 | marks the buffer dirty; nothing reads differently |
| BufferCache.Cache.Modify | core/driver/inodedata.c:1598-1602 | a caller may overwrite a dirty buffer it references: the block reads as written, and nothing else differently |
| BufferCache.Cache.RedBufferBranch | core/driver/buffer.c:438-459 | the new block reads as the buffer, the old block as before, the disk is untouched; at most one buffer a block is kept if and only if no other buffer held the new block |
| BufferCache.Cache.RedBufferDiscard | core/driver/buffer.c:467-488 | the block reads as the disk does, and the buffer is the next victim |
| BufferCache.Cache.RedBufferDiscardRange | core/driver/buffer.c:503-560 | the range has no buffer left; EBUSY exactly if one is referenced, EINVAL exactly for a range that is empty or not all in the volume; nothing outside it reads differently |
| BufferCache.Cache.RangeTestIs | core/driver/buffer.c:372-374 | a range is refused if and only if it is empty or holds a block outside the volume; the whole volume is not |
| BufferCache.Cache.RedBufferFlushRange | core/driver/buffer.c:366-408 | no buffer of the range is dirty, what was can be read again as a node of its type, and nothing reads differently, also if a write fails; EINVAL exactly for a range that is empty or not all in the volume, failure else only as writing out a dirty buffer of the range can fail; none for the whole volume on a sound disk |
| BufferCache.Cache.RedBufferReadRange | core/driver/buffer.c:576-610 | what the blocks read as, though taken from disk; EIO, or as flushing the range can fail |
| BufferCache.Cache.RedBufferWriteRange | core/driver/buffer.c:628-659 | the range then reads as written and nothing else differently; after EIO no buffer has changed; but for EIO, EBUSY exactly if a buffer of the range is referenced, and the disk then holds what was written |
| BufferCache.Cache.BufferMakeMRU | core/driver/buffer.c:804-845 | the MRU array stays a permutation in order of last use |
| BufferCache.Cache.BufferMakeLRU | core/driver/buffer.c:756-797 | the same, with the buffer last |
| BufferCache.Cache.BufferFind | core/driver/buffer.c:860-888 | the buffer that holds the block, if one does |
| BufferView.WritingOutIsTransparent | core/driver/buffer.c:715-748 | writing a dirty buffer out keeps at most one buffer a block, clean buffers equal to the disk, and every view |
| BufferView.Repurposing | core/driver/buffer.c:232-286 | giving a clean buffer to another block changes no other view |
| BufferView.Relabelling | core/driver/buffer.c:289-317 | changing references or flags alone changes no view |
| BufferView.Dropping | core/driver/buffer.c:467-488 | without its buffer a block reads as the disk does |
| Recency.UsedIsFirst | core/driver/buffer.c:804-845 | moving the buffer just used to the front keeps the order of last use |
| Recency.DiscardedIsLast | core/driver/buffer.c:756-797 | moving a discarded buffer to the back keeps the order of last use |
| Recency.Position | core/driver/buffer.c:816-836 | every buffer is somewhere in the MRU array, so the search finds it |
| DirLayout.CountOfSize | core/driver/dir.c:1095-1131 | the number of entries is recovered from the size in both layouts, with or without unusable tails |
| DirLayout.EntriesPerBlock | core/driver/dir.c:42-49 | a block holds as many entries as fit, and the unused space is what is left |
| DirLayout.OffsetsApart | core/driver/dir.c:1068-1085 | entries are in order and do not overlap |
| DirLayout.TruncatedSizeIs | core/driver/dir.c:316-341 | the size that deleting computes is that of a directory of the entries left |
| DirLayout.BlocksOfSize | core/driver/dir.c:1068-1131 | a directory takes up exactly the blocks of its entries |
| DirLayout.EntryFits | core/driver/dir.c:1016-1059 | an entry that may be written lies in one block, past its header, and within the largest size |
| DirEntries.MatchIsEquality | core/driver/dir.c:463-464 | the bounded comparison of padded names decides equality |
| DirEntries.ListingIsBindings | core/driver/dir.c:583-667 | reading a directory through lists every binding exactly once |
| DirEntries.WrittenAdds | core/driver/dir.c:180-184 | writing a free entry adds one binding |
| DirEntries.WrittenReplaces | core/driver/dir.c:866-868 | writing over an entry under its name changes one binding |
| DirEntries.FreedRemoves | core/driver/dir.c:345-352 | freeing an entry removes its binding |
| DirEntries.TrimmedKeeps | core/driver/dir.c:270-309 | dropping the free entries at the end removes no binding and leaves a live last entry |
| Directories.Directory.RedDirEntryCreate | core/driver/dir.c:112-192 | the map gains exactly the new binding, in the first free entry or after the last; EEXIST, ENOSPC and each refusal, on a sound disk exactly under its guard; failure changes nothing |
| Directories.Directory.RedDirEntryDelete | core/driver/dir.c:226-357 | the map loses exactly that binding and the last entry is live again; refusals and ENOSPC change nothing; after EIO the map is as before or without the binding, and the directory is whole exactly if no block was freed |
| Directories.Directory.RedDirEntryLookup | core/driver/dir.c:396-554 | what the map binds the name to; ENOENT with the first free index if it does not |
| Directories.Directory.RedDirEntryRead | core/driver/dir.c:583-667 | the head of what remains to be listed, and the position after it |
| Directories.Directory.FindCut | core/driver/dir.c:264-314 | the last live entry before the deleted one, searching backwards by blocks |
| Directories.Directory.DirEntryWrite | core/driver/dir.c:1016-1059 | exactly one entry changes; the size and the blocks grow with an appended one |
| Directories.Directory.NotSparse | core/driver/dir.c:291-300 | no block of a directory that is whole is sparse, so the sparse branches are not taken |
| Directories.DeletedIs | core/driver/dir.c:262-352 | both ways of deleting come to the same list |
| DirTree.MoveKeepsTree | core/driver/dir.c:915-932 | moving a directory leaves a tree if and only if it is neither the destination nor above it |
| DirTree.ChainIsShort | core/driver/dir.c:955-960 | climbing to the root takes fewer steps than there are inodes |
| DirRename.Volume.DirCyclicRenameCheck | core/driver/dir.c:933-993 | refuses exactly the moves into the directory itself or below it; the iteration limit is never reached |
| DirRename.Volume.RedDirEntryRename | core/driver/dir.c:721-913 | each refusal exactly under its guard (or EIO), with nothing changed; otherwise exactly one binding moves and parent links stay a tree, or EIO, or ENOSPC with neither map changed, or a critical error; on a sound disk the answer is that of the inodes, kinds, permissions, room and cycle; also within one directory |
| DirRename.Volume.KindsDecide | core/driver/dir.c:805-866 | on a sound disk and with both names bound, success, EBADF, EACCES, EISDIR, ENOTDIR, ENOLINK, ENOTEMPTY and the EINVAL of a cycle each exactly by which inodes exist, the permissions, the two kinds and the size |
| DirRename.Volume.RoomDecides | core/driver/dir.c:762-866 | on a sound disk and with an unbound destination, success, ENOSPC, EBADF, EACCES and the EINVAL of a cycle each exactly by the room, the source, the permissions and the cycle |
| DirRename.Volume.LookupBoth | core/driver/dir.c:731-785 | both names looked up; refused exactly for a wrong parent, a dot name, an unbound source, or a full destination directory, or EIO |
| DirRename.Volume.MayRename | core/driver/dir.c:805-866 | refused exactly for a missing inode, a permission, a type that may not be replaced, a directory that is not empty, or a cycle, or EIO; if not refused the move leaves a tree |
| DirRename.Volume.Move | core/driver/dir.c:864-904 | the destination is written first and taken back if the source cannot be deleted for lack of space; how far it got if it fails |
| DirRename.StillBinds | core/driver/dir.c:864-874 | within one directory the source entry is where it was after the destination is written |
| OpenFiles.RedInit | posix/posix.c:251-277 | every task starts at the root of volume zero, no handle is open and the counts are exact |
| OpenFiles.Posix.OpenInoFind | posix/posix.c:6387-6423 | the slot of the inode, or a free slot given to it; none only if there is none |
| OpenFiles.Posix.OpenInoRef | posix/posix.c:6257-6275 | allocating for an unused pointer always succeeds, and the counts stay exact |
| OpenFiles.Posix.OpenInoDeref | posix/posix.c:6450-6522 | one reference less; the slot is free exactly at none; whether the orphan is freed, by the current volume |
| OpenFiles.Posix.HandleFindFree | posix/posix.c:6213-6231 | the first free handle |
| OpenFiles.Posix.HandleOpen | posix/posix.c:6244-6281 | the handle refers to the inode, and counts stay exact |
| OpenFiles.Posix.HandleClose | posix/posix.c:6302-6372 | the handle is free, or nothing changed but the current volume; going to its volume and fetching the mask never fail, as the volume of an open handle is mounted; an orphan is freed exactly with its last reference on a writable volume; a transaction follows exactly if asked for and the volume is writable |
| OpenFiles.Posix.OpenDescriptor | posix/posix.c:5901-5957 | EMFILE exactly without a free handle, else a descriptor that is accepted for the inode, and a handle flagged as a directory or a symbolic link as passed |
| OpenFiles.Posix.FildesToHandle | posix/posix.c:6013-6078 | EBADF exactly if the descriptor is not one, else its handle; success exactly if its type is expected, ENOLINK, EISDIR and ENOTDIR by the types |
| OpenFiles.Posix.OpenAndUse | posix/posix.c:5901-6078 | a descriptor just opened is accepted exactly where the type of what was opened is expected, and stands for that inode |
| OpenFiles.Posix.StaleDescriptor | posix/posix.c:6038-6046 | a descriptor of an earlier mount is refused until 2047 mounts later, and any while its volume is not mounted |
| OpenFiles.Posix.InodeUnlinkCheck | posix/posix.c:6590-6610 | EBUSY exactly if the inode is open and this is its last link; if it is open and its links cannot be had, that error |
| OpenFiles.Posix.InodeOrphaned | posix/posix.c:6619-6631 | the slot of the inode, if any, is marked and no other |
| OpenFiles.Posix.TaskRegister | posix/posix.c:6854-6887 | the slot of the task, else a free one, none exactly if there is neither; no task has two |
| OpenFiles.Posix.TaskFind | posix/posix.c:6822-6841 | the slot of the task, none exactly if it is not registered |
| OpenFiles.Posix.TaskUnregister | posix/posix.c:6905-6938 | ENOENT exactly if the task is not registered, with nothing changed; else its slot is free and back at the root of volume zero, and its old directory is freed as its own volume permits if and only if the current volume permits the same or there is nothing to free |
| OpenFiles.Posix.CwdClose | posix/posix.c:7005-7037 | the task is at the root of the volume asked for |
| OpenFiles.Posix.CwdCloseVol | posix/posix.c:6955-6976 | no task is left below the root of the current volume; unless only memory is reset, its orphans are freed or still open |
| OpenFiles.Posix.ChangeDirectory | posix/posix.c:4853-4876 | the working directory moves, counts stay exact, and the old one is freed as its own volume permits if and only if the new volume permits the same or there is nothing to free |
| OpenFiles.Posix.Mount2 | posix/posix.c:602-653 | the generation follows the number of mounts; EBUSY if mounted |
| OpenFiles.Posix.Umount2 | posix/posix.c:726-802 | no handle is open on the volume afterwards and, if it is writable, every orphan that was open there has been freed; EBUSY, with nothing changed, exactly if a handle is open and closing is not forced |
| OpenFiles.Posix.CloseHandles | posix/posix.c:759-781 | the sweep closes exactly the handles of the volume and loses no orphan of it |
| OpenFiles.OnlyRootsLeft | posix/posix.c:759-790 | with no handle left on a volume and every task at its root, nothing else is open there: the counts leave no other pointer |
| OpenFiles.SettledAsOwnVolumePermits | posix/posix.c:6474-6476 | whatever a dropped reference frees, it is what the own volume permits if and only if the current volume permits the same or there is nothing to free |
| OpenFiles.OrphanLeftBehind | posix/posix.c:4853-4876 | a run from red_init() on: a removed directory is left for a read-only volume, is not freed, and nothing refers to it any more |
| References.SomeSlotFree | posix/posix.c:6261-6268 | if a handle or task does not refer to an open inode, some slot is free |
| References.OpenedBalances | posix/posix.c:6270-6278 | referencing a slot keeps counts exact and inodes distinct |
| References.DroppedBalances | posix/posix.c:6508-6517 | dropping a reference keeps counts exact |
| References.OthersStand | posix/posix.c:4853-4876 | moving one pointer leaves what every other pointer stands for |
| Descriptors.UnpackInvertsPack | posix/posix.c:6090-6165 | unpacking inverts packing; descriptors are at least 3 and fit 31 bits |
| Descriptors.PackRefuses | posix/posix.c:6090-6120 | refuses exactly what is no handle or volume, and what would be a number below 3 |
| Descriptors.SameGeneration | posix/posix.c:627-647 | two mounts share a generation exactly if a multiple of 2047 apart |
| Imap.Volume.RedImapBlockSet | core/driver/imap.c:106-195 | the bit changes and the counters stay exact if and only if no block that the committed state uses is allocated; its check of the free count refuses only such a block; EFUBAR and read-only if the bit has the value already |
| Imap.Volume.RedImapAllocBlock | core/driver/imap.c:210-273 | the first block from the cursor on that is free in both states, now new, and the cursor behind it, round the volume; ENOSPC exactly if none is free; never the corruption branch |
| Imap.Volume.RedImapBlockState | core/driver/imap.c:296-350 | the state that the two bits give |
| Imap.Volume.RedImapIBlockFindFree | core/driver/imapinline.c:144-212 | the first free block from the start on, round the volume; ENOSPC exactly if there is none; it ends if there is one or its start is not passed over |
| Imap.Volume.RedImapIBlockSet | core/driver/imapinline.c:90-129 | changes the bit, or EFUBAR and read-only if it has the value already |
| Imap.Volume.RedVolTransact | core/driver/volume.c:635-731 | the working state is the committed one in memory and on disk, almost free blocks are free; or the volume is read-only, the committed state is whole on disk, and the counters are exact if and only if no block was almost free; on a sound disk it fails only at the sequence limit |
| Imap.Volume.MountMetaroot | core/driver/volume.c:437-553 | the status and the metaroot taken up, for each combination of metaroots that can be read; counters are exact; if the committed one can be read it is that, or what a failed transaction wrote whole, and else the other one |
| Imap.Newest | core/driver/volume.c:453-512 | of the metaroots that were read and are whole, the one written last; EIO exactly if there is none, or one shows a torn sector where sectors are written atomically |
| Imap.Volume.RedVolRollback | core/driver/volume.c:741-773 | the working state is the committed one again if the metaroots can be read, else the newest that can, or the volume is read-only |
| Imap.StatesMakeUpVolume | core/driver/imap.c:276-285 | free, almost free, used and new blocks add up to the allocable ones |
| Imap.SetKeepsExact | core/driver/imap.c:159-192 | setting a bit keeps the counts exact if and only if it does not allocate a block that the committed state uses |
| AllocScan.ScanEnds | core/driver/imapinline.c:169-209 | a scan that meets no free block comes back to its start if and only if it did not start inside an allocable bitmap byte whose blocks are all in use |
| AllocScan.FullVolumeNeverEnds | core/driver/imapinline.c:169-209 | on a full volume the scan never ends from inside an allocable byte |
| AllocCounts.CountCommitted | core/driver/volume.c:643-644 | committing turns almost free blocks into free ones |
| Crc.Crc32Bitwise | util/crc.c:68-105 | the CRC of the buffer, bit by bit |
| Crc.Crc32Sarwate | util/crc.c:120-184 | the same CRC from one table column |
| Crc.Crc32SliceBy8 | util/crc.c:491-565 | the same CRC by slices of eight, for any length and alignment |
| Crc.SliceIsEightBytes | util/crc.c:541-549 | eight look-ups do what eight bytes do one by one |
| Crc.ColumnIs | util/crc.c:207-210 | each table column is the one before advanced by a byte |
| Crc.SarwateStep | util/crc.c:173-176 | a table look-up does what eight bit steps do |
| Crc.UpdateComposes | util/crc.c:57-58 | updating over one buffer and then another is updating over both |
| Crc.ResidueIs | util/crc.c:68-105 | any buffer followed by its own CRC has the residue of CRC-32 |
| Crc.NothingKeepsCrc | util/crc.c:57-58 | updating over nothing changes nothing |
| Crc.BurstChangesCrc | util/crc.c:68-105 | a change confined to four consecutive bytes changes the CRC |
| Nodes.VolumeState.RedBufferFinalize | core/driver/buffercmn.c:166-246 | signature, sequence number and CRC are stamped and the sequence grows; each refusal changes nothing |
| Nodes.VolumeState.RedBufferIsValid | core/driver/buffercmn.c:56-147 | accepts exactly the nodes of that type whose CRC is right and whose sequence number is past |
| Nodes.StampedIsAccepted | core/driver/buffercmn.c:56-246 | a stamped node is accepted as its type and no other; while mounted, exactly at the later sequence numbers |
| Nodes.AcceptedAsOneType | core/driver/buffercmn.c:84-120 | no node is accepted as of two types |
| Nodes.ChangeIsRejected | core/driver/buffercmn.c:124-134 | a change confined to four consecutive bytes, all of them covered by the CRC or none of them, is rejected |
| GetOpt.PermuteArgs | tools/getopt.c:134-161 | the two blocks change places, each in its order, and nothing outside changes |
| GetOpt.FollowCycle | tools/getopt.c:149-160 | one cycle moves each of its elements on to the next place |
| Cycles.GcdFacts | tools/getopt.c:114-126 | the greatest common divisor divides both lengths and is a sum of multiples of them |
| Cycles.OrbitIs | tools/getopt.c:146-160 | a cycle visits each place of its residue class exactly once and returns after the computed length |
| ArgScan.Scanner.Next | tools/getopt.c:319-421 | passing options and operands keeps what the scan will make of the arguments; permute_args() is called only on non-empty blocks |
| ArgScan.Scanner.ScanAll | tools/getopt.c:319-421 | in the end all options, in order, come before all operands, in order |
| ArgScan.ExchangeKeeps | tools/getopt.c:386-394 | exchanging the blocks loses and reorders nothing |
| ArgMeaning.MeaningKept | tools/getopt.c:319-421 | scanning the arguments again as they were left reports the same options with the same arguments and the same operands, if and only if no option lacked its argument or there are no operands it could take |
| ArgMeaning.ScanArguments | tools/getopt.c:319-421 | the whole scan of a vector, with that condition |

## Left out

- Heap.Heap.RedHeapAlloc: promises nothing once a size whose 32-bit rounding is less than a header has a block split inside its own header.
- Heap.Heap.RedHeapRealloc: promises nothing for a forged pointer, nor for a size whose 32-bit rounding wraps.
- Heap.Heap.RedHeapFree: promises nothing of the pool for a forged pointer.
- Heap.Heap.RedHeapCalloc: promises nothing for a total whose 32-bit rounding wraps: it zeroes more than it was handed.
- Heap.Heap.RedHeapCheck: does not model a corrupted pool; in every state the operations reach it returns 0.
- BufferCache.Cache.RedBufferWriteRange: says nothing of what the range holds after a failing write; its blocks are then counted as torn.
- BufferCache.Cache.RedBufferGet: does not model a reference count that exceeds a byte.
- Directories.Directory.RedDirEntryDelete: leaves open which of the blocks to be freed a failing truncation has freed; the other operations are not modelled on a directory left sparse by that.
- Directories.Directory.DirEntryWrite: takes an index within the directory or just after it, as all its callers pass.
- DirRename.Volume.RedDirEntryRename: does not say when a disk that is not sound fails or runs out of space.
- OpenFiles.Posix.OpenInoDeref: says nothing of what unreserving space does, only that it may fail.
- OpenFiles.Posix.OpenDescriptor: begins where the inode is known; creating and truncating are not part of this model.
- Descriptors.UnpackInvertsPack: writes the shifts and the bitwise or of packing as arithmetic on the disjoint fields.
- Nodes.ChangeIsRejected: leaves out changes that straddle the CRC and what it covers; whether they are detected depends on the length of the node.
- ArgScan.Scanner.ScanAll: as ArgScan.Scanner.Next.
- ArgScan.Scanner.Next: takes grouped short options in one element as one step, and whether an option takes the next element as a property of the element; option tables, messages and the `+` and `-` modes are not modelled.
- Byte contents of heap headers and of directory entries: a heap header is one cell and the bytes after it, a directory entry is a record at its offset.
- The literal CRC tables: columns are defined by the recurrence their comment describes.
- The external imap (core/driver/imapextern.c), inode and indirect block handling, orphan lists, formatting, checking tools, block devices, mutexes and clocks.
- The red_* entry points that only lock, look up and delegate, and file reading and writing.
- Timestamps, ownership beyond whether a permission check passes, discards, read-only builds, the FSE API and byte swapping.
- tools/fuse.c, the message printing in tools/getopt.c, and other user interfaces.
