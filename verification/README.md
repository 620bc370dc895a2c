# Models and proofs for testfs, the user-level threads, the web server, and the word counter

This project models five parts of the repository and proves what they promise.

* **The testfs storage stack** (`fs/bitmap.c`, `fs/super.c`, `fs/inode.c`, `fs/read_write.c`). A file is a tree of direct,
  indirect and double-indirect block pointers on a device of 8192-byte blocks. The methods of `Bitmap`, `SuperBlock`, `Inode` and
  `InodeTable` change their fields and the device step by step, as the C functions do. Their contracts are stated over values:
  `ReadWrite.State` is what an operation on one inode sees (device, super block, allocated blocks, the inode, and `own`, the map
  from each block of the inode to the one slot that points to it), and `FileSystem.Fs` is the whole file system. The theorems are in
  `FileTheorems.dfy` (one file) and `FileSystem.dfy` (all files, all runs, from a fresh file system on).
* **Directories** (`fs/dir.c`). `Dirents` works on the bytes of a directory: packed records, tombstones, reuse of slots.
  `Trees` states what it means that the directories form a tree, and `Directories.Namespace` holds the commands. `Commands.dfy`
  joins them to the file system: each command is a run of its operations, the bytes of a directory are those of its inode, and the
  failures of writes and what the code undoes after them are part of it. `Shells.Shell` carries the commands out, on the inodes in
  memory and the device under them, and each of its methods ends in a step of `Commands`; `Sessions` makes the file system, starts
  a session, and starts the next one.
* **User-level threads** (`threads/thread.c`). `Threads` gives the state of the scheduler, with a saved context for each thread, and
  one function for each call. `getcontext` returns twice: `Pc` tells the running thread's own code from the point right after
  `getcontext`, and NEW_STATE or RECOVER_STATE tells the first pass from the second. `Schedulers` holds the calls themselves, as
  methods on the scheduler's variables, and `Locks` runs the locks over all interleavings.
* **The web server's queue and cache** (`webserver/server_thread.c`). `RequestQueue` is the ring buffer, `Monitor` the main thread
  and the workers around it with their condition variables, `Servers` the two together, and `LruCache` the file cache.
* **The word counter** (`warmup/wc.c`). `WordCount` holds the tokenizer and the chained table.

## Where the code departs from its intent

Each of these is kept as the code has it, and the exact condition is proved; `FileCases.dfy`, `Threads.LosesThread`,
`LruCache.ThreeRequests` and `Monitor.SleepsBesideRequest` show inputs that meet it.

* `fs/read_write.c:32` returns 0 without the zero fill that lines 42-44 promise. `FileTheorems.ReadFaithful` says for which holes
  the caller gets something else. A write that covers such a hole in part spreads it into the file: `FileTheorems.WritesExact` says
  when, exactly, and `AlignedWritesExact` says it in terms of the state before, for writes that end at a multiple of four.
  `FileCases.TwoWrites` is an example: two writes of one byte each, the second of which changes a byte before it. The runs of
  `RunAsArrays` exclude such writes, and `FileSystem.StepExact` says that they exclude no others that end at a multiple of four.
* The rollbacks at `fs/read_write.c:138`, `154-157` and `189` free a block and leave the pointer to it. `AllocationExact` says when:
  if and only if there is room for some block of the path, but not for all. The counters are right all the same.
* A failed write can break the order of its file, so that removing the file then does harm. `FileTheorems.StoppedExact` says when,
  exactly, in terms of the state before: the file stays in order if and only if nothing at all was left for the block that it failed
  at, or the file would be too big, and the blocks it had mapped lie within the file size. The size becomes the maximum when the
  failure is at the last of several blocks (`fs/read_write.c:215-218`); then the double indirect block must be there. Otherwise
  `testfs_free_blocks` reads block 0 in its place: `FileCases.TailFailure` is a write that leads there, and
  `FileCases.SuperBlockAsTable` what it reads. `FailedWriteExact` says the same of the whole file system, and
  `FailedWriteHarmless` that the other files and the counters are never affected.
* The undo of a failed `testfs_create_empty_dir` (`fs/dir.c:189-195`) would do nothing, for "." cannot be removed; but it is never
  reached: `Commands.DotDotFits`.
* When the entry of a new file cannot be written, `testfs_create_file_or_dir` leaves without the sync of the directory
  (`fs/dir.c:227-237`). If its inode is dirty by then, the next `cd` runs into the assertion of `testfs_put_inode`:
  `Shells.Shell.Cd` stops the program if and only if the name leads to a directory and the inode of the current one is dirty. A
  successful creation or removal leaves it clean.
* A write of no bytes maps its block all the same (`fs/read_write.c:228-236`): `EmptyWriteFilled` says when the mapped blocks
  still lie within the file size, as `testfs_free_blocks` needs it.
* At the maximum file size, a read of nothing is refused with `-EFBIG` (`fs/read_write.c:79-80`).
* `testfs_add_dirent` stops at the first reusable slot, so that, without the lookup before it, it could add a name twice:
  `Dirents.AddAloneExact`.
* A marked thread that was not stopped (it never ran before, `threads/thread.c:40-47`, or no other thread was ready,
  `threads/thread.c:221-222`) exits in the middle of its next switch, while it is already on the ready list. `FirstPassExact`:
  this, and only this, breaks the order of the lists. `LosesThread` is a run of five steps that ends in it.
* The search for the thread of a directed yield or exit (`threads/thread.c:186-189`, `247-249`) runs past the end of the ready list
  if and only if the identifier is in use by a thread that is not on it (`ThreadYield`, `ThreadExit`).
* The size of a wait queue is not decremented by a single wakeup, so that a later wake-all reports too many: `DriftCounts`.
* `delete_entry` does not unlink the first of several entries of a chain (`webserver/server_thread.c:164-169`).
  `LruCache.Cache.Insert`: the cache stays in order if and only if no victim is such an entry when its turn comes.
  `LruCache.ThreeRequests`: from the start, three requests are enough.
* The tokenizer drops the last character of a text that does not end in white space (`warmup/wc.c:90`), and a NUL ends a word early:
  `WordCount.CountsExact`.
* With `max_requests` 0, no request is ever put (`Monitor.NoCapacityStuck`); and since signals are sent only on the way out of an
  empty queue, a worker may sleep while a request waits for a busy one (`Monitor.SleepsBesideRequest`).

## Model

| member | source | states |
|---|---|---|
| `Bitmaps.Bitmap.Alloc` | fs/bitmap.c:70-91 | takes the least clear bit, and fails only if there is none; thanks to the padding bits its two assertions cannot fail |
| `Bitmaps.Bitmap.NrAllocated` | fs/bitmap.c:147-157 | the number it counts is the size of the set of bits that are set |
| `Super.SuperRoundTrip` | fs/super.c:15-22 | the super block that is read back at the next start is the one that was written |
| `Super.SuperFields` | fs/super.h:5-13 | where each field lies in block 0: the six 32-bit words, then the 64-bit limit, and zeros behind it |
| `Super.WriteThrough` | fs/super.c:37-48 | writing the one freemap block that holds a changed bit keeps the device copy equal to memory |
| `Super.SuperBlock.AllocBlock` | fs/super.c:225-239 | succeeds exactly while there is room under the limit and in the freemap, with the least block that was free; a failure changes nothing; the counter stays the number of set bits and within the limit |
| `Super.SuperBlock.FreeBlock` | fs/super.c:243-255 | zeroes the block, gives it back, and counts it off once; its assertions hold |
| `Super.SuperBlock.Close` | fs/super.c:175-196 | the final write-back changes nothing on the device, which is an image that can be mounted |
| `Super.Remount` | fs/super.c:136-196 | closing and mounting again restores super block, freemaps, and device |
| `Super.Make` | fs/super.c:86-135 | the device that mktestfs writes can be mounted, with nothing in use |
| `BlockMap.Attach` | fs/read_write.c:102-190 | storing the pointer to a block that nothing points to changes that slot and no other, at any of the three levels |
| `BlockMap.GrowDouble` | fs/read_write.c:121-164 | mapping a block in the double-indirect range, with any combination of new tables, adds exactly the slots on its path |
| `BlockMap.GrownBytes` | fs/read_write.c:86-192 | mapping a block changes the contents of no other logical block |
| `ReadWrite.Inode.ReadBlock` | fs/read_write.c:11-47 | the physical block, or 0 for a hole, or `-EFBIG`, and the buffer as the code leaves it |
| `ReadWrite.Inode.AllocateBlock` | fs/read_write.c:89-192 | for a hole: with room for the whole path it maps the block and takes exactly the blocks of the path; without, it takes none, whatever had been allocated on the way |
| `ReadWrite.Inode.AllocateBelow` | fs/read_write.c:132-164 | the double-indirect range below its top block, including the fall-through after a failed table allocation, where the next allocation fails too |
| `ReadWrite.DoubleDropped` | fs/read_write.c:136-158 | the rollback of a new double indirect block, with or without a new second-level table, restores every counter and the freemap |
| `ReadWrite.TableDropped` | fs/read_write.c:156-158 | the same for a new second-level table alone |
| `ReadWrite.IndirectDropped` | fs/read_write.c:187-190 | the same for a new indirect block |
| `FileData.ReadData` | fs/read_write.c:49-84 | head, full blocks and tail tile the range: byte j of the buffer is byte start + j of the file as its blocks read, for as many bytes as the file has |
| `FileData.WriteData` | fs/read_write.c:194-239 | it succeeds if and only if the last block is below the maximum and the room covers all blocks, tables included, that the range needs; then every byte of the range is in place, bytes in other blocks are as they were, only free blocks were taken, only on paths of the range, and all of it is mapped; a failure reports the error of the first block that it could not get past, has written what comes before that, and leaves a tree of pointers if and only if no room at all was left for it |
| `FileData.ProgressStep` | fs/read_write.c:207-214 | one full block more of the loop, without gap or overlap |
| `FileData.TailBuffer` | fs/read_write.c:215-221 | the last block is read as the file had it, unless its second-level table is missing when its turn comes |
| `FileTheorems.ReadFaithful` | fs/read_write.c:25-46 | the block read is the contents of the file if and only if it is not a hole of a missing second-level table in a file that has another such table |
| `FileTheorems.ReadsAsArray` | fs/read_write.c:49-84 | a range without such holes reads as the sparse byte array |
| `FileTheorems.WritesExact` | fs/read_write.c:194-239 | a successful write changes exactly the bytes of its range if and only if neither the rest of its first block nor that of its last one was read as something else than the file had |
| `FileTheorems.AlignedWritesExact` | fs/read_write.c:194-239 | the same in terms of the state before, for a write whose end is a multiple of 4: which second-level tables are missing, and which others are there |
| `FileTheorems.TailForeseen` | fs/read_write.c:215-221 | the condition on the last block, seen before the write: sufficient for every end, and exact for an end at a multiple of 4 |
| `FileTheorems.ShortWriteExact` | fs/read_write.c:227-232 | for a write within one block, exactly when the bytes around it change |
| `FileTheorems.AllocationExact` | fs/read_write.c:112-192 | an allocation fails if and only if the room is less than the path needs; then freemap, used block count and block count are as at entry; a pointer to a free block is left if and only if there was some room |
| `FileTheorems.WriteKeepsFilled` | fs/read_write.c:222-236 | a successful write of at least one byte keeps every mapped block within the file size, and the double indirect block where testfs_free_blocks looks for it |
| `FileTheorems.StoppedExact` | fs/read_write.c:201-230 | a failed write leaves a tree within the file size if and only if a condition on the state before holds |
| `FileTheorems.StoppedBytesExact` | fs/read_write.c:201-230 | a failed write has written exactly its bytes before the block it failed at if and only if its head was not spoiled |
| `FileTheorems.EmptyWriteFilled` | fs/read_write.c:227-238 | a write of no bytes keeps this if and only if its block lies within the file size |
| `FreeBlocks.FreeBlocks` | fs/read_write.c:241-296 | gives back every block of the inode that lies within the file size, each once, zeroed, and no other |
| `FreeBlocks.FreeTables` | fs/read_write.c:271-288 | the counter `deleted` skips the holes of a whole second-level table correctly |
| `FileTheorems.ReleasedExact` | fs/inode.c:219-224 | the assertion on the block count holds if and only if every block lies within the file size |
| `FileTheorems.ReleasedAll` | fs/read_write.c:241-296 | then all blocks, and only those, are given back, the used block count is lower by the old block count, and no pointer is left |
| `FileCases.TailFailure` | fs/read_write.c:215-218 | a write of 8193 bytes into a new file, with room for one block, fails, and leaves the maximum size without a double indirect block |
| `FileCases.SuperBlockAsTable` | fs/read_write.c:271-279 | read as a double indirect block, block 0 leads to the inode freemap as a second-level table, which is not all zero |
| `FileCases.PartialAllocation` | fs/read_write.c:171-190 | an allocation with room for one block of two: nothing is taken, and a pointer to a free block is left |
| `FileCases.HoleMisread` | fs/read_write.c:25-46 | after one byte was written to logical block 2058 of a new file, the hole at block 4106 is read as something else than zeros |
| `FileCases.TwoWrites` | fs/read_write.c:227-232 | a write of one byte at offset 4 of that block then changes a byte before it |
| `FileCases.TwoWritesFit` | fs/read_write.c:194-239 | with room for three blocks, and then for two, both writes succeed |
| `DiskInodes.InodeRoundTrip` | fs/inode.h:11-19 | an inode is read back as it was stored |
| `DiskInodes.StoreInode` | fs/inode.c:146-160 | storing an inode changes its own slot in the shared inode block, and no other inode of the device |
| `InodeCache.InodeTable.GetInode` | fs/inode.c:115-144 | delivers the one inode in memory of this number, which agrees with the simple map of numbers to inodes; i_count is the number of references handed out and not yet put |
| `InodeCache.InodeTable.SyncInode` | fs/inode.c:146-160 | writes a dirty inode to its slot, and changes what no number maps to |
| `InodeCache.InodeTable.PutInode` | fs/inode.c:162-171 | counts a reference off, and drops the inode if and only if it was the last one |
| `InodeCache.InodeTable.CreateInode` | fs/inode.c:197-216 | succeeds if and only if one of the 16384 numbers is free, with the least, be its inode still in memory or not; otherwise the freemap is as it was |
| `InodeCache.InodeTable.RemoveInode` | fs/inode.c:218-231 | a `Remove` step of the file system; the assertion on the block count holds |
| `InodeCache.InodeTable.WriteFile` | fs/file.c:114-118 | succeeds if and only if nothing blocks the last block, with a `Write` step of the file system; otherwise the error of the block where it stops, and a write that stopped; memory and device agree after it |
| `InodeCache.MakeFileSystem` | fs/mktestfs.c:63-74 | after mktestfs and the mounting, memory and device show the fresh file system, which is in order |
| `FileSystem.NoBlockShared` | fs/inode.c:235-257 | in an orderly file system, no two pointers, of one inode or of two, lead to the same block, and what they lead to is allocated and a data block |
| `FileSystem.NoBlockLost` | fs/super.c:225-255 | every allocated block is reached from some inode |
| `FileSystem.Conservation` | fs/super.c:225-255 | the block counts of all inodes add up to the used block count |
| `FileSystem.StepKeepsOk` | fs/inode.c:197-231 | a successful write, a failed one that keeps order, a creation, or a removal keeps the file system in order |
| `FileSystem.StepAsArrays` | fs/read_write.c:194-239 | it changes what it would change in plain byte arrays: its bytes and size in its own file, and nothing in any other |
| `FileSystem.StepExact` | fs/read_write.c:194-239 | and an operation that is not plain changes some byte that it should not |
| `FileSystem.RunKeepsOk` | fs/read_write.c:89-296 | every state of a run is in order |
| `FileSystem.FreshOk` | fs/mktestfs.c:63-67 | the fresh file system is in order, and every file of it is empty |
| `FileSystem.RunAsArrays` | fs/read_write.c:49-239 | after a run of plain operations each file reads as the sparse byte array that the same operations make |
| `FileSystem.FromFresh` | fs/read_write.c:49-296 | both for every state that a fresh file system comes to |
| `FileSystem.FailedWriteHarmless` | fs/read_write.c:201-230 | a failed write leaves all other files as they were, and the counters right |
| `FileSystem.FailedWriteExact` | fs/read_write.c:201-230 | a failed write leaves the file system in order if and only if the condition of `StoppedExact` holds before it |
| `Dirents.DirentAt` | fs/dir.c:64-82 | a record is read back as it was written |
| `Dirents.NextDirent` | fs/dir.c:13-42 | delivers record i and goes on to the start of record i + 1, or reports the end |
| `Dirents.NameToInodeNr` | fs/dir.c:323-340 | the inode number of the first live entry of the name, or `-ENOENT` |
| `Dirents.WriteInPlace` | fs/dir.c:169-172 | a tombstone, or a new entry of the same length, keeps all other record boundaries |
| `Dirents.AddDirent` | fs/dir.c:84-114 | stops at the first record that is live and has the name, and fails with `-EEXIST`, or that is a tombstone of the same length, and uses it again; otherwise it appends; the bytes are whole records again |
| `Dirents.LookupIsMap` | fs/dir.c:323-340 | the lookup agrees with the finite map of the live names |
| `Dirents.AddIsInsert` | fs/dir.c:84-114 | after a failed lookup, adding inserts into the map, and the live names stay unique |
| `Dirents.AddAloneExact` | fs/dir.c:98-110 | without the lookup: exactly when a name is added twice, and exactly when it is found to exist |
| `Dirents.RemoveIsDelete` | fs/dir.c:163-173 | a tombstone deletes the name from the map |
| `Trees.OneEntry` | fs/dir.c:199-238 | every inode but the root has exactly one live entry besides "." and "..", and it leads to a live inode |
| `Trees.HasEntry` | fs/dir.c:199-238 | and it has at least that one |
| `Trees.UpToRoot` | fs/dir.c:251-260 | as many steps of ".." as the depth of a directory lead to the root |
| `Trees.CreatedOk` | fs/dir.c:199-238 | creating a file or directory keeps the tree |
| `Trees.CreatedExact` | fs/dir.c:199-238 | a creation adds the one name to its directory, and a file, or a directory with "." and "..", as was asked for; all other directories stay as they were |
| `Trees.RemovedOk` | fs/dir.c:406-424 | removing an entry that is not an occupied directory keeps the tree |
| `Trees.RemovedExact` | fs/dir.c:406-424 | a removal takes the one name out of its directory, and its inode out of the tree; all other directories stay as they were |
| `Trees.PathLeadsBack` | fs/dir.c:239-265 | the path to a directory, followed from the root, leads back to it |
| `Trees.ShownSets` | fs/dir.c:273-288 | each record shows its inode and what lies below it, all for the first time |
| `Directories.Namespace.CreateFileOrDir` | fs/dir.c:199-238 | `-EEXIST` if the name is there, the error of the inode allocation, or one name more, which leads to the new inode, of the kind asked for; no other inode changes |
| `Directories.Namespace.RemoveDirentAllowed` | fs/dir.c:116-138 | `-ENOTEMPTY` if and only if the directory has an entry besides "." and ".." |
| `Directories.Namespace.RemoveDirent` | fs/dir.c:145-176 | which of the four results, and the bytes with the tombstone |
| `Directories.Namespace.Rm` | fs/dir.c:406-424 | only files and empty directories go, "." and ".." never, and the current directory stays in the tree; one name less, and one inode less, and no other changes |
| `Directories.Namespace.Cd` | fs/dir.c:342-362 | the current directory changes only to a directory that the name leads to |
| `Directories.Namespace.Pwd` | fs/dir.c:239-265 | the recursion ends, and prints a single slash for the root, and otherwise the names of the path with a slash before each |
| `Directories.PrintedExact` | fs/dir.c:250-263 | the pieces that the recursion prints make the names of the path with a slash before each |
| `Directories.Namespace.Ls` | fs/dir.c:267-290 | the recursion ends, and prints the lines of the live records in their order, each followed by the listing of its directory; so every inode below the directory has one line, under its name |
| `Directories.PlainListing` | fs/dir.c:274-281 | ls prints one line for each live record, "." and ".." among them, in the order of the records, with its own name, inode and slash |
| `Directories.NestedListing` | fs/dir.c:280-286 | with lsr, the line of a subdirectory is directly followed by the whole listing of it, and this by the lines of the later records |
| `DenseFiles.HeldReads` | fs/read_write.c:49-84 | a file without holes reads as its bytes, as testfs_next_dirent needs it |
| `DenseFiles.HeldWrite` | fs/read_write.c:194-239 | a successful write into such a file, or at its end, changes its bytes as a write into the array does, and leaves no hole |
| `DenseFiles.InPlaceFits` | fs/read_write.c:194-239 | a write within such a file always succeeds |
| `Commands.CreationOk` | fs/dir.c:199-238 | the inode creation, the records "." and "..", and the entry together make, on the file system, the tree with the new file or directory |
| `Commands.DotDotFits` | fs/dir.c:181-197 | the record ".." of a new directory can always be written |
| `Commands.EmptyDirUndone` | fs/dir.c:199-238 | when "." cannot be written, the removal of the new inode restores everything |
| `Commands.EntryUndone` | fs/dir.c:227-237 | when the entry cannot be written, the directory is as before if and only if the write failed cleanly; the removal of the new inode then restores everything |
| `Commands.FailedAppendExact` | fs/dir.c:112-114 | a failed write at the end of a directory leaves it as it was if and only if it keeps order and was not at the last of several blocks |
| `Commands.RemovalOk` | fs/dir.c:406-424 | the tombstone and the removal of the inode together make, on the file system, the tree without the entry |
| `Commands.TombstoneFits` | fs/dir.c:169-172 | a tombstone can always be written |
| `Commands.CommandsKeepOk` | fs/dir.c:199-424 | from the root directory of a fresh file system on, after every run of commands, failed ones included, the file system is in order, the allocated inodes are the files and directories, the bytes of each directory are those of its inode, and they form a tree |
| `Commands.CreationDone` | fs/dir.c:199-238 | the operations of a creation, done one after the other, lead to such a tree |
| `Commands.RemovalDone` | fs/dir.c:145-176 | those of a removal do |
| `Commands.DotFails` | fs/dir.c:186-188 | "." cannot be written only if no block at all is left, and then the failed write keeps order |
| `Shells.CreateEmptyDir` | fs/dir.c:181-197 | on the device: both records are written, or no block was left; the undo after ".." is never reached |
| `Shells.Shell.CreateFileOrDir` | fs/dir.c:199-238 | on memory and device: `-EEXIST`, `-ENOSPC` if and only if no inode number is free, a `Make` step with the least free number, or a failure for lack of blocks after which, if it was clean, everything is as before; one inode stays in memory |
| `Shells.Shell.Rm` | fs/dir.c:406-424 | which of the four results, on memory and device; the removal cannot fail any more once it has begun, and is an `Rm` step |
| `Shells.Shell.Cd` | fs/dir.c:342-362 | a `Cd` step, or the error; the assertion of testfs_put_inode fails if and only if the directory that is left is dirty |
| `Shells.Shell.WriteFile` | fs/file.c:87-119 | the errors of the lookup, or what the write makes of the file, a `WriteFile` step if it succeeds or keeps order |
| `Sessions.Start` | fs/mktestfs.c:63-75 | with a limit of at least one block, the file system is made and mounted, and the commands begin in its root directory |
| `Sessions.Restart` | fs/testfs.c:189-222 | after the end of a session and the start of the next one, files, directories and tree are as they were |
| `Sessions.SyncedAgrees` | fs/inode.c:146-160 | writing inodes to their slots is of no concern to the files and directories |
| `Threads.YieldedOk` | threads/thread.c:144-155 | saving the context and passing the turn on keeps each thread in exactly one place |
| `Threads.SleptOk` | threads/thread.c:319-325 | going to sleep on a wait queue keeps each thread in exactly one place |
| `Threads.QueueStep` | threads/thread.c:296-380 | a queue gains at its end the thread that goes to sleep, and loses from its front those that are woken, in the order in which they come to the ready list; no other operation touches it |
| `Threads.SleepersInOrder` | threads/thread.c:296-380 | in every run, the threads woken from a queue, and then those on it, are those that went to sleep on it, in the same order |
| `Threads.ExitedOk` | threads/thread.c:220-233 | the same for an exit; the identifier is free again, and the stack is on the list to delete, but not running |
| `Threads.BuriedOk` | threads/thread.c:98-111 | deleting the listed threads never deletes the running one, or one that is in any other place |
| `Threads.FirstPassSwitches` | threads/thread.c:155-168 | on the first return of getcontext, an unmarked thread switches to its target |
| `Threads.SecondPassReturns` | threads/thread.c:155-170 | on the second return it does not switch again: it returns with interrupts as it found them, or exits if it was marked and another thread is ready |
| `Threads.FirstPassEffect` | threads/thread.c:155-168 | after a first pass that switches, exactly the threads that were to be deleted are gone, and the target goes on with what it saved, or in its stub |
| `Threads.SecondPassEffect` | threads/thread.c:155-170 | after a second pass that returns, exactly the threads that were to be deleted are gone, and nothing else changes |
| `Threads.CallBegins` | threads/thread.c:148-155 | the context that a yield or a sleep saves is that of its first pass, with interrupts as the call found them |
| `Threads.ResumesAsCalled` | threads/thread.c:144-170 | in every run, a thread that yields or sleeps comes back to its own code with interrupts as they were at its call |
| `Threads.MarkStep` | threads/thread.c:247-251 | an operation marks exactly the thread that it names, and no thread loses its mark |
| `Threads.MarksExact` | threads/thread.c:236-253 | in every run, the marked threads are exactly those that an exit call of another thread named |
| `Threads.FirstPassExact` | threads/thread.c:156-157 | the first pass keeps the lists in order if and only if the running thread is not marked, or no thread is ready |
| `Threads.LosesThread` | threads/thread.c:156-157 | a run from thread_init that ends in the excluded state; the next step loses the first thread |
| `Threads.WokenMoves` | threads/thread.c:348-380 | a wakeup moves the first sleeper, or all, to the end of the ready list, in the order in which they went to sleep |
| `Threads.SingletonWakeup` | threads/thread.c:358-360 | the branch for size 1 sees only a queue of one thread |
| `Threads.RunOk` | threads/thread.c:113-257 | in every state that is reached, each thread is in exactly one place, once; the identifiers in use are those of the threads not to be deleted, all different; the running thread is not to be deleted |
| `Threads.BoundedWaiting` | threads/thread.c:144-168 | in every run a ready thread keeps its place but for those before it that are taken, until its turn comes; without directed yields, place i becomes i - k after k switches, marked exits included |
| `Schedulers.Scheduler.ThreadCreate` | threads/thread.c:113-139 | the least free identifier, and the new thread at the end of the ready list; without one, interrupts stay disabled |
| `Schedulers.Scheduler.ThreadYield` | threads/thread.c:141-216 | which of the six cases, and the state for each; it faults if and only if the search of the ready list runs past its end |
| `Schedulers.Scheduler.GotContext` | threads/thread.c:155-170 | the rest of a switch, for the first pass and the second |
| `Schedulers.Scheduler.ThreadExit` | threads/thread.c:218-257 | an exit, a mark, a fault of the search, or one of the failures, which leave interrupts disabled; the thread marked is the one with the identifier asked for, or the first ready one, and nothing else changes |
| `Schedulers.Scheduler.ThreadSleep` | threads/thread.c:310-344 | the running thread at the end of the wait queue, no other queue touched, and the first ready one next |
| `Schedulers.Scheduler.ThreadWakeup` | threads/thread.c:346-380 | the threads woken, and the number reported |
| `Schedulers.DriftCounts` | threads/thread.c:357-376 | how far the reported size exceeds the length: by the number of single wakeups since the last wake-all |
| `Locks.MutualExclusion` | threads/thread.c:402-417 | in every interleaving, at most one thread is between the acquisition and the release of a lock |
| `Locks.NoSleeperOnFree` | threads/thread.c:402-417 | no thread is left asleep on a lock that nobody holds |
| `Locks.StepOk` | threads/thread.c:402-417 | every step of every thread keeps a lock locked if and only if it is held, and its sleepers among those that acquire it |
| `Locks.AcquireExact` | threads/thread.c:402-409 | a thread that runs in lock_acquire can always go on; a free lock is its own after the next step, and a locked one makes it the last to sleep on it, if another thread is ready |
| `Locks.HeldUntilReleased` | threads/thread.c:402-417 | a lock is acquired only while it is free, by a thread that asked for it, and released only by its holder |
| `Locks.LockHandover` | threads/thread.c:402-417 | a run in which one thread holds a lock, a second one sleeps on it, and, after the release and at its turn, holds it |
| `RequestQueue.Ring.IsFull` | webserver/server_thread.c:311 | the modular test is exact |
| `RequestQueue.Ring.Put` | webserver/server_thread.c:314-317 | appends to the queue, and signals exactly on the way out of the empty one |
| `RequestQueue.Ring.Take` | webserver/server_thread.c:246-249 | takes the oldest, and signals exactly on the way out of the full one |
| `Monitor.TakenInOrder` | webserver/server_thread.c:239-320 | in every run the descriptors taken are, in order, the first of those put, and at most the capacity lies between |
| `Monitor.ServedInOrder` | webserver/server_thread.c:239-320 | in every run the requests that workers begin to serve are, in order, the first of those that accept returned; the others are in the queue or with the main thread |
| `Monitor.StepKeepsInvariant` | webserver/server_thread.c:243-250 | with a request in the queue some worker is awake, and while the main thread sleeps the queue is full, spurious wakeups included |
| `Monitor.NeverStuck` | webserver/server_thread.c:239-320 | with a capacity above 0, while there is work, some thread can go on without a spurious wakeup |
| `Monitor.NoCapacityStuck` | webserver/server_thread.c:311-313 | with capacity 0 nothing is ever put |
| `Monitor.SleepsBesideRequest` | webserver/server_thread.c:315-316 | a run after which a worker sleeps while a request waits for a busy one |
| `Servers.Server.ServerRequest` | webserver/server_thread.c:305-320 | on the ring buffer, it is a step of the monitor, asleep if and only if the queue is full |
| `Servers.Server.StubFunc` | webserver/server_thread.c:239-252 | so is the step of a worker, asleep if and only if the queue is empty |
| `LruCache.Cache.UpdateLru` | webserver/server_thread.c:68-117 | the file moves, or comes, to the end of the recency list |
| `LruCache.Cache.Lookup` | webserver/server_thread.c:119-134 | agrees with a plain map from names to files |
| `LruCache.TouchedByLastUse` | webserver/server_thread.c:68-117 | the recency list stays in the order of last use |
| `LruCache.Cache.DeleteEntry` | webserver/server_thread.c:155-170 | what it makes of the chain, the case of the first of several included |
| `LruCache.DeletedExact` | webserver/server_thread.c:155-170 | a deletion removes its file, and no other, if and only if it is not the first of several in its chain |
| `LruCache.Cache.Evict` | webserver/server_thread.c:172-180 | ends without reaching an empty list, and takes the shortest prefix of the least recently used files that makes room |
| `LruCache.EvictedExact` | webserver/server_thread.c:172-180 | after it, chains and recency list hold the same files if and only if no victim was the first of several when its turn came |
| `LruCache.Cache.Insert` | webserver/server_thread.c:182-193 | a file of more than half the budget changes nothing; otherwise budget and recency list are right, and the cache is in order if and only if that condition holds; in every chain the files stand in the order of their insertion |
| `LruCache.Cache.InsertEntry` | webserver/server_thread.c:136-153 | the file comes to the end of its chain, and no other chain changes |
| `LruCache.InsertOrder` | webserver/server_thread.c:136-193 | evictions and insertions keep every chain in the order of insertion |
| `LruCache.FirstInserted` | webserver/server_thread.c:145-149 | of two files of the same chain, the one that was inserted first is the first of several |
| `LruCache.FirstOfTwo` | webserver/server_thread.c:155-170 | a cache of two files, with names that hash alike, in which the condition fails |
| `LruCache.ThreeRequests` | webserver/server_thread.c:155-193 | from the start, three requests of which the first two names hash alike: the third one breaks the order of the cache |
| `LruCache.Cache.Find` | webserver/server_thread.c:208-212 | the first critical section of a request hits if and only if its name is cached, and counts as a use |
| `LruCache.Cache.Store` | webserver/server_thread.c:219-226 | the second one, whatever other workers did between the two, inserts the file if and only if its name is not there and it is not too large |
| `WordCount.WordsExact` | warmup/wc.c:84-103 | the words of a text are its maximal runs without white space, each once, in order |
| `WordCount.InsertEntry` | warmup/wc.c:52-71 | counts one word once more, in its place or at the end of its chain, and every other as before; each word keeps one entry, in the chain of its hash |
| `WordCount.Init` | warmup/wc.c:73-105 | the cursors of the tokenizer cut out exactly the words that it counts, and the table holds their multiplicities, as C strings |
| `WordCount.CountsExact` | warmup/wc.c:90-98 | these are the words of the text if and only if it has no NUL, and is empty or ends in white space |

## Left out

- FileTheorems.TailForeseen: for an end within a word of four bytes, what can be seen before the write is sufficient, not necessary; the bytes of that word which stay are those of a block number that the allocator chooses, and `FileTheorems.WritesExact` is exact in terms of them.
- FileData.ReadData: the start of the read lies within the file, as `cmd_read` checks (`fs/file.c:66`) and as `testfs_next_dirent` does; beyond it the size would wrap around.
- FileData.WriteData: the transfer is below 2^31 bytes, and its block numbers fit an `int`.
- InodeCache.InodeTable.WriteFile: the bytes are at least one, as the command's argument is.
- FreeBlocks.FreeBlocks: a file of more than 2058 blocks has its double indirect block; otherwise the code reads block 0 as one, and hands what `FileCases.SuperBlockAsTable` shows to `testfs_free_block`. `FileTheorems.WriteKeepsFilled` and `FileTheorems.StoppedExact` say exactly which writes keep this.
- Dirents.AddDirent: writing the bytes of the directory succeeds, and they are below 2^31; failures are in `Commands.EntryUndone` and `Commands.EmptyDirUndone`, which also join the bytes to those of the inode.
- Directories.Namespace.CreateFileOrDir: the inode number is that of an inode creation that the caller did; `Commands.CreationOk` does all the steps on the file system.
- Shells.ReadBytes: reads the bytes of a directory at once, where testfs_next_dirent reads each record in two transfers; `DenseFiles.HeldReads` holds for every transfer.
- Shells.Shell.CreateFileOrDir: the bytes of a directory stay below 2^31; when a failed write has damaged the directory, the session goes on outside of this model.
- Shells.Shell.WriteFile: the same for the bytes of a file, and a failed write that breaks the order of its file.
- Commands.CommandsKeepOk: a creation whose entry fails other than cleanly ends the run, for the directory is then damaged, as `Commands.FailedAppendExact` says.
- Schedulers.Scheduler.ThreadYield: the identifiers -3 to -7, which the check at `threads/thread.c:180` lets through to an array index out of bounds; after a fault there is no further state.
- Schedulers.Scheduler.ThreadExit: the same identifiers (`threads/thread.c:243`).
- WordCount.Init: the text is shorter than 2^31 characters, the range of its index.
- Device I/O and its failures (`fs/block.c`): the device is a sequence of blocks.
- The commands' parsing and printing, `cmd_stat`, and `cmd_fsstat` (`fs/testfs.c`), and the options of mktestfs (`fs/mktestfs.c:30-61`).
- Running out of memory, leak checks, stacks and registers, and signals; a timer interrupt is a yield.
- Destroying wait queues and locks, and the condition variables of `threads/thread.c:419-455`, which release the lock before they sleep.
- Sockets, HTTP, and reading the files that the web server serves: a request is a descriptor, and a file its name and size.
- The sorted points (`warmup/sorted_points.c`) and the other warmup programs, which would add easier members only.
