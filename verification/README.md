# xv6 in Dafny

A model of the parts of this xv6 that are hard to get right, with proofs.
`dafny verify dfyconfig.toml` checks the whole project.

The source is imperative, and so is the model: tables, queues, buffers and logs are fields of
classes, loops are loops with invariants, and each method is proved against a specification on
values. The theorems are about those specifications, over every input, every run or every
reachable state.

| files | component | source |
|---|---|---|
| `Blocks`, `BufferCache` | disk blocks; the buffer cache over the synchronous disk contract of `memide.c` | `bio.c` |
| `RedoLog`, `LogMachine`, `Log` | the log's disk format; all interleavings of operations, commits, crashes and recoveries; the code of the log on the buffer cache | `log.c` |
| `Cow`, `Kalloc`, `PageTable`, `Vm` | copy-on-write against eager copying; the page allocator; two-level page tables against a flat map; walking, mapping, forking, faulting and teardown | `vm.c`, `kalloc.c` |
| `Bitmap`, `Inodes`, `FsState`, `FileSys` | bits and words on disk; block lists, owners and contents; allocation, truncation, reading and writing | `fs.c`, `file.c` |
| `FsCrash` | files across crashes: the file system on top of the log | `fs.c`, `file.c`, `log.c` |
| `SwapFiles`, `Swap` | swap slots in the swap files; the queue of resident pages and FIFO replacement | `vm.c`, `fs.c` |
| `HeapList`, `Heap` | the circular free list and the tiling of memory; `malloc` and `free` | `umalloc.c` |
| `SleepWake`, `ProcTable`, `Proc` | sleep and wakeup at the level of lock operations; exit and wait over the process table; the table scans | `proc.c` |
| `PipeMachine`, `PipeDev` | a pipe as a FIFO with a window; the ring buffer with wrapping counters | `pipe.c` |
| `ShellGrammar`, `ShellSyntax`, `ShellLex`, `ShellWords`, `ShellRoundTrip`, `ShellTyped`, `Shell` | the parser on tokens, the grammar it implements, tokens, round trips, and the parser on a character buffer | `sh.c` |
| `Grep` | the regular-expression matcher against the language of a pattern | `grep.c` |
| `Collections` | finite sets and sequences | |

## Main results

- **Log.** In every run of operations, commits, crashes between any two block writes, and
  recoveries that are themselves cut short any number of times, the disk recovers to the last
  committed transaction, whole or not at all (`LogMachine.CrashAtomicity`). The code performs
  exactly the writes that theorem is about (`Log.Log.Commit`, `Log.Log.RecoverFromLog`).
- **Memory.** Copy-on-write refines eager copying over every interleaving
  (`Cow.CowRefinesEager`), and `copyuvm`, the page-fault handler, `deallocuvm` and `freevm` on
  real two-level tables are instances of its steps (`Vm`). Fork and growth succeed if and only if
  the free pages suffice (`Vm.Vm.CopyUvm`, `Vm.Vm.AllocUvm`).
- **Files.** Reads and writes through direct and indirect blocks are reads and splices of byte
  sequences; no block has two owners, the bitmap is exact, inodes on disk are never stale and
  files have no holes (`FileSys`).
- **Files across crashes.** Through any history of batches of file writes and truncations, crashes
  at any block write of a commit, and recoveries cut short any number of times, the file system is
  whole and its files are those of the last batch that was committed (`FsCrash.HistoryIsAtomic`).
- **Swapping** through files of that file system never changes what a process reads, nor any other
  file (`Swap.Swap.FifoWrite`, `Swap.Swap.FifoReplace`).
- **malloc/free** tile the memory: every unit is in exactly one block, free blocks never touch,
  and both search loops end (`Heap`).
- **Processes.** No wakeup is lost and, in fair runs, every wakeup that is due arrives; a sound
  exit/wait protocol; both for any number of processes (`SleepWake.NoLostWakeup`,
  `SleepWake.WakeupArrives`, `ProcTable.WaitExitProtocol`).
- **Shell.** The parser ends on every line, accepts exactly the lines of a grammar and builds what
  they mean; its words survive the NULs stored among them, and every command tree can be typed
  (`ShellSyntax.ParserIsGrammar`, `Shell.Parser.ParseCmd`, `ShellTyped.CanBeTyped`).
- **Pipe.** Readers get the writers' bytes in order (`PipeMachine.Fifo`).

## Where the code is not what one would assume

Each of these is a lemma or an exact clause of a contract; the code is modelled as it is.

- `log_write` tests the log's size before it looks for an entry to absorb, so a log at capacity
  panics on a block it already holds (`LogMachine.RelogOfFullLogPanics`). Capacity is
  min(LOGSIZE, log.size - 1), and within its budget an operation meets the panic if and only if the
  log is at capacity (`LogMachine.PanicsExactlyWhenFull`).
- `begin_op` reserves LOGSIZE entries, but the log that `mkfs` makes has LOGSIZE blocks including its
  header. Operations within their budgets are safe from the panic on new blocks if and only if
  `log.size > LOGSIZE` (`LogMachine.FreshBlocksFitIff`).
- `log_write` makes its test before it takes the lock. Two operations that pass it together still
  fit the log region if and only if `log.size > LOGSIZE` (`LogMachine.NeverOverrunsIff`).
- LOGSIZE equals NBUF, and `commit` needs a buffer for the log block: it succeeds if and only if the
  logged blocks and the other held buffers together are fewer than NBUF (`Log.Log.Commit`). With no
  buffer held that is always so for the log that `mkfs` makes.
- The bound test of `vpread` and `vpwrite` lets slots 64 to 79 through although there are only
  four swap files (`SwapFiles.CheckTooWeak`); `fifo_write` stays in the files if and only if one
  of the first 64 slots is usable (`Swap.Swap.FindSlot`).
- Swap-in overwrites the victim's frame; that is invisible to others if and only if the frame is
  not shared (`Cow.OverwriteIsPrivate`).
- `malloc` rounds up in 32-bit arithmetic and returns too small a block if and only if
  `nbytes > 2^32 - 8` (`Heap.PayloadFits`); `morecore` asks `sbrk` for what it records if and
  only if that is below 2^28 units (`Heap.SbrkAsksEnough`).
- A `pipewrite` that fills the pipe and then fails wakes no reader: exactly then a reader can
  sleep although there is something to read (`PipeMachine.ReaderAsleepFacesEmpty`).
- `copyuvm` shares pages from page 1 on: the child reads what its parent reads if and only if the
  parent has no page outside the ranges visited (`Cow.ForkCoversAll`). The page that `inituvm` maps
  is one (`Cow.FirstPageIsNotInherited`).
- `add_page_share` and `red_page_share` do not look at the count; the allocator survives them exactly
  for pages in use whose 16-bit count does not wrap or reach zero (`Kalloc.KMem.AddShare`).
- `>` and `>>` build the same command (`ShellGrammar`).

## Model

| member | source | states |
|---|---|---|
| `BufferCache.BCache.constructor` | xv6/bio.c:38-56 | after binit every buffer is on the circular list once and the cache shows exactly the disk |
| `BufferCache.BCache.FindCached` | xv6/bio.c:68-75 | finds the buffer with the identity if there is one and only then |
| `BufferCache.BCache.FindVictim` | xv6/bio.c:80-91 | of all idle clean buffers, the least recently released one |
| `BufferCache.BCache.BGet` | xv6/bio.c:61-93 | a (dev, block) pair has one buffer; a buffer in use or dirty keeps its identity; "no buffers" exactly when the block is not cached and every buffer is in use or dirty |
| `BufferCache.BCache.Bread` | xv6/bio.c:96-106 | the buffer returned holds the latest logged or written contents of the block |
| `BufferCache.BCache.Bwrite` | xv6/bio.c:109-116 | disk and view take the new contents in one block write |
| `BufferCache.BCache.Pin` | xv6/log.c:231 | a logged buffer becomes the view of its block and cannot be recycled while dirty |
| `BufferCache.BCache.Brelse` | xv6/bio.c:120-141 | the last release moves the buffer to the front: the list stays a permutation of all buffers in order of last release |
| `BufferCache.MoveToFront` | xv6/bio.c:131-138 | unlinking and relinking keeps next and prev inverse along the whole circle |
| `BufferCache.CoherentReplace` | xv6/bio.c:100-127 | a buffer that is locked, read or released, its block being the same, leaves the cache in agreement with the view |
| `RedoLog.HeadRoundTrip` | xv6/log.c:85-113 | a header written by write_head is read back by read_head as the same list, through the byte layout |
| `RedoLog.RecoverDurable` | xv6/log.c:69-82 | recovery of a disk whose header is trustworthy gives the durable contents of every home block |
| `RedoLog.LogWriteStep` | xv6/log.c:177-190 | a write to a log slot of an empty log does not change what recovery gives |
| `RedoLog.CommitPointStep` | xv6/log.c:101-113 | the header write switches what recovery gives from the old contents to the new ones, for all blocks at once |
| `RedoLog.InstallStep` | xv6/log.c:69-82 | installing one block does not change what recovery gives |
| `RedoLog.ClearStep` | xv6/log.c:115-122 | clearing the header after installation does not change what recovery gives |
| `LogMachine.Simulates` | xv6/log.c:124-233 | every event of operations, commit, crash and recovery does to durable and current contents what the atomic store does |
| `LogMachine.RunRefinesStore` | xv6/log.c:124-233 | every run, with crashes between any two block writes, refines the atomic store |
| `LogMachine.CrashAtomicity` | xv6/log.c:69-122 | at every moment of every run recovery would leave every home block as in the last committed transaction, all of it or none of it |
| `LogMachine.CommitAtomic` | xv6/log.c:177-202 | a commit stopped after any number of its writes recovers to all old or all new contents, and which of the two is decided by the header write |
| `LogMachine.CommitComplete` | xv6/log.c:192-202 | a whole commit leaves the new contents at home and an empty log |
| `LogMachine.RecoverPrefix` | xv6/log.c:115-122 | recovery stopped anywhere leaves a state of the machine from which recovery can start again |
| `LogMachine.RecoveryIdempotent` | xv6/log.c:69-122 | recovery after a recovery that stopped at any write gives the same home blocks |
| `LogMachine.AdmissionSafe` | xv6/log.c:124-174 | in every run lh.n plus the unused budget of active operations is at most LOGSIZE, logged blocks are distinct, and committing implies that no operation is active |
| `LogMachine.RelogOfFullLogPanics` | xv6/log.c:218-228 | for every log size a run with every operation within its budget in which log_write panics although the block is in the log already: the size test comes before absorption |
| `Log.FillHead` | xv6/log.c:102-113 | word 0 is the count, the next words the list, the rest of the block is as before |
| `Log.ParseHead` | xv6/log.c:86-96 | the list has as many entries as word 0 says, from word 1 on |
| `Log.CommitTrace` | xv6/log.c:192-202 | log writes, header, installation and clearing together are the write sequence of commit |
| `Log.RecoverTrace` | xv6/log.c:115-122 | installation and clearing together are the write sequence of recovery |
| `Log.Log.BeginOp` | xv6/log.c:125-141 | admits exactly when not committing and the logged blocks and ten for each operation fit LOGSIZE; otherwise nothing changes |
| `Log.Log.Record` | xv6/log.c:224-230 | absorption: the list gains the block unless it is there |
| `Log.Log.LogWrite` | xv6/log.c:213-233 | panics exactly when the log has LOGSIZE or log.size - 1 blocks; else the block is in the list once and the cache shows the new contents: the log step of the machine |
| `Log.Log.CopyToLog` | xv6/log.c:182-189 | one cached block goes to its log slot; fails exactly when no buffer can be recycled; what other processes hold stays held |
| `Log.Log.WriteLog` | xv6/log.c:177-190 | performs exactly the log writes of commit, or none when no buffer can be recycled |
| `Log.Log.WriteHead` | xv6/log.c:101-113 | performs exactly the header write; what other processes hold stays held |
| `Log.Log.InstallOne` | xv6/log.c:74-81 | one log slot goes to its home block and unpins it |
| `Log.Log.InstallTrans` | xv6/log.c:69-82 | performs exactly the installation writes |
| `Log.Log.Commit` | xv6/log.c:192-202 | performs exactly the write sequence the crash theorems are about and empties the log, if and only if logged blocks and other held buffers together are fewer than NBUF; otherwise bget panics before any write |
| `Log.Log.EndOp` | xv6/log.c:145-174 | the last end_op commits, with the condition of Commit; earlier ones are the end step of the machine |
| `Log.Log.ReadHead` | xv6/log.c:85-96 | the list on disk becomes the list in memory, with no write |
| `Log.Log.RecoverFromLog` | xv6/log.c:115-122 | performs exactly the recovery writes and leaves the recovered disk with an empty log |
| `Cow.InvStep` | xv6/vm.c:539-593 | sharing, unprotecting, copying, storing, dropping and growing keep: share count = number of references, a writable page is not shared, pages share a frame only at the same address |
| `Cow.StepRefines` | xv6/vm.c:727-755 | each page-sized action does to what every process reads what it would do if fork copied; faults are invisible |
| `Cow.CowRefinesEager` | xv6/vm.c:539-593 | over every interleaving each process reads exactly what it would had fork copied every page |
| `Cow.CountBound` | xv6/kalloc.c:124-131 | a share count never exceeds the number of address spaces, so the 16-bit counter cannot wrap |
| `Cow.ForkedView` | xv6/vm.c:539-593 | after copyuvm the child reads its own copy of every page visited and nobody else sees a difference |
| `Cow.ForkFailed` | xv6/vm.c:589-592 | a fork given up at any page leaves the parent with write protection as the only trace |
| `Cow.TeardownCounts` | xv6/vm.c:505-521 | releasing an address space lowers the count of each frame it maps by exactly one and no other count |
| `Cow.OverwriteIsPrivate` | xv6/vm.c:817-827 | overwriting a frame, as swap-in does, is invisible to every other page if and only if the frame's share count is 1 |
| `Kalloc.KMem.Kfree` | xv6/kalloc.c:66-93 | one reference less; the page joins the free list exactly when none is left; the list stays acyclic and duplicate-free and fpgn is its length |
| `Kalloc.KMem.Kalloc` | xv6/kalloc.c:98-114 | the most recently freed page with count 1, or 0 exactly when no page is free |
| `Kalloc.KMem.AddShare` | xv6/kalloc.c:124-131 | one share more in 16-bit arithmetic; the allocator stays sound if and only if the page is in use and the counter does not wrap |
| `Kalloc.KMem.RedShare` | xv6/kalloc.c:133-140 | one share less in 16-bit arithmetic; the allocator stays sound if and only if a share is left |
| `Kalloc.KMem.FreeRange` | xv6/kalloc.c:51-60 | exactly the pages of the range become managed and free |
| `PageTable.WalkAfterSet` | xv6/vm.c:37-60 | a store through the pointer walkpgdir returns changes the mapping of one page of one directory |
| `PageTable.StoreEntry` | xv6/vm.c:75-79 | the two-level tables still stand for a flat map, changed at that page only |
| `PageTable.AddTable` | xv6/vm.c:50-57 | a fresh page table changes no mapping of any directory |
| `PageTable.WithDirectory` | xv6/vm.c:131-133 | a fresh directory maps nothing and disturbs no other |
| `PageTable.AbsentTable` | xv6/vm.c:429-431 | the pages deallocuvm skips with a missing page table are pages that are not mapped |
| `PageTable.DyingNext` | xv6/vm.c:512-519 | freeing the tables of a directory one by one never frees a table another directory uses |
| `PageTable.DyingEnd` | xv6/vm.c:520 | afterwards exactly the other directories' tables are left |
| `Vm.Vm.FindTable` | xv6/vm.c:37-60 | finds the table that holds the entry, if there is one |
| `Vm.Vm.WalkPgdir` | xv6/vm.c:37-60 | fails exactly when a table is missing and no page is free; otherwise all mappings are as before |
| `Vm.Vm.MapPages` | xv6/vm.c:65-86 | maps the range or a prefix of it, and all of it if and only if the free pages suffice for the missing page tables; no other mapping changes |
| `Vm.Vm.DeallocTurn` | xv6/vm.c:427-478 | one turn releases the page if it is there, or skips a missing table, and no page reads differently |
| `Vm.Vm.DeallocUvm` | xv6/vm.c:416-501 | exactly the pages that start between newsz and oldsz are gone from this address space; every other page has the same entry and contents |
| `Vm.Vm.FreeTables` | xv6/vm.c:512-519 | every page table of the directory is released and no count of a user page changes |
| `Vm.Vm.FreeVm` | xv6/vm.c:505-521 | exactly the address space is gone; every other page has the same entry and contents |
| `Vm.Vm.SetupKvm` | xv6/vm.c:124-144 | maps exactly the four parts of the kernel, with their permissions, takes 65 pages, and succeeds if and only if there are as many; otherwise no trace |
| `Vm.Kmap` | xv6/vm.c:117-122 | the kernel's ranges lie above user space and do not overlap |
| `Vm.Vm.SharePage` | xv6/vm.c:550-561 | both entries name the frame without write permission; fails exactly when the page table is missing and no page is free |
| `Vm.Vm.CopyLow` | xv6/vm.c:548-562 | shares exactly the pages from 1 up to sz, or stops at the page whose page table cannot be allocated |
| `Vm.Vm.CopyStack` | xv6/vm.c:564-585 | the stack pages that exist are shared |
| `Vm.Vm.CopyUvm` | xv6/vm.c:539-593 | the child has exactly the parent's pages from 1 up to sz and from the stack's start on, reads the same there, and shares them without write permission; no contents change; it exists if and only if there are 65 free pages and one for each user page table; otherwise entries are only write-protected and every count is as before |
| `Vm.Vm.Unprotect` | xv6/vm.c:735-737 | the last reference becomes writable and nobody reads anything different |
| `Vm.Vm.CopyShared` | xv6/vm.c:740-753 | a new frame with the same contents, writable, and one share less for the old one; nothing when no page is free |
| `Vm.Vm.PageFault` | xv6/vm.c:698-755 | resumed exactly for a present user page without write permission whose frame is not shared or when a page is free, panic exactly for a writable one, killed otherwise; resumed with a share count of 1 the entry gets W back, with more it names a new frame with the same contents and the old frame has one share less; contents are the same for everyone |
| `Vm.Vm.GrowPage` | xv6/vm.c:391-407 | a new zeroed page for this process only if and only if there are pages for it and for its page table; otherwise no change at all |
| `Bitmap.MarkOne` | xv6/fs.c:66-69 | setting a bit in its byte sets exactly that block's bit of the whole map |
| `Bitmap.ClearOne` | xv6/fs.c:90-94 | clearing a bit clears exactly that block's bit |
| `Inodes.GetAfterPut` | xv6/fs.c:222-238 | an inode stored in its block is read back unchanged and its seven neighbours are untouched |
| `FsState.Alloc` | xv6/fs.c:57-79 | a block whose bit was clear belongs to nobody; marking and zeroing it disturbs no inode, list or file |
| `FsState.Free` | xv6/fs.c:82-97 | clearing the bit of an unowned block disturbs nothing else |
| `FsState.AdoptDirect` | xv6/fs.c:380-384 | a fresh block becomes the next direct block; no block has two owners |
| `FsState.AdoptNewIndirect` | xv6/fs.c:388-390 | a fresh zeroed block becomes the indirect block |
| `FsState.AdoptIndirect` | xv6/fs.c:391-397 | a fresh block becomes the next one listed in the indirect block, and no other list changes |
| `FsState.SpliceRoundTrip` | xv6/fs.c:453-512 | reading a range after writing it gives what was written; bytes outside it are as before; the size is max(old size, off+n) |
| `FsState.SpliceTwice` | xv6/file.c:126-153 | two writes in a row are one longer write, so chunking is invisible |
| `FsState.TruncStart` | xv6/fs.c:408-436 | the blocks itrunc frees are exactly the ones the inode owns |
| `FileSys.FileSys.FindFree` | xv6/fs.c:64-77 | the first clear bit, or none below the size |
| `FileSys.FileSys.Balloc` | xv6/fs.c:57-79 | the lowest block whose bit is clear, now marked and zeroed, no other bit changed; the panic exactly when no bit is clear |
| `FileSys.FileSys.Bfree` | xv6/fs.c:82-97 | clears exactly the bit of a block whose bit is set |
| `FileSys.FileSys.Bmap` | xv6/fs.c:374-401 | an existing block is found without a change; otherwise the file gains exactly one block at its end, in direct or indirect position |
| `FileSys.FileSys.WriteBlock` | xv6/fs.c:499-505 | one block of writei: the bytes of the file change exactly in the range |
| `FileSys.FileSys.Iupdate` | xv6/fs.c:222-238 | the inode's place on the disk holds the inode in memory, no other block changes |
| `FileSys.FileSys.FinishWrite` | xv6/fs.c:507-511 | a write that got a block also raised the size, so the inode on disk is up to date and the file has no holes |
| `FileSys.FileSys.Writei` | xv6/fs.c:482-512 | file contents become the splice of the data, across direct and indirect blocks and unaligned ends; all other files and all ownership facts are kept; -1 exactly for a gap or a file too large; a write inside the file never meets the full disk |
| `FileSys.FileSys.Readi` | xv6/fs.c:453-477 | exactly the bytes of the range that the file has; reading allocates nothing |
| `FileSys.FileSys.WriteOp` | xv6/file.c:135-146 | a chunk of at most 1536 bytes logs at most 7 distinct blocks when the bitmap is one block |
| `FileSys.FileSys.FileWrite` | xv6/file.c:117-156 | a write that starts inside the file and fits its maximal size is done in full and returns its length; otherwise the result is -1 after the largest number of whole 1536-byte chunks that fits, none past the end; the file is the splice of what was written |
| `FileSys.FileSys.FreeDirect` | xv6/fs.c:415-420 | each direct block is freed once |
| `FileSys.FileSys.FreeIndirect` | xv6/fs.c:422-432 | each listed block and then the indirect block is freed once |
| `FileSys.FileSys.Itrunc` | xv6/fs.c:408-436 | the file is empty in memory and on disk; exactly the bits and owners of its blocks are gone; all other files are as before |
| `SwapFiles.CheckTooWeak` | xv6/fs.c:742-743 | a slot addresses a swap file if and only if it is below 64; the check in the code also passes the 16 slots after them |
| `SwapFiles.SlotsDisjoint` | xv6/fs.c:737-771 | bytes of different slots are different bytes of the files, all within 65536 |
| `SwapFiles.NoRejection` | xv6/fs.c:494-497 | a slot at or below the high-water mark is never refused by the offset test of writei |
| `SwapFiles.WriteExtends` | xv6/fs.c:756-771 | writing the first unused slot keeps the files free of holes |
| `Swap.FirstFit` | xv6/vm.c:280-292 | the first usable slot is at most the high-water mark |
| `Swap.DropTail` | xv6/vm.c:266-274 | removing the oldest entry leaves a doubly linked list of the others |
| `Swap.PushHead` | xv6/vm.c:233-241 | inserting at the head leaves a doubly linked list with the entry in front |
| `Swap.Swap.TakeOldest` | xv6/vm.c:266-274 | takes exactly the oldest entry off the queue |
| `Swap.Swap.FindSlot` | xv6/vm.c:276-303 | the lowest usable slot, in a new group if none is left; it lies in the swap files if and only if one of the first 64 was usable |
| `Swap.Swap.VpWrite` | xv6/fs.c:756-771 | is filewrite of the file system at the slot's place in its file; no other file changes; panics only when the disk is full and the swap file has to grow |
| `Swap.Swap.VpRead` | xv6/fs.c:736-753 | is the read of the file system at the slot's place in its file; no file changes |
| `Swap.Swap.StoreOut` | xv6/vm.c:280-303 | the page is in the lowest usable slot in full and no other slot or file changed, unless the disk is full |
| `Swap.Swap.FifoWrite` | xv6/vm.c:260-321 | exactly the oldest page leaves memory; every page still reads the same and no other file changes, unless the disk is full |
| `Swap.Swap.FindEntry` | xv6/vm.c:227-232 | the first usable queue entry |
| `Swap.Swap.Grow` | xv6/vm.c:366-390 | the new page is resident and newest; with a free entry no page leaves, else exactly the oldest; all other pages read the same; balloc can panic only when one leaves |
| `Swap.Swap.ExchangeChunk` | xv6/vm.c:820-827 | a quarter page of slot and frame has changed places |
| `Swap.Swap.Exchange` | xv6/vm.c:819-827 | after four chunks slot and frame have changed contents completely and no other slot changed |
| `Swap.Swap.FindPage` | xv6/vm.c:786-809 | finds the one slot that holds the page; the panic is not reached |
| `Swap.Swap.FifoReplace` | xv6/vm.c:758-834 | every page reads the same, the page asked for is resident and newest, exactly the oldest page has left, the queue is well formed, no other file changes, and balloc is not called |
| `Heap.PayloadFits` | xv6/umalloc.c:69 | the block is large enough if and only if the rounding does not wrap, and then no larger than needed |
| `Heap.SbrkAsksEnough` | xv6/umalloc.c:52-57 | sbrk is asked for the units that are recorded if and only if they are fewer than 2^28 |
| `HeapList.Apart` | xv6/umalloc.c:24-44 | blocks never overlap |
| `HeapList.CircleInsert` | xv6/umalloc.c:34-42 | the list stays circular and in address order when a block goes in |
| `HeapList.CircleRemove` | xv6/umalloc.c:76-77 | and when a block is taken out |
| `Heap.Heap.FindPlace` | xv6/umalloc.c:30-32 | the search ends, from wherever freep points, at the free block below the given one |
| `Heap.Heap.JoinUpper` | xv6/umalloc.c:33-37 | the block above is taken over exactly when it is free and adjacent |
| `Heap.Heap.JoinLower` | xv6/umalloc.c:38-43 | the block below takes over exactly when it is free and adjacent; no two free blocks touch afterwards |
| `Heap.Heap.Free` | xv6/umalloc.c:24-44 | the block leaves the blocks in use, no unit is lost, no two free blocks touch |
| `Heap.Heap.Morecore` | xv6/umalloc.c:46-61 | the memory obtained is free, in a block that is large enough |
| `Heap.Heap.Take` | xv6/umalloc.c:75-84 | the whole of the free block, or its upper end; every other block is as before |
| `Heap.Heap.Search` | xv6/umalloc.c:74-89 | the first block after freep that is large enough; memory is asked for only when none is; ends |
| `Heap.Heap.Malloc` | xv6/umalloc.c:63-90 | a new block of the computed size that overlaps no block in use, from the first free block after freep that fits; sbrk is asked only when none fits; 0 exactly when sbrk fails then |
| `SleepWake.NoLostWakeup` | xv6/proc.c:715-774 | for any number of processes and any run from the start, kills included: whoever sleeps while the condition is true has a wakeup coming, and each lock has one holder |
| `SleepWake.NoneLostStep` | xv6/proc.c:733-742 | the same for each step, in particular for the window between release(lk) and SLEEPING |
| `SleepWake.WakeupReachesAll` | xv6/proc.c:755-774 | after a wakeup no one is asleep or past the point of no return |
| `SleepWake.Progress` | xv6/proc.c:715-774 | a sleeper whose condition is true is not stuck: some process involved can take a step |
| `ProcTable.FamilyStep` | xv6/proc.c:506-614 | parents are always alive, and every process but init has one |
| `ProcTable.WaitStep` | xv6/proc.c:546-613 | with the lock free, a process asleep in wait has a child, no zombie child, and has not been killed |
| `ProcTable.WaitExit` | xv6/proc.c:548-563 | exit wakes everyone it must: the parent, and init if it inherits a zombie |
| `ProcTable.ZombieStays` | xv6/proc.c:582-602 | a zombie stays until its current parent, which is alive, reaps it |
| `ProcTable.ReapFresh` | xv6/proc.c:590-600 | a process id that wait returns was never returned before |
| `ProcTable.WaitExitProtocol` | xv6/proc.c:506-614 | all of this in every run of any number of processes from the table that userinit leaves |
| `Proc.Ptable.Wakeup1` | xv6/proc.c:758-766 | exactly the sleepers on the channel become runnable |
| `Proc.Ptable.HandOver` | xv6/proc.c:551-560 | all children go to init, which is woken exactly when one of them is a zombie |
| `Proc.Ptable.Exit` | xv6/proc.c:546-563 | children go to init; exactly the sleepers on the parent, and on init when a child is a zombie, are woken; the process is a zombie |
| `Proc.Ptable.Wait` | xv6/proc.c:577-613 | reaps the first zombie child if there is one, fails exactly without children or when killed, else sleeps: the steps of the protocol |
| `Proc.Ptable.Alloc` | xv6/proc.c:299-312 | the first unused slot with a new process id, or none |
| `Proc.Ptable.Kill` | xv6/proc.c:779-798 | is the kill step for the first entry with that id, or -1 when there is none |
| `PipeMachine.InvStep` | xv6/pipe.c:59-121 | with the lock free, a writer asleep faces a full pipe with its read end open, and a reader asleep an open write end |
| `PipeMachine.Fifo` | xv6/pipe.c:77-121 | over every interleaving the bytes read are a prefix of the bytes that the writes passed, in order, and at most PIPESIZE bytes are in between |
| `PipeMachine.ReaderAsleepFacesEmpty` | xv6/pipe.c:84-92 | a reader asleep keeps facing an empty pipe if and only if the step is not a write that fills the pipe and then fails without a wakeup |
| `PipeDev.Counters` | xv6/pipe.c:85 | full and empty are told apart although the counters wrap at 2^32 |
| `PipeDev.PipeDev.constructor` | xv6/pipe.c:31-34 | an empty pipe, both ends open |
| `PipeDev.PipeDev.Write` | xv6/pipe.c:77-98 | stores the bytes of addr from where it starts up to where it stops, in order; stops at the end, or at a full pipe, where it fails or sleeps as the code does; is the write step of the FIFO |
| `PipeDev.PipeDev.Read` | xv6/pipe.c:100-121 | returns the oldest unread bytes, at most n; sleeps or fails exactly for an empty pipe with an open write end; is the read step of the FIFO |
| `PipeDev.PipeDev.Close` | xv6/pipe.c:59-75 | is the close step of the FIFO; the page is freed exactly at the close of the second end, and then no one is asleep in it |
| `ShellLex.LexWords` | xv6/sh.c:295-299 | a word token is a maximal run of word characters |
| `ShellLex.PeekMeans` | xv6/sh.c:310-320 | peek's character test tells which symbol the next token is |
| `ShellWords.LineWords` | xv6/sh.c:344-446 | every word of a parsed command is a word of the line |
| `ShellRoundTrip.RoundTrip` | xv6/sh.c:322-446 | every command tree is the parse of its printed tokens |
| `ShellTyped.NaturalLine` | xv6/sh.c:344-446 | the parser's choices do not depend on the text of words |
| `ShellTyped.LexRender` | xv6/sh.c:265-308 | spelled tokens are read back as the same tokens |
| `ShellTyped.CanBeTyped` | xv6/sh.c:265-446 | for every command tree there is a line that the shell parses to exactly that tree with those words |
| `Shell.WordIntact` | xv6/sh.c:448-493 | no NUL that nulterminate stores lands inside a word |
| `Shell.Parser.SkipSpace` | xv6/sh.c:272-273 | skips exactly the white space and no token |
| `Shell.Parser.Peek` | xv6/sh.c:310-320 | says whether the next token is one of the symbols, and consumes no token |
| `Shell.Parser.GetToken` | xv6/sh.c:265-308 | returns the next token and its place, and leaves the rest |
| `Shell.Parser.ParseRedirs` | xv6/sh.c:374-397 | the loop over redirections as the grammar function, which ParserIsGrammar and Redirections are about |
| `Shell.Parser.ParseWords` | xv6/sh.c:423-445 | agrees with the grammar |
| `Shell.Parser.ParseExec` | xv6/sh.c:415-446 | agrees with the grammar |
| `Shell.Parser.ParseBlock` | xv6/sh.c:399-413 | agrees with the grammar |
| `Shell.Parser.ParsePipe` | xv6/sh.c:361-372 | agrees with the grammar |
| `Shell.Parser.ParseLine` | xv6/sh.c:344-359 | agrees with the grammar, and ends on every input |
| `Shell.Parser.NulTerminate` | xv6/sh.c:448-493 | stores NULs at the ends of the command's words and nowhere else |
| `Shell.Parser.ParseCmd` | xv6/sh.c:327-342 | ends on every line, accepts it exactly when the grammar derives it, builds the command the grammar says, and leaves every word a C string with its text |
| `Grep.Match` | xv6/grep.c:72-82 | true if and only if some part of the text, placed as ^ and $ allow, is a word of the pattern's language |
| `Grep.MatchHere` | xv6/grep.c:84-96 | true if and only if a word of the language starts the text (and is all of it for $) |
| `Grep.MatchStar` | xv6/grep.c:98-106 | true if and only if c*re matches at the beginning |
| `Grep.WordStar` | xv6/grep.c:98-106 | the language of c* is none or one more character: the unfolding the loop relies on |
| `Log.Log.CopyOut` | xv6/log.c:77-80 | one buffer's contents go out through another: one block write, both buffers released |
| `Log.Log.OpenForLog` | xv6/log.c:183-184 | a recycled buffer for the log slot and the pinned one for the block; the first is missing exactly when no buffer can be recycled |
| `Log.Log.OpenForInstall` | xv6/log.c:75-76 | two different buffers with the slot and the home block |
| `Log.Log.CommitLogged` | xv6/log.c:195-200 | for a log that is not empty: exactly the writes of commit, then an empty log and nothing pinned |
| `Vm.Vm.constructor` | xv6/kalloc.c:36-49 | with every managed frame free the invariant holds |
| `Vm.Vm.NewTable` | xv6/vm.c:50-57 | a new table, or no change exactly when no page is free; no mapping changes |
| `Vm.Vm.SetPte` | xv6/vm.c:79 | one page is mapped differently, in one directory |
| `Vm.Vm.MapOne` | xv6/vm.c:75-79 | one page is mapped, or nothing changes |
| `Vm.Vm.DropPage` | xv6/vm.c:475-478 | the page is gone, its frame has one reference less, and all other pages read the same |
| `Vm.Vm.ReleaseFrame` | xv6/vm.c:475-476 | one reference less, and the page is forgotten with the last one |
| `Vm.Vm.ReleaseTable` | xv6/vm.c:516-517 | the table's frame is free and no user page's count changes |
| `Vm.Vm.NewDirectory` | xv6/vm.c:131-133 | a directory that maps nothing, or no change exactly when no page is free |
| `Vm.Vm.GiveUp` | xv6/vm.c:136-142 | after a failed setup, tables, pages and all counts are as before |
| `Vm.Vm.TakeWrite` | xv6/vm.c:554-558 | the entry loses its write bit and nothing else |
| `Vm.Vm.TakePage` | xv6/vm.c:742-749 | a fresh frame with the given contents, or no change exactly when no page is free |
| `FileSys.FileSys.LogWrite` | xv6/log.c:213-233 | the block changes and is noted as logged: changed blocks are always logged blocks |
| `FileSys.FileSys.GrowDirect` | xv6/fs.c:381-382 | the file has one more block, zeroed, with no other owner |
| `FileSys.FileSys.NewIndirect` | xv6/fs.c:389-390 | the inode has an indirect block, with no other owner |
| `FileSys.FileSys.GrowIndirect` | xv6/fs.c:391-397 | the file has one more block, listed in the indirect block |
| `FileSys.FileSys.FirstIndirect` | xv6/fs.c:389-397 | indirect block and first block listed in it, both new |
| `FileSys.FileSys.WriteLoop` | xv6/fs.c:499-505 | all bytes are in place, the file has exactly the blocks for them, and only those blocks, the indirect block and bitmap blocks are logged |
| `FileSys.FileSys.FreeBlocks` | xv6/fs.c:415-432 | no block of the inode is left marked or referred to |
| `FileSys.FileSys.TruncOp` | xv6/fs.c:408-436 | truncation as one transaction: at most two blocks logged when the bitmap is one block |
| `FsCrash.HomeIsEnough` | xv6/log.c:69-122 | disks that agree outside the log hold the same whole file system with the same contents |
| `FsCrash.OperationIsAtomic` | xv6/file.c:140-145 | a write or truncation cut short at any block write of its commit recovers to all files as before or all as after, in a whole file system |
| `FsCrash.HistoryIsAtomic` | xv6/log.c:115-202 | through any sequence of commits of batches, crashes inside commits and recoveries cut short, the file system is whole and every file has the contents that the last batch with a completed header write gave it |
| `Swap.Swap.constructor` | xv6/proc.c:94-106 | no pages, all entries usable, over four empty swap files of the file system |
| `Swap.Swap.PushFront` | xv6/vm.c:234-242 | the entry is the newest and the list is doubly linked |
| `Swap.Swap.WriteSlot` | xv6/fs.c:756-771 | a whole page is in the slot, never refused, and no other slot or file changed; a full disk matters for a new slot only |
| `Swap.Swap.Requeue` | xv6/vm.c:376-384 | the entry records the new page and is the newest |
| `Swap.Swap.Admit` | xv6/vm.c:376-402 | the new page is resident and newest, all others read the same |
| `Swap.Swap.TradePlaces` | xv6/vm.c:811-829 | frame and slot have changed owners and contents; every page reads the same |
| `Heap.Heap.Start` | xv6/umalloc.c:70-73 | a list with the static header only |
| `PipeDev.PipeDev.StoreByte` | xv6/pipe.c:93 | one more byte stored, none of the unread ones overwritten |
| `PipeDev.PipeDev.TakeByte` | xv6/pipe.c:116 | the oldest unread byte |
| `LogMachine.PanicsExactlyWhenFull` | xv6/log.c:218-219 | for every log size: within its budget an operation meets the panic if and only if the log is at capacity, min(LOGSIZE, log.size - 1); on a block that is not in the log yet, if and only if moreover log.size <= LOGSIZE |
| `Cow.ForkCoversAll` | xv6/vm.c:548-565 | the child reads at every address what its parent reads if and only if the parent has no page that copyuvm does not visit |
| `BufferCache.BCache.MoveToHead` | xv6/bio.c:131-138 | the buffer is first on the list, the others keep their order |
| `Kalloc.KMem.HandOver` | xv6/kalloc.c:56-59 | a page seen for the first time becomes managed and free, with count 0 |
| `Vm.Vm.InstallTable` | xv6/vm.c:53-57 | a zeroed table becomes one entry of one directory and changes no mapping |
| `LogMachine.FreshBlocksFitIff` | xv6/log.c:132-219 | over all runs admission keeps operations within their budgets from the panic on new blocks if and only if log.size > LOGSIZE; mkfs makes a log of LOGSIZE blocks |
| `LogMachine.WithinBudgetFits` | xv6/log.c:218-230 | what an operation records right after a passed test fits the log region; with log.size > LOGSIZE it fits tested or not |
| `LogMachine.NeverOverrunsIff` | xv6/log.c:218-223 | the test of log_write is made before the lock is taken: over all runs two operations that pass it together still fit the log region if and only if log.size > LOGSIZE (or the region is its header only) |
| `Log.FreeLeft` | xv6/bio.c:77-92 | with exactly the logged blocks pinned, bget has a buffer to recycle if and only if logged blocks and other held buffers together are fewer than NBUF |
| `Vm.Vm.AllocUvm` | xv6/vm.c:359-410 | exactly the pages from oldsz to newsz, zeroed and for this process only, if and only if the free pages suffice for them and their page tables; else after the clean-up by deallocuvm none, and every page is mapped and reads as before |
| `SleepWake.WakeupArrives` | xv6/proc.c:715-774 | in every fair infinite run a sleeper that is owed a wakeup is woken |
| `SleepWake.TrueConditionWakes` | xv6/proc.c:715-774 | in every fair infinite run a sleeper whose condition is true is woken |
| `SleepWake.Released` | xv6/proc.c:733-752 | in a fair run ptable.lock is free again and again |
| `FsCrash.BatchIsTransaction` | xv6/log.c:9-21 | operations committed together are one transaction on the files |
| `FsCrash.CutsHarmless` | xv6/log.c:115-122 | any number of recoveries cut short at any writes, and then a whole one, give what one recovery gives |
| `FsCrash.BatchIsAtomic` | xv6/log.c:192-202 | wherever the commit of a batch of operations stops and however often recovery is cut short, the disk holds what was there before the batch or what all of it left |
| `Cow.FirstPageIsNotInherited` | xv6/vm.c:187-197 | the page that inituvm maps is such a page: no fork gives it to the child |
| `Vm.Vm.CopyPages` | xv6/vm.c:540-593 | the pages both loops visit are shared; the child exists exactly when the free pages suffice for its directory and page tables |
| `Vm.KernelEntries` | xv6/vm.c:111-122 | which frame and which permission each kernel page has |
| `Vm.KernelTabsSize` | xv6/vm.c:111-122 | every address space needs 64 page tables for the kernel |
| `Vm.Vm.GrowPages` | xv6/vm.c:365-408 | the loop of allocuvm: as many new pages as it got to, all of them if and only if the free pages suffice |
| `Cow.ViewAt` | xv6/vm.c:597-608 | what a process reads at an address is the contents of the frame that its entry names |
| `FileSys.MapExact` | xv6/fs.c:56-101 | the bitmap marks the metadata blocks and the blocks in use by an inode, and no others |
| `Bitmap.BitIs` | xv6/fs.c:66-68 | where block b's bit is: bit b % 8, from the low end, of byte b / 8 |
| `Blocks.WordBytes` | xv6/fs.h:29-36 | words on disk are little-endian |
| `Inodes.InodePlace` | xv6/fs.h:29-36 | where the words of inode k of a block are |
| `RedoLog.RecoverMeans` | xv6/log.c:69-122 | recovery in terms of the header's words: the block that word j names gets the j-th block after the header, every other block is as before, and the count is 0 |
| `PipeMachine.SentIsStored` | xv6/pipe.c:79-98 | the pipe gets of each write the first bytes, as many as fit, in the order of the writes, and nothing else |
| `PipeMachine.StepMeans` | xv6/pipe.c:79-121 | what each step stores, takes and wakes |
| `ShellSyntax.ParserIsGrammar` | xv6/sh.c:328-446 | the parser accepts exactly the lines that a grammar of five rules derives, with redirections before, between and after words, and builds exactly what the derivation means; so the grammar is unambiguous |
| `ShellSyntax.LineFound` | xv6/sh.c:345-446 | every derivation of a line is found |
| `ShellSyntax.LineDerived` | xv6/sh.c:345-446 | everything the parser accepts has a derivation |
| `ShellSyntax.Constructs` | xv6/sh.c:345-413 | what |, ;, & and parentheses build from plain commands |
| `ShellSyntax.Redirections` | xv6/sh.c:375-397 | <, > and >> after the words: the file, the direction, and the first redirection innermost |
| `ShellLex.LexCovers` | xv6/sh.c:266-307 | the characters of the tokens, in order, are the characters of the line that are not white space |
| `ShellLex.TokenChars` | xv6/sh.c:276-301 | a token is a symbol, >> as one token, or a word |
| `ShellLex.CharClasses` | xv6/sh.c:262-263 | the shell's white space and symbols |
| `ShellWords.CmdWordsHas` | xv6/sh.c:450-491 | the words of a command are the arguments and files at every depth |
| `Swap.Swap.LogicalMeans` | xv6/vm.c:758-834 | what a page reads: its frame if resident, else its slot's bytes of the swap files |
| `Vm.Vm.CopyBoth` | xv6/vm.c:548-585 | both loops: every page they visit is shared, or they stop with no page free and a page table missing |

## Left out

- Drivers, boot code, interrupts, TLB and memory ordering: the disk is the synchronous one of `memide.c`, and a section that holds a lock is one step.
- Log.Log.LogWrite: test and record are one step; `log.c:218` makes the test before the lock. What another operation in between can do is `LogMachine.NeverOverrunsIff`.
- Log.Log.Commit: other processes may hold buffers but take no step during the commit, and no one has a logged block locked, for which the code would wait.
- LogMachine.CrashAtomicity: an operation records a block only where it fits the log region; the test of `log_write` sees to that, except in the race above on a log with `log.size <= LOGSIZE`.
- FsCrash.HistoryIsAtomic: the operations of a batch are taken one after the other, and each batch fits the log.
- BufferCache.BCache.BGet: identities are unique for device numbers other than 0; all buffers start as (0, 0) and only device 1 is used.
- Vm.Vm.DeallocUvm: only for a page directory that is not the current process's; for the current one the code panics at `vm.c:455`.
- Vm.Vm.CopyUvm: a parent without swapped-out pages; missing low pages and missing page tables of the stack are panics of the code and preconditions here; fewer than 65534 address spaces, where xv6 has 64 processes.
- Vm.Vm.PageFault: the part after the test for a missing page; share count and entry are read and changed in one step, and the frame allocated and lost at `vm.c:684` is not counted.
- Vm.Vm.AllocUvm: without the checks of the stack's place, and below the capacity limit of the queue of resident pages; the turn at the limit is `Swap.Swap.Grow`.
- FileSys.FileSys.LogWrite: notes the block as logged; panic, absorption and the list are `Log.Log.LogWrite`.
- Swap.Swap.FifoReplace: frames of the process are unshared, the state of fork with swapped-out pages is not modelled, and `virtual_page_alloc` succeeds.
- FileSys.FileSys.Bmap: positions up to the end of the file plus one block, which is what `readi` and `writei` ask for; inode allocation, directories, path names and device files are not modelled.
- FileSys.FileSys.Writei: operations on different inodes are taken one after the other.
- Heap.Heap.Malloc: `sbrk` is a parameter that returns fresh memory above the static header, as in xv6; programs write only inside their blocks.
- ProcTable.WaitExitProtocol: the scheduler's choice, context switches and `fork`'s copying of files are not modelled; a failed `fork` frees its slot before it sets the parent.
- PipeMachine.Fifo: a write or read is resumed by calling it again with what is left.
- Shell.Parser.ParseWords: collects words before it builds the node, where the code fills `argv` of a node it has already wrapped.
- Running commands in the shell, and grep's reading of files into lines.
- Grep.Match: text and pattern contain no NUL.
- Shared-memory system calls, the console, the other user programs and system-call argument checks.
- SleepWake.WakeupArrives: fairness of scheduler and spinlocks is an assumption; neither is modelled.
- Swap.Swap.FifoWrite: the case in which none of the first 64 slots is usable, where the code indexes past `vpfile`.
