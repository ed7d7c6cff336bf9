# Pintos, verified in Dafny

A Dafny model of the parts of this Pintos kernel in which most can go wrong, with proofs about every run, every input or
every reachable state:

- `Kernel`, `KernelSafety`, `KernelTheorems`, `KernelLives`, `KernelCalls`: the scheduler, semaphores, locks and
  condition variables as a transition system, with an inductive invariant and theorems over all executions: what is
  counted, who is woken and runs, how a thread lives and ends, and what a thread has got from a call when it is back.
- `Bitmap`, `InodeIO`, `Directory`, the modules `FileSys…` and the class `FileSystem`: the file system, from a device of
  512-byte sectors up to filesys_create(), filesys_open() and filesys_remove(). `FileSys` has the calls as functions on
  values, for which the theorems are proved over all runs that begin with formatting a device, with any number of calls
  and mounts after that; `FileSystem` has them as code that works in place on a device and a bitmap, and is proved to do
  what those functions say. `FileSysClient` says what a client sees of its handles and exactly when each call succeeds.
  `FileSysMap` and `FileSysRemount` say which free map is on the disk after every call, and what the next mount finds.
  `FileSysLeaks` says exactly which calls and mounts lose sectors, `FileSysNames` exactly which calls make a name twice
  or write over an entry, and `FileSysExamples` has runs in which these things happen.
- `LinkedList`, `SortSpec`: doubly linked lists with their links in the heap, list_splice(), list_sort() and
  list_reverse().
- `Arithmetic`: 64-bit division by way of 32-bit instructions. `Heapsort`: sort() and binary_search().
- `Hash`, `HashLinks`: hash tables that change size, and their iterator; moving the elements to new buckets on linked
  lists in the heap. `Malloc`, `Allocator`: the block allocator with its memory.
- `Ustar`: tar headers, with the octal conversion of printf(), as in the "ustar Interchange Format" of the pax utility in
  POSIX. `Argv`, `ArgvStack`: from a command line to the stack of main(). `PteWords`, `PageDir`: page directories
  and page tables, as 32-bit words. `Elf`: loading an executable page by page, with its entries in a hash table.

`dafny verify dfyconfig.toml` checks everything.

The invariants are predicates about one thread, one waiter, one pair of files (`ThreadAt`, `WaiterAt`, `ApartAt`, …) and
are quantified in one place. The proofs go operation by operation, and the theorems follow from the invariant.

Memory that may or may not be found is a parameter (`mem`, `bounce`, `alloc`): each call takes the outcomes of its
allocations, and what is proved holds for all outcomes. That goes for the bounce buffers of the directory, too, which
every read and write of a 20-byte record needs: `Directory.Outcome` has how many records lookup() and the search for a
free record can read, whether the record can be written, and what was in the record before anything was read. Thread
identifiers and the choice of the next event are parameters of the steps in the same way.

Properties that do not hold of the code have the exact condition under which they do, and an input for which they do
not:

- Sectors get lost when filesys_create() has made a file and cannot enter its name, or when it writes over an entry for
  want of memory; and with a mount, when a file without an entry was open or the map on the disk marks more than the one
  in memory: `FileSysLeaks.SectorsAreConserved`; `FileSysExamples.SecondCreateLoses`,
  `FileSysExamples.FailedWriteLoses`.
- The free map on the disk is the one in memory, unless a write of it is cut short for want of memory, which
  free_map_release() does not notice and free_map_allocate() takes back in memory only. It never marks less:
  `FileSysRemount.MapSurvivesRemount`, `FileSysRemount.MapsAreTheSame`; `FileSysExamples.UnwrittenRelease`.
- Names are distinct, and entries stay until they are removed, unless the reads of dir_add() are cut short for want of
  memory: `FileSysNames.NamesAreDistinct`, `FileSysNames.EntriesLast`; `FileSysExamples.ShortLookupDoubles`,
  `FileSysExamples.ShortSearchOverwrites`.
- umod64() and smod64() return 32 bits (src/lib/arithmetic.c:129-155), so they are the remainder for all dividends
  exactly for divisors up to 2^32 and of size up to 2^31: `Arithmetic.UmodExact`, `Arithmetic.SmodExact`.
- Two segments of an executable may share a page, which is then filled for the first only; a segment may lie in the page
  of the stack; and the offset of a page is a signed 32-bit number, which file_seek() asserts not to be negative, and
  which is negative in a segment of more than 2 GB: `Elf.ImageInMemory`, `Elf.RightExactly`; `Elf.SharedPage`,
  `Elf.StackSegment`, `Elf.BigSegment`.
- malloc() returns a block of one page for a size of 2^32 - 11 or more, because the number of pages wraps around, and
  realloc() may then copy more than fits: `Malloc.GrantedAll`, `Allocator.Allocator.Realloc`.
- pagedir_destroy() frees no page twice exactly if nothing is shared, which pagedir_set_page() keeps for spare pages and
  does not check: `PageDir.FreedOnceExactly`; `PageDir.SetTwice`, `PageDir.FreesTwice`.
- setup_stack() checks the size of the arguments but not the room for their pointers: `ArgvStack.SetupStack`;
  `ArgvStack.ShortWordsLeave`.

Where code and comments disagree the model follows the code:

- bitmap_scan_and_flip() asked for 0 bits returns `start`; its comment says 0 (src/lib/kernel/bitmap.c:312-326).
- free_map_close() does not write the free map to disk, although its comment says so (src/filesys/free-map.c:63-68).
  What the next mount finds is what the calls have written: `FileSysRemount.MapSurvivesRemount` says how that compares
  with the map in memory.
- malloc() has descriptors for blocks up to 1024 bytes; its comment says that blocks up to 2 kB are handled this way
  (src/threads/malloc.c:31-35, 71-85).

## Model

| member | source | states |
|---|---|---|
| `KernelTheorems.SemaphoreCounts` | src/threads/synch.c:60-121 | In every run, for every semaphore: its value plus the completed downs is its initial value plus the ups, including the semaphores inside locks and condition variables. |
| `KernelTheorems.NoLostWakeup` | src/threads/synch.c:60-121 | In every run, while a thread sleeps on a semaphore, each of its units has a woken thread of its own that has not tested the value again, and every woken thread is on the ready list or running with interrupts off. |
| `KernelTheorems.OneOwner` | src/threads/synch.c:175-236 | From the invariant of locks: the value of a lock's semaphore plus the number of its owners is 1, and a recorded holder is the owner. |
| `KernelTheorems.MutualExclusion` | src/threads/synch.c:175-236 | In every run a lock's semaphore value plus the threads between a completed down and the matching up is exactly 1, and a non-null holder is that thread. |
| `KernelTheorems.SignalsAreFifo` | src/threads/synch.c:287-338 | In every run the arrivals at a condition are those signalled so far followed by those still waiting, in that order: signals and broadcasts release the earliest waiter. |
| `KernelTheorems.OneSignalPerWait` | src/threads/synch.c:287-322 | In every state each wait has exactly one of: its place on the list, a signal about to be sent, a signal in its semaphore; also between lock_release() and sema_down() inside cond_wait(). |
| `KernelTheorems.SignalCounts` | src/threads/synch.c:311-338 | In every run the signals that took a waiter off the list are the ups of its semaphore, and perhaps one still to be sent. |
| `KernelTheorems.EverySignalReachesItsWaiter` | src/threads/synch.c:287-338 | In every run the signals for a waiter are those it has consumed, the one its semaphore holds, and the one still to be sent: no signal is lost and no waiter passes unsignalled. |
| `KernelTheorems.ReadyListIsExact` | src/threads/thread.c:348-378 | In every run exactly one thread is running, the ready list has no duplicates, and it is exactly the ready threads other than idle. |
| `KernelTheorems.OneListPerThread` | src/threads/thread.h:84-89 | In every run a thread waiting on a semaphore is on no other semaphore's list, not on the ready list and not running: `elem` is in at most one list. |
| `KernelTheorems.DispatchedInOrder` | src/threads/thread.c:638-714 | Whatever happens, the thread at position k of the ready list is the (k+1)-th that schedule() dispatches. |
| `KernelTheorems.ExitedThreadsAreFreedOnce` | src/threads/thread.c:663-691 | In every run the page of a thread is freed once if it has exited and is not the initial thread, and otherwise not at all. |
| `KernelTheorems.NoAssertionFails` | src/threads/synch.c:60-338 | In every run whose callers hold, or do not hold, the lock as an operation demands at its call, no assertion fails: whoever is unblocked is blocked, a lock is still held, or not held, when the operation comes back to it after sleeping, and the next thread is neither dying nor freed. |
| `KernelLives.LifeOfRun` | src/threads/thread.c:245-440 | In every run, from the events: a thread that is made is among all threads, it is blocked only asleep on a semaphore, and it is dying exactly if it has called thread_exit(), which it does at most once. |
| `KernelLives.ExitIsTheEnd` | src/threads/thread.c:415-436 | In every run a thread calls thread_exit() at most once; its page is then freed, once, unless it is the initial thread, and it never runs again, is not ready, and is on no list of a semaphore or condition. |
| `KernelLives.BlockedOnlyWaiting` | src/threads/thread.c:348-378 | In every run a thread whose creation is complete, other than idle, is blocked only while it is on the list of the semaphore it sleeps on. |
| `KernelLives.UnmadeIsUnborn` | src/threads/thread.c:245-345 | In every run a thread whose creation is not complete is blocked and has not run. |
| `KernelLives.CanGoOn` | src/threads/thread.c:348-378 | In every run a thread in the middle of a call, other than asleep in sema_down(), runs or is on the ready list. |
| `KernelLives.WakesAreFifo` | src/threads/synch.c:60-121 | In every run those who went to sleep on a semaphore are those woken so far followed by those still asleep, in that order: sema_up() wakes the one that has slept longest. |
| `KernelLives.RunsNext` | src/threads/thread.c:638-714 | schedule() takes the first on the ready list, to which a yielding thread has gone last, and the idle thread only if there is none; no other step changes who runs. |
| `KernelLives.AllThreads` | src/threads/thread.c:245-345 | Threads come by thread_create() only, and none is forgotten. |
| `KernelCalls.OthersLeaveAlone` | src/threads/synch.c:60-338 | Whatever other threads and interrupts do, they leave a thread where it is in its call, its locks, and the list of a condition whose lock it holds. |
| `KernelCalls.DownTakesOne` | src/threads/synch.c:60-77 | From sema_down() until its next call, in every run, a thread is asleep and has taken nothing, or is back and has taken exactly one unit. |
| `KernelCalls.TryDownTakes` | src/threads/synch.c:83-102 | sema_try_down() takes a unit exactly if there was one. |
| `KernelCalls.AcquireTakes` | src/threads/synch.c:192-205 | From lock_acquire() on a thread is asleep, or has taken the unit, and when it is back it holds the lock. |
| `KernelCalls.TryAcquireTakes` | src/threads/synch.c:209-222 | lock_try_acquire() gets the lock exactly if its unit was there. |
| `KernelCalls.ReleaseGives` | src/threads/synch.c:228-236 | From lock_release() on the thread does not hold the lock, and after one more step of its own it is back and has given the unit. |
| `KernelCalls.WaitGoes` | src/threads/synch.c:287-302 | From cond_wait() on: the unit of the lock is given first, then the signal taken, then the unit again, each once, and the lock is held on return. |
| `KernelCalls.WaitReturns` | src/threads/synch.c:287-302 | A thread that is back from cond_wait() holds the lock, and exactly one signal has taken it off the list since it called. |
| `KernelCalls.SignalReturns` | src/threads/synch.c:311-322 | A thread that is back from cond_signal() has signalled the first waiter and no other, if there was one, and has done its up. |
| `KernelCalls.BroadcastReturns` | src/threads/synch.c:330-338 | From cond_broadcast() with n waiters the thread can always go on and is back after exactly 2n+1 steps of its own (none if n is 0); then nobody is left on the list, and all that waited have been signalled, in order and each once. |
| `KernelCalls.CreateMakes` | src/threads/thread.c:245-345 | A thread that is back from thread_create() has made the new thread, unless there was no memory. |
| `KernelSafety.StepKeepsInv` | src/threads/thread.c:245-714 | Every step (of a thread in the middle of a call, of an interrupt handler, of the scheduler) keeps the conjunction of the six invariants on scheduling, waiters, life cycle, wakeups, locks and conditions. |
| `KernelSafety.EveryRunKeepsInv` | src/threads/thread.c:164-714 | The invariant holds in every state of every run. |
| `SortSpec.MergeSorts` | src/lib/kernel/list.c:379-398 | The merge of two sorted ranges is a stable rearrangement of both and is sorted. |
| `SortSpec.RunEndIsRun` | src/lib/kernel/list.c:357-373 | What is found is a maximal nondecreasing run. |
| `SortSpec.PassRearranges` | src/lib/kernel/list.c:404-440 | A pass of the sort is a stable rearrangement. |
| `SortSpec.PassHalvesRuns` | src/lib/kernel/list.c:404-440 | A pass counts half of the runs there were, rounded up, so that the loop ends after logarithmically many passes. |
| `SortSpec.PassLeavesRuns` | src/lib/kernel/list.c:404-440 | A pass leaves no more runs than it counts. |
| `SortSpec.PassSummary` | src/lib/kernel/list.c:404-440 | A whole pass is stable, counts half of the runs it found, and leaves at most as many as it counts. |
| `SortSpec.OneRunIsStableSort` | src/lib/kernel/list.c:404-440 | When at most one run is left the list is sorted and has the same elements. |
| `SortSpec.SortedIsOneRun` | src/lib/kernel/list.c:341-350 | Being sorted is having at most one run, for every strict weak order. |
| `SortSpec.StableIsPermutation` | src/lib/kernel/list.c:400-403 | A stable rearrangement is a permutation. |
| `SortSpec.StableSortIsUnique` | src/lib/kernel/list.c:400-403 | Two sorted and mutually stable sequences are equal: the order and stability determine the result. |
| `LinkedList.Splice` | src/lib/kernel/list.c:180-204 | For every place and range, in one list or two, the links of every element are exactly those the six assignments leave, those of all others unchanged. |
| `LinkedList.SpliceForward` | src/lib/kernel/list.c:180-204 | Moved towards the front of their list, the elements of a range are before the given one and both link directions agree again. |
| `LinkedList.SpliceBackward` | src/lib/kernel/list.c:180-204 | Moved towards the back, they change places with those between, well linked; before the element after the range nothing changes. |
| `LinkedList.SpliceAcross` | src/lib/kernel/list.c:180-204 | Moved from one list to another, they leave the one and are in the other, both well linked. |
| `LinkedList.FindEndOfRun` | src/lib/kernel/list.c:357-373 | The element returned is at the end of the natural run. |
| `LinkedList.InplaceMerge` | src/lib/kernel/list.c:379-398 | Splicing in the heap yields the chain that the merge of sequences says. |
| `LinkedList.SortPass` | src/lib/kernel/list.c:415-437 | One pass over the chain in the heap yields the chain of a pass on sequences and its number of runs. |
| `LinkedList.SortChain` | src/lib/kernel/list.c:404-440 | The loop ends, with a well-linked chain that is a stable rearrangement and has at most one run. |
| `LinkedList.List.Sort` | src/lib/kernel/list.c:400-440 | For every strict weak order the list is afterwards well linked, sorted, a permutation of what it was, and stable. |
| `LinkedList.SwapLinks` | src/lib/kernel/list.c:325-333 | The loop exchanges both links of every interior element and no others. |
| `LinkedList.ReverseChain` | src/lib/kernel/list.c:325-337 | The links afterwards are those of the chain with its interior turned around, for every length including zero. |
| `LinkedList.List.Reverse` | src/lib/kernel/list.c:324-337 | The list has its elements in the opposite order, well linked. |
| `LinkedList.List.ReverseTwice` | src/lib/kernel/list.c:324-337 | Reversing twice restores every link of every element. |
| `LinkedList.FlippedTwice` | src/lib/kernel/list.c:324-337 | Turning the interior of a chain around twice gives the chain. |
| `LinkedList.List.Insert` | src/lib/kernel/list.c:166-178 | The element is before the given one, in a list that is well linked. |
| `LinkedList.List.PushFront` | src/lib/kernel/list.c:206-212 | The element is the front of the list. |
| `LinkedList.List.PushBack` | src/lib/kernel/list.c:214-220 | The element is the back of the list. |
| `LinkedList.List.Remove` | src/lib/kernel/list.c:222-252 | Exactly the element leaves the list, which is well linked, and the next one is returned. |
| `LinkedList.List.InsertRemove` | src/lib/kernel/list.c:166-252 | Removing what was inserted restores every link of the others. |
| `Arithmetic.Nlz` | src/lib/arithmetic.c:39-72 | The shifts and comparisons count the leading zeros of a nonzero word. |
| `Arithmetic.TwoDigits` | src/lib/arithmetic.c:80-112 | For a small divisor the two 32-bit quotient digits make up the 64-bit quotient and the second division cannot trap. |
| `Arithmetic.EstimateIsClose` | src/lib/arithmetic.c:113-126 | If the truncated divisor is close enough then the quotient by it is the true one or one more. |
| `Arithmetic.EstimateError` | src/lib/arithmetic.c:113-126 | The bits cut off a normalised divisor are too few for the estimate to be off by more than one. |
| `Arithmetic.LargeDivisor` | src/lib/arithmetic.c:113-126 | The estimate by one 32-bit division and shifts is the true quotient or one more. |
| `Arithmetic.TestEstimate` | src/lib/arithmetic.c:124-124 | Without overflow, comparing the remainder with the divisor corrects the estimate. |
| `Arithmetic.UdivLarge` | src/lib/arithmetic.c:113-126 | For divisors of more than 32 bits the result is the quotient. |
| `Arithmetic.UdivSmall` | src/lib/arithmetic.c:80-112 | For divisors of at most 32 bits the result is the quotient. |
| `Arithmetic.Udiv64` | src/lib/arithmetic.c:74-127 | For all 64-bit dividends and nonzero divisors the result is the quotient, and the division instruction never traps. |
| `Arithmetic.Sdiv64` | src/lib/arithmetic.c:137-146 | The result is the quotient truncated toward zero, except for the most negative number by -1, which wraps. |
| `Arithmetic.QuotFits` | src/lib/arithmetic.c:137-146 | The truncated quotient does not fit in 64 bits in that one case only. |
| `Arithmetic.Umod64` | src/lib/arithmetic.c:129-135 | The result is the remainder modulo 2^32. |
| `Arithmetic.Smod64` | src/lib/arithmetic.c:148-155 | The result is the truncated remainder cut down to a signed 32-bit number. |
| `Arithmetic.RemIsSmall` | src/lib/arithmetic.c:148-155 | The truncated remainder has the size of the remainder of sizes and the sign of the dividend. |
| `Arithmetic.UmodExact` | src/lib/arithmetic.c:129-135 | umod64() is the remainder for every dividend if and only if the divisor is at most 2^32. |
| `Arithmetic.SmodExact` | src/lib/arithmetic.c:148-155 | smod64() is the remainder for every dividend if and only if the divisor is at most 2^31 in size. |
| `Heapsort.Swap` | src/lib/stdlib.c:66-79 | Two elements are exchanged and nothing else changes. |
| `Heapsort.Greatest` | src/lib/stdlib.c:103-112 | The index found is that of the element or a child, and no child is greater than it. |
| `Heapsort.RootIsGreatest` | src/lib/stdlib.c:131-152 | The root of a heap is not less than any other element. |
| `Heapsort.FloatsDown` | src/lib/stdlib.c:119-121 | Exchanging with the greater child leaves a heap but for that child's place. |
| `Heapsort.FloatedDown` | src/lib/stdlib.c:114-117 | Once no child is greater the heap is restored. |
| `Heapsort.Heapify` | src/lib/stdlib.c:96-123 | From heaps below element i a heap from i on is made, by rearranging only the first cnt elements. |
| `Heapsort.RootTaken` | src/lib/stdlib.c:146-151 | Taking the root out of the heap adds one element to the sorted part and keeps it not less than the heap. |
| `Heapsort.TakeRoot` | src/lib/stdlib.c:146-151 | One turn of the second loop keeps a heap, a sorted part above it, and the elements. |
| `Heapsort.Sort` | src/lib/stdlib.c:131-152 | For every total preorder the array is sorted and a permutation of what it was. |
| `Heapsort.BinarySearch` | src/lib/stdlib.c:184-207 | On a sorted array an equal element is found if and only if there is one. |
| `Heapsort.Further` | src/lib/stdlib.c:184-207 | A key below one element of a sorted array is below all later ones, and the other way round. |
| `Bitmap.MaskIsNotZero` | src/lib/kernel/bitmap.c:43-47 | The mask of a bit is not zero. |
| `Bitmap.MasksAreDisjoint` | src/lib/kernel/bitmap.c:43-47 | Masks of different bits of a word have no bit in common. |
| `Bitmap.Bitmap.constructor` | src/lib/kernel/bitmap.c:96-110 | All bits are clear. |
| `Bitmap.Make` | src/lib/kernel/bitmap.c:76-94 | A bitmap with all bits clear, or a null pointer exactly if there is no memory for the header, or none for the bits where there are any. |
| `Bitmap.Bitmap.Set` | src/lib/kernel/bitmap.c:144-179 | One bit changes in its word and no other bit of the map. |
| `Bitmap.Bitmap.SetMultiple` | src/lib/kernel/bitmap.c:217-228 | Exactly the bits of the range have the value. |
| `Bitmap.Bitmap.Contains` | src/lib/kernel/bitmap.c:250-263 | The answer is whether some bit of the range has the value. |
| `Bitmap.Bitmap.Scan` | src/lib/kernel/bitmap.c:295-310 | The result is the first group of cnt equal bits at or after start, and none exactly if there is no such group. |
| `Bitmap.Bitmap.ScanAndFlip` | src/lib/kernel/bitmap.c:319-326 | The first group is found and exactly it is flipped; otherwise nothing changes. |
| `Bitmap.FirstFit` | src/lib/kernel/bitmap.c:295-310 | The specification as a function is a first fit. |
| `Bitmap.FirstFitIsUnique` | src/lib/kernel/bitmap.c:295-310 | There is only one first fit. |
| `Bitmap.RolledBack` | src/filesys/free-map.c:27-41 | Flipping a group and setting it back restores the map, as free_map_allocate() does when the map cannot be written. |
| `InodeIO.BytesToSectors` | src/filesys/inode.c:23-29 | The number of sectors is the least that holds the size. |
| `InodeIO.Transferred` | src/filesys/inode.c:200-318 | The bytes transferred are at most the size, and none or all within the file. |
| `InodeIO.TurnGoesOn` | src/filesys/inode.c:207-245 | A turn of either loop goes on exactly until everything up to the end of the file is transferred, or up to the first partial sector without a bounce buffer. |
| `InodeIO.ChunkInSector` | src/filesys/inode.c:46-54 | The bytes of one chunk of the flat file are together in the one sector that byte_to_sector() names. |
| `InodeIO.ReadChunk` | src/filesys/inode.c:218-240 | One turn copies the right bytes of the flat file, directly or through the bounce buffer. |
| `InodeIO.ReadAt` | src/filesys/inode.c:200-250 | For every offset and size the buffer receives the bytes of the flat file from the offset on, min(size, length - offset) of them clamped at 0, and is unchanged elsewhere. |
| `InodeIO.StoredChunk` | src/filesys/inode.c:284-308 | Rewriting one sector is storing the chunk in the flat file. |
| `InodeIO.WriteChunk` | src/filesys/inode.c:279-308 | One turn stores its chunk, reading the sector first if the chunk leaves a part of it. |
| `InodeIO.WriteAt` | src/filesys/inode.c:257-318 | The disk has the written slice at the offset and is otherwise the same; nothing is written when denied. |
| `InodeIO.WriteReplacesSlice` | src/filesys/inode.c:257-318 | Seen as a flat byte array the file has exactly the slice replaced. |
| `InodeIO.WriteStaysInside` | src/filesys/inode.c:257-318 | No sector outside the file's extent changes. |
| `Directory.NewRecordReads` | src/filesys/directory.c:16-22 | A record that is written reads back as its name, sector and mark. |
| `Directory.RewrittenAt` | src/filesys/directory.c:141-179 | Overwriting a record changes that record only. |
| `Directory.Find` | src/filesys/directory.c:91-112 | The record found is the first in use under the name within the range; none is found exactly if there is none. |
| `Directory.FreeSlot` | src/filesys/directory.c:159-169 | The slot is the first record not in use within the range; none exactly if all are in use. |
| `Directory.ReadRecord` | src/filesys/directory.c:98-101 | Reading at an offset in the file gives that record, or nothing at the end or without a bounce buffer. |
| `Directory.Lookup` | src/filesys/directory.c:91-112 | The loop finds the first record in use under the name among those it can read, which end with the file or where there is no bounce buffer. |
| `Directory.FindFree` | src/filesys/directory.c:159-169 | The loop ends at the first free record, at the end of the file, or at the first record that cannot be read, with the last record read. |
| `Directory.WriteRecord` | src/filesys/directory.c:171-175 | The record is rewritten, or nothing is written without a bounce buffer or past the end of the file. |
| `Directory.Add` | src/filesys/directory.c:141-179 | For all outcomes of its reads and its write: the record where the search ended is rewritten, or nothing is written if the name is empty, too long or found, or the write is past the end or has no bounce buffer. |
| `Directory.Erase` | src/filesys/directory.c:204-207 | The entry's record is written back as not in use, or nothing is written without a bounce buffer. |
| `Directory.StoredRecord` | src/filesys/directory.c:171-175 | Writing the bytes of a record to the file rewrites that record of the directory. |
| `FileSys.HeaderReads` | src/filesys/inode.c:13-21 | The extent and length written to an on-disk inode are read back. |
| `FileSysDisk.StoreKeeps` | src/filesys/inode.c:257-318 | Writing within one live file keeps every other live file and all inodes on the disk. |
| `FileSysDisk.AllocateKeeps` | src/filesys/free-map.c:27-41 | What is allocated is the first fit, exactly it is marked, and no live file changes; on failure the map is as before. |
| `FileSysDisk.ReleaseKeeps` | src/filesys/free-map.c:44-50 | Releasing sectors that no live file has keeps the disjointness and placement of all live files. |
| `FileSysDisk.NewInodeMade` | src/filesys/inode.c:72-106 | inode_create() writes an inode whose file is all zeros, in sectors that were free. |
| `FileSysDisk.NewInodeInv` | src/filesys/inode.c:72-106 | The new file is apart from all live ones and changes none of them. |
| `FileSysDisk.CreateInodeKeeps` | src/filesys/inode.c:72-106 | Whatever memory there is, inode_create() keeps the invariant of the disk, and on success there is one more file, of zeros. |
| `FileSysDisk.KeptBytes` | src/filesys/inode.c:200-250 | A file whose inode and sectors are the same has the same bytes. |
| `FileSysTables.OneEntryPerInode` | src/filesys/directory.c:141-179 | No inode has two directory entries. |
| `FileSysTables.Erased` | src/filesys/directory.c:184-216 | Rewriting a record as not in use takes away exactly its inode and keeps inodes distinct. |
| `FileSysTables.Added` | src/filesys/directory.c:141-179 | For all outcomes, dir_add() lists the new inode, and no longer that of the record it wrote over, if that was in use; inodes stay distinct. |
| `FileSysTables.AddedNames` | src/filesys/directory.c:141-179 | Names that are distinct stay so exactly if the new name is not that of another entry, which lookup() could not read. |
| `FileSysTables.ErasedNames` | src/filesys/directory.c:184-216 | Erasing an entry keeps names distinct. |
| `FileSysTables.ErasedName` | src/filesys/directory.c:184-216 | The name is gone exactly if no other entry has it. |
| `FileSysTables.PutInv` | src/filesys/inode.c:322-338 | Updating an inode in memory with the right counts keeps the table of open inodes exact. |
| `FileSysTables.PushInv` | src/filesys/inode.c:129-141 | Reading in an inode that is not open yet keeps it exact. |
| `FileSysTables.DropInv` | src/filesys/inode.c:163-186 | Closing the last file on an inode keeps it exact. |
| `FileSysSafety.DenyKeeps` | src/filesys/file.c:118-141 | Denying and allowing writes keeps the invariant, and the count of denials exact. |
| `FileSysSafety.GoneForGood` | src/filesys/inode.c:163-186 | A removed inode whose last file is closed is live no more. |
| `FileSysSafety.OwnedByOne` | src/filesys/inode.c:174-180 | The sectors released then belong to no live file. |
| `FileSysSafety.ReleaseFile` | src/filesys/inode.c:174-180 | Releasing them keeps the invariant and every live file. |
| `FileSysSafety.CloseKeeps` | src/filesys/file.c:45-54 | Closing a file keeps the invariant and what all files hold that stay alive. |
| `FileSysSafety.NodeOfFile` | src/filesys/file.c:17-34 | Every open file has an inode in memory that agrees with the disk and counts it. |
| `FileSysOps.OpenInodeKeeps` | src/filesys/inode.c:111-142 | Opening an inode with a directory entry, in memory already or not, keeps the invariant. |
| `FileSysOps.EraseKeeps` | src/filesys/directory.c:184-216 | Erasing an entry and marking the inode removed keeps the invariant and all contents. |
| `FileSysOps.OpenKeeps` | src/filesys/filesys.c:78-89 | filesys_open() keeps the invariant and all contents, for all outcomes of memory, also of that for reading the directory. |
| `FileSysOps.ReopenKeeps` | src/filesys/file.c:38-42 | file_reopen() keeps the invariant and all contents, also without memory. |
| `FileSysOps.CloseFileKeeps` | src/filesys/file.c:45-54 | file_close() keeps the invariant and all contents that stay alive. |
| `FileSysOps.RemoveKeeps` | src/filesys/filesys.c:95-103 | filesys_remove() keeps the invariant and all contents that stay alive, for all outcomes, also when the record cannot be read or written. |
| `FileSysOps.CreateKeeps` | src/filesys/filesys.c:57-71 | filesys_create() keeps the invariant and the contents of every file that lives on, for all outcomes; on success the record where the search ended has the name and leads to a new file of zeros. |
| `FileSysOps.WriteKeeps` | src/filesys/file.c:94-100 | file_write() keeps the invariant and what every other file holds. |
| `FileSysOps.PosKeeps` | src/filesys/file.c:153-159 | Moving the position of a file keeps the invariant and the disk. |
| `FileSysMount.MapRoundTrip` | src/lib/kernel/bitmap.c:332-360 | The free map read from its file is the one written to it. |
| `FileSysMount.ReachIs` | src/lib/kernel/bitmap.c:355-360 | bitmap_write() writes all bytes of the map, or, without memory, those in whole sectors. |
| `FileSysMount.MapWrittenShows` | src/lib/kernel/bitmap.c:355-360 | For all outcomes: after a write of the map the bits in the bytes written are those in memory, the others are as they were on the disk, and it fails exactly if bytes are missing. |
| `FileSysMount.AllocateShows` | src/filesys/free-map.c:27-41 | For all outcomes: what free_map_allocate() returns, and the map that is then on the disk, also when it gives up because the write was cut short and takes the marks back in memory only. |
| `FileSysMount.ReleaseShows` | src/filesys/free-map.c:44-50 | For all outcomes: the map on the disk after free_map_release(), which does not look whether the write was cut short. |
| `FileSysMount.ShownReads` | src/filesys/free-map.c:53-61 | A mount reads the map that is on the disk. |
| `FileSysMount.MountedInv` | src/filesys/filesys.c:22-40 | A device whose inodes are apart and marked in its map satisfies the invariant when mounted. |
| `FileSysMount.FormatInv` | src/filesys/filesys.c:106-115 | A formatted device satisfies the invariant and its map on disk is that in memory. |
| `FileSysCalls.StepKeepsInv` | src/filesys/filesys.c:57-103 | For all outcomes of memory every call keeps the invariant and the contents of every file that lives on but the one it writes to. |
| `FileSysMap.StepShows` | src/filesys/free-map.c:27-50 | For all outcomes: which map is on the disk after every call, and that it still marks all that is marked in memory. |
| `FileSysMap.AllocatedExactly` | src/filesys/free-map.c:27-41 | free_map_allocate() leaves the two maps the same exactly if no mark is written before it has to give up. |
| `FileSysMap.ReleasedExactly` | src/filesys/free-map.c:44-50 | free_map_release() of one sector leaves the two maps the same exactly if the write gets as far as the sector. |
| `FileSysMap.FreedExactly` | src/filesys/inode.c:174-180 | Releasing a file leaves them the same exactly if one of the two writes gets as far as the inode and the second as far as the last sector of data. |
| `FileSysMap.CloseFileSyncs` | src/filesys/file.c:45-54 | The exact condition for file_close() to leave the two maps the same. |
| `FileSysMap.RemoveSyncs` | src/filesys/filesys.c:95-103 | The exact condition for filesys_remove(). |
| `FileSysMap.CreateSyncs` | src/filesys/filesys.c:57-71 | The exact condition for filesys_create(): it gets its sector or writes no mark in vain, and if it gives the sector back, that is written. |
| `FileSysMap.StepSyncs` | src/filesys/free-map.c:27-50 | If the map on the disk is the one in memory before a call, then it is so after it if and only if the call does not have such a write cut short. |
| `FileSysMap.LiveOnDisk` | src/filesys/free-map.c:53-61 | No sector of a live file is free in the map on the disk. |
| `FileSysMap.RemountInv` | src/filesys/free-map.c:53-61 | After the next mount the invariant holds, the map is the one on the disk, and all files with entries have their contents. |
| `FileSysTheorems.EveryRunKeepsInv` | src/filesys/filesys.c:22-103 | The invariant holds after every sequence of calls and mounts on a formatted device, whatever memory there is, and the map on the disk marks all that is marked in memory. |
| `FileSysTheorems.StepCovers` | src/filesys/free-map.c:27-50 | Every call keeps it so, and leaves the map that `FileSysMap.StepShows` says. |
| `FileSysTheorems.RemountCovers` | src/filesys/free-map.c:53-61 | So does a mount, which finds the map that is on the disk. |
| `FileSysTheorems.ReachableInv` | src/filesys/filesys.c:22-103 | It holds in every reachable state. |
| `FileSysTheorems.FilesAreDisjoint` | src/filesys/inode.c:72-186 | In every reachable state the inodes and extents of all files that are listed or open are disjoint, on the device, and marked in the free map. |
| `FileSysTheorems.EntriesAreApart` | src/filesys/directory.c:91-216 | In every reachable state entries in use have different inodes, never the system's. |
| `FileSysTheorems.OpenInodesAreExact` | src/filesys/inode.c:111-195 | In every reachable state an inode is in memory at most once, agrees with the disk, and its counts are the numbers of open files and of files denying writes; if removed it has no entry. |
| `FileSysTheorems.NoDanglingFile` | src/filesys/file.c:17-54 | In every reachable state every open file leads to an inode in memory. |
| `FileSysTheorems.OthersUntouched` | src/filesys/inode.c:257-318 | No call changes the bytes of a live file, unless it is a write to that very file. |
| `FileSysTheorems.ContentLasts` | src/filesys/inode.c:188-195 | Over every run a file keeps its bytes while it is live, be it only because somebody has it open after its removal, and nobody writes to it; also from one mount to the next. |
| `FileSysTheorems.WriteReplacesItsSlice` | src/filesys/file.c:94-100 | file_write() replaces exactly the slice at the position, nothing if somebody denies writing, and moves the position by as much. |
| `FileSysTheorems.ReleasedWithLastClose` | src/filesys/inode.c:163-186 | Closing a file releases exactly the sectors of its inode if that is removed and nobody else has it open, and otherwise none. |
| `FileSysTheorems.RemoveErases` | src/filesys/filesys.c:95-103 | After filesys_remove() the entry found is gone, the name is gone exactly if no other entry has it, and the file's sectors are free at once exactly if nobody had it open. |
| `FileSysTheorems.RootReferenceIsTemporary` | src/filesys/directory.c:54-77 | Opening and closing the root directory around a call leaves everything as it was. |
| `FileSysTheorems.NoAssertionFails` | src/filesys/free-map.c:44-50 | In no run do the assertions fail that released sectors are marked, that counts do not go wrong, and that writing is allowed again only by those who denied it. |
| `FileSysNames.StepDir` | src/filesys/filesys.c:57-103 | What every call does to the directory, for all outcomes: filesys_create() rewrites the record where its search ended, filesys_remove() erases the record found, and no other call changes anything. |
| `FileSysNames.StepNames` | src/filesys/directory.c:141-179 | Names that are distinct stay so exactly if filesys_create() does not enter one that another entry has and that lookup() could not read. |
| `FileSysNames.NamesAreDistinct` | src/filesys/directory.c:91-216 | Over every run, with any number of mounts, names are distinct all the time if and only if no call enters one in that way. |
| `FileSysNames.SlotInUse` | src/filesys/directory.c:159-169 | The search for a free record ends at one in use exactly if it is cut short before any free record. |
| `FileSysNames.EntriesLast` | src/filesys/directory.c:141-216 | For all outcomes, an entry goes away with a call exactly if the call removes it, or is a filesys_create() whose search for a free record was cut short at it. |
| `FileSysNames.EnoughMemory` | src/filesys/directory.c:141-179 | With memory to read every record neither happens. |
| `FileSysNames.FormattedDir` | src/filesys/filesys.c:106-115 | After formatting the directory has 16 records, none in use. |
| `FileSysRemount.MapSurvivesRemount` | src/filesys/free-map.c:53-68 | Whenever the system is shut down, and whatever memory there was: the next mount finds every sector marked that was marked, no sector of a live file is free, and it finds the same map if and only if the two maps were the same. |
| `FileSysRemount.MapsAreTheSame` | src/filesys/free-map.c:27-68 | Over every run the map on the disk is all the time the one in memory if and only if no call has a write of the map cut short that had a mark to write or to take back. |
| `FileSysRemount.MemoryIsEnough` | src/filesys/free-map.c:27-50 | A call with memory for its writes of the map is not one of those. |
| `FileSysRemount.RemountSyncs` | src/filesys/free-map.c:53-61 | A mount makes the two maps the same in any case. |
| `FileSysLeaks.CreateInodeUsed` | src/filesys/inode.c:72-106 | inode_create() marks exactly the extent it writes in the inode, or nothing. |
| `FileSysLeaks.DroppedLive` | src/filesys/inode.c:163-186 | Closing a file ends the life of an inode exactly if it has no entry and nobody else has it open. |
| `FileSysLeaks.CloseFileLeaks` | src/filesys/file.c:45-54 | file_close() loses sectors exactly if it is the last to close a file that has lost its entry without being removed, and then all of its sectors. |
| `FileSysLeaks.RemoveLeaks` | src/filesys/filesys.c:95-103 | filesys_remove() loses no sector, for all outcomes. |
| `FileSysLeaks.CreateLeaks` | src/filesys/filesys.c:57-71 | For all outcomes filesys_create() loses the data sectors of the new file exactly if it got as far as dir_add() and that failed, and the sectors of a file that is not open exactly if it wrote over its entry. |
| `FileSysLeaks.StepLeaks` | src/filesys/filesys.c:57-103 | No other call loses sectors, and what is lost never comes back. |
| `FileSysLeaks.FormattedLeaks` | src/filesys/free-map.c:72-85 | After formatting no sector is lost. |
| `FileSysLeaks.RemountLeaks` | src/filesys/free-map.c:53-61 | A mount loses exactly the sectors that are marked on the disk and not in memory, and those of files without an entry that were open. |
| `FileSysLeaks.SectorsAreConserved` | src/filesys/filesys.c:57-103 | Over every run, with any number of mounts and for all outcomes, a sector is marked if and only if a live file has it or one of those calls or mounts lost it, and never both. |
| `FileSysExamples.FirstCreate` | src/filesys/filesys.c:57-71 | A run: every device of 32 sectors, whatever is on it, is formatted and a first file made on it. |
| `FileSysExamples.SecondCreateLoses` | src/filesys/filesys.c:57-71 | After that run, making a file under the same name loses a sector. |
| `FileSysExamples.UnwrittenRelease` | src/filesys/free-map.c:44-50 | If, while that is done, the write of the map in free_map_release() finds no memory, the next mount does not find the map that was in memory. |
| `FileSysExamples.FailedWriteLoses` | src/filesys/directory.c:171-175 | So does making one under a new name when the record cannot be written. |
| `FileSysExamples.ShortLookupDoubles` | src/filesys/directory.c:91-112 | When the first record cannot be read in lookup(), a second entry under the same name is made. |
| `FileSysExamples.ShortSearchOverwrites` | src/filesys/directory.c:159-169 | When it cannot be read in the search for a free record, the entry of the first file is written over. |
| `FileSysClient.OpenGives` | src/filesys/filesys.c:78-89 | For all outcomes: if the name is found, filesys_open() gives a file exactly if there is memory for the directory, for the inode if that is not open, and for the file; then the handle is new, on the inode of the first entry in use under that name, at position 0, denying nothing, with the bytes of that file, and all other handles are as before. |
| `FileSysClient.OpenFindsNothing` | src/filesys/filesys.c:78-89 | If no entry under the name can be read, nothing is opened and nothing changes. |
| `FileSysClient.ReopenGives` | src/filesys/file.c:38-42 | file_reopen() gives a new handle on the inode of the old one, at position 0 and denying nothing, exactly if there is memory, and all other handles are as before. |
| `FileSysClient.CloseDrops` | src/filesys/file.c:45-54 | After file_close() the handle is gone, and all others are as before. |
| `FileSysClient.DenySets` | src/filesys/file.c:118-141 | file_deny_write() and file_allow_write() leave the flag of the file as asked, and nothing else of any handle. |
| `FileSysClient.SeekSets` | src/filesys/file.c:153-159 | file_seek() leaves the position as asked, and nothing else of any handle. |
| `FileSysClient.ReadMoves` | src/filesys/file.c:68-74 | file_read() moves its own position by what it transfers, and nothing else of any handle. |
| `FileSysClient.WriteMoves` | src/filesys/file.c:94-100 | file_write() moves its own position by what it transfers, which is nothing if somebody denies writing, and nothing else of any handle. |
| `FileSysClient.RemoveGives` | src/filesys/filesys.c:95-103 | For all outcomes: if the name is found, filesys_remove() succeeds exactly if there is memory for the directory, for the inode if that is not open, and to write the record; then all handles on the inode are on a removed one, and otherwise all handles are as before. |
| `FileSysClient.RemoveFindsNothing` | src/filesys/filesys.c:95-103 | If no entry under the name can be read, it fails and nothing changes. |
| `FileSysClient.InodeGives` | src/filesys/inode.c:72-106 | inode_create() succeeds exactly if there is memory for it, a run of free sectors, and memory to write the map in full. |
| `FileSysClient.CreateGives` | src/filesys/filesys.c:57-71 | For all outcomes filesys_create() succeeds exactly if there is memory, a free sector for the inode, then a run of free sectors for the data, the map can be written each time, and dir_add() does not fail; it touches no handle. |
| `FileSysClient.HandleStays` | src/filesys/file.c:17-159 | No call but its own file_close() takes a handle off its inode; only its own calls change its position and its flag, and only filesys_remove() makes its inode a removed one. |
| `FileSystem.FileSystem.WriteMap` | src/lib/kernel/bitmap.c:355-360 | In place: the map's file gets the bytes of the bitmap, as far as there is memory. |
| `FileSystem.FileSystem.Allocate` | src/filesys/free-map.c:27-41 | In place, does what `FileSys.Allocate` says, with the rollback. |
| `FileSystem.FileSystem.Release` | src/filesys/free-map.c:44-50 | In place, does what `FileSys.Release` says. |
| `FileSystem.FileSystem.CreateInode` | src/filesys/inode.c:72-106 | In place, does what `FileSys.CreateInode` says on every path. |
| `FileSystem.FileSystem.ZeroSectors` | src/filesys/inode.c:93-100 | The loop zeroes exactly the extent. |
| `FileSystem.FileSystem.OpenInode` | src/filesys/inode.c:111-142 | In place, shares an inode that is open and reads in one that is not, as `FileSys.OpenInode` says. |
| `FileSystem.FileSystem.CloseInode` | src/filesys/inode.c:163-186 | In place, does what `FileSys.CloseInode` says. |
| `FileSystem.FileSystem.ReopenInode` | src/filesys/inode.c:145-151 | In place, counts one more opener; a null pointer is given back. |
| `FileSystem.FileSystem.Deny` | src/filesys/file.c:118-141 | In place, does what `FileSys.Deny` says. |
| `FileSystem.FileSystem.Close` | src/filesys/file.c:45-54 | In place, does what `FileSys.Close` says and keeps the system valid. |
| `FileSystem.FileSystem.Write` | src/filesys/file.c:94-100 | In place, does what `FileSys.Write` says, moves the position by the result, and keeps the system valid. |
| `FileSystem.FileSystem.Read` | src/filesys/file.c:68-74 | The buffer receives the bytes of the file at its position, the position moves by the result, and the system stays valid. |
| `FileSystem.FileSystem.Seek` | src/filesys/file.c:153-159 | In place, does what `FileSys.Seek` says and keeps the system valid. |
| `FileSystem.FileSystem.NewFile` | src/filesys/file.c:17-34 | In place, opens a file on a reference or gives the reference up. |
| `FileSystem.FileSystem.FindName` | src/filesys/directory.c:91-112 | The name is sought in the directory on the device as far as its records can be read. |
| `FileSystem.FileSystem.Open` | src/filesys/filesys.c:78-89 | In place, does what `FileSys.Open` says for all outcomes, which `FileSysClient.OpenGives` tells, and keeps the system valid. |
| `FileSystem.FileSystem.Reopen` | src/filesys/file.c:38-42 | In place, does what `FileSys.Reopen` says and keeps the system valid. |
| `FileSystem.FileSystem.SetDeny` | src/filesys/file.c:118-141 | The same for a client's file, and the system stays valid. |
| `FileSystem.FileSystem.EraseEntry` | src/filesys/directory.c:204-216 | In place, erases the entry, marks the inode removed and gives up the reference; without memory to write the record it only gives up the reference. |
| `FileSystem.FileSystem.Remove` | src/filesys/filesys.c:95-103 | In place, does what `FileSys.Remove` says for all outcomes and keeps the system valid. |
| `FileSystem.FileSystem.AddName` | src/filesys/directory.c:141-179 | In place, writes the record or nothing, for all outcomes. |
| `FileSystem.FileSystem.Create` | src/filesys/filesys.c:57-71 | In place, does what `FileSys.Create` says for all outcomes and keeps the system valid. |
| `Hash.TurnedOff` | src/lib/kernel/hash.c:328-333 | Turning off the least 1-bit keeps the greatest power of two, and leaves a smaller number unless there is no other bit. |
| `Hash.MaskIsRemainder` | src/lib/kernel/hash.c:305-310 | Masking with a power of two minus one is the remainder. |
| `Hash.IdealBuckets` | src/lib/kernel/hash.c:364-372 | The number of buckets is a power of two, at least 4, and more than a quarter of the number of elements. |
| `Hash.Table.constructor` | src/lib/kernel/hash.c:24-42 | The table is empty and valid. |
| `Hash.Make` | src/lib/kernel/hash.c:24-42 | An empty valid table, or a null pointer exactly if there is no memory for the buckets. |
| `Hash.Table.FindElem` | src/lib/kernel/hash.c:314-326 | An equal element is found in a bucket exactly if there is one. |
| `Hash.Table.Find` | src/lib/kernel/hash.c:131-135 | An equal element is found exactly if the table has one. |
| `Hash.Table.MoveBucket` | src/lib/kernel/hash.c:394-409 | The elements of an old bucket go to the front of their new ones, one after the other; every element is in its place and none is lost. |
| `Hash.Table.MoveAll` | src/lib/kernel/hash.c:394-410 | So do those of all buckets, in order. |
| `Hash.Table.Rehash` | src/lib/kernel/hash.c:351-413 | The elements are the same, with or without memory for new buckets, and with memory the number of buckets is ideal; the buckets are the old ones, or new ones filled in that order. |
| `Hash.Table.InsertElem` | src/lib/kernel/hash.c:416-421 | One element is added. |
| `Hash.Table.RemoveElem` | src/lib/kernel/hash.c:424-429 | One element is removed. |
| `Hash.Table.Insert` | src/lib/kernel/hash.c:98-110 | The set gets the element unless it has an equal one, which is returned; the table stays valid, and roomy if there is memory. |
| `Hash.Table.Replace` | src/lib/kernel/hash.c:114-127 | The element replaces an equal one, which is returned. |
| `Hash.Table.Delete` | src/lib/kernel/hash.c:144-154 | An equal element is removed and returned, exactly if there is one. |
| `Hash.OneMore` | src/lib/kernel/hash.c:98-110 | Elements stay pairwise different when one is added that is equal to none. |
| `Hash.OneLess` | src/lib/kernel/hash.c:144-154 | After removal no equal element is left. |
| `Hash.HashIterator.constructor` | src/lib/kernel/hash.c:199-208 | All elements remain to be visited. |
| `Hash.HashIterator.Next` | src/lib/kernel/hash.c:218-235 | The next one remaining is returned, across empty buckets, or none at the end. |
| `Hash.Visit` | src/lib/kernel/hash.c:182-235 | Iterating gives every element exactly once. |
| `Hash.FlatHasAll` | src/lib/kernel/hash.c:182-235 | The buckets one after the other have exactly the elements of the table. |
| `HashLinks.Transfer` | src/lib/kernel/hash.c:402-408 | In the heap: the first element of one list is unlinked and linked to the front of another, and both are well linked. |
| `HashLinks.MoveFirst` | src/lib/kernel/hash.c:402-408 | In the heap: among any number of lists without common elements only those two change, and all stay well linked and apart. |
| `HashLinks.RelinkOne` | src/lib/kernel/hash.c:400-409 | One turn of the inner loop puts the next element into the bucket that the mask says. |
| `HashLinks.Relink` | src/lib/kernel/hash.c:397-409 | The inner loop ends with the old bucket empty and its elements in the new ones as `Hash.Moves` says. |
| `HashLinks.RelinkAll` | src/lib/kernel/hash.c:394-410 | Both loops on linked lists: the new lists hold what `Hash.MovesAll` says, which is what `Hash.Table.Rehash` has; every element is in its place, none is lost, the old lists are empty, and all are well linked. |
| `HashLinks.MovesAllPlace` | src/lib/kernel/hash.c:394-410 | Filled in that order the buckets have all elements, each in its place. |
| `Malloc.WithinArena` | src/threads/malloc.c:285-294 | A block in use lies within the pages of its arena, after the header, and is as big as was asked for. |
| `Malloc.BlocksAreDisjoint` | src/threads/malloc.c:89-154 | Blocks in use have no byte in common. |
| `Malloc.HeadersAreApart` | src/threads/malloc.c:267-294 | No arena header has a byte in common with a block in use. |
| `Malloc.FreeBlocksAreApart` | src/threads/malloc.c:137-153 | No free block, where the list links are, has a byte in common with one in use. |
| `Malloc.AddressRoundTrip` | src/threads/malloc.c:267-294 | From the address of a block its arena and index can be computed, and the assertions of block_to_arena() hold. |
| `Malloc.DescFor` | src/threads/malloc.c:100-104 | The descriptor found is the smallest that satisfies the request; none exactly if all are too small. |
| `Malloc.GrantedAll` | src/threads/malloc.c:105-120 | A block has all the bytes asked for if and only if the size is below 2^32 - 11; from there on the number of pages wraps around to 1. |
| `Malloc.MallocKeeps` | src/threads/malloc.c:89-154 | For every 32-bit size malloc() keeps the invariant (disjoint arenas, exact free counts, every free block listed once, no arena entirely free) and gives a block that was not in use, with as many bytes as it grants, or changes nothing. |
| `Malloc.MallocGives` | src/threads/malloc.c:89-154 | malloc() succeeds exactly if the size is not 0 and there is a free block of the smallest kind that is big enough, or a free page to make some of, or, if no kind is, enough free pages in a row; and the block is of that kind. |
| `Malloc.FreedIsAvailable` | src/threads/malloc.c:218-264 | After free() of a block malloc() for a size of the same kind succeeds. |
| `Malloc.ArenaInUse` | src/threads/malloc.c:241-262 | Every arena has a block in use: pages that are needed no more are given back. |
| `Malloc.MallocElsewhere` | src/threads/malloc.c:89-154 | malloc() takes pages for arenas only, and exactly those of the arenas that come. |
| `Malloc.FreeElsewhere` | src/threads/malloc.c:218-264 | free() gives back exactly the pages of the arenas that go. |
| `Malloc.FreeKeeps` | src/threads/malloc.c:218-264 | free() keeps the invariant and takes the block out of use. |
| `Malloc.AddArenaKeeps` | src/threads/malloc.c:124-146 | A new arena adds exactly its blocks to the free list. |
| `Malloc.PopKeeps` | src/threads/malloc.c:148-153 | Taking the first free block decrements its arena's count and keeps all others exact. |
| `Malloc.PushKeeps` | src/threads/malloc.c:238-242 | Putting a block back keeps the counts exact, and at most its own arena is entirely free. |
| `Malloc.AllFree` | src/threads/malloc.c:241-252 | When the free count of an arena is the number of its blocks, every one of them is on the free list. |
| `Malloc.DropArenaKeeps` | src/threads/malloc.c:241-253 | Dropping such an arena removes exactly its blocks from the list, returns its page and keeps the invariant. |
| `Malloc.TakeBigKeeps` | src/threads/malloc.c:105-120 | A big block takes pages that were free. |
| `Malloc.DropBigKeeps` | src/threads/malloc.c:257-262 | Freeing a big block returns all its pages. |
| `Allocator.Allocator.constructor` | src/threads/malloc.c:71-85 | At the start nothing is in use and the invariant holds. |
| `Allocator.Allocator.FindDesc` | src/threads/malloc.c:100-104 | The loop finds the descriptor that `Malloc.DescFor` says. |
| `Allocator.Allocator.GetPages` | src/threads/palloc.c:70-101 | The first run of free pages is found and marked; for 0 pages there is none. |
| `Allocator.Allocator.FreePages` | src/threads/palloc.c:117-142 | Pages that are in use, as the assertion demands, are marked as free, exactly those, and memory changes only there. |
| `Allocator.Allocator.MakeArena` | src/threads/malloc.c:137-145 | The loop adds all blocks of the page to the free list. |
| `Allocator.Allocator.Malloc` | src/threads/malloc.c:89-154 | A block is returned exactly if the size is not 0 and there is one to be had, as in `Malloc.MallocGives`; it is not one in use, and all blocks in use keep their contents. |
| `Allocator.Allocator.RemoveArena` | src/threads/malloc.c:247-251 | The loop takes exactly the arena's blocks off the free list. |
| `Allocator.Allocator.PutBack` | src/threads/malloc.c:227-242 | The block is put back, and the others keep their contents. |
| `Allocator.Allocator.GiveUpArena` | src/threads/malloc.c:241-253 | The arena's blocks leave the list and its page is returned; the blocks in use keep their contents. |
| `Allocator.Allocator.Free` | src/threads/malloc.c:218-264 | The block is not in use any more, and the others keep their contents; nothing happens for null. |
| `Allocator.Allocator.CopyBlock` | src/threads/malloc.c:205-211 | The copy changes only the new block. |
| `Allocator.Allocator.MoveBlock` | src/threads/malloc.c:203-213 | The old contents, as much as asked for, are in the new block, and the old one is freed. |
| `Allocator.Allocator.Relocate` | src/threads/malloc.c:203-213 | The copy runs over the end of the new block exactly if its size has wrapped around and the old block is larger; otherwise the old contents up to the smaller size are in the new one. |
| `Allocator.Allocator.Realloc` | src/threads/malloc.c:194-214 | For every 32-bit size other than 0 there is a new block exactly if there is one to be had; the copy overruns it exactly in that case; otherwise the new block has the old contents up to the smaller size and the old one is freed; on failure the old one stays; all others keep their contents. |
| `Allocator.MallocRanges` | src/threads/malloc.c:89-154 | malloc() does not move blocks that are in use. |
| `Ustar.FormatOctal` | src/lib/stdio.c:469-547 | The conversion `%0No` gives the number in octal, in N digits if it fits, and otherwise in as many as it needs and no more. |
| `Ustar.PaddedIsOctal` | src/lib/stdio.c:500-540 | Padding the digits with zeros to the width gives the fixed-width number. |
| `Ustar.ParsesExactly` | src/lib/ustar.c:129-162 | A number is read exactly from a nonempty run of octal digits whose value fits, followed by a space or a null byte, and it is that value. |
| `Ustar.ParseOctalField` | src/lib/ustar.c:129-162 | The loop reads exactly that. |
| `Ustar.OctalRoundTrip` | src/lib/ustar.c:129-162 | A number printed in octal with a null byte is read back, for every width and number that fits. |
| `Ustar.StripPrefixes` | src/lib/ustar.c:65-73 | The loop removes what the specification says. |
| `Ustar.StrippedIsSafe` | src/lib/ustar.c:57-73 | A stripped name is not empty, does not begin with a slash or dot-dot, and is not stripped any further. |
| `Ustar.StripTakes` | src/lib/ustar.c:57-73 | Nothing but slashes, and one or two dots before a slash, is taken from the beginning of a name, as often as there are any; an empty rest, or dot-dot, becomes a dot. |
| `Ustar.CalculateChksum` | src/lib/ustar.c:36-54 | The sum is over all bytes, with blanks for the checksum field. |
| `Ustar.ChksumIs` | src/lib/ustar.c:36-54 | It is the sum of all bytes before and after the field, and of eight spaces. |
| `Ustar.ChksumChanged` | src/lib/ustar.c:36-54 | Changing one byte outside the field changes the sum by as much. |
| `Ustar.FillHeader` | src/lib/ustar.c:99-112 | All fields but the checksum are as specified. |
| `Ustar.MakeHeader` | src/lib/ustar.c:82-118 | It fails exactly if the stripped name is longer than 99 bytes, and then changes nothing; otherwise the header is as specified. |
| `Ustar.IsAllZeros` | src/lib/ustar.c:166-173 | The answer is whether all bytes are zero. |
| `Ustar.ParseHeader` | src/lib/ustar.c:181-227 | The result is as specified for every 512 bytes, error by error. |
| `Ustar.HeaderFields` | src/lib/ustar.c:82-118 | A composed header has the magic, the version, the type, the size and the checksum where the parser looks. |
| `Ustar.HeaderNumbers` | src/lib/ustar.c:99-116 | In a composed header a reader finds, as octal numbers in their fields: the mode 0644 or 0755, the ids 0 and 0, the size, the time 1136102400, and the sum of its bytes. |
| `Ustar.HeaderTexts` | src/lib/ustar.c:97-112 | And as texts: the name, the type, "ustar" and "00", "root" for user and group, and null bytes everywhere else. |
| `Ustar.ParsedExactly` | src/lib/ustar.c:181-227 | A header is accepted for a file if and only if it is not all zeros and has the magic, the version, the sum of its own bytes, a name that ends in its field, no prefix, and the type and size of that file. |
| `Ustar.HeaderRoundTrip` | src/lib/ustar.c:82-227 | Parsing a composed header gives the stripped name, the type, and the size unless it is a directory; a negative size is refused as too large. |
| `Ustar.DamageIsDetected` | src/lib/ustar.c:181-227 | If any header can be parsed, then it cannot once a single byte outside the checksum field is different. |
| `Argv.TokensAreTokens` | src/userprog/process.c:50-66 | Tokens are not empty and have no blanks. |
| `Argv.TokensOfSpread` | src/lib/string.c:201-275 | Words separated by any numbers of blanks, with blanks before and after, are exactly the tokens. |
| `Argv.SpreadOfTokens` | src/lib/string.c:201-275 | Every line is its tokens with blanks around them: nothing but blanks is dropped. |
| `Argv.StrTok` | src/lib/string.c:234-275 | The next token is found and cut off with a null byte, and nothing before it changes; none exactly if only blanks are left. |
| `Argv.MoveDown` | src/lib/string.c:325-343 | The string is copied to its place before, overlap or not. |
| `Argv.TakeToken` | src/userprog/process.c:53-62 | One turn of the loop packs one more token and leaves the rest of the line alone. |
| `Argv.Tokenise` | src/userprog/process.c:41-67 | The page has exactly the tokens of the line's first 4095 bytes, each with a null byte, and zeros. |
| `ArgvStack.ArgsLength` | src/userprog/process.c:625-638 | The loop finds the first two null bytes in a row. |
| `ArgvStack.LengthIsAll` | src/userprog/process.c:625-638 | For at least one token that is where the tokens end. |
| `ArgvStack.PutStrings` | src/userprog/process.c:646-659 | The strings are at the top of the stack page, with zeros for alignment below, exactly if there is room. |
| `ArgvStack.Boundary` | src/userprog/process.c:669-678 | Going down, a null byte is met exactly where a token begins above it. |
| `ArgvStack.OnePointer` | src/userprog/process.c:669-678 | One turn writes the pointer to the token found and leaves all others, or leaves the page. |
| `ArgvStack.PutPointers` | src/userprog/process.c:661-678 | All pointers are there in order, and they are counted, exactly if they are all in the page. |
| `ArgvStack.PutArgv` | src/userprog/process.c:661-684 | argv and argc go below the pointers; every write stays in the page exactly if the lowest does. |
| `ArgvStack.SetupStack` | src/userprog/process.c:602-687 | The tokens are refused exactly if they take more than the limit, and then nothing is written; else the writes leave the page exactly if the lowest place is below it; else the stack decodes, from the esp returned, to argc and argv with each argv[i] pointing at a copy of token i. |
| `ArgvStack.Arguments` | src/userprog/process.c:35-81 | For every command line with a token main() gets the words of the line, or they are refused, or the stack page is left, each under its exact condition. |
| `ArgvStack.ShortWordsLeave` | src/userprog/process.c:640-687 | A line of words of one letter, within the limit, leaves the stack page exactly if there are 681 words or more. |
| `PteWords.PageNumber` | src/threads/pte.h:31-39 | The two indices make up the page number. |
| `PteWords.PdeDecodes` | src/threads/pte.h:70-81 | A directory entry is the address of its table plus 7: present, for the user, and writable; and it gives back the address. |
| `PteWords.PteDecodes` | src/threads/pte.h:86-104 | A page table entry is the address of the frame plus 7, or 5 if not writable, and gives back the frame and the flags it was made from. |
| `PteWords.Cleared` | src/userprog/pagedir.c:143-157 | Clearing the present bit changes nothing else of an entry. |
| `PteWords.Dirtied` | src/userprog/pagedir.c:172-186 | Setting or clearing the dirty bit changes nothing else. |
| `PteWords.Accessed` | src/userprog/pagedir.c:201-215 | Setting or clearing the accessed bit changes nothing else. |
| `PteWords.DecodedWrite` | src/threads/pte.h:86-104 | Writing one word of a table changes one decoded entry. |
| `PageDir.NewTable` | src/userprog/pagedir.c:66-82 | A new table changes no mapping. |
| `PageDir.OneEntry` | src/userprog/pagedir.c:98-119 | Writing an entry changes one mapping, because no two directory entries share a table. |
| `PageDir.TableMade` | src/userprog/pagedir.c:66-82 | In words: pde_create() of a zeroed page changes no mapping. |
| `PageDir.WordWritten` | src/userprog/pagedir.c:98-215 | In words: writing one word of a table changes one mapping, and keeps frames unshared if it leads nowhere, where it led, or to a free frame. |
| `PageDir.Translates` | src/userprog/pagedir.c:56-119 | In the user's half the walk of the processor through both levels of words, which takes an access only where both permit it, leads where the flat map says, for reading and for writing. |
| `PageDir.PageDir.constructor` | src/userprog/pagedir.c:16-23 | The words are those of the kernel, no user page is mapped, and nothing is shared. |
| `PageDir.Make` | src/userprog/pagedir.c:16-23 | A directory as the constructor makes it, or a null pointer exactly if there is no page for it. |
| `PageDir.PageDir.AddTable` | src/userprog/pagedir.c:66-82 | One directory word changes, to a present, user and writable one that leads to the table, no mapping does, and nothing becomes shared if the page was spare. |
| `PageDir.PageDir.LookupPage` | src/userprog/pagedir.c:56-86 | The entry is found, for any address, or a table is made if asked for and there is memory, without any change to the mappings or to the directory words of the kernel. |
| `PageDir.PageDir.WriteWord` | src/userprog/pagedir.c:98-215 | The mapping of one page is what the word decodes to, and all others are unchanged. |
| `PageDir.PageDir.SetPage` | src/userprog/pagedir.c:98-119 | Accesses by the process to the page go to the frame, writes exactly if it is writable, and all others go where they went; the word made by pte_create_user() maps the page to the frame, no other mapping and no directory word of the kernel changes; it fails exactly without memory for a table; nothing becomes shared if frame and table are spare pages. |
| `PageDir.PageDir.GetPage` | src/userprog/pagedir.c:125-137 | The physical address of a present page, with the offset, and none otherwise. |
| `PageDir.PageDir.ClearPage` | src/userprog/pagedir.c:143-157 | Accesses to the page fault, all others go where they went; everything else of its entry and all other mappings are as before. |
| `PageDir.PageDir.SetDirty` | src/userprog/pagedir.c:172-186 | One flag of one mapping changes, for any address; nothing without a table. |
| `PageDir.PageDir.SetAccessed` | src/userprog/pagedir.c:201-215 | One flag of one mapping changes, for any address; nothing without a table. |
| `PageDir.PageDir.IsDirty` | src/userprog/pagedir.c:163-168 | The flag is as in the mapping, and false without a table. |
| `PageDir.PageDir.IsAccessed` | src/userprog/pagedir.c:192-197 | The flag is as in the mapping, and false without a table. |
| `PageDir.PageDir.Destroy` | src/userprog/pagedir.c:27-48 | Every page is freed as often as present entries lead to it, it is a table, or it is the directory; and no page is freed twice if and only if nothing is shared. |
| `PageDir.Unmake` | src/userprog/pagedir.c:27-48 | The same, and nothing for a null directory. |
| `PageDir.FreedOnceExactly` | src/userprog/pagedir.c:27-48 | No page is freed twice if and only if no frame is mapped at two user pages, none is a table, and the page of the directory is neither. |
| `PageDir.OwnedIs` | src/userprog/pagedir.c:27-48 | A page is freed if and only if a directory entry leads to it as a table, or an entry of such a table does. |
| `PageDir.MappedTwice` | src/userprog/pagedir.c:27-48 | A frame mapped at two pages is freed twice. |
| `PageDir.SetTwice` | src/userprog/pagedir.c:98-119 | pagedir_set_page() lets one frame be set at two different user pages. |
| `PageDir.FreesTwice` | src/userprog/pagedir.c:27-48 | Of a directory with one frame at two user pages, the frame is freed twice. |
| `Elf.ValidIsUser` | src/userprog/process.c:505-546 | The checks, with their 32-bit additions, are passed exactly by a segment that has bytes, not more of the file than of memory, begins in the file and at the same place in its page, and lies in user space above the first page. |
| `Elf.SptTable.Create` | src/vm/page.c:22-46 | By way of hash_insert(), the table gets the entry unless there is one for the page, with or without memory to grow. |
| `Elf.SptTable.Find` | src/vm/page.c:106-118 | By way of hash_find(), the entry of the page is found exactly if there is one. |
| `Elf.SptTable.LoadSegment` | src/userprog/process.c:562-598 | The loop makes the entries of the segment's pages, with the right numbers of bytes and with offsets that are signed 32-bit numbers, and keeps those there were. |
| `Elf.SptTable.Load` | src/userprog/process.c:424-460 | A header is accepted exactly if valid, and then all its pages have entries. |
| `Elf.SptTable.LoadAll` | src/userprog/process.c:400-460 | Loading succeeds exactly if every header is acceptable, and then every page is filled for the first segment with bytes in it. |
| `Elf.FillPage` | src/userprog/exception.c:210-220 | The assertion in file_seek() fails exactly if the offset is negative; otherwise the page gets the bytes of the file, as far as file_read() gets them with or without a bounce buffer, and zeros from where they should end, and in between it keeps what it had. |
| `Elf.PagesOfSegment` | src/userprog/process.c:424-460 | The entries made are for exactly the pages the segment touches. |
| `Elf.ImageInMemory` | src/userprog/process.c:400-460 | After loading, the page of every byte of every segment has the entry of the first segment in that page, and the byte is as its header says, for every file and whatever was in the frames, if and only if the page is not the stack page, the offset of the entry is not negative, and the entry has the byte right. |
| `Elf.SharedPage` | src/userprog/process.c:400-460 | Where another segment is first it need not be: two valid segments in one page, the second of which gets a zero instead of its byte. |
| `Elf.RightExactly` | src/userprog/exception.c:210-220 | A byte of a segment is right in a page with an entry, for every file and whatever was in the frames, if and only if the page is not the stack page, the offset is not negative, and the entry reads the right byte there and gets as far, or is past what it reads and the byte is to be zero. |
| `Elf.OwnPage` | src/userprog/process.c:400-460 | In a page with the entry of the segment itself that is not the stack page, for files below 2 GB: a byte of the file is right exactly if the read gets so far, which with memory it does for all of the file, and a zero exactly if the offset of the page, modulo 2^32, is below 2^31. |
| `Elf.BigSegment` | src/userprog/process.c:562-598 | A valid segment of more than 2 GB for which the fault in one page of zeros cannot be handled, because the offset is negative there. |
| `Elf.StackSegment` | src/userprog/process.c:602-620 | A valid segment in the page of the stack, which does not get its byte. |
| `Elf.SharedWell` | src/userprog/process.c:400-460 | And it may be: two valid segments in one page that are both right. |

## Left out

- Kernel: thread.c and synch.c are a transition system on values, because sema_down() gives up the processor in the middle of its loop; a run begins after thread_start().
- Kernel: the 32-bit wrap-around of a semaphore's value, priorities (not implemented in the source), time slices (a yield may come at any time instead), thread names and stacks.
- Kernel: process_wait(), exit and exec handshakes, system calls, and the timer's sleep.
- KernelTheorems.NoAssertionFails: that the caller of lock_acquire(), lock_try_acquire(), lock_release(), cond_wait(), cond_signal() or cond_broadcast() holds the lock, or does not, is what callers observe at the call (`Kernel.Enabled`; cond_broadcast() demands it only if somebody waits); the assertions made later in the same call are proved.
- LinkedList: maximum, minimum, list_unique() and list_insert_ordered(), which would only add easy members.
- LinkedList.Splice: the three theorems about lists exclude a range that contains the element it is to be put before, of which no list results.
- Arithmetic: the division instruction itself, which is a function with the condition under which it does not trap.
- Heapsort.Swap: elements are exchanged as values, not byte by byte.
- Bitmap: bitmap_flip(), bitmap_count() and the derived tests; bits beyond the last one in the last word.
- Bitmap.Bitmap.constructor: a bitmap in memory that there is; that there may be none is in `Bitmap.Make`.
- InodeIO: byte_to_sector() has no member of its own; negative offsets, which file_seek() asserts not to get (`Elf.FillPage` has the outcome in which it does).
- FileSystem: theorems over runs are about the states as values; each method is proved to lead from one such state to the next.
- FileSystem: the root directory's own inode, which every call opens and closes again (`FileSysTheorems.RootReferenceIsTemporary`).
- Directory: dir_readdir(), subdirectories (not implemented in the source).
- Hash: elements are values; hash_apply(), hash_clear(), hash_destroy(), and the hash functions on bytes.
- Hash.Table.constructor: a table with memory for its buckets; that there may be none is in `Hash.Make`.
- Hash.Table.MoveBucket: buckets are sequences; the loop on linked lists is `HashLinks.Relink`.
- Hash.Table.MoveAll: buckets are sequences; the loop on linked lists is `HashLinks.RelinkAll`.
- Hash.Table.Rehash: buckets are sequences; `HashLinks.RelinkAll` leaves the same in linked lists.
- Hash.Table.InsertElem: buckets are sequences; list_push_front() is `LinkedList.List.PushFront`.
- Hash.Table.RemoveElem: buckets are sequences; list_remove() is `LinkedList.List.Remove`.
- Malloc: headers and list links are kept as values, not as bytes, with the proof that their places are apart from the blocks in use; locks, and calloc().
- Allocator.Allocator.GetPages: one pool; zeroing and panicking are left out.
- Allocator.Allocator.FreePages: one pool, so that page_from_pool() has nothing to decide.
- Allocator.Allocator.Relocate: what a copy that overruns the new block does to the memory behind it is left out; the model stops there.
- Allocator.Allocator.Realloc: the same.
- Allocator.Allocator.MakeArena: the free list is a value; that its links lie in free blocks, apart from those in use, is `Malloc.FreeBlocksAreApart`.
- Allocator.Allocator.RemoveArena: the same.
- Allocator.Allocator.PutBack: the same.
- Ustar.FormatOctal: other conversions of printf() are left out.
- ArgvStack.SetupStack: asks for at least one token, since load() cannot open a file without a name; what happens in the page below the stack page is left out, as is the null slot at the end of argv, which the source skips and does not write.
- ArgvStack.Arguments: asks for the same.
- PageDir.PageDir.SetPage: invalidating the TLB is left out.
- PageDir.PageDir.GetPage: the address is physical, without the offset at which the kernel maps physical memory.
- PageDir.PageDir.Destroy: gives the pages in the order in which they are freed; palloc_free_page() itself is in `Allocator`.
- Elf.SptTable.Create: calloc() for an entry without memory, after which the source writes through a null pointer.
- Elf.SptTable.LoadAll: reading and checking the ELF header, and headers that lie outside the file.
- Elf.SptTable.LoadSegment: a sum of offsets that leaves the range of a signed 32-bit number is taken to wrap around.
- Elf.FillPage: swap, eviction, growth of the stack, and pages that are in memory already, except the stack page.
- Elf.OwnPage: asks for a file below 2 GB, which is what a length of type off_t can say.
- Devices, the partition scan, interrupts below the level of steps, the console, and the loader.
