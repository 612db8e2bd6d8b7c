# Verified models of the Pintos kernel

Pintos is a small teaching kernel. This project models, in Dafny, the parts of it where a fast or
stateful mechanism has to agree with something much simpler, and proves that it does: 64-bit
division against the floor of a quotient, an in-place merge sort on linked nodes against stable
sorting, hash buckets against a map, packed words against a sequence of bits, sector-wise file
transfers against an array of bytes, two-level page tables against a partial map, and the
scheduler, the locks, the allocators and the file system against invariants that every run keeps.

`dafny verify dfyconfig.toml` checks everything.

| file | models |
|---|---|
| `Arithmetic.dfy` | 64-bit division from the 32-bit divide instruction (`lib/arithmetic.c`) |
| `MergeSort.dfy`, `KernelList.dfy` | natural merge sort, on values and on linked nodes (`lib/kernel/list.c`) |
| `HashTable.dfy` | hash tables with rehashing and iteration (`lib/kernel/hash.c`) |
| `Bits.dfy`, `Bitmap.dfy` | bitwise operations; word-packed bitmaps with first-fit scan (`lib/kernel/bitmap.c`) |
| `Threads.dfy`, `Kernel.dfy` | scheduler and semaphores, as a step relation and as code (`threads/thread.c`, `threads/synch.c`) |
| `Monitors.dfy` | locks and condition variables (`threads/synch.c`) |
| `Arenas.dfy`, `Malloc.dfy`, `Allocator.dfy` | block allocator over pages, as a state, as runs and as code (`threads/malloc.c`, `threads/palloc.c`) |
| `Pte.dfy`, `PageDir.dfy` | page table entries and two-level page tables (`threads/pte.h`, `userprog/pagedir.c`) |
| `ElfLoad.dfy` | loading of PT_LOAD segments (`userprog/process.c`) |
| `ClockEviction.dfy`, `Swap.dfy` | choice of a victim frame; swap slots (`vm/frame.c`, `vm/swap.c`) |
| `InodeIO.dfy` | transfers to and from files (`filesys/inode.c`) |
| `Ownership.dfy`, `FileSystem.dfy` | who owns which sector, over create, open, remove and close (`filesys/`) |
| `Directory.dfy` | directories (`filesys/directory.c`) |
| `Format.dfy`, `Atoi.dfy` | integer conversions of printf, and `atoi` (`lib/stdio.c`, `lib/stdlib.c`) |
| `Ustar.dfy` | archive headers (`lib/ustar.c`) |
| `Common.dfy`, `Nonlinear.dfy` | shared definitions; facts about products, quotients and powers of two |

Memory exhaustion, failed writes and similar outcomes that the code does not decide itself are
parameters: truth values (`memory`, `written`, ...) and, where a loop reads a directory slot by slot
through a buffer that has to be allocated each time, the number of reads that succeed. The theorems
hold for every combination of them. Sections that run with interrupts off are single steps. Assertions in the source are
preconditions or, where the model calls the code itself, proved.

What an operation answers, and when, is stated apart from how it is computed: lemmas whose names end
in `Exact`, and laws over runs that count events, say what each step, request or call amounts to.

## Where the code does not do what one would expect

Each of these is proved as it is, with the exact condition under which the code does meet the
expectation.

* `umod64` and `smod64` return 32 bits: the remainder is right if and only if it fits
  (`Arithmetic.Umod64`, `Arithmetic.Smod64`), and for a given divisor all remainders are right if and
  only if it is at most 2^32, or at most 2^31 in magnitude (`Arithmetic.UmodDivisor`,
  `Arithmetic.SmodDivisor`; inputs that fail: `Arithmetic.Umod64Truncates`,
  `Arithmetic.Smod64Truncates`). `sdiv64` is right for every pair but the least integer divided by -1
  (`Arithmetic.Sdiv64`).
* The comment in `dir_add` says that a short read of a directory only occurs at its end. Each read
  allocates a buffer, and one that cannot be had makes a read of nothing (`Directory.EntryTransfer`).
  Then a name that exists can be added again, or the slot of another file be written over, and a
  listing can end early (`Directory.AddDuplicates`, `Directory.AddOverwrites`,
  `Directory.SweepMisses`). `Directory.AddExact` and `Directory.SweepComplete` say exactly when this
  does not happen, and `FileSystem.CreateAdds` and `FileSystem.CloseReleases` which sectors are lost
  when it does. Without it the slots are a map with bounded room over every run
  (`Directory.RunRefines`, `Directory.RunIsMap`). No run gives two files the same sector in either
  case (`FileSystem.RunKeeps`).
* A field width given by `*` that is negative, together with the `0` flag, pads on both sides, so
  that more characters are printed than the field has (`Format.FieldWidth`, `Format.FieldWidthFails`).
* `malloc` of one of the eleven largest sizes wraps around to one page and returns a block that is
  too small (`Malloc.BigRequest`, `Malloc.BigRequestFails`). `realloc` to such a size copies beyond
  the new block if and only if the old block has more than 4084 bytes (`Malloc.CopyExact`), and can
  write over the header that it needs next (`Malloc.ResizeOverruns`). Over every run without such a
  copy the heap is sound, and a live block is big enough if and only if its size was not one of the
  eleven (`Malloc.RunSafe`).
* `inode_read_at` and `inode_write_at` do not reject a negative offset. A round stays inside the file
  if and only if the offset is not negative (`InodeIO.OffsetExact`, `InodeIO.BeforeFile`).
* When `filesys_create` fails only because the name cannot be added, the data sectors stay marked
  though no file owns them (`FileSystem.CreateFails` says exactly which, `FileSystem.CreateLoses` gives
  an input), and no run gets them back (`FileSystem.LostForGood`).
* `ustar_make_header` accepts a negative size for a regular file, and `ustar_parse_header` then
  reports that the file is too large (`Ustar.RoundTrip`, `Ustar.NegativeSize`).
* The comment on `bitmap_scan_and_flip` says that 0 is returned for a group of no bits; the code
  returns the starting index (`Bitmap.FirstFitOfNone`, `Bitmap.ScanNothing`). The comment on
  `inode_write_at` speaks of sectors that are written without being read first; the branch that
  would start from zeros is never taken (`InodeIO.Device.WriteAt`).

## Model

| member | source | states |
|---|---|---|
| `Arithmetic.Nlz` | src/lib/arithmetic.c:41-73 | the result is the shift, at most 31, that brings the leading one of a nonzero word to bit 31 without losing a bit |
| `Arithmetic.Normalise` | src/lib/arithmetic.c:46-71 | one conditional shift keeps every bit of the word and adds its count to the result so far |
| `Arithmetic.NlzUnique` | src/lib/arithmetic.c:41-73 | only one shift normalises a word, so the contract of `nlz` determines its result |
| `Arithmetic.Divl` | src/lib/arithmetic.c:21-37 | the divide instruction gives the quotient, and may be used only where that fits in 32 bits |
| `Arithmetic.NarrowDivision` | src/lib/arithmetic.c:80-112 | long division by base 2^32 digits: neither divide traps and the two digits make up the floor |
| `Arithmetic.TruncatedDivisor` | src/lib/arithmetic.c:121-123 | the shifted divisor does not overflow, its top word is at least 2^31, and dropping the low bits loses less than one unit of that word |
| `Arithmetic.EstimateOffByOne` | src/lib/arithmetic.c:121-123 | dividing by the truncated divisor gives the true quotient or one more |
| `Arithmetic.EstimateValue` | src/lib/arithmetic.c:121-123 | the estimate as computed: the divide does not trap and the result is the true quotient or one more |
| `Arithmetic.Correction` | src/lib/arithmetic.c:124-124 | the correction step does not wrap around and yields the floor from either estimate |
| `Arithmetic.DivideNarrow` | src/lib/arithmetic.c:80-112 | the branch for divisors below 2^32 returns the floor |
| `Arithmetic.DivideWide` | src/lib/arithmetic.c:113-126 | the branch for divisors of at least 2^32 returns the floor |
| `Arithmetic.Udiv64` | src/lib/arithmetic.c:77-127 | for every dividend and nonzero divisor the result is exactly the floor of the quotient |
| `Arithmetic.Umod64` | src/lib/arithmetic.c:131-135 | the result is the low 32 bits of the remainder: the remainder if and only if it is below 2^32 |
| `Arithmetic.Umod64Truncates` | src/lib/arithmetic.c:131-135 | a concrete pair whose remainder is not returned |
| `Arithmetic.UmodDivisor` | src/lib/arithmetic.c:131-135 | what a caller can check beforehand: every remainder by a divisor is returned right if and only if the divisor is at most 2^32 |
| `Arithmetic.TruncatedDivisionUnique` | src/lib/arithmetic.c:139-154 | division that truncates toward zero, with a remainder of the sign of the dividend, has one quotient and one remainder |
| `Arithmetic.QuotientRemainder` | src/lib/arithmetic.c:139-154 | the quotient and remainder of the magnitudes, with signs restored, are those of truncating division |
| `Arithmetic.Magnitude` | src/lib/arithmetic.c:141-143 | the unsigned negation gives the absolute value, also of the least integer |
| `Arithmetic.WithSignExact` | src/lib/arithmetic.c:144-145 | putting the sign back keeps the low 64 bits of the signed quotient |
| `Arithmetic.Sdiv64` | src/lib/arithmetic.c:139-146 | the truncated quotient for every pair except the least integer and -1, for which it is the least integer |
| `Arithmetic.WrapSound` | src/lib/arithmetic.c:150-154 | wrapping the product and the difference does not disturb the low 32 bits of the remainder |
| `Arithmetic.Smod64` | src/lib/arithmetic.c:150-154 | the low 32 bits, as a signed number, of the remainder: right if and only if it fits |
| `Arithmetic.Smod64Truncates` | src/lib/arithmetic.c:150-154 | a concrete pair whose remainder is not returned |
| `Arithmetic.SmodDivisor` | src/lib/arithmetic.c:150-154 | every signed remainder by a divisor is returned right if and only if its magnitude is at most 2^31 |
| `MergeSort.RunIsMaximal` | src/lib/kernel/list.c:357-372 | a run is sorted and cannot be extended |
| `MergeSort.MergePermutes` | src/lib/kernel/list.c:379-399 | merging keeps every element the number of times it occurs |
| `MergeSort.MergeSorted` | src/lib/kernel/list.c:379-399 | merging two sorted sequences gives a sorted one, for every strict weak order |
| `MergeSort.MergeStable` | src/lib/kernel/list.c:379-399 | merging does not reorder elements that compare equal |
| `MergeSort.PassRearranges` | src/lib/kernel/list.c:404-440 | a pass over all runs is a permutation that keeps equal elements in order |
| `MergeSort.PassCountHalves` | src/lib/kernel/list.c:404-440 | a pass counts half as many output runs as there were runs, rounded up |
| `MergeSort.PassRuns` | src/lib/kernel/list.c:404-440 | a pass leaves no more runs than it counted |
| `MergeSort.OneRunSorted` | src/lib/kernel/list.c:404-440 | a sequence of at most one run is sorted, so the outer loop may stop |
| `MergeSort.PassProgress` | src/lib/kernel/list.c:404-440 | a pass rearranges stably, and either leaves the list sorted or strictly fewer runs, at most half of them rounded up |
| `KernelList.LinkedDistinct` | src/lib/kernel/list.c:61-66 | a chain of nodes between two null links never meets the same node twice |
| `KernelList.ListInsert` | src/lib/kernel/list.c:168-178 | the element stands in the chain before the given one; all other links are as before |
| `KernelList.ListRemove` | src/lib/kernel/list.c:248-255 | the chain closes over the removed element; its successor is returned |
| `KernelList.CutOut` | src/lib/kernel/list.c:183-204 | first half of a splice: the segment is out of its list, both chains intact |
| `KernelList.PutIn` | src/lib/kernel/list.c:183-204 | second half of a splice: the chain is in the other list, in order |
| `KernelList.ListSplice` | src/lib/kernel/list.c:183-204 | a segment moves in front of a node of another list or of what is left of its own; every chain stays well linked |
| `KernelList.FindEndOfRun` | src/lib/kernel/list.c:357-372 | the node that ends the maximal run from the cursor, and whether it is the end of the range |
| `KernelList.InplaceMerge` | src/lib/kernel/list.c:379-399 | merging two adjacent ranges by moving nodes leaves a well-linked chain of the same nodes, in exactly the order of the stable merge |
| `KernelList.MoveForward` | src/lib/kernel/list.c:394-398 | a node of the second range that is less than the first cursor is spliced in front of it, leading to the same final order |
| `KernelList.SpliceOne` | src/lib/kernel/list.c:397-397 | the splice of a single node moves that node and no other |
| `KernelList.PassStep` | src/lib/kernel/list.c:426-434 | merging the next two runs is the next step of a pass, and both ranges are sorted as the assertions demand |
| `KernelList.MergeNextRuns` | src/lib/kernel/list.c:421-435 | one round of the inner loop: two runs merged in place, or the last run left as it is |
| `KernelList.MergeRuns` | src/lib/kernel/list.c:420-435 | the inner loop performs a whole pass and counts its output runs |
| `KernelList.List.constructor` | src/lib/kernel/list.c:61-66 | an empty list: two headers that point at each other |
| `KernelList.List.SortPass` | src/lib/kernel/list.c:414-437 | one round of the outer loop is a pass over the elements |
| `KernelList.List.Sort` | src/lib/kernel/list.c:404-440 | terminates for every list and strict weak order; the same nodes, well linked, sorted, equal elements in their old order |
| `HashTable.FindsOne` | src/lib/kernel/hash.c:314-327 | if equivalent elements hash equally, a search has at most one answer |
| `HashTable.SetThenFind` | src/lib/kernel/hash.c:114-128 | replacing acts as assignment to a map over the equivalence classes: the key itself is found afterwards, every other key as before |
| `HashTable.RemoveThenFind` | src/lib/kernel/hash.c:144-154 | deleting acts as removal from that map |
| `HashTable.TurnOffLeast` | src/lib/kernel/hash.c:329-342 | clearing the lowest bit gives zero exactly for powers of two and otherwise keeps the leading bit |
| `HashTable.RoundDown` | src/lib/kernel/hash.c:368-372 | the loop ends at the largest power of two that is not above the wanted count |
| `HashTable.StoredIsKeyed` | src/lib/kernel/hash.c:305-327 | buckets whose elements are where their hashes say, without equivalents in a bucket, hold no two equivalent elements at all |
| `HashTable.Pushed` | src/lib/kernel/hash.c:416-421 | pushing an element without equivalent keeps all that and adds exactly that element |
| `HashTable.Unlinked` | src/lib/kernel/hash.c:424-429 | unlinking an element keeps all that and removes exactly that element |
| `HashTable.MoveNext` | src/lib/kernel/hash.c:401-409 | moving the next element while rehashing: it has no equivalent among those already moved |
| `HashTable.AllMoved` | src/lib/kernel/hash.c:395-410 | when the cursor has passed the last bucket every element has been moved |
| `HashTable.HashInit` | src/lib/kernel/hash.c:24-43 | an empty table of four buckets, or none exactly if there is no memory for the buckets |
| `HashTable.HashTable.FindBucket` | src/lib/kernel/hash.c:305-310 | masking the hash selects bucket hash modulo the bucket count |
| `HashTable.HashTable.FindElem` | src/lib/kernel/hash.c:314-327 | finds the equivalent element of the whole table, or there is none |
| `HashTable.HashTable.InsertElem` | src/lib/kernel/hash.c:416-421 | adds one element and keeps the element count |
| `HashTable.HashTable.RemoveElem` | src/lib/kernel/hash.c:424-429 | removes one element and keeps the element count |
| `HashTable.HashTable.Insert` | src/lib/kernel/hash.c:98-110 | returns the equivalent element and leaves the contents, or adds the new one |
| `HashTable.HashTable.Replace` | src/lib/kernel/hash.c:114-128 | the new element takes the place of its equivalent, which is returned |
| `HashTable.HashTable.Find` | src/lib/kernel/hash.c:131-135 | returns the equivalent element if and only if there is one |
| `HashTable.HashTable.Delete` | src/lib/kernel/hash.c:144-154 | removes and returns the equivalent element, or changes nothing |
| `HashTable.HashTable.Rehash` | src/lib/kernel/hash.c:351-413 | keeps the contents; the bucket count becomes the power of two next below half the element count, at least four, and stays when memory is short |
| `HashTable.HashTable.MoveAll` | src/lib/kernel/hash.c:395-410 | the loops place every element of the old buckets in the new ones |
| `HashTable.HashTable.MoveBucket` | src/lib/kernel/hash.c:400-409 | one old bucket is emptied into the new ones |
| `HashTable.ConcatOnce` | src/lib/kernel/hash.c:199-238 | going through the buckets in order meets no element twice |
| `HashTable.SkipEmpty` | src/lib/kernel/hash.c:223-232 | passing over the ends of buckets loses no element, and stops at the end only if none is left |
| `HashTable.FromStart` | src/lib/kernel/hash.c:199-207 | from the start of the first bucket all elements of the table are to come, each once |
| `HashTable.HashIterator.constructor` | src/lib/kernel/hash.c:199-207 | the elements to come are those of the table, each once |
| `HashTable.HashIterator.Next` | src/lib/kernel/hash.c:218-236 | returns the first element to come and leaves the rest, or reports the end exactly when none is left |
| `Bits.TestMask` | src/lib/kernel/bitmap.c:197-203 | testing the mask of a bit reads that bit |
| `Bitmap.FirstFitUnique` | src/lib/kernel/bitmap.c:295-310 | first fit has one answer, so the contract of a scan determines its result |
| `Bitmap.FirstFitOfNone` | src/lib/kernel/bitmap.c:295-326 | a group of no bits is found where the search starts: at index 0, as the comment on `bitmap_scan_and_flip` says, if and only if it starts there |
| `Bitmap.UnpackUpdate` | src/lib/kernel/bitmap.c:156-179 | changing one bit of one word changes that bit of the bitmap and no other |
| `Bitmap.BitmapCreate` | src/lib/kernel/bitmap.c:78-95 | all bits are false, whatever the memory held; there is no bitmap exactly if there is no memory for the object or for its words, if it has any |
| `Bitmap.BitmapObject.Mark` | src/lib/kernel/bitmap.c:156-166 | the bit becomes true; the others stay |
| `Bitmap.BitmapObject.Reset` | src/lib/kernel/bitmap.c:169-179 | the bit becomes false; the others stay |
| `Bitmap.BitmapObject.Set` | src/lib/kernel/bitmap.c:144-152 | the bit becomes the value; the others stay |
| `Bitmap.BitmapObject.Test` | src/lib/kernel/bitmap.c:197-203 | reads the bit, never one beyond the size |
| `Bitmap.BitmapObject.SetMultiple` | src/lib/kernel/bitmap.c:217-228 | exactly the bits of the range take the value |
| `Bitmap.BitmapObject.Contains` | src/lib/kernel/bitmap.c:250-263 | whether some bit of the range has the value |
| `Bitmap.BitmapObject.Scan` | src/lib/kernel/bitmap.c:295-310 | the first index at or after the start where the whole group has the value, or none if there is none |
| `Bitmap.BitmapObject.ScanAndFlip` | src/lib/kernel/bitmap.c:319-326 | the group found by first fit is flipped and nothing else; without a group nothing changes |
| `Bitmap.ScanNothing` | src/lib/kernel/bitmap.c:312-326 | a concrete search for no bits that does not return 0 |
| `Threads.SchedulePreserves` | src/threads/thread.c:526-602 | `schedule` runs the front of the ready list, or the idle thread if it is empty, and leaves exactly one running thread |
| `Threads.YieldSwitches` | src/threads/thread.c:337-351 | a yielding thread that is not idle goes to the end of the ready list |
| `Threads.SleepSwitches` | src/threads/synch.c:60-78 | a thread that finds no unit joins the wait list and blocks |
| `Threads.DownTakes` | src/threads/synch.c:60-78 | taking a unit keeps the balance between units and woken threads |
| `Threads.TryDownTakes` | src/threads/synch.c:83-101 | taking a unit without waiting, possibly ahead of a woken thread, keeps that balance |
| `Threads.UpWakes` | src/threads/synch.c:108-121 | giving a unit wakes the longest waiter, if any |
| `Threads.StepPreserves` | src/threads/thread.c:232-262 | every step of the scheduler and of semaphores keeps one running thread, a ready list that is exactly the ready threads once each, wait lists that are exactly the blocked threads, units conserved and no wake-up lost |
| `Threads.RunPreserves` | src/threads/thread.c:526-602 | one running thread, exact lists, units conserved and no wake-up lost, over every run |
| `Threads.NoLostWakeup` | src/threads/synch.c:60-121 | in every interleaving, while a semaphore has waiters the threads that were woken and have yet to look are at least as many as its units |
| `Threads.UnitsConserved` | src/threads/synch.c:60-121 | over every run, counting events: a semaphore has the units it had, one more for every up and one less for every down or try that found one |
| `Threads.MayAct` | src/threads/thread.c:232-351 | which steps the running thread may take |
| `Threads.SwitchTo` | src/threads/thread.c:526-602 | a thread that yields, exits, idles or finds no unit makes way for the first ready thread, or else for itself if it yields and for the idle thread otherwise |
| `Threads.LeavingThread` | src/threads/thread.c:232-351 | the thread that makes way is last on the ready list, last on the wait list and blocked, or gone |
| `Threads.StayingThread` | src/threads/thread.c:165-262 | a created thread is ready and last; a thread that finds a unit goes on; the other steps leave threads and ready list alone |
| `Threads.OthersLeft` | src/threads/thread.c:232-351 | a step leaves every other thread alone, except the one it starts or wakes |
| `Threads.SemaLeft` | src/threads/synch.c:44-121 | a step leaves every other semaphore alone |
| `Threads.Boot` | src/threads/thread.c:105-118 | the invariant holds when the initial thread has started the idle thread |
| `Threads.DownsBounded` | src/threads/synch.c:44-121 | from its initialisation on, when it has its value and no waiters, a semaphore completes no more downs and tries than its value plus the ups, and has what is left over |
| `Threads.WakeupPending` | src/threads/synch.c:60-121 | while threads wait and a unit is available, a woken thread that has yet to look is running or on the ready list |
| `Threads.WaitersShift` | src/threads/synch.c:60-121 | an up wakes the front of the wait list, which becomes last on the ready list, and every other waiter moves up by one; no other step changes the order |
| `Threads.ReadyShifts` | src/threads/thread.c:526-536 | a switch takes the front of the ready list and moves every other thread up by one; other steps move none |
| `Threads.ReadyPosition` | src/threads/thread.c:526-536 | the position of a ready thread falls by the number of switches, whatever happens in between |
| `Threads.RoundRobin` | src/threads/thread.c:526-536 | the thread at ready position k is dispatched by the (k+1)-th switch |
| `Kernel.Kernel.constructor` | src/threads/thread.c:105-118 | the state in which the initial thread runs satisfies the invariant |
| `Kernel.Kernel.SwitchThreads` | src/threads/thread.c:526-602 | performs `schedule` of the step relation |
| `Kernel.Kernel.ThreadYield` | src/threads/thread.c:337-351 | performs the yield step |
| `Kernel.Kernel.IdleBlock` | src/threads/thread.c:232-240 | performs the step in which the idle thread blocks |
| `Kernel.Kernel.ThreadExit` | src/threads/thread.c:299-333 | performs the exit step |
| `Kernel.Kernel.ThreadCreate` | src/threads/thread.c:165-223 | performs the creation of a thread, which becomes ready; without memory it fails and changes nothing |
| `Kernel.Kernel.ThreadUnblock` | src/threads/thread.c:250-262 | a thread, which must be blocked as the assertion says, becomes ready, at the end of the ready list |
| `Kernel.WaiterBlocked` | src/threads/synch.c:108-121 | the waiter that `sema_up` unblocks is blocked, so that the assertion of `thread_unblock` holds |
| `Kernel.Kernel.SemaInit` | src/threads/synch.c:44-50 | a semaphore with its value and no waiters |
| `Kernel.Kernel.SemaDown` | src/threads/synch.c:60-78 | one round of the wait loop is a step: the unit is taken, or the thread sleeps |
| `Kernel.Kernel.SemaTryDown` | src/threads/synch.c:83-101 | is a step; succeeds exactly if a unit is there |
| `Kernel.Kernel.SemaUp` | src/threads/synch.c:108-121 | is a step: the longest waiter is unblocked and the unit given |
| `Monitors.StepLock` | src/threads/synch.c:192-236 | in every step the value of the lock plus the threads between their down and up stays 1 |
| `Monitors.StepHolder` | src/threads/synch.c:192-236 | the holder field names a thread only while that thread owns the lock, though it is set after the down and cleared before the up |
| `Monitors.StepFifo` | src/threads/synch.c:287-338 | what has been signalled, followed by what still waits, is what was enqueued, in that order |
| `Monitors.StepTickets` | src/threads/synch.c:287-304 | the waiters of all conditions differ |
| `Monitors.StepPhase` | src/threads/synch.c:311-325 | a waiter has had its signal if and only if the up on its semaphore is still to come, has been done, or has woken it |
| `Monitors.StepOwner` | src/threads/synch.c:287-304 | until its wait ends, the entry on a queue belongs to the thread that put it there, which is in that wait |
| `Monitors.StepCarrier` | src/threads/synch.c:287-304 | a thread waits only on an entry of its own, so no two threads wait on the same one |
| `Monitors.StepPreserves` | src/threads/synch.c:192-338 | every step of every thread keeps all of these |
| `Monitors.MutualExclusion` | src/threads/synch.c:192-236 | in every interleaving at most one thread is between its down and up, and the holder field agrees |
| `Monitors.SignalsInOrder` | src/threads/synch.c:287-325 | in every interleaving the waiters signalled are the first ones enqueued, in order |
| `Monitors.OwnerEnqueued` | src/threads/synch.c:287-304 | in every run an entry belongs to the one thread that enqueued it |
| `Monitors.SignalDelivered` | src/threads/synch.c:287-325 | a signal is with exactly one of three: the thread that makes it, the private semaphore, or the waiter it woke; only its owner can wake on it, and can once it waits and the up is done |
| `Monitors.SignalWakesOldest` | src/threads/synch.c:287-325 | in every run from the start, a signal goes to the first enqueued of those that had none; in every continuation it is kept until the thread that enqueued it takes it, no other thread can wake on it, and that one can as soon as it waits and the up is done |
| `Monitors.WakeNeedsSignal` | src/threads/synch.c:287-304 | a thread leaves its wait only after the signal of the very entry that it enqueued, and once for each |
| `Monitors.ReturnNeedsLock` | src/threads/synch.c:287-304 | from the moment a waiter releases the lock it is outside until it passes the down of the lock again |
| `Monitors.LockCycle` | src/threads/synch.c:192-236 | a thread that asks for a free lock gets it and is its holder, and its release frees the lock |
| `Monitors.AskForLock` | src/threads/synch.c:192-222 | a thread may always ask for the lock; one that only tries gets it if and only if it is free |
| `Monitors.StepsMove` | src/threads/synch.c:192-236 | an enabled step moves its thread on unless it is a try for a lock that is not free, so a down that would block is not a step |
| `Monitors.WaitCycle` | src/threads/synch.c:287-304 | a wait puts the entry last on the queue, without a unit, frees the lock and leads to the sleep |
| `Monitors.SignalCycle` | src/threads/synch.c:311-325 | a signal takes the first entry off the queue and gives it a unit, and the thread stays inside |
| `Monitors.WakeCycle` | src/threads/synch.c:287-304 | a waiter wakes if and only if it has a unit, takes it, and asks for the lock again |
| `Monitors.LeftAlone` | src/threads/synch.c:192-338 | no step moves another thread or touches a queue, a semaphore or the lock that is not its business |
| `Monitors.BroadcastWakesAll` | src/threads/synch.c:330-338 | however other threads run in between, each round of a broadcast signals the next of those that waited at the start, oldest first; nobody joins or leaves the queue meanwhile, and rounds are possible until all have their signals |
| `Arenas.CountsRight` | src/threads/malloc.c:75-85 | the blocks per arena are those that fit a page behind the header |
| `Arenas.SizesDouble` | src/threads/malloc.c:71-86 | block sizes are the powers of two from 16 on below half a page |
| `Arenas.BlockOfsIsProduct` | src/threads/malloc.c:285-294 | block i starts behind the header and i blocks |
| `Arenas.BlockFits` | src/threads/malloc.c:285-294 | every block lies inside its page, past the header |
| `Arenas.BlocksApart` | src/threads/malloc.c:285-294 | the blocks of an arena do not overlap |
| `Arenas.BlocksCount` | src/threads/malloc.c:285-294 | an arena has as many distinct blocks as its descriptor says |
| `Arenas.LiveInside` | src/threads/malloc.c:89-151 | a live block lies in the taken pages of its arena, past the header, and is big enough if and only if the request for it did not wrap around |
| `Arenas.LiveDisjoint` | src/threads/malloc.c:89-151 | no byte belongs to two live blocks |
| `Arenas.RoomPrivate` | src/threads/malloc.c:89-151 | the room of a live block contains no arena header, no byte of a free block and none of another live block |
| `Arenas.GetPages` | src/threads/palloc.c:70-104 | first fit over the page map; nothing for a request of no pages |
| `Arenas.AddBigKeeps` | src/threads/malloc.c:105-121 | a big block on fresh pages keeps the invariant and touches no other arena |
| `Arenas.AddArenaKeeps` | src/threads/malloc.c:129-144 | a new arena keeps the invariant: its count is the number of its blocks, all of them on the free list |
| `Arenas.TakeKeeps` | src/threads/malloc.c:146-151 | taking the front of a free list keeps it: the block was nobody's, and the count falls by one |
| `Arenas.PutKeeps` | src/threads/malloc.c:238-242 | putting a block back keeps it: the block was not on the free list, and the count rises by one |
| `Arenas.IdleIffFull` | src/threads/malloc.c:241-242 | the count of an arena equals its number of blocks if and only if no caller holds one of them |
| `Arenas.DropArenaKeeps` | src/threads/malloc.c:243-253 | giving an idle arena back keeps the invariant of all others |
| `Arenas.DropBigKeeps` | src/threads/malloc.c:258-263 | giving a big block back keeps it too |
| `Malloc.DescFor` | src/threads/malloc.c:100-104 | the first descriptor whose blocks are big enough |
| `Malloc.BigRequest` | src/threads/malloc.c:105-112 | the pages computed in 32 bits hold the request and the header, or none are asked for, if and only if the size is at most 2^32 - 12 |
| `Malloc.BigRequestFails` | src/threads/malloc.c:105-112 | a concrete request that is given too little |
| `Malloc.PagesExact` | src/threads/malloc.c:105-112 | the pages asked for are the least number that holds the request and the header; none if rounding up wraps around, one if adding the header does |
| `Malloc.AllocKeeps` | src/threads/malloc.c:89-151 | a request fails and changes nothing, or hands out a block that nobody held, recorded with its size; the invariant holds |
| `Malloc.ClassExists` | src/threads/malloc.c:61-84 | a least class that is big enough exists if and only if the request is of at most 1024 bytes |
| `Malloc.SmallExact` | src/threads/malloc.c:89-151 | a request of up to 1024 bytes gets a block of the least class that is big enough; it fails if and only if no block of that class is free and every page is in use; the lowest free page is taken if and only if no block is free |
| `Malloc.BigExact` | src/threads/malloc.c:105-121 | a bigger request gets the lowest run of as many pages as it asks for; it fails if and only if it asks for none or there is no such run |
| `Malloc.ReleaseKeeps` | src/threads/malloc.c:218-264 | freeing takes away exactly that block; its pages go back to the pool exactly when it was the last live block of its arena, and no other page does |
| `Malloc.SameCapacity` | src/threads/malloc.c:195-214 | a request does not change the room of a block that is already held |
| `Malloc.ResizeKeeps` | src/threads/malloc.c:194-214 | unless the copy overruns, the result is that of malloc for the new size, the new block takes the place of the old, or the old stays if there is no memory, and the invariant holds |
| `Malloc.CopyExact` | src/threads/malloc.c:204-211 | every byte that the copy writes is in the new block, where nobody else has a use for it, if and only if the size is at most 2^32 - 12 or the old block has at most 4084 bytes |
| `Malloc.CopyKeeps` | src/threads/malloc.c:204-211 | unless it overruns, the copy has disjoint source and destination, the new block begins with the old bytes as far as they fit, and no byte of a header, a free block or another block changes |
| `Malloc.ResizeOverruns` | src/threads/malloc.c:194-214 | a legal run on four pages after which a realloc writes over the header of the very block that it goes on to free |
| `Malloc.RunSafe` | src/threads/malloc.c:89-264 | over every run of malloc, free and realloc in which no copy overruns: no byte of a live block is of use to anybody else, blocks are inside their arenas and big enough if and only if the request did not wrap around, counts and free lists agree, no arena is idle |
| `Malloc.InitInv` | src/threads/malloc.c:71-86 | the initial state satisfies the invariant |
| `Allocator.RemoveOne` | src/threads/malloc.c:246-251 | taking one more block out of a list that has it once |
| `Allocator.Allocator.constructor` | src/threads/malloc.c:71-86 | nothing is allocated |
| `Allocator.Allocator.GetMultiple` | src/threads/palloc.c:70-104 | takes the lowest run of free pages that is long enough, found by the bitmap scan, and marks exactly it; fails, changing nothing, exactly if there is none or no page is asked for |
| `Allocator.Allocator.FreeMultiple` | src/threads/palloc.c:117-142 | clears exactly those pages, all of which are in use, so that its assertion holds |
| `Allocator.Allocator.Malloc` | src/threads/malloc.c:89-151 | does what the request function says, on every path; never hands out a block twice |
| `Allocator.Allocator.FindDesc` | src/threads/malloc.c:100-104 | the loop finds the smallest descriptor |
| `Allocator.Allocator.NewArena` | src/threads/malloc.c:137-144 | the loop puts every block of the page on the free list, in order |
| `Allocator.Allocator.PopBlock` | src/threads/malloc.c:146-151 | the front of the free list is handed out and counted |
| `Allocator.Allocator.Free` | src/threads/malloc.c:218-264 | does what the release function says; a null pointer is ignored |
| `Allocator.Allocator.FreeSmall` | src/threads/malloc.c:224-257 | puts the block back and gives the arena back when it is full |
| `Allocator.RemoveBlocks` | src/threads/malloc.c:246-251 | the loop takes exactly the blocks of the arena off the free list and keeps the order of the rest |
| `Allocator.Allocator.Realloc` | src/threads/malloc.c:194-214 | unless the copy overruns, does what the resize function says and keeps the invariant |
| `Pte.OffsetBits` | src/threads/vaddr.h:24-26 | the page offset is the address modulo the page size |
| `Pte.IndexBits` | src/threads/pte.h:32-39 | directory and table index are the two halves of the page number |
| `Pte.AddressBits` | src/threads/pte.h:59-60 | the address mask keeps the page and drops the flags |
| `Pte.CreatedWords` | src/threads/pte.h:71-98 | an entry is the physical page plus its flags |
| `Pte.PteRoundTrip` | src/threads/pte.h:71-104 | page, presence and writability can be read back from an entry; it is neither accessed nor dirty |
| `Pte.SetFlag` | src/userprog/pagedir.c:201-214 | setting a flag keeps the page and every other flag |
| `Pte.ClearFlag` | src/userprog/pagedir.c:143-157 | clearing a flag keeps the page and every other flag |
| `PageDir.SetEntryOnly` | src/userprog/pagedir.c:110-117 | writing an entry changes no other page, through whatever directory entry it is reached |
| `PageDir.AddTableMaps` | src/userprog/pagedir.c:67-80 | a new table changes no page |
| `PageDir.FreedAre` | src/userprog/pagedir.c:36-46 | what is freed are exactly the mapped frames and the tables |
| `PageDir.FreedOnce` | src/userprog/pagedir.c:36-46 | no page is freed twice while tables are torn down, if no frame serves two purposes |
| `PageDir.PageDirectory.constructor` | src/userprog/pagedir.c:16-23 | kernel pages are mapped as in the initial directory, and no user page is mapped |
| `PageDir.PageDirectory.LookupPage` | src/userprog/pagedir.c:56-85 | for every address, of the user or the kernel: there is an entry afterwards, or there is none and nothing changed; no page is mapped differently; a table is only made for user addresses |
| `PageDir.PageDirectory.SetPage` | src/userprog/pagedir.c:98-121 | maps the page to the frame, or fails for want of memory and changes nothing; all other pages stay |
| `PageDir.PageDirectory.GetPage` | src/userprog/pagedir.c:125-137 | the frame of the page plus the offset, or nothing if the page is not mapped |
| `PageDir.PageDirectory.ClearPage` | src/userprog/pagedir.c:143-157 | the page is not mapped any more, the rest of its entry stays, and so do all other pages |
| `PageDir.PageDirectory.TestFlag` | src/userprog/pagedir.c:163-197 | the accessed or dirty bit of the entry, false without an entry |
| `PageDir.PageDirectory.PutFlag` | src/userprog/pagedir.c:172-214 | changes that bit of that entry and nothing else |
| `PageDir.PageDirectory.Destroy` | src/userprog/pagedir.c:27-48 | frees every mapped frame of the user, every user table and the directory, and nothing else; each once, and no table of the kernel, if no page serves two purposes |
| `PageDir.PageDirectory.FreeTable` | src/userprog/pagedir.c:41-44 | the frames that a table maps, in order |
| `ElfLoad.ValidateExact` | src/userprog/process.c:445-486 | the tests of the code, in 32 bits, accept exactly the segments that are aligned, start inside the file, are no longer in the file than in memory, are not empty and lie within user memory above page 0 |
| `ElfLoad.Amounts` | src/userprog/process.c:400-412 | for a valid segment the bytes to read and to zero add up to whole pages; no 32-bit sum or difference on the way wraps around |
| `ElfLoad.PagesTouched` | src/userprog/process.c:396-415 | the pages loaded are exactly those that a byte of the segment is in |
| `ElfLoad.CountersStep` | src/userprog/process.c:511-543 | in the page loop neither counter goes below zero |
| `ElfLoad.PageFilled` | src/userprog/process.c:515-533 | a page filled from the file and with zeros is the page of the segment image |
| `ElfLoad.AllGood` | src/userprog/process.c:511-543 | all pages can be loaded if and only if the file is long enough, a buffer can be had where the bytes end inside a sector, and all pages can be installed |
| `ElfLoad.LoadPage` | src/userprog/process.c:518-539 | one page is installed and its frame kept, or the load fails exactly for want of a frame, a buffer or a table, a short file or a page in use, and then the frame is given back |
| `ElfLoad.LoadSegment` | src/userprog/process.c:502-545 | succeeds exactly if the file can be read and all pages can be installed; the pages up to the first that fails hold the image, with the given write permission, no other page changed, and exactly as many frames are kept |
| `ElfLoad.LoadPtLoad` | src/userprog/process.c:394-420 | a segment that loads is in memory as its header says, the file bytes and then zeros, byte for byte, writable if it asks for that; it loads exactly when it is valid, the file can be read and its pages are free; as many frames are kept as pages are installed |
| `ClockEviction.OneLess` | src/vm/frame.c:240-257 | clearing an accessed bit leaves one less |
| `ClockEviction.RankOrder` | src/vm/frame.c:240-291 | of two frames the one with fewer accessed bits goes first, and of those with as many the one that the hand meets first |
| `ClockEviction.Flips` | src/vm/frame.c:265-287 | passing a frame of which a bit was cleared brings every unpinned frame one step closer to eviction |
| `ClockEviction.Passes` | src/vm/frame.c:265-287 | passing a pinned frame brings every unpinned frame one step closer to eviction |
| `ClockEviction.Wraps` | src/vm/frame.c:360-373 | starting over at the end of the list brings every unpinned frame one step closer to eviction |
| `ClockEviction.FrameTable.GetNext` | src/vm/frame.c:360-373 | the hand is on a frame, at the beginning if it had run off the end |
| `ClockEviction.FrameTable.MoveNext` | src/vm/frame.c:377-384 | the hand moves on by one |
| `ClockEviction.FrameTable.ScanAndFlip` | src/vm/frame.c:240-257 | whether no page of the frame was accessed; if one was, exactly one bit is cleared |
| `ClockEviction.FrameTable.Visit` | src/vm/frame.c:274-286 | one look at a frame finds the victim, or clears a bit or passes a pinned frame and moves on |
| `ClockEviction.FrameTable.Tick` | src/vm/frame.c:272-287 | one round of the loop ends the search or brings every unpinned frame closer |
| `ClockEviction.FrameTable.Eviction` | src/vm/frame.c:265-291 | terminates if some frame is not pinned; the victim is unpinned with all accessed bits clear, it had the fewest of them and was next in clock order, and only accessed bits of unpinned frames were cleared |
| `ClockEviction.FrameTable.RemovePointer` | src/vm/frame.c:348-357 | the hand leaves the frame |
| `ClockEviction.FrameTable.DeleteFrame` | src/vm/frame.c:225-234 | the frame is gone and the hand is not on it |
| `ClockEviction.FrameTable.AddFrame` | src/vm/frame.c:93-111 | a new frame is pinned and last; the hand stays |
| `ClockEviction.FrameTable.Change` | src/vm/frame.c:294-309 | pinning, unpinning and use of a frame leave the hand where it is |
| `Swap.FirstFitIsAligned` | src/vm/swap.c:51-58 | while every group of eight bits is uniform, first fit of eight finds a whole group |
| `Swap.SlotLeft` | src/vm/swap.c:51-58 | all groups are taken exactly when as many pages are held as there are groups |
| `Swap.StoreSucceeds` | src/vm/swap.c:51-60 | a store finds room if and only if fewer pages are held than the device has room for |
| `Swap.SwapTable.constructor` | src/vm/swap.c:19-27 | no page is held |
| `Swap.SwapTable.Store` | src/vm/swap.c:51-72 | the page is held in a slot that was free; every other page stays as it was |
| `Swap.SwapTable.WriteSlot` | src/vm/swap.c:62-70 | the eight sectors of the slot hold the page and no other sector changed |
| `Swap.SwapTable.Load` | src/vm/swap.c:30-48 | returns the page that was stored |
| `Swap.SwapTable.Free` | src/vm/swap.c:76-92 | gives up that slot and no other |
| `InodeIO.ChunkInside` | src/filesys/inode.c:207-222 | a round stays within one sector and the file |
| `InodeIO.OffsetExact` | src/filesys/inode.c:207-222 | a round that moves anything stays within one sector of the file if and only if the offset is not negative |
| `InodeIO.BeforeFile` | src/filesys/inode.c:207-228 | an offset with which the sector before the file is moved |
| `InodeIO.ChunkStep` | src/filesys/inode.c:207-250 | a round with a whole sector or a buffer moves the progress on; without a buffer only whole sectors have been moved |
| `InodeIO.ChunkEnd` | src/filesys/inode.c:207-250 | the loop ends with the whole count |
| `InodeIO.ChunkStuck` | src/filesys/inode.c:225-234 | without a bounce buffer it ends with the leading whole sectors |
| `InodeIO.SectorsExact` | src/filesys/inode.c:25-29 | the least number of sectors that hold that many bytes |
| `InodeIO.TransferExact` | src/filesys/inode.c:200-251 | with a buffer all bytes asked for that are in the file are moved; without, the most whole sectors possible from the start of a sector, and none from elsewhere |
| `InodeIO.OneSector` | src/filesys/inode.c:283-312 | writing part of a sector changes those bytes of the disk and no others |
| `InodeIO.OverwriteTwice` | src/filesys/inode.c:267-316 | consecutive pieces make up one overwritten slice |
| `InodeIO.FileOverwritten` | src/filesys/inode.c:257-318 | the file is its old bytes with the slice replaced |
| `InodeIO.OtherFileKept` | src/filesys/inode.c:257-318 | a file on other sectors keeps every byte |
| `InodeIO.Device.ReadAt` | src/filesys/inode.c:200-251 | copies exactly the slice of the file that lies within it; the count is the size cut off at the end of the file |
| `InodeIO.Device.CopyOut` | src/filesys/inode.c:215-244 | the bytes of one round, directly or through the bounce buffer |
| `InodeIO.Device.WriteAt` | src/filesys/inode.c:257-318 | overwrites exactly that slice and no other byte of the disk; nothing while writes are denied |
| `InodeIO.Device.CopyIn` | src/filesys/inode.c:278-312 | reads, modifies and writes back one sector |
| `Ownership.ScanIsFirstFit` | src/filesys/free-map.c:27-40 | the scan of the free map is first fit |
| `Ownership.AddFile` | src/filesys/inode.c:72-105 | a file on sectors that were free owns them alone |
| `Ownership.DropFile` | src/filesys/inode.c:163-187 | giving a file back frees exactly its own sectors, and the assertions of `free_map_release` hold |
| `Ownership.ForgetFile` | src/filesys/directory.c:170-175 | a file that is forgotten without being given back loses exactly its own sectors |
| `FileSystem.Allocate` | src/filesys/free-map.c:27-40 | first fit, undone if the free map cannot be written |
| `FileSystem.FindExact` | src/filesys/filesys.c:45-60 | sectors for a new file are found if and only if nothing else fails, some sector is free and there are enough in a row besides it; they are the lowest ones |
| `FileSystem.CreateExact` | src/filesys/filesys.c:45-60 | creation succeeds if and only if sectors are found, the name is valid and in no slot that can be read, a slot is free or cannot be read, and it can be written; then exactly one slot and one inode change |
| `FileSystem.CreateAdds` | src/filesys/filesys.c:45-60 | creation adds one file, on sectors that were free; if a failed read made `dir_add` write over the slot of a file that nobody has open, that file is gone and exactly its sectors are lost; no other file changes |
| `FileSystem.CreateFails` | src/filesys/filesys.c:45-60 | failure changes no file; it loses the data sectors if and only if everything but adding the name worked |
| `FileSystem.CreateLoses` | src/filesys/filesys.c:45-60 | a formatted volume, a name of fifteen characters and a size of 512 with which a sector is lost |
| `FileSystem.OpenAdds` | src/filesys/filesys.c:66-78 | opening adds one opener to the inode that the directory maps the name to |
| `FileSystem.OpenExact` | src/filesys/filesys.c:66-78 | opening succeeds if and only if the first slot with the name can be read and there is memory for the file and, unless it is open, for the inode; then the inode has exactly one opener more and nothing else changes |
| `FileSystem.OpenFails` | src/filesys/filesys.c:66-78 | a failed open undoes everything |
| `FileSystem.DenyKeeps` | src/filesys/file.c:118-141 | denying and allowing writes keeps the count of deniers exact |
| `FileSystem.DenyExact` | src/filesys/file.c:118-141 | denying or allowing writes is recorded in the file and counted once, and changes nothing else |
| `FileSystem.DeniersCounted` | src/filesys/inode.c:322-338 | there are never more deniers than openers, and at least one if the file is one, as the assertions demand |
| `FileSystem.CloseReleases` | src/filesys/inode.c:163-187 | a close keeps the file, or, if it is the last one of a removed file, frees exactly its sectors, all of which were marked; the last close of a file whose slot was written over loses exactly its sectors |
| `FileSystem.CloseExact` | src/filesys/file.c:45-54 | a close takes away that file and exactly one opener, and the inode with the last one; no other file or inode changes |
| `FileSystem.RemoveExact` | src/filesys/directory.c:184-217 | removal succeeds if and only if the first slot with the name can be read and written and its inode is open or can be opened |
| `FileSystem.RemoveFails` | src/filesys/directory.c:184-217 | a failed removal changes nothing |
| `FileSystem.RemoveOpen` | src/filesys/inode.c:190-195 | removing an open file takes away its name and leaves its sectors |
| `FileSystem.RemoveClosed` | src/filesys/directory.c:184-217 | removing a file that nobody has open frees its sectors at once |
| `FileSystem.ApplyKeeps` | src/filesys/filesys.c:45-91 | every operation, whichever reads and writes fail, keeps: no sector has two owners, every owned sector is marked, open counts are exact |
| `FileSystem.AlwaysPossible` | src/filesys/inode.c:322-338 | whatever happened before, a file that is open can be closed and can deny or allow writes with no assertion failing |
| `FileSystem.RunKeeps` | src/filesys/filesys.c:45-91 | no sector has two owners and every owned sector is marked, over every run, with any failed reads of the directory in it |
| `FileSystem.NamesStayUnique` | src/filesys/filesys.c:45-91 | names stay unique over every run in which each name reported as added is new and gets a free slot |
| `FileSystem.LostForGood` | src/filesys/filesys.c:45-91 | a sector that is marked but belongs to no file stays so through every run |
| `FileSystem.KeptWhileOpen` | src/filesys/inode.c:163-195 | a file that stays open through a run keeps its sectors, marked, whether or not it is removed meanwhile |
| `FileSystem.FormatInv` | src/filesys/filesys.c:94-103 | a fresh volume satisfies the invariant |
| `FileSystem.FinalReleases` | src/filesys/free-map.c:44-50 | the assertions of `free_map_release` hold when the last close of a removed file releases its sectors |
| `FileSystem.NamedReleasable` | src/filesys/free-map.c:44-50 | the assertions of `free_map_release` hold when a file is removed that nobody has open, and a named file is never marked removed |
| `FileSystem.Volume.FreeMapAllocate` | src/filesys/free-map.c:27-40 | marks the sectors found, and unmarks them if the map cannot be written |
| `FileSystem.Volume.FreeMapRelease` | src/filesys/free-map.c:44-50 | clears exactly those sectors, which must be marked |
| `FileSystem.Volume.InodeCreate` | src/filesys/inode.c:72-105 | allocates and records the extent, or changes nothing |
| `FileSystem.Volume.InodeOpenSteps` | src/filesys/inode.c:111-142 | shares an inode that is open, or reads it in |
| `FileSystem.Volume.InodeCloseSteps` | src/filesys/inode.c:163-187 | gives up one opener; the last one drops the inode and the sectors of a removed file |
| `FileSystem.Volume.DenyWrite` | src/filesys/file.c:118-127 | counts the file once among those that deny writes; the assertion of `inode_deny_write` holds |
| `FileSystem.Volume.AllowWrite` | src/filesys/file.c:132-141 | takes the file out of that count; the assertions of `inode_allow_write` hold |
| `FileSystem.Volume.FilesysCreate` | src/filesys/filesys.c:45-60 | the effects and undo steps of the code amount to creation as specified; the invariant holds |
| `FileSystem.Volume.FilesysOpen` | src/filesys/filesys.c:66-78 | the effects and undo steps of the code amount to opening as specified; the invariant holds |
| `FileSystem.Volume.FilesysRemove` | src/filesys/filesys.c:83-91 | the effects of the code amount to removal as specified; no assertion can fail and the invariant holds |
| `FileSystem.Volume.FileClose` | src/filesys/file.c:45-54 | the effects of the code amount to closing as specified; no assertion can fail and the invariant holds |
| `Directory.MapFinds` | src/filesys/directory.c:91-110 | a name is in the map if and only if a slot in use has it, and its sector is that of the first such slot |
| `Directory.EntryTransfer` | src/filesys/inode.c:200-251 | a slot is read or written whole or, when memory for the buffer is short, not at all |
| `Directory.MapSize` | src/filesys/directory.c:158-169 | the directory is full exactly when the map has as many names as there are slots |
| `Directory.SlotFilled` | src/filesys/directory.c:170-175 | filling a free slot adds exactly one name and keeps names unique |
| `Directory.SlotErased` | src/filesys/directory.c:202-206 | erasing the first slot with a name removes the name if and only if no other slot has it, which is so while names are unique |
| `Directory.AddReports` | src/filesys/directory.c:141-179 | an add reports success if and only if the name has 1 to 14 characters and is in no slot that can be read, a slot is free or cannot be read, and it can be written; it writes the first such slot and no other |
| `Directory.AddExact` | src/filesys/directory.c:141-179 | an add that reports success added exactly that name and kept names unique if and only if no slot had the name, seen or not, and no read failed before the first free slot; one that reports failure changed nothing |
| `Directory.AddWithMemory` | src/filesys/directory.c:141-179 | with memory for every read it succeeds exactly for a valid new name while there is room and the slot can be written, and then adds exactly that name |
| `Directory.AddDuplicates` | src/filesys/directory.c:155-156 | a failed read with which a name that is there is added again |
| `Directory.AddOverwrites` | src/filesys/directory.c:158-175 | a failed read with which the entry of another file is written over |
| `Directory.RunRefines` | src/filesys/directory.c:141-217 | over every run of adds and removes in which each reported add meets the condition of `AddExact`, names stay unique and the slots stand for the map that the reports describe |
| `Directory.RunIsMap` | src/filesys/directory.c:141-217 | with memory for every read, every run of adds and removes on the slots is the run on a map with room for that many names |
| `Directory.SweepComplete` | src/filesys/directory.c:221-236 | a sweep that a failed read ends misses no name if and only if no slot from there on is in use |
| `Directory.SweepMisses` | src/filesys/directory.c:221-236 | a failed read with which a name is missed |
| `Directory.NamesOnce` | src/filesys/directory.c:221-236 | the slots in order give every name of the map once |
| `Directory.Dir.constructor` | src/filesys/directory.c:26-30 | an empty directory with that many slots |
| `Directory.Dir.Lookup` | src/filesys/directory.c:91-110 | the first slot with the name among those that can be read; if all can, nothing is found exactly when the map does not have the name |
| `Directory.Dir.DirLookup` | src/filesys/directory.c:118-132 | the sector that the map has for the name, or nothing, which is reported exactly if the first slot with the name, if any, is not among those that can be read |
| `Directory.Dir.DirAdd` | src/filesys/directory.c:141-179 | with any number of reads that succeed: what it reports is true exactly under the condition of `AddExact`; with memory it succeeds exactly for a valid new name while there is room and the slot can be written |
| `Directory.Dir.FreeSlot` | src/filesys/directory.c:165-168 | the first slot that is free or cannot be read, or the end |
| `Directory.Dir.DirRemove` | src/filesys/directory.c:184-217 | frees the first slot with the name, if it can be read and written and the inode opened, and otherwise changes nothing; the map loses exactly that name if and only if no other slot has it |
| `Directory.Dir.ReadDir` | src/filesys/directory.c:221-236 | the next name in slot order, or none exactly when the slots up to the end or to the failed read are free; the slot that could not be read is still to come |
| `Directory.Dir.Sweep` | src/filesys/directory.c:221-236 | a sweep yields the names of the slots before the failed read, each once; all of the map if and only if no later slot is in use |
| `Format.BasesValid` | src/lib/stdio.c:130-142 | the four bases have the digits, groups and prefixes that conversion relies on |
| `Format.TextLength` | src/lib/stdio.c:524-547 | a conversion has exactly as many characters as the wider of field and body, unless zeros and left adjustment are asked for together |
| `Format.FieldWidth` | src/lib/stdio.c:373-416 | over all flags, widths and precisions the field width is kept if and only if the call is not a `0` flag without `-` or precision whose width argument is negative and wider than the body |
| `Format.FieldWidthFails` | src/lib/stdio.c:390-394 | a concrete call that prints three characters in a field of two |
| `Format.SettleIs` | src/lib/stdio.c:373-416 | what flags, width and precision a specification amounts to |
| `Format.Layout` | src/lib/stdio.c:480-547 | the order of padding, sign, prefix and number, which sign and which prefix there is |
| `Format.NumberShape` | src/lib/stdio.c:508-517 | how many zeros stand before the digits |
| `Format.TopDigit` | src/lib/stdio.c:497-506 | there are no more digits than needed |
| `Format.GroupedIs` | src/lib/stdio.c:497-506 | commas stand between every three digits, four in hexadecimal, counted from the right |
| `Format.DigitTaken` | src/lib/stdio.c:499-506 | room for n digits of any base leaves room for n - 1 after taking one |
| `Format.RoomForAll` | src/lib/stdio.c:499-506 | 22 digits are enough for every 64-bit value |
| `Format.PutDigit` | src/lib/stdio.c:499-506 | one digit, after the comma it may need, goes into the buffer |
| `Format.Digits` | src/lib/stdio.c:497-506 | the digit loop stays within 44 of the 64 bytes and leaves the digits in the buffer |
| `Format.Zeros` | src/lib/stdio.c:513-515 | zeros up to the precision, never past byte 63 |
| `Format.Complete` | src/lib/stdio.c:513-517 | the buffer with precision and octal prefix, within 64 bytes |
| `Format.FillBuffer` | src/lib/stdio.c:494-517 | the buffer holds the digits of the conversion |
| `Format.Emit` | src/lib/stdio.c:519-546 | padding, sign, prefix and digits go out in order |
| `Format.OutputDup` | src/lib/stdio.c:550-555 | a character, that many times |
| `Format.FormatInteger` | src/lib/stdio.c:469-547 | the output is the text of the conversion, for every value, base and conversion; the buffer is never exceeded |
| `Format.DigitsEvaluate` | src/lib/stdio.c:469-547 | the digits printed have the value printed, whatever the grouping, precision and flags |
| `Format.OnlyDigits` | src/lib/stdio.c:499-506 | without grouping only digits are printed |
| `Atoi.Atoi` | src/lib/stdlib.c:9-41 | the result is the number written at the start of the string in 32-bit two's complement, and that number itself exactly when it is an int |
| `Atoi.NumberExact` | src/lib/stdlib.c:9-41 | white space of six kinds, an optional sign and digits give the number of the digits, whatever follows them |
| `Atoi.ParseDigits` | src/lib/stdlib.c:35-36 | the digit loop accumulates the negated value |
| `Atoi.FieldNumber` | src/lib/stdlib.c:9-41 | padding with spaces or zeros, on either side, and any sign character do not disturb the number that is read |
| `Atoi.PrintThenParse` | src/lib/stdlib.c:9-41 | reading what a signed decimal conversion prints gives the number back, for every number and all flags but grouping, every width and precision |
| `Atoi.AtoiOfPrint` | src/lib/stdlib.c:9-41 | `atoi` undoes those conversions on every int, the least one included |
| `Ustar.CalculateChksum` | src/lib/ustar.c:36-54 | the sum of all bytes with the checksum field taken as spaces |
| `Ustar.OwnFieldIgnored` | src/lib/ustar.c:36-54 | the checksum does not depend on the field it is stored in |
| `Ustar.SumChange` | src/lib/ustar.c:36-54 | changing one byte outside the field changes the sum by as much |
| `Ustar.SumOfZeros` | src/lib/ustar.c:36-54 | of a header of zeros only the spaces that stand for the field count |
| `Ustar.ChksumFits` | src/lib/ustar.c:114-115 | the checksum of a header of bytes fits its field |
| `Ustar.StripAntisocialPrefixes` | src/lib/ustar.c:65-72 | the loop drops every leading `/`, `./` and `../` |
| `Ustar.StripExact` | src/lib/ustar.c:65-72 | what is dropped is a sequence of `/`, `./` and `../`, and all of it; what is left is untouched, except that `.` stands for nothing and for `..` |
| `Ustar.StripIdempotent` | src/lib/ustar.c:65-72 | a stripped name is not empty, not `..`, does not start by leaving the directory, and is not changed by stripping it again |
| `Ustar.OctalTextDigits` | src/lib/ustar.c:102-107 | `%0No` prints N octal digits whose value is the number |
| `Ustar.OctalRoundTrip` | src/lib/ustar.c:129-162 | an octal field is read back as the number stored in it |
| `Ustar.ParseOctalField` | src/lib/ustar.c:129-162 | accepts exactly the fields of at least one octal digit that end in a space or null and fit 32 bits, and returns their value |
| `Ustar.OctalExact` | src/lib/ustar.c:129-162 | a field reads as a value if and only if it begins with at least one octal digit, a space or null ends the digits, and the value is theirs and fits 32 bits |
| `Ustar.Permissions` | src/lib/ustar.c:102-103 | the mode written is 644 in octal for a file and 755 for a directory |
| `Ustar.MakeHeader` | src/lib/ustar.c:82-118 | fails exactly for stripped names of more than 99 characters; otherwise every field reads as what it should hold |
| `Ustar.PutOctal` | src/lib/ustar.c:102-107 | a field that reads as the number |
| `Ustar.Strlcpy` | src/lib/ustar.c:101-101 | a field that holds the string, ended by a null |
| `Ustar.FillLeft` | src/lib/ustar.c:99-107 | the fields before the checksum read as what they should hold |
| `Ustar.FillRight` | src/lib/ustar.c:108-112 | the fields after the checksum read as what they should hold; the others stay |
| `Ustar.ParseHeader` | src/lib/ustar.c:181-227 | checks and reads the fields in the order of the code, with its error for each |
| `Ustar.ParseExact` | src/lib/ustar.c:181-227 | a header is an entry if and only if magic and version are right, the checksum field reads as the sum of the bytes, the name ends and there is no prefix, and the type is known with, for a regular file, a size that reads as an int |
| `Ustar.ParseErrors` | src/lib/ustar.c:181-227 | the error is that of the first test that fails |
| `Ustar.DamageDetected` | src/lib/ustar.c:181-227 | a made header damaged in one byte outside its checksum field is an error |
| `Ustar.RoundTrip` | src/lib/ustar.c:82-227 | parsing a made header gives the stripped name, the type and the size, except that a regular file of negative size is too large |
| `Ustar.NegativeSize` | src/lib/ustar.c:82-227 | a header made for a regular file of size -1 is not parsed back |

## Left out

* Device drivers, assembly, the boot loader, interrupt and segment setup, TLB invalidation, console
  output: hardware plumbing.
* The handshake between parent and child in `process_execute`, `process_wait`, `process_exit` and
  `thread_exit`, and the dispatch of system calls.
* Priority scheduling, donation, nice values and sleep timers, which the code does not implement.
* `list_reverse`, `list_insert_ordered`, `list_unique`, `list_max`, `list_min`, `bitmap_count`,
  `bitmap_flip`, `hash_clear`, `hash_apply`, the heap sort and binary search of `stdlib.c`, the
  sizes of the two page pools: they would add easier members.
* File positions (`file_read`, `file_write`, `file_seek`), `inode_reopen` and `file_reopen`.
* The bytes in memory that `calloc` and the debugging fills of `free` write.
* The scanning of format strings, `%s`, `%c`, `%p`, and the sizes of argument types.
* `src/vm/page.c`, `src/vm/mmap.c` and `partition.c`.
- Threads.StepPreserves: preemption by the timer is the yield step, and thread identifiers are never used twice.
- Monitors.StepPreserves: one lock with any number of conditions; the private semaphore of a waiter counts units and does not model its own wait list.
- Kernel.Kernel.ThreadExit: the exchange with a waiting parent is not part of this model.
- Allocator.Allocator.Malloc: descriptor locks are left out; a request is one step.
- Allocator.Allocator.Realloc: promises nothing after a copy that overruns the new block, since the copy destroys headers that the code goes on to use (`Malloc.ResizeOverruns`).
- Malloc.ResizeKeeps: likewise.
- Malloc.RunSafe: runs end before such a copy.
- Arenas.GetPages: one pool, with page addresses relative to its base; zeroing the pages and the panic that can be asked for instead of failure are left out.
- Allocator.Allocator.GetMultiple: the same, and the pool's lock is left out.
- PageDir.PageDirectory.PutFlag: the tables of the kernel are part of the directory; that all directories share them is not modelled.
- ElfLoad.LoadSegment: user memory is a map from pages to their bytes and write permission; frames are counted, and page tables appear as whether memory for one can be had.
- ClockEviction.FrameTable.Eviction: no page is accessed while the victim is chosen; frames are found by address instead of through the hash table.
- Swap.SwapTable.Store: where the assertion on a full device would fail, the result is `None`.
- InodeIO.Device.ReadAt: copying a whole sector directly and copying part of one through the bounce buffer are one operation, with the difference that the latter needs memory; negative offsets are excluded, since they leave the file (`InodeIO.OffsetExact`).
- InodeIO.Device.WriteAt: negative offsets are excluded for the same reason.
- FileSystem.Volume.FilesysCreate: opening and closing the root directory around an operation is a flag; the copy of the free map on the disk is not modelled, only whether writing it succeeds where the code looks.
- Directory.Dir.DirAdd: slots are records; their layout in the 20 bytes of a directory entry is not modelled. A read that fails is followed by no read that succeeds within the same loop, since the loops stop there.
- Format.FormatInteger: the output function appends to a string; field widths are unbounded integers, so that negating the least `int` as a width does not overflow.
- Atoi.Atoi: overflow of `int`, undefined in C, is two's complement wrap-around.
- Ustar.MakeHeader: the header is a record of its fields, whose bytes in memory order are used for the checksum and the test for zeros.
