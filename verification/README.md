# Linux 0.11 kernel algorithms, modelled in Dafny

The repository is a Linux 0.11 kernel with lab exercises in it: named semaphores guarded by a bakery lock, and a
producer/consumer test on top of them. This project models the parts of it with real invariants and proves what they
keep. `dafny verify dfyconfig.toml` checks all of it.

| files | what is modelled |
|---|---|
| Bakery | lamport.h, as an interleaving of single loads and stores over distinct slots |
| SemQueue | sem.c with sleep_on and wake_up of sched.c, one kernel stretch between two sleeps at a time |
| ProducerConsumer | test6 from the last initialisation on, over every interleaving of its semaphore calls |
| FrameAccounts, PageTables, EagerMemory, CopyOnWrite | mm/memory.c and copy_mem: reference counts, two-level tables, fork by sharing, split on a write fault; the specification is a memory that copies everything at fork |
| BufferLinks, BufferCache, BufferPool | fs/buffer.c: hash chains and the free list as pointer structures, every sleep an arbitrary change that respects what this process holds |
| MinixTree, MinixFs | bitmap.c, _bmap, file_read, file_write and truncate over byte blocks, refining files as byte arrays |
| BucketHeap, BucketMalloc | lib/malloc.c |
| Elevator | add_request, make_request and end_request |
| Pipe | fs/pipe.c |
| TimerList, Scheduler | the timer list, schedule and do_timer of sched.c |
| TtyLine, TtyInput | copy_to_cooked and tty_read |
| ExecArgs | copy_strings, create_tables and the splice for scripts in do_execve |
| Vsprintf | number and skip_atoi |
| Wrappers, Links | Option and linked lists of indices, which several models use |

Concurrent parts are state machines: a state, a step for each process or event, and theorems over every run. Code that
updates memory in place is a class whose methods are proved against functions on values; the properties are lemmas about
those functions, or are what the methods ensure. Table sizes (slots, frames, buffers, blocks, tasks) are symbolic unless
the code computes with the number.

What the code does differently from what one would expect, and what is proved about it:

- lamport.h: when all slots are taken a process gets slot 0, which the scan of lines 47-53 leaves out.
  lamportUnlock does not clear its ticket either. `Bakery.ExclusionExactly` and `Bakery.ProgressExactly` prove that the
  lock excludes, and does not deadlock, exactly if slot 0 is not in use.
- lamport.h: two processes that register at once can get the same slot. `Bakery.SameSlotExactly` says exactly when.
- sem_wait on a free entry sleeps on its queue, which sem_open empties when it creates a semaphore there.
  `SemQueue.NobodyForgottenExactly` proves that no waiter is forgotten exactly if no semaphore is created over a queue.
- add_timer delays every later request by the new one's own delta. `TimerList.DelayedUnlessLast` says exactly when nobody
  is delayed.
- tty_read in canonical mode goes on past the first line end. `TtyLine.OneLineExactly` says exactly when it returns at
  most one line.
- pc.c line 53 and consumer_00.c line 27 test head instead of iniflag, so that every start empties the queue. The model
  begins after the last of these.
- do_execve of a script without arguments comes out one short in argc. `ExecArgs.StartScript` proves that the splice is
  right exactly when there is at least one argument.
- exec.c line 128 tests an unsigned number for being negative and never fires. `ExecArgs.StaysInsideExactly` says that the
  copy stays inside the table of pages exactly if the strings fit, which is a precondition of `CopyStrings`.
- buffer.c line 166 stores through b_next even when the chain was empty. The model stores only when it was not.
- buffer.c lines 195-197 allow for a held buffer changing identity; it is proved that this cannot happen.
- malloc.c searches before it turns interrupts off, and lines 213-217 look for the predecessor again.
  `BucketMalloc.Allocator.FreeFound` proves that right whatever came between.

## Model

| member | source | states |
|---|---|---|
| Bakery.MutualExclusion | oslab/linux-0.11/include/linux/lamport.h:45-60 | for every interleaving of single loads and stores by registered processes, no two of them hold the lock at once |
| Bakery.FirstComeFirstServed | oslab/linux-0.11/include/linux/lamport.h:54-60 | a process that has published its ticket before another starts choosing holds and releases the lock before the other ever holds it |
| Bakery.NoDeadlock | oslab/linux-0.11/include/linux/lamport.h:56-60 | in every reachable state of slots from 1 on with somebody inside the lock code or holding the lock, some such process has a step that changes the state |
| Bakery.NoStarvation | oslab/linux-0.11/include/linux/lamport.h:45-60 | when in each round every process that has begun to lock moves at least once, such a process holds the lock within a number of rounds that depends on the number of slots only; the others may stay outside or come again and again |
| Bakery.EntersInTime | oslab/linux-0.11/include/linux/lamport.h:45-60 | from any state that meets the invariant, as many such rounds as there is work left suffice |
| Bakery.LessWork | oslab/linux-0.11/include/linux/lamport.h:45-60 | no step adds to the work left before a waiting process enters, and each that brings it nearer takes from it |
| Bakery.ProgressExactly | oslab/linux-0.11/include/linux/lamport.h:22-84 | of the slots in use, one being 1 or more, no run ends with everybody stuck exactly if slot 0 is not in use |
| Bakery.SlotZeroDeadlocks | oslab/linux-0.11/include/linux/lamport.h:63-84 | lamportUnlock never clears the ticket of slot 0: after one use of it a process of any other slot can be stuck with nobody else locking |
| Bakery.StrandedForGood | oslab/linux-0.11/include/linux/lamport.h:58-59 | a process behind the ticket left in slot 0 stays there, whatever the slots from 1 on do |
| Bakery.RunKeepsInv | oslab/linux-0.11/include/linux/lamport.h:45-82 | the bakery invariant (own cells fit the program counter, every test passed so far is justified) over every run |
| Bakery.StepKeepsInv | oslab/linux-0.11/include/linux/lamport.h:45-82 | each single load or store by a registered process keeps the invariant |
| Bakery.StepKeepsOrder | oslab/linux-0.11/include/linux/lamport.h:58-59 | a process that has passed its tests of another stays ahead of it, whatever step anyone takes |
| Bakery.RunKeepsBehind | oslab/linux-0.11/include/linux/lamport.h:45-60 | a process that chose after another had published stays behind it for as long as that one has not released |
| Bakery.FirstTicket | oslab/linux-0.11/include/linux/lamport.h:59 | among the published tickets one comes before all others in the order of line 59 |
| Bakery.Register | oslab/linux-0.11/include/linux/lamport.h:25-44 | the slot found: the first of the process's own, else the last free one, else slot 0; only that slot is written, with the pid |
| Bakery.RegistrationKeepsSlotsDistinct | oslab/linux-0.11/include/linux/lamport.h:25-44 | registering into a slot from 1 on, one process after the other, keeps one slot per process |
| Bakery.SameSlotExactly | oslab/linux-0.11/include/linux/lamport.h:25-44 | for any table and any number of processes registering at once, load by load: two of them get the same slot exactly if at some moment neither has stored its pid, the same slot is the last free one both have found, and nothing is left ahead that either would take instead |
| Bakery.MetOnTheWay | oslab/linux-0.11/include/linux/lamport.h:25-44 | what each process has seen and taken, over every interleaving |
| Bakery.RegStepMoves | oslab/linux-0.11/include/linux/lamport.h:25-44 | each load or store brings a registering process nearer to its slot, which it then keeps |
| Bakery.ExclusionExactly | oslab/linux-0.11/include/linux/lamport.h:22-61 | of the slots in use, one being 1 or more, at most one holds the lock over every run exactly if slot 0 is not in use |
| Bakery.SlotZeroBreaksExclusion | oslab/linux-0.11/include/linux/lamport.h:47-53 | slot 0 is never read by the scan: for any number of slots and any other slot a run of these two ends with both holding the lock |
| SemQueue.NoLostWakeup | oslab/linux-0.11/kernel/sem.c:148-164 | as long as no semaphore has been created over a queue: whenever a semaphore has a unit its queue is empty, and every blocked waiter ends a chain of sleepers, linked by their saved queue heads, whose first task is runnable |
| SemQueue.WaitersAreReached | oslab/linux-0.11/kernel/sem.c:148-216 | from every such state with a unit, already woken tasks alone can run so that a given blocked waiter is woken, and the first of them takes a unit |
| SemQueue.ChainWakesLast | oslab/linux-0.11/kernel/sched.c:157-171 | resuming the tasks of a chain in order wakes its last one |
| SemQueue.ResumeHead | oslab/linux-0.11/kernel/sched.c:165-170 | the first task of a chain, resumed, hands its place to the next, and takes a unit when there is one |
| SemQueue.ClimbToWoken | oslab/linux-0.11/kernel/sched.c:157-200 | following the saved queue heads back from any sleeper ends at a woken task: the chains are acyclic |
| SemQueue.ReachableInv | oslab/linux-0.11/kernel/sem.c:118-218 | in every state reachable without creating over a queue, a nonempty queue implies value 0, the chains are disjoint, and nobody sleeps without a task to wake it |
| SemQueue.StepKeepsInv | oslab/linux-0.11/kernel/sem.c:118-218 | each wait, post and resumption keeps that invariant, and so does creating a semaphore in an entry with an empty queue |
| SemQueue.NobodyForgottenExactly | oslab/linux-0.11/kernel/sem.c:85-93 | after any run from the start, some queue or sleeper leads to every blocked waiter if and only if no semaphore was created in an entry whose queue was nonempty |
| SemQueue.ForgottenStays | oslab/linux-0.11/kernel/sem.c:85-93 | a waiter that no queue and no sleeper leads to stays blocked, whatever anybody does |
| SemQueue.CreateStrands | oslab/linux-0.11/kernel/sem.c:85-135 | a wait on a free entry, whose number is 0, and an open that creates there leave the waiter blocked for good, whatever the value |
| SemQueue.ValueIsConserved | oslab/linux-0.11/kernel/sem.c:164-209 | value plus completed waits equals the value at the start plus posts, over every run in which the semaphore is not created anew |
| SemQueue.KernelName | oslab/linux-0.11/kernel/sem.c:57-71 | the name the kernel keeps is the longest prefix without a zero, of at most 19 characters |
| SemQueue.SemTable.constructor | oslab/linux-0.11/kernel/sem.c:28-40 | a fresh table has no names, no queues and no sleepers |
| SemQueue.SemTable.SysSemOpen | oslab/linux-0.11/kernel/sem.c:72-116 | which opens succeed; a known name gets one more opener and keeps its value, a new one the first free entry with the given value; all other entries are as before; only creating changes the state of the protocol, by the step of its model; the entry given is the first with its number |
| SemQueue.SemTable.FindName | oslab/linux-0.11/kernel/sem.c:72-82 | the first entry with the name, and the first free one before it |
| SemQueue.SemTable.FindSem | oslab/linux-0.11/kernel/sem.c:123-141 | the first entry with the number pointed at; None exactly for a null pointer or a number no entry has |
| SemQueue.SemTable.SysSemWait | oslab/linux-0.11/kernel/sem.c:118-173 | it acts on the first entry with the number pointed at, and the number sem_open gave leads to the entry it gave; None, which is -1, with nothing changed exactly for a null pointer or a number no entry has; else the step of the protocol model, and whether it completed or fell asleep |
| SemQueue.SemTable.WaiterResumes | oslab/linux-0.11/kernel/sched.c:168-170 | a sleeper that runs again wakes the task it had saved and goes back to testing the value |
| SemQueue.SemTable.SysSemPost | oslab/linux-0.11/kernel/sem.c:176-218 | it acts on the first entry with the number pointed at, and the number sem_open gave leads to the entry it gave; None, which is -1, with nothing changed exactly for a null pointer or a number no entry has; else the step of the protocol model: one unit more, queue emptied, its head runnable |
| SemQueue.SemTable.WaitLoop | oslab/linux-0.11/kernel/sem.c:148-167 | the loop takes a unit exactly if there was one, and otherwise leaves the task asleep at the head of the queue |
| SemQueue.SemTable.SleepOn | oslab/linux-0.11/kernel/sched.c:157-168 | the caller becomes the queue head and remembers the old one |
| SemQueue.SemTable.WakeUp | oslab/linux-0.11/kernel/sched.c:194-200 | only the queue head becomes runnable, and the queue is empty |
| ProducerConsumer.ValuesLeaveInOrder | test6/pc.c:63-76 | over every interleaving the values read are 1, 2, 3, ... each once, and the ring holds exactly the written and unread rest |
| ProducerConsumer.RingNeverRefuses | test6/sem_shm.c:158-188 | the producer never finds the ring full and no consumer finds it empty |
| ProducerConsumer.NoDeadlock | test6/consumer_00/consumer_00.c:37-70 | until every process has left, some process can make its next call |
| ProducerConsumer.EveryRunCompletes | test6/consumer_00/consumer_00.c:60-70 | every run is bounded, and one that cannot go on has read exactly 1..goal and seen every process exit |
| ProducerConsumer.Test6Completes | test6/pc.c:63-76 | with 300 values, 8 places and 8 consumers every maximal run reads 1..300 and everybody exits |
| ProducerConsumer.RunKeepsInv | test6/consumer_00/consumer_00.c:37-70 | one holder of the mutex, tokens accounted for on both sides of the end flag, ring contents fixed by what was written and read |
| ProducerConsumer.GetFindsNext | test6/consumer_00/consumer_00.c:44-50 | a consumer about to take a value finds the next one in order |
| ProducerConsumer.StepDoesWork | test6/consumer_00/consumer_00.c:37-70 | every call brings the run nearer its end by a fixed measure |
| ProducerConsumer.PutAppends | test6/sem_shm.c:176-188 | storing a value in a ring with room appends it to the contents |
| ProducerConsumer.GetTakesFirst | test6/sem_shm.c:158-174 | taking from a nonempty ring removes and returns its oldest value |
| ProducerConsumer.RingTests | test6/sem_shm.c:134-156 | the empty and full tests say what they claim about the contents |
| ProducerConsumer.SharedQuene.GetQueneValue | test6/sem_shm.c:158-174 | on an empty ring -1 and no change, else the oldest value is taken off |
| ProducerConsumer.SharedQuene.PutQueneValue | test6/sem_shm.c:176-188 | on a full ring no change, else the value is appended |
| CopyOnWrite.Run | oslab/linux-0.11/mm/memory.c:105-335 | for every run of forks, user stores, shares and exits, what all tasks see is what the eager model, which copies everything at fork, gives them; every event ends as it must in the memory it finds and leaves just the page tables it should; when all tasks have gone every count is what the kernel holds; and what every event makes of the dirty bits |
| CopyOnWrite.StoredIsNotShared | oslab/linux-0.11/mm/memory.c:292-335 | over every run from a memory without page tables, a page its task has stored into since it got it, or that the task it was forked from had stored into before that fork, is never shared with another task; exactly when a share is refused |
| CopyOnWrite.DirtyExactly | oslab/linux-0.11/mm/memory.c:173-185 | over every such run the dirty bits say exactly which pages have been stored into |
| CopyOnWrite.LetsThrough | oslab/linux-0.11/mm/memory.c:216 | a mapped page is one the MMU lets user mode read, and write if its entry is writable: directory and user bits never stand in the way |
| CopyOnWrite.FreeSlotNotRefused | oslab/linux-0.11/mm/memory.c:164-165 | over every run from a memory without page tables, a fork into a slot nobody was forked into or acted from since its last exit never meets the panic of copy_page_tables |
| CopyOnWrite.AllFramesReturned | oslab/linux-0.11/mm/memory.c:105-131 | over every such run, once all tasks have gone nothing is mapped and no frame has leaked |
| CopyOnWrite.RunBelongs | oslab/linux-0.11/mm/memory.c:150-189 | page tables belong to tasks that are there, over every run |
| CopyOnWrite.RunningExactly | oslab/linux-0.11/kernel/fork.c:39-62 | a task counts as running exactly if a fork made it, or it acted, and it has not gone since |
| CopyOnWrite.FollowsIsEager | oslab/linux-0.11/mm/memory.c:105-335 | a run whose steps each do what the eager model does comes to what the eager run does |
| CopyOnWrite.Apply | oslab/linux-0.11/mm/memory.c:105-335 | the same for one event: how it ends, exactly (a fork is refused for a slot in use and fails with fewer frames free than the parent has page tables; a store fails with fewer frames free than it needs; an exit never), and which page tables there are afterwards; and that a store sets the dirty bit of its page, a child gets those of its parent, and all other pages keep theirs |
| EagerMemory.MemoryIsPrivate | oslab/linux-0.11/mm/memory.c:221-259 | in the eager model, whatever other tasks do leaves a task's memory as it was |
| EagerMemory.ChildIsCopy | oslab/linux-0.11/kernel/fork.c:52-61 | right after a fork the child's memory is the parent's, page for page |
| EagerMemory.EagerStepIs | oslab/linux-0.11/mm/memory.c:105-335 | what each page of each task is after a store, a fork, a share, an exit, or for want of memory |
| EagerMemory.CopyIsFork | oslab/linux-0.11/mm/memory.c:150-189 | sharing every page of all 16 directory entries gives exactly the eager fork |
| EagerMemory.CopyUndone | oslab/linux-0.11/kernel/fork.c:56-60 | freeing the child's range undoes a copy broken off anywhere |
| CopyOnWrite.Memory.CopyMem | oslab/linux-0.11/kernel/fork.c:39-62 | a fork up to the data limit, with a page table for each of the parent's, or, when memory runs out midway, nothing: every count, table, mapping and page is as before; it succeeds exactly with a free frame for each page table; the parent keeps its dirty bits and the child has the same ones |
| CopyOnWrite.Memory.CopyPageTables | oslab/linux-0.11/mm/memory.c:150-189 | some first directory entries are copied by sharing, all of them unless no frame is left for the next, each that has a table taking one; other tables stay |
| CopyOnWrite.Memory.CopyDirEntry | oslab/linux-0.11/mm/memory.c:163-186 | one directory entry is copied, or nothing changes because no frame is left |
| CopyOnWrite.Memory.CopyEntries | oslab/linux-0.11/mm/memory.c:173-185 | one page table is copied by sharing its frames read-only, dirty bits included |
| CopyOnWrite.Memory.FreePageTables | oslab/linux-0.11/mm/memory.c:105-131 | the pages of the range are gone from what tasks see and from the tables, nothing else |
| CopyOnWrite.Memory.FreeEntry | oslab/linux-0.11/mm/memory.c:120-124 | one page is unmapped, one reference less |
| CopyOnWrite.Memory.GetFreePage | oslab/linux-0.11/mm/memory.c:63-83 | the highest free frame, zeroed and counted once, if and only if there is one |
| CopyOnWrite.Memory.FreePage | oslab/linux-0.11/mm/memory.c:89-99 | one reference less on a managed frame; low frames are ignored |
| CopyOnWrite.Memory.UnWpPage | oslab/linux-0.11/mm/memory.c:221-238 | the page is writable afterwards and no task sees a difference; it fails exactly when the frame is shared and none is free; no other page's dirty bit changes |
| CopyOnWrite.Memory.PutPage | oslab/linux-0.11/mm/memory.c:197-219 | a held frame is mapped where nothing was, with a page table there and no other new one; or nothing changes, exactly if the table is missing and no frame is free for it |
| CopyOnWrite.Memory.GetEmptyPage | oslab/linux-0.11/mm/memory.c:274-282 | a fresh zero page is mapped for writing, with a page table there and no other new one, or nothing changes; it fails exactly with no frame free, or one if the table is missing |
| CopyOnWrite.Memory.Fault | oslab/linux-0.11/mm/memory.c:221-282 | after the fault the page is there and writable, with a page table there and no other new one, and nobody sees a difference but zeros where nothing was; it fails exactly with fewer frames free than it needs |
| CopyOnWrite.Memory.UserStore | oslab/linux-0.11/mm/memory.c:221-282 | a user store, after the page fault it may cause, changes that word of that task's page only; at most the page table of its page is new; it fails exactly with fewer frames free than it needs; the page is dirty then, and all others keep their dirty bits |
| CopyOnWrite.Memory.UserLoad | oslab/linux-0.11/mm/memory.c:366-378 | a load finds the word the task last stored there, zero on a page never touched |
| CopyOnWrite.Memory.TryToShare | oslab/linux-0.11/mm/memory.c:292-335 | the clean page is mapped at the same place in the other task, write-protected in both, with at most the page table of that place new; exactly when it is refused and when memory runs out; all other dirty bits stay |
| CopyOnWrite.DoExit | oslab/linux-0.11/kernel/exit.c:105-106 | the exiting task's pages and page tables are gone, all others as before |
| CopyOnWrite.SplitPage | oslab/linux-0.11/mm/memory.c:231-237 | giving one user a copy of a shared frame keeps all accounts and what everybody sees |
| CopyOnWrite.SameCounts | oslab/linux-0.11/mm/memory.c:114-126 | the same mappings and tables determine the same counts |
| FrameAccounts.UserCountBound | oslab/linux-0.11/mm/memory.c:183 | a user frame is counted at least once and at most once per task, so the byte never wraps |
| FrameAccounts.CountOneMeansAlone | oslab/linux-0.11/mm/memory.c:226 | count 1 means that nobody else maps the frame, and conversely |
| FrameAccounts.CountsDetermined | oslab/linux-0.11/mm/memory.c:57 | counts are a function of page-table entries, directory entries and the kernel's own references |
| FrameAccounts.AllocateGood | oslab/linux-0.11/mm/memory.c:63-83 | taking a free frame keeps the accounts |
| FrameAccounts.InstallGood | oslab/linux-0.11/mm/memory.c:216 | mapping a held frame keeps the accounts |
| FrameAccounts.ShareGood | oslab/linux-0.11/mm/memory.c:177-184 | sharing a frame read-only at the same place of another task keeps the accounts; the count stays below 255 |
| FrameAccounts.UnmapGood | oslab/linux-0.11/mm/memory.c:121-123 | unmapping keeps the accounts, and the count was positive |
| FrameAccounts.UnprotectGood | oslab/linux-0.11/mm/memory.c:226-227 | making the only mapping writable keeps the accounts |
| FrameAccounts.AddTableGood | oslab/linux-0.11/mm/memory.c:169-171 | a held frame becomes a page table |
| FrameAccounts.DropTableGood | oslab/linux-0.11/mm/memory.c:126-127 | an empty page table goes, and was counted exactly once |
| PageTables.SetEntryChanges | oslab/linux-0.11/mm/memory.c:178-180 | a store to one page-table entry changes that mapping only and no page any task sees |
| PageTables.SharePage | oslab/linux-0.11/mm/memory.c:177-184 | the stores of a share keep the invariant and give the second task the same page |
| PageTables.UnmapPage | oslab/linux-0.11/mm/memory.c:121-123 | the stores of an unmapping keep the invariant and take away that page only |
| PageTables.MappedCount | oslab/linux-0.11/mm/memory.c:183 | a mapped frame's byte in mem_map is between 1 and the number of tasks |
| PageTables.WriterFacts | oslab/linux-0.11/mm/memory.c:226-227 | nobody else maps the frame of a writable page |
| PageTables.StoreWord | oslab/linux-0.11/mm/memory.c:221-238 | a store through a writable entry changes one page of one task |
| BufferCache.EvictionLosesNothing | oslab/linux-0.11/fs/buffer.c:227-253 | reusing a clean, unlocked buffer for an uncached block leaves the contents of every block as they were and caches no block twice |
| BufferCache.PoliteStepsRespect | oslab/linux-0.11/fs/buffer.c:134-264 | if every process only does what this model lets it do between sleeps, then across any other's step a held buffer keeps its identity, a locked one stays locked, and the counts stay exact |
| BufferCache.RemoveOK | oslab/linux-0.11/fs/buffer.c:134-150 | taking a buffer out leaves every other identified buffer in exactly its own chain and the free list a ring of the others |
| BufferCache.InsertOK | oslab/linux-0.11/fs/buffer.c:152-167 | putting it back makes the free list a ring of all buffers with it last, and puts it in exactly its own chain |
| BufferCache.ReidentifyLinks | oslab/linux-0.11/fs/buffer.c:246-252 | the whole change of identity keeps both structures, and every other buffer, as they should be |
| BufferLinks.UnhashOne | oslab/linux-0.11/fs/buffer.c:137-142 | unlinking from a doubly linked chain gives the chain without that buffer |
| BufferLinks.HashIs | oslab/linux-0.11/fs/buffer.c:131 | the hash is the exclusive or of device and block, bit by bit, divided by 307 |
| BufferLinks.UnlistOne | oslab/linux-0.11/fs/buffer.c:146-149 | unlinking from the ring gives the ring without that buffer |
| BufferLinks.ListOne | oslab/linux-0.11/fs/buffer.c:155-158 | the four stores put a buffer at the end of the ring |
| BufferLinks.HashOne | oslab/linux-0.11/fs/buffer.c:160-166 | the stores put a buffer at the head of its chain |
| BufferPool.Pool.FindBuffer | oslab/linux-0.11/fs/buffer.c:169-177 | walking one hash chain finds what a search of all buffers would find |
| BufferPool.Pool.GetHashTable | oslab/linux-0.11/fs/buffer.c:186-199 | the cached buffer, unlocked and with one more reference, or NULL with nothing changed; the retry of line 197 never happens; it does not sleep for a buffer that is not locked |
| BufferPool.Pool.ScanFree | oslab/linux-0.11/fs/buffer.c:216-226 | of the unheld buffers one that is dirty only if all of them are, locked only if all those as dirty as it are, and the first on the free list of its kind; NULL exactly if all are held |
| BufferPool.Pool.Settle | oslab/linux-0.11/fs/buffer.c:231-240 | afterwards the chosen buffer is unlocked and clean, or somebody took it while this process slept; a clean one is ready at once; it gives up only because somebody took it |
| BufferPool.Pool.TakeOver | oslab/linux-0.11/fs/buffer.c:246-252 | the buffer has the new identity, is last on the free list, and no block's contents changed |
| BufferPool.Pool.TakeFree | oslab/linux-0.11/fs/buffer.c:211-252 | one turn for an uncached block: it takes over a buffer that is unheld, unlocked and clean at that moment, or it has slept; with such a buffer there it does not sleep; what it takes over, or waits for, is what the scan picked in the pool it found |
| BufferPool.Pool.GetBlk | oslab/linux-0.11/fs/buffer.c:209-254 | across all sleeps: the one buffer of the block, unlocked, with one more reference; buffers held before keep their identity; a block cached and unlocked is found, and an uncached one gets the first unheld, unlocked and clean buffer of the free list, without a sleep and with no block changing its contents; it scans at once for an uncached block, every scan picks as it should, and the buffer taken over is the last one picked |
| BufferPool.Pool.Brelse | oslab/linux-0.11/fs/buffer.c:256-264 | one reference less, nothing for NULL, and at once if the buffer is not locked; the panic cannot happen for a buffer the caller holds |
| BufferPool.Pool.Bread | oslab/linux-0.11/fs/buffer.c:270-284 | a valid buffer of the block holding what the block holds, at once if it is cached, unlocked and valid; or NULL with no reference kept, without a sleep exactly if there is no valid buffer and no driver or one that fails at once, and then no block changes its contents |
| BufferPool.Pool.RemoveFromQueues | oslab/linux-0.11/fs/buffer.c:134-150 | the stores into the buffer heads and the table are the removal the invariants are proved for |
| BufferPool.Pool.InsertIntoQueues | oslab/linux-0.11/fs/buffer.c:152-167 | the same for the insertion, with the store of line 166 guarded |
| BufferPool.Pool.LlRwBlock | oslab/linux-0.11/kernel/blk_drv/ll_rw_blk.c:88-155 | without a driver nothing; else the buffer is locked for I/O or already served, and no longer dirty, or there was nothing to do; exactly that if nobody slept; a request ahead never sleeps and may be forgotten |
| BufferPool.RequestKeepsContents | oslab/linux-0.11/kernel/blk_drv/ll_rw_blk.c:64-155 | a request that need not wait leaves what every block holds as it is, unless it writes changed data and fails at once |
| BufferPool.RequestedIs | oslab/linux-0.11/kernel/blk_drv/ll_rw_blk.c:64-155 | what a request comes to for each kind of driver: flags, data and disk |
| BufferPool.ServedKeeps | oslab/linux-0.11/kernel/blk_drv/ramdisk.c:23-47 | a request served within the call keeps the links, the uniqueness and what every process relies on |
| BufferPool.Pool.ReadIn | oslab/linux-0.11/fs/buffer.c:278-281 | without a sleep the buffer is unlocked, valid exactly if it was or the driver does not fail, and no block changes its contents |
| BufferPool.Pool.SyncRound | oslab/linux-0.11/fs/buffer.c:67-74 | unless it slept or there is no driver, no buffer of the device is dirty afterwards; it has waited for all that were locked, and no other buffer changes |
| BufferPool.Pool.SyncDev | oslab/linux-0.11/fs/buffer.c:62-85 | everything the caller relies on holds afterwards, and it has slept; unless it sleeps more than once, no buffer of the device is dirty when the inodes are synced, nor at the end |
| BufferPool.Pool.WaitOnBuffer | oslab/linux-0.11/fs/buffer.c:39-45 | the buffer is unlocked; if nobody slept, nothing changed; it does not sleep for a buffer that is not locked |
| BufferPool.Pool.constructor | oslab/linux-0.11/fs/buffer.c:351-384 | all buffers free and unidentified on one ring, every block reading from disk |
| MinixTree.OwnershipExact | oslab/linux-0.11/fs/bitmap.c:47-105 | a data block's bit is set exactly if the block is in some file's tree, and it is in one place of one file |
| MinixTree.BlockIs | oslab/linux-0.11/fs/inode.c:72-138 | block n of a file is zone n for n below 7, short n - 7 of the table at zone 7 below 519, and a short of a table at zone 8 beyond, little-endian |
| MinixTree.ByteIs | oslab/linux-0.11/fs/file_dev.c:24-43 | byte j of block n is byte 1024 * n + j of the file; a hole reads as zeros |
| MinixTree.GrownGood | oslab/linux-0.11/fs/inode.c:72-138 | taking a block into a tree keeps ownership exact and lets every file read as before, the new block being zeros where a hole was |
| MinixTree.StoreGains | oslab/linux-0.11/fs/inode.c:101-136 | storing a zeroed block at an empty place changes what is at that place, and at no other place of any file |
| MinixTree.SameFile | oslab/linux-0.11/fs/inode.c:72-138 | a file's tree depends on its inode and its own table blocks only |
| MinixTree.DataStored | oslab/linux-0.11/fs/file_dev.c:69-81 | storing into a data block of one file changes those bytes of that file only |
| MinixTree.FreedAll | oslab/linux-0.11/fs/truncate.c:47-64 | with a file's places all given up, exactly its blocks are free and every other file is untouched |
| MinixTree.SetShortIs | oslab/linux-0.11/fs/inode.c:103 | writing one short of a block changes that entry only |
| MinixFs.Device.NewBlock | oslab/linux-0.11/fs/bitmap.c:75-105 | the lowest free block, zeroed, or 0 exactly when all data blocks are taken; the bits past the last zone are never used; which bit that is |
| MinixFs.Device.FindFirstZero | oslab/linux-0.11/fs/bitmap.c:31-45 | the first clear bit of one bitmap block |
| MinixFs.Device.FreeBlock | oslab/linux-0.11/fs/bitmap.c:47-73 | that bit is cleared and nothing else but that block's contents |
| MinixFs.Device.Bmap | oslab/linux-0.11/fs/inode.c:72-138 | the block at that position of the file, through all three levels; no file reads differently; with create it takes a block for each empty place on the way to it and for no other, and fails exactly if fewer are free; where on the device the number comes from: the inode, the table at zone 7, or the tables at zone 8 |
| MinixFs.Device.ZoneSlot | oslab/linux-0.11/fs/inode.c:81-96 | one zone of the inode looked up, or filled |
| MinixFs.Device.EntrySlot | oslab/linux-0.11/fs/inode.c:100-107 | one entry of a table block looked up, or filled |
| MinixFs.Device.FileRead | oslab/linux-0.11/fs/file_dev.c:17-46 | exactly the bytes of the file from the position on, holes as zeros, and the position moved |
| MinixFs.Device.FileWrite | oslab/linux-0.11/fs/file_dev.c:48-90 | the first n bytes are in the file at the position, no other byte of any file differs, the size is as needed, growing only to where the bytes end; it takes the blocks missing on the way to the bytes and no other, and n is short exactly if fewer of them were free, ending before the first block that could not be had |
| MinixFs.EnoughExactly | oslab/linux-0.11/fs/file_dev.c:48-90 | what was taken decides whether a write is short |
| MinixFs.RunOps | oslab/linux-0.11/fs/file_dev.c:17-90 | for every run of reads, writes and truncations of any files, the files are arrays of bytes: each read gives the slice of the array, each write lays its bytes over it, and how much it writes is decided by the free blocks |
| MinixFs.ServesIsArrays | oslab/linux-0.11/fs/file_dev.c:17-90 | operations that each do what arrays do come to what they do to arrays |
| MinixFs.ChunkWritten | oslab/linux-0.11/fs/file_dev.c:64-83 | one turn of the loop extends what is written by one chunk |
| MinixFs.Device.Truncate | oslab/linux-0.11/fs/truncate.c:47-64 | regular files and directories lose exactly the blocks of their tree, each freed once; others are left alone |
| MinixFs.Device.FreeInd | oslab/linux-0.11/fs/truncate.c:11-27 | a table block and exactly the blocks it names are freed, none of them twice |
| MinixFs.Device.FreeDind | oslab/linux-0.11/fs/truncate.c:29-45 | the double indirect table and everything below it is freed |
| MinixFs.WriteIsOverlay | oslab/linux-0.11/fs/file_dev.c:48-90 | a file is an array of bytes: a write lays its bytes over the array, a gap past the old end being zeros, and no other file's array changes |
| MinixFs.TruncateEmpties | oslab/linux-0.11/fs/truncate.c:47-64 | after truncate the array is empty, the others as before |
| MinixFs.FreshDevice | oslab/linux-0.11/fs/bitmap.c:47-105 | a device just made, with any inodes that have no zones yet, meets the invariants |
| BucketMalloc.Allocator.Malloc | oslab/linux-0.11/lib/malloc.c:117-173 | a new object of the smallest sufficient bucket; the live objects are the old ones and it; nothing they hold is overwritten; no page is lost; it takes none, one or two spare pages, just as many as it needs, and fails exactly if there are fewer; the bucket has the least power of two from 16 on that is enough; the object is the first free one of the first page of the bucket with any, else the beginning of a spare page |
| BucketMalloc.Allocator.FreeS | oslab/linux-0.11/lib/malloc.c:182-231 | that object is no longer live, all others are, nothing they hold is overwritten, no page is lost; with any size hint up to its own |
| BucketMalloc.Allocator.FreeFound | oslab/linux-0.11/lib/malloc.c:203-231 | the same for a search that was interrupted: whatever came between, as long as the object is live |
| BucketMalloc.Allocator.Predecessor | oslab/linux-0.11/lib/malloc.c:213-217 | the predecessor of the descriptor now, whatever the search found before |
| BucketMalloc.Allocator.StoreInto | oslab/linux-0.11/lib/malloc.c:160-172 | what callers store into objects they have leaves the structure whole |
| BucketHeap.LiveDisjoint | oslab/linux-0.11/lib/malloc.c:160-172 | live objects never overlap |
| BucketHeap.PageAccounted | oslab/linux-0.11/lib/malloc.c:170-207 | in every page refcnt plus the length of the free list is 4096/size, and each slot is free or handed out, not both |
| BucketMalloc.AllReturned | oslab/linux-0.11/lib/malloc.c:208-228 | when no object is live every bucket page has been given back |
| BucketMalloc.Bucket | oslab/linux-0.11/lib/malloc.c:127-129 | the bucket holds the request and the next smaller one would not |
| BucketMalloc.Allocator.InitBucketDesc | oslab/linux-0.11/lib/malloc.c:97-115 | a page of 256 unused descriptors more and one spare page less, nothing else changed; it fails exactly with no spare page |
| BucketMalloc.Allocator.NewBucket | oslab/linux-0.11/lib/malloc.c:146-167 | a fresh page, all of it free, in front of the bucket, and new descriptors if none was unused; it fails exactly if the spare pages do not suffice for that |
| BucketMalloc.Allocator.ThreadPage | oslab/linux-0.11/lib/malloc.c:160-164 | the page is a list of all its slots in order |
| BucketMalloc.Allocator.FirstWithRoom | oslab/linux-0.11/lib/malloc.c:139-141 | the first page of that bucket with a free object, or none has one |
| BucketMalloc.Allocator.FindPage | oslab/linux-0.11/lib/malloc.c:191-203 | the descriptor of the page, its bucket and its predecessor; the panic cannot happen for a live object |
| BucketMalloc.Allocator.DropPage | oslab/linux-0.11/lib/malloc.c:208-228 | the page and its descriptor are given back, the list being mended at the predecessor it has now |
| BucketHeap.PopOK | oslab/linux-0.11/lib/malloc.c:168-170 | handing out the first free object keeps the structure and adds exactly that object to the live ones |
| BucketHeap.PushOK | oslab/linux-0.11/lib/malloc.c:205-207 | taking an object back keeps the structure and removes exactly that object |
| BucketHeap.AddOK | oslab/linux-0.11/lib/malloc.c:152-166 | linking in a fresh page keeps the structure and the live objects |
| BucketHeap.DropOK | oslab/linux-0.11/lib/malloc.c:218-227 | moving an empty page's descriptor to the unused ones keeps the structure and the live objects |
| Elevator.RunKeepsSweeps | oslab/linux-0.11/kernel/blk_drv/ll_rw_blk.c:64-86 | over every history of requests coming and being served, a queue has at most one descent |
| Elevator.RunOrder | oslab/linux-0.11/kernel/blk_drv/blk.h:36-43 | over every history the queue is at most two sweeps, in each of which reads come before writes, devices go up within a command, and sectors go up within a command and device |
| Elevator.SweepOrder | oslab/linux-0.11/kernel/blk_drv/blk.h:36-43 | that order in any queue of two sweeps |
| Elevator.InsertKeepsSweeps | oslab/linux-0.11/kernel/blk_drv/ll_rw_blk.c:78-84 | a request with a new key goes in with two ascending sweeps as before |
| Elevator.SweepsAreOneDescent | oslab/linux-0.11/kernel/blk_drv/blk.h:40-43 | two ascending sweeps are the same as at most one descent |
| Elevator.InsertKeepsRequests | oslab/linux-0.11/kernel/blk_drv/ll_rw_blk.c:78-84 | no request is lost, the one in service stays first, the others keep their order |
| Elevator.Drives.MakeRequest | oslab/linux-0.11/kernel/blk_drv/ll_rw_blk.c:115-142 | the highest free slot the request may use joins the queue of its device, the other queues unchanged; NULL exactly if there is none; writes leave the last third of the slots to reads |
| Elevator.Drives.AddRequest | oslab/linux-0.11/kernel/blk_drv/ll_rw_blk.c:64-86 | the linked list afterwards is the elevator insertion of the old one |
| Elevator.Drives.FindPlace | oslab/linux-0.11/kernel/blk_drv/ll_rw_blk.c:78-82 | the loop stops where the elevator order puts the request |
| Elevator.Drives.EndRequest | oslab/linux-0.11/kernel/blk_drv/blk.h:123-124 | the first request leaves its queue and its slot is free |
| Pipe.FirstInFirstOut | oslab/linux-0.11/fs/pipe.c:13-69 | for any interleaving of chunks, bytes read and bytes still in the pipe together are what was in it and what was written, in order |
| Pipe.OwnShare | oslab/linux-0.11/fs/pipe.c:13-69 | a process alone with the pipe reads all that is read and writes all that is written; one that moves no chunk has no share |
| Pipe.EmptyStart | oslab/linux-0.11/include/linux/fs.h:58-62 | from an empty pipe the bytes read are a prefix of the bytes written, at most 4095 behind |
| Pipe.ReadTakes | oslab/linux-0.11/fs/pipe.c:24-35 | a read chunk takes the oldest bytes, at least one if possible |
| Pipe.WriteAppends | oslab/linux-0.11/fs/pipe.c:54-65 | a write chunk appends without touching unread bytes, at least one unless the pipe is full |
| Pipe.PipeInode.ReadPipe | oslab/linux-0.11/fs/pipe.c:13-39 | among any readers and writers, the bytes returned are its own part of the interleaving: all that were wanted, at least all that were there at the start, and fewer only when it finds the pipe empty and an end closed; with enough in the pipe it does not sleep |
| Pipe.PipeInode.WritePipe | oslab/linux-0.11/fs/pipe.c:41-69 | in the same way: all bytes written, at least as many as there was room for at the start, and fewer only when it finds the pipe full and an end closed, -1 exactly if none; with enough room it does not sleep |
| Pipe.PipeInode.TakeChunk | oslab/linux-0.11/fs/pipe.c:24-35 | one turn of the reading loop is the read chunk |
| Pipe.PipeInode.PutChunk | oslab/linux-0.11/fs/pipe.c:54-65 | one turn of the writing loop is the write chunk |
| TimerList.InsertDue | oslab/linux-0.11/kernel/sched.c:294-306 | a new entry is due exactly when asked, earlier ones as before, later ones by the new entry's own delta later |
| TimerList.DelayedUnlessLast | oslab/linux-0.11/kernel/sched.c:294-306 | nobody is delayed by a new entry exactly if the list is empty or its last entry is due before the new one |
| TimerList.DelayExample | oslab/linux-0.11/kernel/sched.c:294-306 | an entry due in 10 ticks is due in 15 after one for 5 ticks is added |
| TimerList.TickFiresOne | oslab/linux-0.11/kernel/sched.c:325-334 | at most one entry fires per tick, only the first and only when due; all others come one tick nearer; deltas stay positive |
| TimerList.NeverEarly | oslab/linux-0.11/kernel/sched.c:278-335 | whatever is added meanwhile, an entry, followed through every change of its place, is still on the list until its ticks have passed |
| TimerList.OnTime | oslab/linux-0.11/kernel/sched.c:325-334 | with nothing added meanwhile an entry fires at its very tick |
| TimerList.Timers.AddTimer | oslab/linux-0.11/kernel/sched.c:278-309 | the list in the table becomes the insertion, requests for no time are called at once |
| TimerList.Timers.Bubble | oslab/linux-0.11/kernel/sched.c:297-306 | exchanging contents along the links arrives at the insertion |
| TimerList.Timers.FreeSlot | oslab/linux-0.11/kernel/sched.c:288-290 | the first free slot |
| TimerList.Timers.DoTimer | oslab/linux-0.11/kernel/sched.c:325-334 | what is called, and the list after the tick and after the requests the called function makes, which come in before the loop goes on |
| Scheduler.BoundedWait | oslab/linux-0.11/kernel/sched.c:124-146 | a runnable task is picked within the others' counters, one recharge of theirs if its own is zero, and one tick if the idle task runs, whatever sleeps, exits and wakes there are |
| Scheduler.SchedulePicks | oslab/linux-0.11/kernel/sched.c:124-146 | the pick is runnable, has the highest counter and then number, and ticks left; idle only if nobody is runnable; it recharges exactly when there are runnable tasks and all their counters are zero |
| Scheduler.RechargeBounded | oslab/linux-0.11/kernel/sched.c:141-144 | recharging never exceeds 2*priority-1, and after it the search succeeds; all but the first task have half of what they had on top of their priority, the idle task and everything else is as before |
| Scheduler.RunKeepsInv | oslab/linux-0.11/kernel/sched.c:338-341 | whoever runs has ticks left and all counters stay bounded, over every run |
| Scheduler.SliceIs | oslab/linux-0.11/kernel/sched.c:338-341 | a task runs for exactly as many ticks as its counter says, and nobody else's counter changes; then the scheduler runs |
| Scheduler.StepEffects | oslab/linux-0.11/kernel/sched.c:124-146 | a task that sleeps or exits is not the one picked, and one that is woken can be |
| Scheduler.StepWaits | oslab/linux-0.11/kernel/sched.c:338-341 | no step lengthens the wait of a runnable task, and each tick shortens it |
| Scheduler.BestPicks | oslab/linux-0.11/kernel/sched.c:127-139 | the inner loop finds the best task or that there is none |
| Scheduler.Cpu.SwitchTask | oslab/linux-0.11/kernel/sched.c:126-145 | the loop ends after at most one recharge, with the scheduled task and counters |
| Scheduler.Cpu.Tick | oslab/linux-0.11/kernel/sched.c:338-341 | a tick in user mode is the step of the run model |
| Scheduler.Cpu.FindBest | oslab/linux-0.11/kernel/sched.c:127-139 | the search loop computes the best task |
| Scheduler.Cpu.Recharge | oslab/linux-0.11/kernel/sched.c:141-144 | every task but the first has half of what it had on top of its priority, and nothing else is changed |
| TtyLine.CookIsTypeAll | oslab/linux-0.11/kernel/chr_drv/tty_io.c:145-226 | canonical input is a line editor with a line of its own folded over the raw characters, up to a full queue |
| TtyLine.ShowsSome | oslab/linux-0.11/kernel/chr_drv/tty_io.c:162-190 | every queue is finished lines followed by a line without terminators, so the editor's view always exists |
| TtyLine.EditIsType | oslab/linux-0.11/kernel/chr_drv/tty_io.c:150-225 | character by character, and finished lines are never touched |
| TtyLine.TypedAs | oslab/linux-0.11/kernel/chr_drv/tty_io.c:150-160 | what a typed character that is no control character comes to in canonical mode: which of CR and NL end the line, are dropped or are kept, which letters become small, and that all others arrive as typed |
| TtyLine.KeysAs | oslab/linux-0.11/kernel/chr_drv/tty_io.c:161-226 | what each control character does to the finished lines, the line being typed, the output and the signals |
| TtyLine.RawAs | oslab/linux-0.11/kernel/chr_drv/tty_io.c:150-160 | the same characters without canonical mode |
| TtyLine.EditAllIsTypeAll | oslab/linux-0.11/kernel/chr_drv/tty_io.c:150-225 | the same for any number of characters |
| TtyLine.SettledStays | oslab/linux-0.11/kernel/chr_drv/tty_io.c:150-225 | whatever is typed, the finished lines (without canonical mode the whole queue) stay at the front of the queue |
| TtyLine.CookReaches | oslab/linux-0.11/kernel/chr_drv/tty_io.c:145-228 | copy_to_cooked has put exactly the characters before the rest through the editor, in order |
| TtyLine.KillTakesLine | oslab/linux-0.11/kernel/chr_drv/tty_io.c:162-176 | kill removes the line being typed and stops at the last line end |
| TtyLine.KilledCount | oslab/linux-0.11/kernel/chr_drv/tty_io.c:164-174 | kill removes no terminator |
| TtyLine.TerminatorsIs | oslab/linux-0.11/kernel/chr_drv/tty_io.c:210-211 | the count kept with the queue is the number of line ends and ends of file in it |
| TtyLine.TakeIs | oslab/linux-0.11/kernel/chr_drv/tty_io.c:261-272 | a read takes a prefix up to the room, the end of file, or all there is; an end of file is consumed, not returned |
| TtyLine.TwoLinesAtOnce | oslab/linux-0.11/kernel/chr_drv/tty_io.c:261-272 | a canonical read can return two lines, where section 11.1.6 of IEEE Std 1003.1-2017 allows one |
| TtyLine.OneLineExactly | oslab/linux-0.11/kernel/chr_drv/tty_io.c:261-272 | it returns at most one line exactly if there was room for no more, there was no more, or an end of file followed |
| TtyInput.Tty.CopyToCooked | oslab/linux-0.11/kernel/chr_drv/tty_io.c:145-228 | the queues afterwards are the fold of the editor, and the terminator count is exact |
| TtyInput.Tty.Cooked | oslab/linux-0.11/kernel/chr_drv/tty_io.c:150-225 | one raw character through the code is one step of the editor |
| TtyInput.Tty.Kill | oslab/linux-0.11/kernel/chr_drv/tty_io.c:164-174 | the kill loop |
| TtyInput.Tty.ReadLoop | oslab/linux-0.11/kernel/chr_drv/tty_io.c:261-272 | the inner loop takes what the specification says and keeps the terminator count exact |
| TtyInput.Tty.ReadRound | oslab/linux-0.11/kernel/chr_drv/tty_io.c:261-272 | without canonical mode all that is taken is given, as much as there is or there is room for; an empty round means an end of file |
| TtyInput.Tty.Wait | oslab/linux-0.11/kernel/chr_drv/tty_io.c:255-259 | while the reader sleeps the queue becomes what the line editor makes of the characters that come in |
| TtyInput.Tty.ReadChars | oslab/linux-0.11/kernel/chr_drv/tty_io.c:246-282 | the loop: what comes in goes through the editor, what is returned is taken from the front of the result |
| TtyInput.Tty.TtyRead | oslab/linux-0.11/kernel/chr_drv/tty_io.c:230-289 | with the queue as the line editor makes it of all that comes in meanwhile, a canonical read takes one round from it, when a line is complete or at most 20 places are left, and leaves the rest; another read takes the next characters in order, at least as many as its minimum and all there are; a read that finds enough does not wait |
| TtyInput.TtyQueue.PutCh | oslab/linux-0.11/include/linux/tty.h:33-34 | the character is appended |
| TtyInput.TtyQueue.GetCh | oslab/linux-0.11/include/linux/tty.h:31-32 | the oldest character is taken off |
| TtyInput.TtyQueue.Dec | oslab/linux-0.11/include/linux/tty.h:25 | the newest character is taken off |
| TtyInput.TtyQueue.Left | oslab/linux-0.11/include/linux/tty.h:27 | the room left, one place always staying empty |
| ExecArgs.StartProgram | oslab/linux-0.11/fs/exec.c:310-334 | following the tables from the stack pointer gives exactly the arguments and the environment, in order, with the right argc; it succeeds exactly if there are as many pages as the strings lie in, and frees them all otherwise |
| ExecArgs.StartScript | oslab/linux-0.11/fs/exec.c:261-284 | an interpreter finds the spliced arguments and the environment exactly if the script was called with at least one argument; what it finds otherwise; how many pages that takes, exactly; where in argv the interpreter finds its name, the argument of the first line, the script and each argument of the script |
| ExecArgs.ParseLine | oslab/linux-0.11/fs/exec.c:239-256 | the interpreter's path, name and argument on the first line of a script; None without a line end or with nothing but blanks before it |
| ExecArgs.ParsedIs | oslab/linux-0.11/fs/exec.c:239-256 | a line made of spaces and tabs, a directory part, a name and perhaps a space or tab and an argument reads back as just these |
| ExecArgs.NoneExactly | oslab/linux-0.11/fs/exec.c:239-246 | ENOEXEC exactly if there is no line end, or nothing but spaces and tabs before the first |
| ExecArgs.CreateTables | oslab/linux-0.11/fs/exec.c:46-70 | two null-ended tables of pointers to the strings laid out above, below them, and argc, argv, envp at the stack pointer |
| ExecArgs.FillTable | oslab/linux-0.11/fs/exec.c:59-68 | each pointer leads to the start of its string |
| ExecArgs.ArgArea.CopyStrings | oslab/linux-0.11/fs/exec.c:104-152 | the strings end up in order just below where it started, the rest of the area untouched, with just the pages got that were missing there; 0 exactly if there are too few; no page is lost either way |
| ExecArgs.ArgArea.CopyString | oslab/linux-0.11/fs/exec.c:120-147 | one string with its zero, across page boundaries, and the pages it takes |
| ExecArgs.ArgArea.Release | oslab/linux-0.11/fs/exec.c:349-351 | every page of the area is free again |
| ExecArgs.NeedsAtFirst | oslab/linux-0.11/fs/exec.c:135-139 | from no pages at all, the strings need one page for each 4096 bytes they reach into |
| ExecArgs.StaysInsideExactly | oslab/linux-0.11/fs/exec.c:127-143 | the copy stays inside the table of pages exactly if the strings fit below where it starts |
| ExecArgs.TooLongExample | oslab/linux-0.11/fs/exec.c:127-143 | a string of 131068 letters, with its zero, runs out of the table |
| ExecArgs.StartNext | oslab/linux-0.11/fs/exec.c:59-67 | where each string of a layout starts and what is there |
| ExecArgs.PutGet | oslab/linux-0.11/fs/exec.c:56-60 | a stored long reads back, others are as before |
| Vsprintf.Number | oslab/linux-0.11/kernel/vsprintf.c:40-92 | what is written for every base, width, precision and flag; None for a base out of range |
| Vsprintf.PrintThenRead | oslab/linux-0.11/kernel/vsprintf.c:18-92 | an int printed in decimal without sign or leading blanks is read back by skip_atoi as the same int, whatever the width, precision and padding, negative ones printed unsigned included |
| Vsprintf.FieldFilled | oslab/linux-0.11/kernel/vsprintf.c:57-90 | the field has the width asked for, or what the number needs |
| Vsprintf.SkipAtoi | oslab/linux-0.11/kernel/vsprintf.c:18-25 | the longest prefix of digits, its value as an int of 32 bits holds it, and what follows |
| Vsprintf.DigitsReadBack | oslab/linux-0.11/kernel/vsprintf.c:18-25 | the digits of a number read back as that number |
| Vsprintf.DigitsAre | oslab/linux-0.11/kernel/vsprintf.c:44-66 | in every base the digits read back as the number, and the first is not 0 |
| Vsprintf.LettersAre | oslab/linux-0.11/kernel/vsprintf.c:44-47 | letters are all small or all capitals, as asked for |
| Vsprintf.ShownIs | oslab/linux-0.11/kernel/vsprintf.c:40-92 | without padding: which sign, which prefix, how many zeros, and the digits |
| Vsprintf.Convert | oslab/linux-0.11/kernel/vsprintf.c:65-66 | the loop produces the digits from the lowest up |

## Left out

- mm/shm.c: its mappings are not counted in mem_map, so the accounting proved here does not extend to it.
- Task 0, the first fork and frames below LOW_MEM: that fork shares low memory on purpose and uncounted.
- Kernel-mode writes, write_verify and the TLB: stores are user stores, which fault.
- do_no_page for pages of an executable: loading from disk is I/O; an absent page is given as zeros or shared by try_to_share.
- CopyOnWrite.Memory.FreePageTables: do_exit calls it for the code and for the data limit; as both segments start at one base, the model makes the one call that covers both.
- CopyOnWrite.Run: every task has the data limit of 64 MB that do_execve sets; `CopyOnWrite.Memory.CopyMem` has any.
- CopyOnWrite.Apply: oom() ends the task; its signals and messages are not part of this model.
- sys_sem_unlink: it drops the queue while tasks may sleep on it; runs are without it.
- SemQueue.SemTable.SysSemOpen: value and opener counts are unbounded numbers.
- Bakery.SameSlotExactly: a slot looked at is loaded once.
- Bakery.MutualExclusion: tickets are unbounded, and lines 51 and 59 each load the other ticket once.
- BufferPool.Pool.Sleep: what other processes and the disk do while one sleeps is any change that keeps the invariant and what this process relies on; that processes give each other exactly this is `BufferCache.PoliteStepsRespect`, that a disk working by interrupts does is assumed, and its interrupts take effect at sleeps.
- BufferPool.Pool.GetBlk: waiting has no bound, so `fuel` says how often the process is resumed before we stop watching; `b_count` is unbounded where the kernel has a byte.
- BufferPool.Pool.SyncDev: sync_inodes counts as a sleep; what it writes is not part of this model.
- breada, bread_page, check_disk_change and invalidate_buffers: variations of what is modelled, or hardware.
- I/O errors in the file system: reads and writes of blocks succeed, and a block being freed is held by nobody else.
- MinixFs.Device.Bmap: the panics for positions past the largest file are preconditions, as is that bit 0 and the bits past the last zone are set.
- MinixFs.Device.FileWrite: sizes and positions are unbounded numbers, and times and dirty flags of inodes are not modelled.
- Inode allocation, directories, mounting: namei.c, super.c and the inode table.
- BucketMalloc.Allocator.Malloc: result 0 stands for the panic when no page can be had.
- BucketMalloc.Allocator.FreeFound: what comes between the search and line 204 is not written out; that `PlacesKept` holds over each call of the others is what Malloc and FreeS ensure.
- Elevator.Drives.MakeRequest: the buffer is locked and has work to do (`BufferPool.Pool.LlRwBlock`), and its key is not queued yet, which one buffer for each block and its lock ensure; waiting for a slot and read-ahead are in the caller.
- Pipe.PipeInode.WritePipe: the signal SIGPIPE.
- Scheduler.Cpu.SwitchTask: the pass over alarms and signals at lines 113-122, and changes of priority.
- Scheduler.Cpu.Tick: ticks that find the kernel, which never reschedule.
- TtyInput.Tty.TtyRead: VTIME, and the busy wait of line 258 when characters but no terminator are there, which is one resumption each time round.
- TtyLine.Edit: echoing and the write queue; tolower is applied to A to Z only, as the table it reads has no entries for negative characters.
- ExecArgs.StartScript: the interpreter's name and argument are parameters; `ExecArgs.ParseLine` says how the first line gives them. Looking the files up and the permission checks of do_execve are not modelled.
- ExecArgs.ArgArea.CopyStrings: the segment register games of from_kmem.
- Vsprintf.SkipAtoi: an int that overflows wraps around, as it does on the machine; the C language leaves that open.
- Signals, job control, floppy timers, drivers, boot code, assembly entry code, /proc, and the system call wrappers.
