# Verified models of a systems study collection

The repository collects systems code: lock-free queues, a red-black tree, the memory manager, file
system, buffer cache, allocator and scheduler of Linux 0.11, a distributed lock client, and a few
algorithms. This project models the parts with the most state and proves what they promise. Every
module stands for one component, and `dafny verify dfyconfig.toml` checks all of them.

* **Queues.** `MpmcRing` is the multi-producer multi-consumer ring as the set of its interleavings, one
  shared access per step. `Ypipe` is the single-writer single-reader pipe with its chunked queue,
  recycled chunk included; identities of freed chunks may be handed out again.
* **Trees.** `RbNodes` and `RbTree` work on heap nodes with parent pointers; a zipper names the place
  in the tree that the loops are at.
* **Memory.** `CowPaging` holds the invariant of page tables and `mem_map` as facts about values;
  `CowMemory` is the code on the directory, tables, counts and page contents. What processes see is
  compared with a machine that copies every page at fork.
* **Files.** `MinixTree` describes block trees and who owns which zone; `MinixFs` is the zone map,
  `_bmap`, reading, writing and truncating, compared with flat byte arrays.
* **Buffers.** `BufferQueues` and `BufferCache` are the hash chains and the free list, with tasks that
  interleave wherever the code can sleep.
* **Allocator.** `BucketHeap` is the kernel's bucket allocator with its free lists threaded through
  the pages; `BucketSearch` is the search of `free_s`, which interrupts can disturb.
* **Scheduling.** `SleepQueue` is the wait list held in the stack variables of the sleepers, and
  `SleepSteps` the same with the stores of `sleep_on` one by one; `Scheduler` is the credit scheduler
  and the timer's part in it.
* **Lock.** `ZkLock` has any number of clients, a server, and messages with any delay.
* **Algorithms.** `Rotate` (cycles counted by a gcd), `Kmp` (tables and search), `DesTables` and
  `Des` (DES, two-key triple DES, encrypted files), with `DesLaws`. `Modular`, `Sequences` and
  `Options` hold what several modules use.

Code that updates things in place is a class or works on arrays and heap nodes; protocols whose
interleavings matter are step systems with theorems over all runs. Some methods take ghost
parameters that name the abstract value of what they are given.

What turned out differently from what one would expect:

* `file_read` cannot tell a hole from a block behind an indirect block that it fails to read: both
  read as zeros (`MinixFs.Fs.FileRead`, function `Seen`).
* `truncate` leaves zones marked that no file leads to any more, exactly if somebody holds their
  buffer or a table above them is unreadable (`MinixFs.Fs.Truncate`, function `Stuck`).
* The file cipher returns the file exactly if it has no NUL byte, because blocks pass through
  `strcpy` and `strlen` (`Des.FileRoundTrip`).
* `kmp` returns 1 for the empty pattern (`Kmp.Search`).
* `sleep_on` is right if and only if no `wake_up` that finds a sleeper on the same queue comes between
  its three stores (`SleepSteps.GoodIffCalm`; `LostSleeper` and `StrayWake` show the two ways it fails).
  Most callers have interrupts off, or sleep on queues that only other processes wake.
  `make_request` does neither: it sleeps on `wait_for_request` with interrupts on
  (kernel/blk_drv/ll_rw_blk.c:129), and `end_request` wakes that queue from the disk interrupt
  (kernel/blk_drv/blk.h:122).
* The search of `free_s` runs with interrupts on. It stays on the chain that it believes to be on if
  and only if no interrupt gives back the page of the descriptor that it stands at
  (`BucketSearch.OnTrackIffCalm`). Otherwise it can panic for a live object, or take a free descriptor
  that had the page before for the owner (`FalsePanic`, `WrongDescriptor`).
* The re-check of the identity in `get_hash_table` never fails, because the count it took protects
  the buffer (`BufferCache.Cache.Resume`).

## Model

| member | source | states |
|---|---|---|
| `MpmcRing.StepKeeps` | cpp/myvsc/cas_queue/ArrayLockFreeQueueImp.h:43-122 | Every shared access of every thread keeps the invariant: index order, one owner per reserved slot, and what each thread's local copies still say about the shared state. |
| `MpmcRing.RunKeeps` | cpp/myvsc/cas_queue/ArrayLockFreeQueueImp.h:9-122 | The invariant holds after any interleaving of any number of producers and consumers. |
| `MpmcRing.FirstInFirstOut` | cpp/myvsc/cas_queue/ArrayLockFreeQueueImp.h:43-122 | In every run each call that has returned is answered by what it did: an enqueue with true exactly if it added one entry, which is the value passed to it, a dequeue with the entry it took; every entry belongs to one enqueue, and those taken are, in order, the first ones added; read <= maximum read <= write < read + size. |
| `MpmcRing.InCallOrder` | cpp/myvsc/cas_queue/ArrayLockFreeQueueImp.h:43-122 | If a call had returned when another one began, what it added or took comes before what the other one adds or takes. |
| `MpmcRing.EnqueueAlone` | cpp/myvsc/cas_queue/ArrayLockFreeQueueImp.h:43-75 | Without other calls under way an enqueue returns after six shared accesses, with false exactly on a full queue, and otherwise with its value added. |
| `MpmcRing.DequeueAlone` | cpp/myvsc/cas_queue/ArrayLockFreeQueueImp.h:84-116 | Without other calls under way a dequeue returns after five shared accesses, with false exactly on an empty queue, and otherwise with the oldest element. |
| `MpmcRing.CountAtRest` | cpp/myvsc/cas_queue/ArrayLockFreeQueueImp.h:63-72 | With no operation under way the counter is the number of elements. |
| `MpmcRing.RefusedIsFull` | cpp/myvsc/cas_queue/ArrayLockFreeQueueImp.h:47-56 | An enqueue that gives up saw a full ring, unless its write index was overtaken. |
| `MpmcRing.EmptyIsEmpty` | cpp/myvsc/cas_queue/ArrayLockFreeQueueImp.h:90-104 | A dequeue that gives up saw an empty ring, unless its read index was overtaken. |
| `Ypipe.NextKeeps` | cpp/myvsc/cas_queue/ypipe.hpp:68-164 | Every step of the writer or the reader keeps the invariant that ties pointers to positions, chunks to the list, and values to what was written. |
| `Ypipe.RunKeeps` | cpp/myvsc/cas_queue/ypipe.hpp:38-164 | The invariant holds in every interleaving, for every chunk size. |
| `Ypipe.ReadIsPrefixOfFlushed` | cpp/myvsc/cas_queue/ypipe.hpp:68-164 | What the reader got is, in order, a prefix of the values that the calls of write passed and unwrite did not take back, and only of those flushed; what is flushed ends with an item that was not written as incomplete; everything from f on is incomplete, so nothing of it is visible. |
| `Ypipe.HistoryIsAccount` | cpp/myvsc/cas_queue/ypipe.hpp:68-122 | Between two calls of the writer, the items and their marks are those of the accepted calls in order, f stands behind the last item not marked incomplete, and w where it did at the last flush. |
| `Ypipe.ReadDelivers` | cpp/myvsc/cas_queue/ypipe.hpp:128-164 | A read finds something exactly if not everything flushed has been read, and delivers the next item, whatever the writer is in the middle of. |
| `Ypipe.MemorySafe` | cpp/myvsc/cas_queue/yqueue.hpp:91-167 | Neither thread touches a freed chunk, the one in the hand of push included, and none is freed twice, although identities are reused. |
| `Ypipe.PointersAreFaithful` | cpp/myvsc/cas_queue/ypipe.hpp:100-150 | Every pointer comparison of the code is true exactly if the positions are the same, chunk recycling notwithstanding. |
| `Ypipe.FalseFlush` | cpp/myvsc/cas_queue/ypipe.hpp:100-122 | flush is false only if the reader had set c to NULL, having read everything flushed. |
| `Ypipe.FlushPublishes` | cpp/myvsc/cas_queue/ypipe.hpp:100-122 | A flush that is done has published everything up to f. |
| `Ypipe.FalseRead` | cpp/myvsc/cas_queue/ypipe.hpp:128-150 | check_read finds nothing exactly if everything flushed has been read. |
| `Ypipe.UnwriteReturnsLast` | cpp/myvsc/cas_queue/ypipe.hpp:85-93 | unwrite takes back exactly the last item, read from memory as unpush leaves it, and only an incomplete one. |
| `RbNodes.RotateLeft` | cpp/myvsc/rb_tree/rb_tree.cpp:84-109 | All links of the four nodes involved and the root after the rotation; keys, data and colours untouched. |
| `RbNodes.RotateRight` | cpp/myvsc/rb_tree/rb_tree.cpp:117-142 | The mirror image. |
| `RbNodes.RotLAt` | cpp/myvsc/rb_tree/rb_tree.cpp:84-109 | In a heap that represents a tree, the rotation represents the rotated tree with the same surroundings. |
| `RbTree.HeightBound` | cpp/myvsc/rb_tree/rb_tree.cpp:293-319 | 2 to the height of a red-black tree is at most (n + 1) squared: depth at most 2 log2(n + 1). |
| `RbTree.SearchAuxiliary` | cpp/myvsc/rb_tree/rb_tree.cpp:293-319 | It finds the node of the key or the place where it belongs and its parent, within the depth bound. |
| `RbTree.Search` | cpp/myvsc/rb_tree/rb_tree.cpp:349-352 | It returns a node exactly if the key is in the tree's map, with the data of that map. |
| `RbTree.InsertRebalance` | cpp/myvsc/rb_tree/rb_tree.cpp:143-200 | From a tree whose only fault is a red node under a red parent, a red-black tree with the same in-order sequence; it terminates. |
| `RbTree.Insert` | cpp/myvsc/rb_tree/rb_tree.cpp:320-348 | Parent links, search order and colours hold again; the map gains exactly the key, or nothing changes if it was there. |
| `RbTree.SiblingExists` | cpp/myvsc/rb_tree/rb_tree.cpp:205-285 | The sibling that the erase loop dereferences is never null. |
| `RbTree.EraseRebalance` | cpp/myvsc/rb_tree/rb_tree.cpp:201-292 | From a tree that is one black short at one place, a red-black tree with the same in-order sequence; it terminates. |
| `RbTree.EraseThin` | cpp/myvsc/rb_tree/rb_tree.cpp:421-459 | Erasing a node with at most one child. |
| `RbTree.EraseFull` | cpp/myvsc/rb_tree/rb_tree.cpp:363-420 | Erasing a node with two children: its successor takes its place, colour and links. |
| `RbTree.Erase` | cpp/myvsc/rb_tree/rb_tree.cpp:353-459 | The tree is valid and its map is the old one minus the key. |
| `RbTree.Run` | cpp/myvsc/rb_tree/rb_tree.cpp:320-459 | After any sequence of insertions and deletions the tree is valid and holds what a map would. |
| `CowPaging.RefsBound` | cpp/linux-0.11/mm/memory.c:150-189 | A frame is mapped by no more processes than there are, which keeps its one-byte count from wrapping. |
| `CowPaging.CountBound` | cpp/linux-0.11/mm/memory.c:57-60 | Every count fits an unsigned char. |
| `CowPaging.ShareOk` | cpp/linux-0.11/mm/memory.c:177-184 | Sharing a frame read-only with one more count keeps counts equal to references, and writable entries exclusive. |
| `CowPaging.UnprotectOk` | cpp/linux-0.11/mm/memory.c:221-238 | Making the only reference writable keeps the invariant. |
| `CowPaging.FinishView` | cpp/linux-0.11/mm/memory.c:150-189 | When all entries have been copied, both processes see what an eager copy would give them. |
| `CowPaging.UndoneCounts` | cpp/linux-0.11/kernel/fork.c:56-59 | Freeing what a partial copy made restores every count. |
| `CowPaging.Conserved` | cpp/linux-0.11/mm/memory.c:57-99 | Free frames, page tables, mapped user frames and frames held by the kernel add up to all frames. |
| `CowMemory.Memory.GetFreePage` | cpp/linux-0.11/mm/memory.c:63-83 | The highest free frame, zeroed and counted once; 0 only if none is free. |
| `CowMemory.Memory.FreePage` | cpp/linux-0.11/mm/memory.c:89-99 | One count fewer; low memory is left alone; panic exactly for a frame that is free or does not exist. |
| `CowMemory.Memory.FreeTable` | cpp/linux-0.11/mm/memory.c:117-127 | Exactly the entries of one table are vacated, then the table and its directory entry; as many frames become free as are no longer mapped, and one for the table. |
| `CowMemory.Memory.FreePageTables` | cpp/linux-0.11/mm/memory.c:105-131 | Exactly the given range is vacated, tables included; other processes see the same; the frames that nobody else maps, and those of the tables, are free again. |
| `CowMemory.Memory.CopyEntry` | cpp/linux-0.11/mm/memory.c:173-185 | One entry is shared read-only and counted, or skipped if absent. |
| `CowMemory.Memory.CopyTable` | cpp/linux-0.11/mm/memory.c:172-185 | After the inner loop the entries of both tables are as in the finished copy, the rest as before. |
| `CowMemory.Memory.CopyPageTables` | cpp/linux-0.11/mm/memory.c:150-189 | On success the view is that of an eager copy, with a table exactly where the source has one and a frame less for each; counts equal references throughout; panic only for an occupied target; out of memory exactly if there are fewer free frames than source tables. |
| `CowMemory.Memory.CopyMem` | cpp/linux-0.11/kernel/fork.c:39-61 | As above; when memory runs out, every count and what every process sees are as before. |
| `CowMemory.Memory.PutPage` | cpp/linux-0.11/mm/memory.c:197-219 | The page appears at the address and nowhere else, writable and not dirty, and the kernel's hold becomes the entry's reference; a frame is taken exactly if a table is needed, and it fails exactly if none is free then. |
| `CowMemory.Memory.GetEmptyPage` | cpp/linux-0.11/mm/memory.c:274-282 | A page of zeros appears, taking one frame, or two if a table is needed; or nothing changes, exactly if fewer are free. |
| `CowMemory.Memory.UnWpPage` | cpp/linux-0.11/mm/memory.c:221-238 | The entry becomes writable and exclusive; nobody sees a difference; takes a frame exactly if the page is shared, and fails exactly if none is free then. |
| `CowMemory.Memory.UserWrite` | cpp/linux-0.11/mm/memory.c:247-259 | A write, with its fault if there is one, changes one byte of one page of one process; fails exactly if it has to copy and no frame is free. |
| `CowMemory.Memory.TryToShare` | cpp/linux-0.11/mm/memory.c:292-334 | It shares exactly if the other page is clean and above LOW_MEM, the own place is empty and a table can be had; then that page appears here and counts stay exact; otherwise nothing is seen to change. |
| `CowMemory.Memory.constructor` | cpp/linux-0.11/mm/memory.c:399-411 | After mem_init the counts are in order. |
| `CowMemory.Memory.Perform` | cpp/linux-0.11/mm/memory.c:89-334 | One request acts as in a kernel that copies eagerly, is refused exactly if it is malformed, its target is occupied or memory is short, takes or gives back exactly the frames and page tables that it has to, and leaves every page-table entry, its write and dirty bits included, as the code does. |
| `CowMemory.Memory.Run` | cpp/linux-0.11/mm/memory.c:89-334 | After any run of forks, exits, page insertions, shares, faults and writes, each process reads what it would had every page been copied at fork; at every moment counts equal references; every request is refused exactly if it has to be, changes the number of free frames and the set of page tables by exactly what it needs, and the entries as the code does. |
| `MinixTree.FillKeeps` | cpp/linux-0.11/fs/inode.c:82-138 | Entering a fresh zone at an empty place of a block tree changes that place only, and zones and places still correspond one to one. |
| `MinixTree.FillBytes` | cpp/linux-0.11/fs/inode.c:82-138 | No byte of any file changes by that. |
| `MinixTree.StoreBytes` | cpp/linux-0.11/fs/file_dev.c:67-82 | New contents of a data zone change the bytes of one block of one file. |
| `MinixTree.BlockOfInjective` | cpp/linux-0.11/fs/inode.c:82-138 | Different blocks of files are at different places of the trees. |
| `MinixTree.BlocksInOrder` | cpp/linux-0.11/fs/inode.c:72-138 | Blocks 0, 1, 2 and so on of a file are its data places in the order in which they lie: the first seven zone fields, the words of the indirect block, then word by word those of the blocks that the double indirect block names. |
| `MinixTree.EveryDataPlace` | cpp/linux-0.11/fs/inode.c:72-138 | Every such place is that of some block below the largest. |
| `MinixTree.BlockOnDisk` | cpp/linux-0.11/fs/inode.c:72-138 | The zone of a block in terms of the zone fields and the little-endian words of blocks alone. |
| `MinixTree.BlockBytes` | cpp/linux-0.11/fs/file_dev.c:17-46 | A block of a file is its zone byte for byte, or zeros. |
| `MinixFs.FirstFree` | cpp/linux-0.11/fs/bitmap.c:83-89 | The first clear bit over all maps, and that all zones are taken if there is none. |
| `MinixFs.Fs.NewBlock` | cpp/linux-0.11/fs/bitmap.c:75-105 | 0 exactly if no zone is free; otherwise the lowest free zone, marked and zeroed, with no file changed. |
| `MinixFs.BitOrder` | cpp/linux-0.11/fs/bitmap.c:75-105 | Which bit of which map stands for a zone. |
| `MinixFs.Fs.FreeBlock` | cpp/linux-0.11/fs/bitmap.c:47-73 | Clears the bit of this zone alone, unless somebody else holds its buffer; panics exactly outside the data area and for a clear bit. |
| `MinixFs.Fs.Slot` | cpp/linux-0.11/fs/inode.c:82-88 | Looking at a place of the tree and filling it on request: the zone there, no byte changed, and no zone only if the device is full. |
| `MinixFs.Fs.Bmap` | cpp/linux-0.11/fs/inode.c:72-138 | The zone that the zone fields and table words hold for a block; creating changes no byte and no size, and uses exactly the place of the block and those that lead to it; 0 only for a hole, a full device or an unreadable table; panic exactly outside the range. |
| `MinixFs.Fs.FileRead` | cpp/linux-0.11/fs/file_dev.c:17-46 | Delivers the bytes of the file in order from the position, holes as zeros, and stops early only at an unreadable zone or the largest file. |
| `MinixFs.Fs.WriteSome` | cpp/linux-0.11/fs/file_dev.c:64-83 | One round of the loop writes all of its bytes or none, and uses only the places of its block. |
| `MinixFs.Fs.FileWrite` | cpp/linux-0.11/fs/file_dev.c:48-90 | A prefix of the buffer is in the file at the position, every other byte of every file is as before, the size grows as needed, only places that the buffer touches come into use, and it stops early only if space, a read or the range fails. |
| `MinixFs.Fs.FreeInd` | cpp/linux-0.11/fs/truncate.c:11-27 | Clears the bits of the zones it reaches, each once, and no other. |
| `MinixFs.Fs.FreeDind` | cpp/linux-0.11/fs/truncate.c:29-45 | The same for the double indirect zone. |
| `MinixFs.Fs.Truncate` | cpp/linux-0.11/fs/truncate.c:47-64 | Clears exactly this inode's zones, apart from the held and the unreachable ones; other files are unchanged and this one is empty. |
| `MinixFs.Fs.Run` | cpp/linux-0.11/fs/file_dev.c:17-90 | Every request of any run, up to a panic, is answered: a write with a prefix of its buffer at its position, a read with bytes from its position; every byte is what was last written there and reads deliver that; a request falls short only for an unreadable zone or when the blocks asked for, with the tables that lead to them and less what truncations gave back, do not fit. |
| `MinixFs.Fs.RunInRoom` | cpp/linux-0.11/fs/file_dev.c:17-90 | With everything readable all requests go through if they are within the largest file and at every moment the blocks of the plain files, with their tables, fit; if no buffer is held elsewhere, only then. Files are then the plain fold of the requests, and reads deliver what that fold holds. |
| `MinixFs.Fs.Space` | cpp/linux-0.11/fs/bitmap.c:75-95 | The places in use and the zones lost are together no more than the zones, and as many exactly if the device is full. |
| `BufferQueues.ChainUnlink` | cpp/linux-0.11/fs/buffer.c:134-139 | Taking a buffer out of a hash chain leaves the chain of the others. |
| `BufferQueues.RingUnlink` | cpp/linux-0.11/fs/buffer.c:141-146 | The same for the circular free list, one buffer alone included. |
| `BufferQueues.RingPush` | cpp/linux-0.11/fs/buffer.c:152-155 | Putting a buffer at the end of the ring. |
| `BufferCache.RemoveOk` | cpp/linux-0.11/fs/buffer.c:131-139 | After removal every other buffer with a device is on its own chain, and this one is on none. |
| `BufferCache.InsertOk` | cpp/linux-0.11/fs/buffer.c:156-164 | After insertion every buffer with a device is on its own chain. |
| `BufferCache.Cache.FindBuffer` | cpp/linux-0.11/fs/buffer.c:166-174 | Finds the buffer of a block if any buffer has that identity. |
| `BufferCache.Cache.RemoveFromQueues` | cpp/linux-0.11/fs/buffer.c:131-147 | The buffer is off its chain and out of the ring, all others are where they belong. |
| `BufferCache.Cache.InsertIntoQueues` | cpp/linux-0.11/fs/buffer.c:149-164 | Chains and ring are complete again. |
| `BufferCache.Cache.Scan` | cpp/linux-0.11/fs/buffer.c:213-223 | The first, in the order of the free list, of the best unused buffers: clean before dirty, then unlocked before locked; or that all are in use. |
| `BufferCache.Cache.Claim` | cpp/linux-0.11/fs/buffer.c:239-251 | Called only for an unused, unlocked, clean buffer and a block no buffer has; keeps queues and identities in order. |
| `BufferCache.Cache.GetHashTable` | cpp/linux-0.11/fs/buffer.c:183-195 | One step of it: the buffer of the block is returned, held and unlocked, or the task waits for its lock, or there is none; identities of buffers in use are kept. |
| `BufferCache.Cache.Getblk` | cpp/linux-0.11/fs/buffer.c:205-251 | From any of its sleep points to the next, with the whole new state: the buffer for the block, held and unlocked, or the one picked by the scan taken over and moved to the end of the free list, or a sleep with its reason; identities of buffers in use are kept. |
| `BufferCache.NoNeedlessSleep` | cpp/linux-0.11/fs/buffer.c:205-251 | For a block that is not in the cache getblk does not sleep exactly if an unused buffer is clean and unlocked; it picks a dirty buffer only if all unused ones are dirty, and a dirty and locked one only if all are both. |
| `BufferCache.Cache.Hold` | cpp/linux-0.11/fs/buffer.c:187-193 | The buffer found is counted; it is returned only unlocked and with its identity, otherwise the task waits for its lock. |
| `BufferCache.Cache.Brelse` | cpp/linux-0.11/fs/buffer.c:253-261 | One holder and one count fewer, or, if the buffer is locked, the task waits with everything else as it was. |
| `BufferCache.Cache.LetGo` | cpp/linux-0.11/fs/buffer.c:253-261 | The count is positive before the decrement; exactly one hold is given up. |
| `BufferCache.Cache.Resume` | cpp/linux-0.11/fs/buffer.c:183-261 | Continuing after any sleep does what the code behind that sleep does, and keeps identities of buffers in use. |
| `BufferCache.Cache.constructor` | cpp/linux-0.11/fs/buffer.c:348-381 | The cache after buffer_init is valid. |
| `BufferCache.Cache.Run` | cpp/linux-0.11/fs/buffer.c:131-261 | In every interleaving and at every moment: no two buffers for one block, counts equal to holders, every act answered as the code has it, other tasks and the identity of buffers in use untouched; chains and ring complete at its end. |
| `BufferCache.OneIdentity` | cpp/linux-0.11/fs/buffer.c:183-261 | A buffer whose count stays positive between two moments of a run is for one block all the time. |
| `BufferCache.KeptWhileIdle` | cpp/linux-0.11/fs/buffer.c:183-261 | What a task holds it keeps, with its identity, while it does not act itself. |
| `BucketHeap.AllFree` | cpp/linux-0.11/lib/malloc.c:205-208 | A free list has as many entries as the page has objects exactly if it holds all of them. |
| `BucketHeap.OnlyPredecessor` | cpp/linux-0.11/lib/malloc.c:213-219 | Whatever points to a descriptor on a chain is the one before it there, so the re-check of prev is sound. |
| `BucketHeap.Heap.InitBucketDesc` | cpp/linux-0.11/lib/malloc.c:97-115 | 256 new free descriptors in a page of their own, which is no longer free, and no other page is touched; or out of memory exactly if none is free. |
| `BucketHeap.Heap.FindFree` | cpp/linux-0.11/lib/malloc.c:139-141 | A descriptor of the chain with a free object, or that there is none. |
| `BucketHeap.Heap.OpenBucket` | cpp/linux-0.11/lib/malloc.c:146-167 | A new page with all its objects on the free list; takes exactly that page, and one for descriptors if none was free; fails exactly if too few pages are free; no page is lost. |
| `BucketHeap.Heap.TakeObject` | cpp/linux-0.11/lib/malloc.c:168-171 | The first free object becomes live; it was not. |
| `BucketHeap.Heap.Malloc` | cpp/linux-0.11/lib/malloc.c:117-173 | A new object of the smallest sufficient bucket; takes no page if a page of that bucket has a free object, otherwise one, and one more if no descriptor was free; fails exactly for lengths above a page or when a page is needed and too few are free; every page stays free, a page of descriptors or a page of objects; words outside free pages are untouched. |
| `BucketHeap.Heap.FindPage` | cpp/linux-0.11/lib/malloc.c:188-202 | Finds the descriptor of a live object unless the size given is larger than its bucket, and none for an address in no page of objects. |
| `BucketHeap.Heap.FixPrev` | cpp/linux-0.11/lib/malloc.c:213-217 | The descriptor before x on its chain, from whatever prev was. |
| `BucketHeap.Heap.Unhook` | cpp/linux-0.11/lib/malloc.c:208-228 | The page goes back and the descriptor joins the free ones. |
| `BucketHeap.Heap.Release` | cpp/linux-0.11/lib/malloc.c:203-231 | Frees one object, whatever prev is by then; the page goes back exactly if no live object is left in it, and no other page changes its use. |
| `BucketHeap.Heap.FreeS` | cpp/linux-0.11/lib/malloc.c:182-231 | Panics exactly for an address in no page of objects and for a size above the object's bucket, with nothing changed; otherwise as Release; no other object's words change. |
| `BucketHeap.Heap.LiveApart` | cpp/linux-0.11/lib/malloc.c:117-231 | Live objects do not overlap. |
| `BucketHeap.CountIsLive` | cpp/linux-0.11/lib/malloc.c:205-208 | The count of a descriptor is 0 exactly if its page has no live object. |
| `BucketHeap.Heap.Run` | cpp/linux-0.11/lib/malloc.c:117-231 | In any run what a client holds and has stored, how many descriptors there are and how many pages are free is the plain fold of its requests and of the addresses it got; each address was free, of the right size, and in a page of its own only if no page of that bucket had room; it panics exactly at a length above a page or when by that account a page is needed and too few are free; the initial pages are split into free ones, those of descriptors and those of held objects; once all are freed, all but the pages of descriptors are free. |
| `BucketHeap.Heap.ClientAlloc` | cpp/linux-0.11/lib/malloc.c:117-173 | malloc in the client's terms: it fails exactly if the account is exhausted, and otherwise serves the request and changes the account as the plain step says. |
| `BucketHeap.Heap.ClientFree` | cpp/linux-0.11/lib/malloc.c:182-231 | free_s in the client's terms: one object less, and its page is free again exactly if it was the last one there. |
| `BucketHeap.Balance` | cpp/linux-0.11/lib/malloc.c:97-231 | In every account the free pages, the pages of held objects and a page for every 256 descriptors made add up to the initial free pages. |
| `BucketHeap.OnlyAsNeeded` | cpp/linux-0.11/lib/malloc.c:150-153 | Descriptors are only made when every descriptor has a page of objects in use. |
| `BucketSearch.CalmFinds` | cpp/linux-0.11/lib/malloc.c:188-202 | Under any interrupts that do not give back the descriptor it stands at, the search for the page of a live object does not panic, and what it finds is the descriptor of that page on its chain, with some known descriptor as the one before. |
| `BucketSearch.FindsAtLast` | cpp/linux-0.11/lib/malloc.c:188-202 | Left alone, such a search does find it. |
| `BucketSearch.OnTrackIffCalm` | cpp/linux-0.11/lib/malloc.c:188-202 | The search is at all times on the chain that it believes to be on if and only if no interrupt gives back the descriptor it stands at. |
| `BucketSearch.FalsePanic` | cpp/linux-0.11/lib/malloc.c:188-202 | A run, from the empty heap, in which free_s panics for a live object. |
| `BucketSearch.WrongDescriptor` | cpp/linux-0.11/lib/malloc.c:188-202 | A run in which free_s takes a free descriptor, which had the page before, for the owner of a live object. |
| `SleepQueue.NextKeeps` | cpp/linux-0.11/kernel/sched.c:151-194 | With the stores of sleep_on in one step, each step keeps the shape of the implicit lists. |
| `SleepQueue.OneHolder` | cpp/linux-0.11/kernel/sched.c:151-165 | With the stores in one step, a sleeping process is referred to from exactly one place in every reachable state, any other from none. |
| `SleepQueue.WakeReachesAll` | cpp/linux-0.11/kernel/sched.c:151-194 | With the stores in one step: after wake_up, once the chain has run, everyone asleep on that queue has left sleep_on, whatever else happened. |
| `SleepQueue.OnlyOwnQueueWakes` | cpp/linux-0.11/kernel/sched.c:151-194 | With the stores in one step: without wake_up on its own queue a sleeper sleeps on. |
| `SleepQueue.ChainsEnd` | cpp/linux-0.11/kernel/sched.c:159-164 | With the stores in one step: from every reachable state the chains can be run to their end. |
| `SleepSteps.CalmIsWhole` | cpp/linux-0.11/kernel/sched.c:159-161 | Store by store, a run in which no wake_up finds a sleeper on the queue of a process inside the stores is a run with the stores in one step. |
| `SleepSteps.GoodIffCalm` | cpp/linux-0.11/kernel/sched.c:151-194 | For every run that ends outside the stores: sleepers are always referred to from exactly one place, and others from none, if and only if no wake_up disturbed the stores. |
| `SleepSteps.CalmWakeReachesAll` | cpp/linux-0.11/kernel/sched.c:151-194 | In undisturbed runs wake_up reaches everyone asleep on the queue. |
| `SleepSteps.CalmOnlyOwnQueueWakes` | cpp/linux-0.11/kernel/sched.c:151-194 | In undisturbed runs only wake_up on its own queue gets a sleeper to continue. |
| `SleepSteps.CalmChainsEnd` | cpp/linux-0.11/kernel/sched.c:159-164 | After every undisturbed run the chains can be run to their end. |
| `SleepSteps.LostSleeper` | cpp/linux-0.11/kernel/sched.c:160-161 | A wake_up between the new head and the new state leaves a sleeper nobody refers to. |
| `SleepSteps.StrayWake` | cpp/linux-0.11/kernel/sched.c:159-160 | A wake_up between the saved and the new head lets a later wake_up on that queue wake a process asleep on another one. |
| `Scheduler.PickNext` | cpp/linux-0.11/kernel/sched.c:125-134 | The runnable task of most credit, of those the highest slot; slot 0 if none is runnable. |
| `Scheduler.RechargeAll` | cpp/linux-0.11/kernel/sched.c:136-139 | Every task but the idle one gets half its credit plus its priority. |
| `Scheduler.RechargeOk` | cpp/linux-0.11/kernel/sched.c:136-139 | Credits stay below twice the priority and are positive afterwards. |
| `Scheduler.CarriedOver` | cpp/linux-0.11/kernel/sched.c:136-139 | Half of the leftover credit is carried over: nobody loses credit, and all gain but those that have the most they can have. |
| `Scheduler.Schedule` | cpp/linux-0.11/kernel/sched.c:124-142 | Ends after at most one round of recharging, which happens only if no runnable task has credit; credits stay in range. |
| `Scheduler.StepKeeps` | cpp/linux-0.11/kernel/sched.c:332-335 | Ticks, blocking, waking and yielding keep every credit between 0 and twice the priority. |
| `Scheduler.DispatchBound` | cpp/linux-0.11/kernel/sched.c:104-142 | A task that stays runnable waits for at most a number of user-mode ticks given by the priorities of the others. |
| `ZkLock.Scan` | cpp/jiagoushi/chap4.3/main.c:41-60 | The largest sequence number below ours among the children, or that there is none. |
| `ZkLock.StepKeeps` | cpp/jiagoushi/chap4.3/main.c:37-117 | Every request, reply and watch event keeps the invariant. |
| `ZkLock.MutualExclusion` | cpp/jiagoushi/chap4.3/main.c:37-117 | In every run at most one client is between its acquire point and the deletion of its node, and grants follow increasing sequence numbers. |
| `ZkLock.OneOutstanding` | cpp/jiagoushi/chap4.3/main.c:62-117 | A client never has two requests, replies, events or watches outstanding. |
| `ZkLock.OneAwaited` | cpp/jiagoushi/chap4.3/main.c:62-117 | A client that waits has exactly one message or watch outstanding, unless the node before its own was gone when it asked for the watch. |
| `Rotate.Gcd` | cpp/rotate.cpp:183-192 | A common divisor that is an integer combination of the two numbers. |
| `Rotate.GcdIsGreatest` | cpp/rotate.cpp:183-192 | Such a divisor is the greatest. |
| `Rotate.AtApart` | cpp/rotate.cpp:194-210 | A cycle does not return to a position before n / gcd steps. |
| `Rotate.AtOnto` | cpp/rotate.cpp:194-210 | A cycle passes every position of its residue. |
| `Rotate.RotateCycle` | cpp/rotate.cpp:194-210 | One cycle terminates, moves the positions of one residue and no other. |
| `Rotate.RotateBy` | cpp/rotate.cpp:212-218 | All cycles together move every position once. |
| `Rotate.RotateArray` | cpp/rotate.cpp:170-181 | For every array and k > 0 the element at i ends at (i + k) mod n; for k <= 0 nothing changes. |
| `Kmp.Compare` | cpp/lingshengxueyuan/chap1.1/kmp.c:64-73 | 0 exactly for equal prefixes, otherwise the sign of the first difference. |
| `Kmp.GetNext` | cpp/lingshengxueyuan/chap1.1/kmp.c:9-20 | The table of longest proper borders, by brute force. |
| `Kmp.GetNext2` | cpp/lingshengxueyuan/chap1.1/kmp.c:22-36 | The same table in a linear number of steps. |
| `Kmp.MakeNext` | cpp/lingshengxueyuan/chap1.1/kmp.c:38-54 | The same table in a linear number of steps. |
| `Kmp.OnlyOneTable` | cpp/lingshengxueyuan/chap1.1/kmp.c:9-54 | There is only one such table, so the three functions agree. |
| `Kmp.Search` | cpp/lingshengxueyuan/chap1.1/kmp.c:138-163 | The result is at most n - m exactly if the pattern occurs, and then it is the leftmost place; 1 for the empty pattern. |
| `DesTables.Undone` | cpp/myvsc/encry-decry/des.c:41-144 | The initial permutation and the other table undo each other. |
| `Des.DeciOfBits` | cpp/myvsc/encry-decry/des.c:214-260 | A number written as bits and read back. |
| `Des.RoundsBack` | cpp/myvsc/encry-decry/des.c:493-515 | The rounds with reversed keys undo the rounds, whatever the round function. |
| `Des.SubKeys` | cpp/myvsc/encry-decry/des.c:275-310 | The sixteen sub-keys. |
| `Des.ProcEncDec` | cpp/myvsc/encry-decry/des.c:429-529 | The round loop computes the block cipher. |
| `Des.CipherBack` | cpp/myvsc/encry-decry/des.c:429-529 | For every key and block each direction undoes the other. |
| `Des.TripleEncDec` | cpp/myvsc/encry-decry/des.c:533-574 | The three passes, with strcpy on the way in and hexadecimal text on the way back. |
| `Des.TripleBack` | cpp/myvsc/encry-decry/des.c:533-574 | Two-key triple DES is undone. |
| `DesLaws.EqualHalves` | cpp/myvsc/encry-decry/des.c:533-574 | With two equal halves of the key triple DES is DES, for every key and block and in both directions. |
| `DesLaws.MiddlePass` | cpp/myvsc/encry-decry/des.c:533-574 | Undoing the outer pass leaves what the second key makes, in the opposite direction, of the first pass. |
| `DesLaws.Complement` | cpp/myvsc/encry-decry/des.c:429-529 | The complement of key and block gives the complement of the result. |
| `DesLaws.ParityUnused` | cpp/myvsc/encry-decry/des.c:263-273 | The lowest bit of every byte of the key makes no difference. |
| `DesLaws.KeyComesRound` | cpp/myvsc/encry-decry/des.c:275-310 | After sixteen rounds the halves of the key are back where they were. |
| `DesLaws.FirstAndLastKey` | cpp/myvsc/encry-decry/des.c:275-310 | Enciphering begins with the halves turned by one place to the left and ends with them unturned; deciphering the other way round. |
| `DesLaws.Neighbours` | cpp/myvsc/encry-decry/des.c:326-340 | The expansion gives every S-box four neighbouring bits and one more on either side. |
| `DesLaws.Spread` | cpp/myvsc/encry-decry/des.c:326-375 | What one S-box makes of different inputs reaches at most one input bit of every S-box of the next round, and none of its own. |
| `DesLaws.HighestFirst` | cpp/myvsc/encry-decry/des.c:214-260 | The first bit of a number is its highest. |
| `DesLaws.Digits` | cpp/myvsc/encry-decry/des.c:168-209 | The digits written are 0 to 9 and a to f; capital letters are read as well. |
| `DesLaws.HexReads` | cpp/myvsc/encry-decry/des.c:168-209 | Each byte is written as two digits, its high half first. |
| `Des.HexStrToBytes` | cpp/myvsc/encry-decry/des.c:168-197 | Decodes pairs up to the first character that is not a digit, and reports whether there was one. |
| `Des.HexBack` | cpp/myvsc/encry-decry/des.c:168-209 | Hexadecimal text decodes to the bytes it was made from. |
| `Des.FileEnc` | cpp/myvsc/encry-decry/des.c:613-653 | The text of an encrypted file, block by block. |
| `Des.FileDec` | cpp/myvsc/encry-decry/des.c:656-697 | What decryption writes, a short last read with its stale buffer included. |
| `Des.FileBack` | cpp/myvsc/encry-decry/des.c:613-697 | Decrypting an encrypted file gives of each block what precedes its first NUL. |
| `Des.FileRoundTrip` | cpp/myvsc/encry-decry/des.c:613-697 | The file comes back exactly if and only if it has no NUL byte. |

## Left out

- Wrap-around of the ring's indices: they are natural numbers here; with 64-bit indices the default size 65535 does not divide the index range.
- Weak memory: the queues are modelled under sequential consistency.
- `size` of the ring and `probe` of the pipe: they only read.
- Keys of the red-black tree are mathematical integers, although the code compares them by subtraction.
- The kernel's own identity-mapped directories 0 to 15: the views are those of user space above them; a fork from directory 0 copies 160 entries of low memory, as the code does.
- Page-table words are records of a frame number and flags instead of bit patterns; `invalidate` and segment descriptors have no effect in the model.
- `share_page`, `do_no_page` and loading pages from executables: `try_to_share` is modelled, the search for a partner and the disk are not.
- CowMemory.Memory.FreePageTables: start directories 1 to 15, the kernel's own, are excluded.
- CowMemory.Memory.PutPage: an address outside memory, a page that is not freshly allocated and an occupied entry, for which the code prints warnings, are requirements here.
- Block trees belong to regular files and directories; device inodes, inode allocation, times and dirty flags are not modelled, and file operations run one at a time.
- Which reads fail and which buffers are held are fixed sets during one call; `unreadable` data written through the cache is not modelled.
- The buffer cache's hash function is arbitrary; `sync_dev`, `bread` and the disk appear only through changes of lock and dirty bits, which are allowed at any time.
- The write through a null successor at line 163 of buffer.c is guarded.
- Words inside objects of the allocator are 4-aligned; interrupts during `malloc` itself are excluded as by its `cli`, and physical pages are chosen arbitrarily.
- BucketHeap.Heap.FreeS: that an address inside a page of objects is a live object is a requirement, since the code cannot detect it.
- `interruptible_sleep_on`, signals, alarms and timers: the sleep queues are those of `sleep_on` and `wake_up`; the schedule loop is modelled without its signal check.
- A fixed set of processes with priorities of at least 1; fork and exit do not occur in the scheduler's runs.
- Session expiry and progress of the lock: a client whose predecessor disappears before its watch is set waits forever, which is no question of safety.
- `kmp_my1` and `kmp_my2`: their loop bounds differ from the full search.
- Des.ProcEncDec: the S-boxes and permuted choice 2 are those of the code, but no property compares them with the standard; what is proved holds for any such tables. An invalid option, the menu and file errors are not modelled.
- Sockets, event loops, HTTP, DNS, Lua, DPDK, FUSE, boot code, drivers, terminals and the smaller exercises: plumbing, or easy members.
