# FGDB, verified

FGDB is a small key-value store: keys live in an index in memory, values in
pages of 4096 bytes, every change in a write-ahead log, and a snapshot puts
pages and keys into two files that are loaded at the next start. This project
models its parts as they are written and proves what each of them keeps over
every input and every run. Where the code does something other than what it is
evidently for, the code is kept: a lemma shows a concrete input on which the
promise fails, and another says exactly when it holds.

The modules, from the bottom up:

- `Bits`, `BuddyTree`, `BuddyMarks`, `Buddy`, `BuddyRuns`: the buddy allocator. A
  tree flattened into a byte array, the geometry of its blocks, what allocation
  and freeing do to the marks, the class that works on the array, and every run
  of it. Merging computes a parent as `pos/2`, which is the parent of left
  children only; merging is proved safe as written and its gaps are located.
- `HeapOrder`, `PagedHeap`, `TransactionQueue`: the priority heap as a sequence,
  the two-level page map that holds it, and producers and workers interleaving
  on heap, semaphore and mutex.
- `Bytes`, `Wal`, `Operations`, `Recovery`: little-endian codecs and files, the
  log with its records and heading, the database operations, and what replaying
  the log in memory and from the file gives. A record carries the low byte of
  the key's size where its command should be.
- `Compaction`, `Compacted`, `Vector`, `Pages`, `Arena`, `PageStore`, `PageCache`,
  `Lru`: the slotted pages, in-place compaction and what can be read after it, the
  growable array, the arena as one stretch
  of memory in which a value can run across the end of its page, the store of
  values with its reverse index, the arena slots under eviction and heating with
  the pointers of the eviction queue, and that queue as linked objects.
- `Keys`, `Assoc`, `AvlTree`, `AvlBalance`, `AvlRemove`, `AvlFaults`, `AvlNode`,
  `AvlUnlink`: the key order, the finite map as a sorted association list, the AVL
  trees as values, when they stay balanced, removal, when a null pointer is
  followed, and the linked nodes that search, insertion and removal work on.
- `Hash`, `HashIndex`, `HashRuns`, `HashFaults`, `HashCounts`, `HashMap`: the
  per-level hash, the tables of trees with their child tables, every run against a
  finite map, which steps meet a null pointer, what the counters of the slots
  count, and the class that walks and changes the tables.
- `Options`, `Sequences`: an optional value, and a sequence without one item.
- `Snapshot`, `Restart`, `Cycle`: the key file and its load loop, the value file,
  which pages a snapshot writes, what a restart finds, and all of it in one.

Ghost parameters and fields only carry what a proof needs: the tree a set of
linked nodes makes, the values stored in a page, the history of a log.

## Model

| member | source | states |
|---|---|---|
| `Bits.Bsqrt` | src/lib/buddy/memory.c:13-16 | the shift loop gives the ceiling of the base-2 logarithm, at most 31 |
| `Bits.CeilLog2Unique` | src/lib/buddy/memory.c:13-16 | only one number lies between the two powers of two, so the loop's result is determined |
| `BuddyTree.LevelUnique` | src/lib/buddy/memory.c:70-72 | the level of a position is the number of binary digits of the position plus one |
| `BuddyTree.InTree` | src/lib/buddy/memory.c:70-72 | a position lies in a tree of height h exactly when its level is at most h, and has children exactly when it is below h |
| `BuddyTree.ChildGeometry` | src/lib/buddy/memory.c:74-83 | two children halve their parent's capacity and lie side by side over its addresses |
| `BuddyTree.DescendantsNest` | src/lib/buddy/memory.c:119-126 | the block of a descendant lies inside its ancestor's block |
| `BuddyTree.UnrelatedApart` | src/lib/buddy/memory.c:119-126 | blocks of positions neither of which is an ancestor of the other share no address |
| `BuddyTree.InPool` | src/lib/buddy/memory.c:34-61 | every block of the tree lies inside the pool |
| `BuddyMarks.LiveBlocksApart` | src/lib/buddy/memory.c:85-150 | under the marking rule two used blocks never overlap and end inside the pool |
| `BuddyMarks.AvailableIsFreeRun` | src/lib/buddy/memory.c:97-143 | what the search can hand out is exactly an aligned run without used memory whose node is not left split |
| `BuddyMarks.PlacedWellMarked` | src/lib/buddy/memory.c:97-143 | marking a block and splitting the way to it keeps the marking rule, and keeps a merged tree merged |
| `BuddyMarks.MergeWellMarked` | src/lib/buddy/memory.c:157-170 | merging with the parent taken as half the position is safe from every position: the marking rule survives |
| `BuddyMarks.ReleasedKeeps` | src/lib/buddy/memory.c:195-215 | freeing takes away the freed block and no other |
| `BuddyMarks.ReleaseCoalescesIff` | src/lib/buddy/memory.c:157-170 | a freed block is merged as far as it should be exactly when every step of the climb starts at a left child or finds its buddy taken |
| `BuddyMarks.RightHalfIsNotMerged` | src/lib/buddy/memory.c:157-170 | after freeing left half then right half a free pool of two blocks still refuses its own size |
| `BuddyMarks.CoalescedAvailable` | src/lib/buddy/memory.c:97-143 | in a merged tree a size can be had exactly when an aligned free run of it exists |
| `BuddyMarks.CoalescedUnique` | src/lib/buddy/memory.c:157-170 | a merged tree is determined by its used blocks alone |
| `BuddyMarks.EmptyCoalescedIsFresh` | src/lib/buddy/memory.c:34-61 | a merged tree without used blocks is the tree as it was made |
| `BuddyMarks.ReleaseUndoesAlloc` | src/lib/buddy/memory.c:152-217 | freeing a block just allocated in a merged tree restores the tree mark for mark |
| `BuddyMarks.LowestClimbsLeft` | src/lib/buddy/memory.c:97-143 | the block allocation chooses is one from which the merge as written climbs right |
| `BuddyMarks.MemoryConserved` | src/lib/buddy/memory.c:119-150 | used and free kilobytes always add up to the pool |
| `BuddyMarks.LeafOnSpine` | src/lib/buddy/memory.c:172-193 | the leaf computed from a block's address lies below the block through left children only |
| `BuddyMarks.RequestCoveredIff` | src/lib/buddy/memory.c:152-155 | rounding bytes down to kilobytes covers the request exactly when the bytes are whole kilobytes or the rounding up to a power of two makes up for it |
| `BuddyMarks.ArenaRequestFallsShort` | src/arena/arena.c:11-26 | the arena's own request of 1024 pages and 32 bytes gets less than it asks for |
| `BuddyMarks.FreeNodeFits` | src/lib/buddy/memory.c:97-143 | below a free node that is large enough there is a free block of the very size asked for |
| `Buddy.LiveBlocksDisjoint` | src/lib/buddy/memory.c:119-126 | any two live blocks, as address ranges, are disjoint and inside the pool |
| `Buddy.BuddyInfo.constructor` | src/lib/buddy/memory.c:34-61 | a new pool has no live block and a merged tree of the right height |
| `Buddy.BuddyInfo.AckMemory` | src/lib/buddy/memory.c:85-150 | the recursion on the array takes the lowest block of the size below its node, or finds that there is none and changes nothing |
| `Buddy.BuddyInfo.Alloc` | src/lib/buddy/memory.c:152-155 | null exactly when no block of the size can be had; else one new live block, disjoint from the old ones, and all others kept |
| `Buddy.BuddyInfo.Merge` | src/lib/buddy/memory.c:157-170 | the in-place climb leaves the marks that the merge of the value model gives |
| `Buddy.BuddyInfo.Free` | src/lib/buddy/memory.c:172-217 | the address of any live block frees exactly that block; a free that finds no used node changes nothing |
| `BuddyRuns.RunSafe` | src/lib/buddy/memory.c:85-217 | after every run of allocations and frees the live blocks are disjoint, inside the pool and accounted for |
| `BuddyRuns.RunCoalescedIff` | src/lib/buddy/memory.c:157-170 | the tree is merged throughout a run exactly when every free of the run climbs left |
| `BuddyRuns.MergedRunRefusals` | src/lib/buddy/memory.c:97-143 | in such a run null means that no aligned free run of the size existed |
| `BuddyRuns.MergedRunEmpties` | src/lib/buddy/memory.c:172-217 | in such a run freeing everything gives the first tree again |
| `HeapOrder.CompareIntsIsPreorder` | src/lib/heap/heap.c:83-95 | the integer comparator is a total preorder |
| `HeapOrder.CompareIntsIs` | src/lib/heap/heap.c:83-95 | it is negative, zero or positive exactly when the first number is smaller, equal or larger |
| `HeapOrder.SiftUpOrders` | src/lib/heap/heap.c:262-305 | moving an entry up repairs a heap that is out of order only above it |
| `HeapOrder.SiftDownOrders` | src/lib/heap/heap.c:326-397 | moving the root down repairs a heap that is out of order only at it |
| `HeapOrder.TiesStay` | src/lib/heap/heap.c:262-397 | an entry that ties with its parent or its child stays, and of tied children the left one is compared |
| `HeapOrder.RootIsLeast` | src/lib/heap/heap.c:200-214 | in every heap the root is a minimum |
| `HeapOrder.InsertedIsHeap` | src/lib/heap/heap.c:262-305 | insertion keeps heap order and adds exactly the new entry |
| `HeapOrder.MinRemovedIsHeap` | src/lib/heap/heap.c:309-397 | removal keeps heap order, takes exactly one entry, and that one is a minimum |
| `HeapOrder.DrainedSorts` | src/transactions/queue.c:48-53 | draining any heap gives a sorted permutation of it |
| `PagedHeap.Heap.constructor` | src/lib/heap/heap.c:99-147 | an empty heap with every page mapped that the initial size needs |
| `PagedHeap.Heap.AddPage` | src/lib/heap/heap.c:248-260 | a new page is mapped behind the others and moves no entry |
| `PagedHeap.Heap.SetEntry` | src/lib/heap/heap.c:26 | writing through page number and offset changes one entry of the flat sequence |
| `PagedHeap.Heap.Insert` | src/lib/heap/heap.c:218-305 | the paged structure holds what inserting into the flat heap gives, with table and pages grown and no entry lost |
| `PagedHeap.Heap.GrowTable` | src/lib/heap/heap.c:225-246 | the mapping table grows by a page and maps every page it mapped |
| `PagedHeap.Heap.MakeRoom` | src/lib/heap/heap.c:222-260 | afterwards the next index is mapped and at most one page is spare beyond the minimum |
| `PagedHeap.Heap.Min` | src/lib/heap/heap.c:200-214 | the entry reported is a minimum of all entries |
| `PagedHeap.Heap.SiftRoot` | src/lib/heap/heap.c:326-397 | the loop over mapped pages does what sifting down does to the flat heap |
| `PagedHeap.Heap.TakeRoot` | src/lib/heap/heap.c:318-397 | the last entry takes the root's place and sinks to where the flat heap has it |
| `PagedHeap.Heap.DelMin` | src/lib/heap/heap.c:309-416 | a minimum leaves, the rest stays as a heap, and a page is given back only if no entry lies in it |
| `PagedHeap.Heap.ReleasePage` | src/lib/heap/heap.c:400-412 | the bound of one spare page is restored without touching a page in use |
| `PagedHeap.Heap.Drain` | src/transactions/queue.c:48-53 | the loop of deletions yields the entries in order, each once |
| `TransactionQueue.StepKeepsBalance` | src/transactions/queue.c:62-107 | heap size is semaphore count plus pending posts plus claims minus forced pops, through every step of every thread |
| `TransactionQueue.RunInv` | src/transactions/queue.c:62-107 | over every interleaving mutual exclusion, that balance, heap order and conservation hold |
| `TransactionQueue.MutexHeldOnce` | src/transactions/queue.c:62-78 | two threads never hold the lock together |
| `TransactionQueue.EmptyTakeIff` | src/transactions/queue.c:90-96 | an unforced pop comes back empty exactly when forced pops have taken as many entries as are still claimed |
| `TransactionQueue.PopAlwaysDelivers` | src/main.c:84-90 | when no pop is forced a worker always gets a transaction, and no queued one has a smaller number |
| `TransactionQueue.NoLostWakeup` | src/transactions/queue.c:84-87 | at rest a worker waiting on the semaphore can go on exactly when the queue is not empty |
| `TransactionQueue.ExactlyOnce` | src/transactions/queue.c:62-107 | what was returned and what is queued are together exactly what the calls of push were given |
| `TransactionQueue.PushCarries` | src/transactions/queue.c:62-72 | every thread inserts what its own last call of push was given |
| `TransactionQueue.ForcedPopStarvesWaitingPop` | src/transactions/queue.c:80-107 | one forced pop lets a later unforced pop return nothing |
| `Bytes.LeRoundTrip` | src/wal/wal.c:104-133 | an integer within its width survives the bytes |
| `Wal.RecordRoundTrip` | src/wal/wal.c:104-133 | a record delimits itself: whatever follows, its own bytes are consumed and key and value come back |
| `Wal.RecordFields` | src/wal/wal.c:116-133 | a record holds its own size, its LSN, the low byte of the key's size, then key and value behind their sizes |
| `Wal.LoggedCommands` | src/wal/wal.c:146-150 | exactly the commands behind SELECT are logged |
| `Wal.CommandSurvivesIff` | src/wal/wal.c:116-133 | a transaction comes back whole exactly when its command equals the low byte of its key's size |
| `Wal.DeleteComesBackAsInsert` | src/wal/wal.h:25-30 | the deletion of a three-byte key is read back as an insertion |
| `Wal.LsnConsecutive` | src/wal/wal.c:140-142 | LSNs count up by one until they wrap |
| `Wal.LogNumbers` | src/wal/wal.c:65-142 | record i of a log file carries the LSN i + 1 behind the one it was opened with, below the wrap, and the heading that of the last record |
| `Wal.RecordInFile` | src/wal/wal.c:65-101 | each record lies whole behind the ones before it |
| `Wal.LogRoundTrip` | src/wal/wal.c:221-262 | reading back a log of any length gives every transaction's key and value in order and consumes each record fully |
| `Wal.LogFaithfulIff` | src/wal/wal.c:104-133 | the log gives back the transactions themselves exactly when each command is the low byte of its key's size |
| `Wal.Logger.UpdateHeading` | src/wal/wal.c:36-57 | the first eight bytes are replaced, the records stay |
| `Wal.Logger.WriteLog` | src/wal/wal.c:65-101 | the file always is the last LSN followed by the records of all logged transactions; reading commands leave it alone |
| `Wal.Unlogger.LatestLsn` | src/wal/wal.c:200-219 | the heading is read; the seek leads to the first record only from the start of the file |
| `Wal.Unlogger.Recover` | src/wal/wal.c:221-262 | one call takes exactly the next record off the file |
| `Wal.Unlogger.TakeApart` | src/wal/wal.c:234-258 | the cursor's copies give command, key and value where the record has them |
| `Operations.Database.Peek` | src/operations/operations.c:16-33 | tells whether the key has a value |
| `Operations.Database.Select` | src/operations/operations.c:35-57 | the value last stored under the key is answered exactly when its record still reads right, so always while every record does |
| `Operations.Database.Insert` | src/operations/operations.c:93-174 | which reply is given when, each way for storing to fail exactly when the pages are as it says; the new value is the only change to keys and values; every record reads right afterwards exactly when the write, which may run across the end of its page, spared all of them; the log still replays to the current values, and is one effective record ahead when storing stops |
| `Operations.Database.Delete` | src/operations/operations.c:59-91 | the value comes back exactly when its record read right, and the key alone is gone; pages in order stay so; the log still replays to the current values with every record effective |
| `Operations.Database.Compact` | src/arena/manager.c:36-48 | compacting changes no key and no value set; while every record reads right, it ends and leaves them so exactly when the page's values survive and no other record is hit; a page in order ends up packed exactly when its gaps are safe |
| `Recovery.RecoveryGives` | src/wal/wal.c:221-262 | replaying what the file gives back yields the first value of every key whose length reads as an insertion, and nothing else |
| `Recovery.RecoveryRestoresIff` | src/wal/wal.c:221-262 | recovery restores the state exactly when every logged key whose length reads as an insertion was last inserted with its first value, and every other logged key was last deleted |
| `Recovery.RecoveryFromFile` | src/wal/wal.c:200-262 | from the bytes of the file: all records are parsed, and replaying them restores the state exactly when every logged key meets that condition |
| `Recovery.InsertsRecoverIff` | src/wal/wal.c:116-133 | without deletions nothing is lost exactly when every key's length is 3 in its low byte |
| `Recovery.FaithfulRecoveryIff` | src/wal/wal.c:221-262 | the records of an effective log come back themselves exactly when all are inserts of keys whose length reads as one: no deletion that changed something is ever read back |
| `Recovery.DeletedKeyReturns` | src/wal/wal.c:116-133 | a deleted three-byte key is there again after recovery |
| `Compaction.CompactsIff` | src/arena/arena.c:50-70 | compaction keeps every value and its order, contiguous from the start with zeros behind, exactly when every gap passed is safe for the size that is read again after the move |
| `Compaction.LongGapsAreSafe` | src/arena/arena.c:59-62 | no gap, or one at least as long as the block that crosses it, is safe |
| `Compaction.ShortGapGoesWrong` | src/arena/arena.c:59-62 | a four-byte value moving by three bytes spoils its page |
| `Compaction.CompactAgain` | src/arena/arena.c:50-70 | a second compaction changes nothing |
| `Compaction.StoredApart` | src/arena/arena.c:54-64 | blocks stored in increasing order with their prefixes do not overlap |
| `Compaction.MoveBytes` | src/arena/arena.c:59 | the overlapping move inside one array reads every byte before it is overwritten |
| `Compaction.ClearFrom` | src/arena/arena.c:68 | zeros from the end of the values to the end of the page, the values untouched |
| `Compaction.Page.Defragmentate` | src/arena/arena.c:50-70 | in the page's own bytes, whatever the values are: they end up in order, packed from the start, with zeros behind exactly when the gaps are safe |
| `Compacted.SweptReadsIff` | src/arena/arena.c:50-70 | whatever the gaps and the order of the values: the compaction ends and every value is read at its new offset exactly when every block keeps its size until its turn and its place inside the memory, the end leaves room to clear, and the last bytes put at every block are its own; all of it told from offsets and values alone |
| `Compacted.CompactReadsIff` | src/arena/arena.c:50-70 | the same for a page by itself |
| `Compacted.TameSurvives` | src/arena/arena.c:56-66 | nothing is lost and the values stay in order when every size read again is at least the value's and the running offset passes neither a block's old place nor the page's end |
| `Compacted.SafeIsTame` | src/arena/arena.c:56-66 | safe gaps are such |
| `Compacted.UnsafeButRead` | src/arena/arena.c:62 | a gap that is not safe and loses nothing |
| `Compacted.EndsAndReadsWrong` | src/arena/arena.c:62-68 | a compaction that ends and leaves another value to be read |
| `Vector.GrowsIff` | src/lib/vector/vector.c:16-32 | growing by half makes room exactly from capacity two on |
| `Vector.GrownIs` | src/lib/vector/vector.c:30 | the new capacity is one and a half times the old one, cut down |
| `Vector.Vector.constructor` | src/lib/vector/vector.c:6-10 | empty, with room for one item whatever was asked for |
| `Vector.Vector.Add` | src/lib/vector/vector.c:28-32 | the item is appended exactly when there is room or growing makes some, to one and a half times the capacity; nothing else changes |
| `Vector.Vector.Resize` | src/lib/vector/vector.c:16-26 | the items move to the new array unchanged |
| `Vector.Vector.Get` | src/lib/vector/vector.c:39-43 | the item, or nothing beyond the end |
| `Vector.Vector.Delete` | src/lib/vector/vector.c:45-59 | the items behind the deleted one close up; the capacity halves exactly when a quarter of it is left in use |
| `Vector.SecondItemHasNoRoom` | src/lib/vector/vector.c:6-10 | a new vector, whose capacity is the truth value 1, has no room for a second item |
| `Pages.RoomCheckMissesIff` | src/arena/manager.c:106 | the room check passes a page the value does not fit into exactly when the value's size or one byte more is left, or the page is overfull already, as the difference then wraps |
| `Pages.RoomForIff` | src/arena/manager.c:106 | a page passes the room check exactly when the value's bytes end inside it, or, when it is overfull, when the wrapped sum allows it |
| `Pages.PreferableIff` | src/arena/manager.c:108-113 | a page is worth compacting exactly from a page of removed bytes on, with keys enough for so many |
| `Pages.NeverPreferable` | src/arena/manager.c:108-113 | the test on fragmentation never succeeds on a proper page |
| `Pages.ChooseIff` | src/arena/manager.c:102-126 | a page is found exactly if it is the first to pass the room check and every page before it has keys; the division by zero is met exactly at a page without keys that fails the check like all before it; a page is preferred exactly if no page has room, all have keys and it is the last worth compacting; a new page is made exactly if none is |
| `Pages.ChooseByBytes` | src/arena/manager.c:102-126 | on ordinary pages the same in bytes: the first page in which the value's bytes end, with keys on every page before it; a division by zero exactly at a page without keys that is full for the value, as all before it; else a new page |
| `Pages.PushOk` | src/arena/manager.c:139-158 | appending a value keeps the page's blocks in order, apart and inside |
| `Pages.DropOk` | src/arena/manager.c:188-233 | so does removing one |
| `Pages.CompactOk` | src/arena/arena.c:50-70 | so does compacting over safe gaps |
| `Pages.TameOk` | src/arena/arena.c:50-70 | so does compacting where sizes read again are large enough and nothing is passed |
| `Pages.ReadStored` | src/arena/manager.c:160-186 | reading at a block's offset gives the value stored there |
| `Arena.ReadsIff` | src/arena/manager.c:176-180 | in one stretch of memory, a read at an address gives a value exactly when its size and bytes lie there |
| `Arena.SurvivesIff` | src/arena/manager.c:151-154 | a record anywhere in the arena survives a write exactly when the bytes written on it are those already there |
| `Arena.WriteInSlot` | src/arena/manager.c:148-154 | a write that ends inside its slot changes that slot alone |
| `Arena.CompactInSlot` | src/arena/arena.c:50-70 | what compaction does to a slot within the arena is what it does to a page of its own |
| `Arena.CompactAtPacksIff` | src/arena/arena.c:50-70 | and the slot ends up packed exactly when its gaps are safe, even where a wrong size lets blocks move out of it |
| `Arena.KeptIff` | src/arena/arena.c:50-70 | a record anywhere in the arena survives the compaction of a slot exactly when the bytes put on it are its own |
| `PageStore.Store.Get` | src/arena/manager.c:160-186 | the value last set comes back exactly when its record still reads right |
| `PageStore.Store.ChoosePage` | src/arena/manager.c:102-126 | the loop finds what those conditions say, each exactly when it holds |
| `PageStore.Store.NewPage` | src/arena/manager.c:83-100 | a new page changes no value and no record |
| `PageStore.Store.PutInto` | src/arena/manager.c:139-158 | the value is found under its record and is written over whatever lies there: every record reads right afterwards exactly when each was spared, and pages stay in order exactly when the value ends inside its page |
| `PageStore.Store.Set` | src/arena/manager.c:139-158 | each outcome comes about exactly when the pages are as it says, the division by zero included; a page is passed over, made or refused only where the value's bytes do not end inside the pages before; a value kept lies behind the others of its page, across the end of the page if need be, and nothing else changed; every record, old and new, then reads right exactly when the write spared each old one |
| `PageStore.OneOutcome` | src/arena/manager.c:102-158 | what the outcomes say of the pages is true of exactly one of them |
| `PageStore.KeptByBytes` | src/arena/manager.c:102-158 | on ordinary pages a value is kept on a page exactly when that is the first in which its bytes end, every page before has keys, and the arena has room |
| `PageStore.FullPageEmptied` | src/arena/manager.c:109 | a value that fills the first page, removed again, makes storing any other value divide by zero |
| `PageStore.Store.Recount` | src/arena/manager.c:208-213 | exactly the keys behind the removed one move down by one |
| `PageStore.Store.Unset` | src/arena/manager.c:188-233 | the value comes back exactly when its record read right; its meta record alone is gone, its key has left the page, which is marked dirty and counts the size read as removed, the other records read as before, and index and reverse index agree again |
| `PageStore.Store.Defragmentate` | src/arena/arena.c:50-70 | while every record reads right, overhanging ones included, the compaction ends and leaves them so exactly when the page's values survive and no other record is hit; from pages in order it ends up packed exactly when its gaps are safe, and all stay in order if they are, or if nothing is lost by sizes and offsets; one that stays inside its slot leaves the other slots as before |
| `PageStore.StoreReadsIff` | src/arena/arena.c:50-70 | the same on values: survival of the page's own values and of every record that hangs over into it or lies behind it |
| `PageStore.TailClearedIff` | src/arena/arena.c:68 | a record that hangs over by one byte into a page without values survives that page's compaction exactly when the byte is zero |
| `PageStore.LinkDropped` | src/arena/manager.c:204-213 | after the recount every key's position is its index in the page's list |
| `PageStore.NeatReads` | src/arena/manager.c:160-186 | while every page is in order inside its own slot, every record reads right |
| `PageStore.PushReadsIff` | src/arena/manager.c:139-158 | after a value is appended anywhere every record reads right exactly when each old one was spared |
| `PageStore.PushNeatIff` | src/arena/manager.c:139-158 | pages stay in order exactly when the appended value ends inside its page |
| `PageStore.OverhangSparesIff` | src/arena/manager.c:106 | from pages in order, a value let in by the room check can hit only the first value of the next page, and spares all exactly when it spares that one |
| `PageStore.NeighbourIsHit` | src/arena/manager.c:106 | two full pages: the value let in overwrites the size of the next page's first value |
| `PageStore.TailKeptIff` | src/arena/manager.c:139-158 | a value hanging over by one byte loses it to the next value written at that page's start, unless that value's size has it in its low byte |
| `PageStore.DropReads` | src/arena/manager.c:188-233 | removing a value leaves every other record reading right |
| `PageCache.StepUnnoticedIff` | src/arena/manager.c:83-241 | creating, fetching or storing into a page, evictions and stores into pages on disk included, keeps every page reading as if all lay in memory exactly when the victim's dump does no harm and every other page in memory at the slot holds the same bytes anyway |
| `PageCache.RunHiddenIff` | src/arena/arena.c:34-43 | over every run of such steps from the start of a session the cache is invisible exactly when every step meets that condition |
| `PageCache.SessionBegins` | src/main.c:145-193 | all pages on disk, an unused arena of at least one slot and an empty queue make a session, its slots apart |
| `PageCache.SessionGoesOn` | src/arena/arena.c:34-43 | in a session no step on an existing page finds the queue empty or a slot without a header of its number, and the session goes on |
| `PageCache.RoomyRunHidden` | src/arena/arena.c:34-37 | over every run of a session for which the slots suffice it is invisible |
| `PageCache.EvictionShowsIff` | src/arena/arena.c:39-42 | where slots are apart, evicting a page that is in memory shows exactly when the page that takes its slot differs from it |
| `PageCache.OnDiskVictimIsLost` | src/arena/manager.c:235-241 | two fetches in an arena of one slot: a page that never left the disk is overwritten there with another |
| `PageCache.StepApartIff` | src/arena/manager.c:83-241 | each slot stays with one page in memory exactly when no other page in memory names the slot that the step uses |
| `PageCache.RunApartIff` | src/arena/arena.c:34-43 | over every run of a session each slot stays with one page in memory exactly when every step takes one that no other such page names |
| `PageCache.ApartFit` | src/arena/arena.c:34-43 | and then no more pages are in memory than there are slots |
| `PageCache.EvictionSharesSlot` | src/arena/arena.c:39-42 | evicting a page that is in memory always leaves two pages with its slot |
| `PageCache.EvictTakesFirst` | src/lru/lruq.c:18-41 | where the pointers make a queue, its first page is evicted and they make the queue without it |
| `PageCache.TouchIs` | src/lru/lruq.c:10-16 | touching does to those pointers what it does to the linked headers, and touching the top one leaves pointers that make no queue |
| `PageCache.CreateQueues` | src/arena/manager.c:90-97 | a new page joins behind all others, the evicted one gone |
| `PageCache.FetchQueuesIff` | src/arena/manager.c:235-241 | the header with the slot's number joins the queue exactly when it does not wait there once the victim has left; otherwise it cuts off those behind it, or the queue is lost |
| `PageCache.RunQueueIff` | src/lru/lruq.c:10-41 | over every run of a session the pointers stay a queue without duplicates exactly when no fetch touches the last header waiting |
| `PageCache.HeaderQueuedAgain` | src/arena/manager.c:235-241 | fetching a third page into two slots evicts page 0 and queues its header again, once |
| `Lru.Queue.Touch` | src/lru/lruq.c:10-16 | a page that waits nowhere joins at the top exactly when the queue is empty or knows its top, and is lost otherwise; a waiting one cuts off the pages behind it; the top one is linked to itself; no other backward link changes |
| `Lru.Queue.FirstNotProcessing` | src/lru/lruq.c:18-23 | the circular search stops at the least recent page that is not being processed, whether or not the top is known |
| `Lru.Queue.LeastRecent` | src/lru/lruq.c:18-41 | that page alone leaves the linked queue, whose next page joins properly exactly when the queue is empty now or knew its top and lost another page |
| `Lru.Queue.Unlink` | src/lru/lruq.c:27-38 | the links around the page close up in both directions and no other link changes |
| `Keys.KeyCompOrders` | src/lib/hashmap/Util.c:5-10 | the comparison is zero on equal keys only and changes sign with its arguments |
| `Keys.BeforeTransitive` | src/lib/hashmap/Util.c:5-10 | the order of keys is transitive |
| `Keys.ShorterFirst` | src/lib/hashmap/Util.c:5-10 | a shorter key comes first |
| `Keys.SmallerFirst` | src/lib/hashmap/Util.c:5-10 | of equally long keys, the one with the smaller byte where they first differ |
| `AvlTree.SearchIsMap` | src/lib/hashmap/AVLNode.c:30-46 | searching an ordered tree answers as the finite map of its entries |
| `AvlTree.RebalanceKeeps` | src/lib/hashmap/AVLNode.c:227-279 | every rotation keeps the entries, their order and exact heights |
| `AvlTree.InsertAdds` | src/lib/hashmap/AVLNode.c:48-74 | inserting an absent key adds exactly its entry at its place |
| `AvlTree.InsertPresent` | src/lib/hashmap/AVLNode.c:48-74 | inserting a key that is there changes no entry |
| `AvlTree.InsertIsMapUpdate` | src/lib/hashmap/AVLNode.c:48-74 | the same on the finite map, with order and heights kept |
| `AvlBalance.InsertBalancedIff` | src/lib/hashmap/AVLNode.c:227-237 | inserting into a balanced tree never follows a null pointer, and leaves it balanced exactly when no node on the way needs the turn whose test looks at the wrong child |
| `AvlBalance.InsertShape` | src/lib/hashmap/AVLNode.c:48-74 | heights grow by at most one, and grow exactly along a way of even nodes |
| `AvlBalance.ZigZagIsMissed` | src/lib/hashmap/AVLNode.c:234 | three keys are enough to miss it |
| `AvlBalance.RebalanceRestoresIff` | src/lib/hashmap/AVLNode.c:227-237 | over balanced subtrees rebalancing restores balance exactly outside the cases that its four tests leave uncovered |
| `AvlBalance.TurnsAre` | src/lib/hashmap/AVLNode.c:227-237 | which heights make which rotation, balanced subtrees or not |
| `AvlBalance.BalancedIsLarge` | src/lib/hashmap/AVLNode.c:220-225 | a balanced tree of height h has at least Fib(h+2)-1 nodes |
| `AvlBalance.SearchIsLogarithmic` | src/lib/hashmap/AVLNode.c:30-46 | so a search takes at most about twice the logarithm of its size in steps |
| `AvlRemove.RemoveExactIff` | src/lib/hashmap/AVLNode.c:91-200 | the entries after a removal are those before without the key exactly when no node below the root is rotated; otherwise more is lost |
| `AvlRemove.RemoveMapIff` | src/lib/hashmap/AVLNode.c:97-102 | the same on the finite map, with another lost key named in the other case |
| `AvlRemove.RemoveInventsNothing` | src/lib/hashmap/AVLNode.c:91-200 | in any case the key is gone, the rest was there before, and order stays |
| `AvlRemove.TakesItsPlace` | src/lib/hashmap/AVLNode.c:114-193 | the removed key's place goes to the entry before it, or to its only child |
| `AvlRemove.RemoveTotal` | src/lib/hashmap/AVLNode.c:91-200 | removal from a balanced tree follows no null pointer and keeps exact heights |
| `AvlRemove.RemoveBalancedIff` | src/lib/hashmap/AVLNode.c:91-237 | while no node below the root is rotated, a removal leaves a balanced tree exactly when none below the root comes to lean by two and the root is level or in one of the cases its tests cover |
| `AvlRemove.RemoveKeepsIff` | src/lib/hashmap/AVLNode.c:91-237 | a removal from a balanced tree takes away the key alone and leaves it balanced exactly when no node below the root is rotated or left leaning by two and the root is restored |
| `AvlRemove.InnerRotationLosesKeys` | src/lib/hashmap/AVLNode.c:97-102 | a balanced tree of seven keys that loses two others |
| `AvlRemove.EvenChildIsLeft` | src/lib/hashmap/AVLNode.c:227-237 | a removal that leaves the root out of balance because its child is even |
| `AvlFaults.RebalanceFaultsIff` | src/lib/hashmap/AVLNode.c:227-279 | of the rotations only the last can follow a null pointer: exactly where the node leans right by two, its left child leans left by one and its right child has no left child (a stuck node) |
| `AvlFaults.InsertFaultsIff` | src/lib/hashmap/AVLNode.c:48-74 | inserting into any tree with right heights, balanced or not, follows a null pointer exactly when such a node is met on the way back, and keeps the heights right otherwise |
| `AvlFaults.RemoveFaultsIff` | src/lib/hashmap/AVLNode.c:91-200 | likewise for removal, with its lost rotations |
| `AvlFaults.EightInsertionsFault` | src/lib/hashmap/AVLNode.c:234-243 | eight one-letter keys put into an empty tree end in a null pointer |
| `AvlNode.Node.constructor` | src/lib/hashmap/AVLNode.c:15-28 | a lone node of height one without links |
| `AvlNode.CalcHight` | src/lib/hashmap/AVLNode.c:214-218 | over two linked subtrees the node becomes the root of a linked tree with the right height |
| `AvlNode.Search` | src/lib/hashmap/AVLNode.c:30-46 | the loop over linked nodes finds the node whose entry the tree holds under the key |
| `AvlNode.RightMove` | src/lib/hashmap/AVLNode.c:243-255 | relinking the objects, parents included, rotates the tree and uses the same nodes |
| `AvlNode.LeftMove` | src/lib/hashmap/AVLNode.c:257-269 | likewise to the left |
| `AvlNode.Rebalance` | src/lib/hashmap/AVLNode.c:227-237 | the chosen rotation or double rotation is linked in, with every parent pointer right |
| `AvlNode.InsertBelow` | src/lib/hashmap/AVLNode.c:49-57 | an empty subtree becomes the new node, another one takes it in, and either way its root names the node above as parent |
| `AvlNode.Insert` | src/lib/hashmap/AVLNode.c:48-74 | in place, the linked nodes make the tree that insertion gives, child and parent pointers and heights agreeing |
| `AvlUnlink.LastOf` | src/lib/hashmap/AVLNode.c:116-119 | the walk to the right ends at the last node of the subtree |
| `AvlUnlink.Unlink` | src/lib/hashmap/AVLNode.c:135-139 | the last node leaves; its left subtree hangs at its parent, everything above as it was |
| `AvlUnlink.Climb` | src/lib/hashmap/AVLNode.c:141-145 | following the parent pointers comes back to the node it started for, with every height on the way right |
| `AvlUnlink.ClimbStep` | src/lib/hashmap/AVLNode.c:141-145 | one round finishes one subtree and leaves the links above it untouched |
| `AvlUnlink.Exchange` | src/lib/hashmap/AVLNode.c:114-149 | the key's node takes the contents of the key before it and keeps its links; the subtree on the left lost that key only |
| `AvlUnlink.TakeOver` | src/lib/hashmap/AVLNode.c:150-193 | an only child's contents and subtrees come to the key's node, with their parents set |
| `AvlUnlink.TakeOut` | src/lib/hashmap/AVLNode.c:114-193 | with one child or two, the key's node stands linked over what removal leaves below it |
| `AvlUnlink.Unhook` | src/lib/hashmap/AVLNode.c:103-113 | a leaf disappears from the link that led to it and from no other |
| `AvlUnlink.Remove` | src/lib/hashmap/AVLNode.c:91-200 | in place, while no node below the root is rotated, the linked nodes make the tree that removal gives, all links, parents and heights agreeing, and the parent's link leads to it |
| `Hash.HashLoop` | src/lib/hashmap/Hash.c:5-20 | reducing at every step gives the sum of all words modulo the table size, without overflow |
| `Hash.SevenBitHash` | src/lib/hashmap/Hash.c:16-19 | on 7-bit keys it is the multiplier times the byte sum |
| `Hash.Coprime` | src/lib/hashmap/Hash.c:7-15 | every multiplier has an inverse modulo the table size |
| `Hash.CollideIff` | src/lib/hashmap/Hash.c:5-20 | two keys collide at a depth exactly when the multiplied difference of their signed sums and a word for every high byte more come to whole tables |
| `Hash.CollideElsewhereIff` | src/lib/hashmap/Hash.c:9-20 | keys that collide at one depth collide at another exactly when the difference of the multipliers takes their sums apart by whole tables |
| `Hash.CollideAgainIff` | src/lib/hashmap/Hash.c:9-20 | that is, exactly when the depths share a multiplier or the numbers of high bytes differ by a multiple of 2503 |
| `Hash.CollideEverywhereIff` | src/lib/hashmap/Hash.c:5-20 | keys that collide at one depth collide at every depth exactly when their numbers of high bytes differ by a multiple of 2503 |
| `Hash.ChildSeparatesIff` | src/lib/hashmap/HashMap.c:106-118 | a child table takes two keys of one slot apart exactly in the first five levels and when their numbers of high bytes differ by no multiple of 2503 |
| `Hash.OneChildSlot` | src/lib/hashmap/HashMap.c:106-118 | so 7-bit keys of one slot share a slot in the child table |
| `Hash.HighBytesSeparate` | src/lib/hashmap/Hash.c:16-19 | seven high bytes against none: keys that collide at depth 3 and not at depth 4 |
| `HashIndex.SpreadMoves` | src/lib/hashmap/HashMap.c:120-141 | the child table gets every entry of the tree and keeps its own, slot by slot counted |
| `HashIndex.SpreadIsPostorder` | src/lib/hashmap/HashMap.c:120-141 | the nodes are hung into the child table children first, left before right |
| `HashIndex.RebuildKeepsEntries` | src/lib/hashmap/HashMap.c:106-118 | a rebuilt slot answers every search as its tree did and counts each entry once |
| `HashIndex.InsertKeepsInv` | src/lib/hashmap/HashMap.c:37-63 | every table stays ordered, hashed, counted and linked to deeper ones, rebuilt or not |
| `HashIndex.InsertFinds` | src/lib/hashmap/HashMap.c:37-63 | what every search answers after inserting an absent key: the new entry, or as before, except for the keys of a slot that was rebuilt into one full slot |
| `HashIndex.RebuildSpoilsIff` | src/lib/hashmap/HashMap.c:106-141 | a slot due to be rebuilt is spoilt exactly below the first five levels, or when the numbers of high bytes of all its keys differ from the new one's by multiples of 2503 |
| `HashIndex.DeleteKeepsInv` | src/lib/hashmap/HashMap.c:65-85 | deletion keeps the tables well-formed, even when the tree loses more than the key |
| `HashIndex.DeleteFinds` | src/lib/hashmap/HashMap.c:65-85 | only searches that end in the key's slot can change, and answer from what the removal left |
| `HashIndex.InsertKeepsReached` | src/lib/hashmap/HashMap.c:37-63 | every entry stays where the walk for its key ends |
| `HashRuns.PutRefinesIff` | src/memory/hashmap.c:32-48 | inserting an absent key extends the finite map exactly when no slot is spoilt |
| `HashRuns.DropRefinesIff` | src/memory/hashmap.c:62-80 | deleting a present key shrinks the finite map exactly when no node below the root of its tree is rotated |
| `HashRuns.StepRefinesIff` | src/memory/hashmap.c:32-80 | the same for any call, found keys and missing keys included |
| `HashRuns.RunTracksIff` | src/memory/hashmap.c:32-80 | over every run the index goes on answering as the map exactly when every step meets its condition |
| `HashRuns.BalancedStep` | src/lib/hashmap/HashMap.c:37-85 | a step at a balanced tree that rebuilds nothing goes through no bad pointer; HashFaults.StepFaultsIff has the exact condition |
| `HashFaults.StepFaultsIff` | src/lib/hashmap/HashMap.c:37-85 | an index step goes through a bad pointer exactly when it meets such a node, in the key's tree or, when a slot is rebuilt, in a tree of the child table; heights stay right otherwise |
| `HashFaults.SpreadFaultsIff` | src/lib/hashmap/HashMap.c:120-141 | the same for the rebuilding alone |
| `HashFaults.CleanRunTracksIff` | src/memory/hashmap.c:32-80 | over every run, from an empty index or any with right heights, the index answers as the map throughout exactly when no step meets such a node and every step meets its condition |
| `HashCounts.InsertCounts` | src/lib/hashmap/HashMap.c:37-63 | inserting an absent key adds one to its slot's counter, or marks the slot as a table when it is rebuilt; no other counter changes |
| `HashCounts.DeleteCounts` | src/lib/hashmap/HashMap.c:74-76 | deleting a present key takes one off its slot's counter and no other |
| `HashCounts.AbsentDeleteCounts` | src/lib/hashmap/HashMap.c:65-85 | asked to delete an absent key, the table still takes one off, unless the slot's tree is empty |
| `HashCounts.EmptyCounted` | src/memory/hashmap.c:23-26 | a new index counts right |
| `HashCounts.RunCountedIff` | src/lib/hashmap/HashMap.c:37-85 | over every run of a new index, each counter is the number of entries of its tree exactly when no removal loses other keys |
| `HashMap.Index.constructor` | src/memory/hashmap.c:23-26 | a new index refines the empty map |
| `HashMap.Index.Walk` | src/lib/hashmap/HashMap.c:20-35 | the loop ends at the table and slot where the key belongs |
| `HashMap.Index.Search` | src/lib/hashmap/HashMap.c:20-35 | found, absent, or a tree node taken for a table |
| `HashMap.Index.Insert` | src/lib/hashmap/HashMap.c:37-63 | the tables after the loop, the grafted node and the rebuild are those of the value model; an absent key is counted |
| `HashMap.Index.Delete` | src/lib/hashmap/HashMap.c:65-85 | likewise for deletion; a present key is counted off |
| `HashMap.Index.InsertKey` | src/memory/hashmap.c:32-48 | a known key is refused and nothing changes; otherwise the index refines the larger map exactly under the condition above; it goes through a bad pointer exactly when the step meets a stuck node |
| `HashMap.Index.DeleteKey` | src/memory/hashmap.c:62-80 | what the key stood for comes back; the index refines the smaller map exactly under the condition above; it goes through a bad pointer exactly when the removal meets a stuck node |
| `Snapshot.RecRoundTrip` | src/arena/disk.c:152-165 | a key record delimits itself and comes back with the page of the loop |
| `Snapshot.RecFields` | src/arena/disk.c:152-165 | a key record holds the length of its rest, the page, the offset, and the key behind its size |
| `Snapshot.DumpedFields` | src/arena/disk.c:136-176 | in the dumped file each key's record has the page its meta record names and its value's offset |
| `Snapshot.DumpNamesPages` | src/arena/disk.c:162 | every record of page p carries p, for sound pages |
| `Snapshot.LoadDumpIff` | src/arena/disk.c:136-214 | loading a dump rebuilds every page, its keys in order with their offsets, exactly when every page has fewer than 65536 keys that name it |
| `Snapshot.LoadHead` | src/arena/disk.c:147-150 | keys that the two-byte count leaves out are taken for the next pages |
| `Snapshot.Disk.DumpKeys` | src/arena/disk.c:136-176 | behind the first eight bytes the file holds the pages and nothing else; the bytes counted are the bytes of the file |
| `Snapshot.Disk.DumpHead` | src/arena/disk.c:141-172 | one page is written behind what was there, and all its keys are counted |
| `Snapshot.Disk.Close` | src/arena/disk.c:65-68 | the keys dumped in the whole session are counted in front |
| `Snapshot.UploadKey` | src/arena/disk.c:189-214 | one call takes exactly the next key record off the file |
| `Snapshot.UploadKeys` | src/main.c:172-192 | the keys of one page are read, fewer only at the end of the file |
| `Snapshot.UploadHeader` | src/arena/disk.c:178-187 | offset and number of keys are the first four bytes |
| `Snapshot.LoadPages` | src/main.c:154-193 | the nested loops read what the pages of the file are, and count every key |
| `Snapshot.Start` | src/arena/disk.c:54-60 | what the load loop finds in the file, and that the check on the number of keys passes exactly when at least as many keys were found as the heading says |
| `Snapshot.SessionStarts` | src/arena/disk.c:65-78 | after any dumps of a session and its end, the pages of the last dump are loaded and the heading has the keys of all dumps, modulo 2^64 |
| `Snapshot.StartCheckIff` | src/main.c:195 | below 2^64 keys the check at the next start passes exactly when the earlier dumps of the session had no keys |
| `Bytes.LeWraps` | src/arena/disk.c:65-68 | a number written in n bytes is read back modulo 256 to the n |
| `Restart.FlatSet` | src/arena/disk.c:102-126 | replacing one page in the value file leaves the bytes of all others |
| `Restart.ValueFile.DumpPage` | src/arena/disk.c:102-126 | the file holds the new page at its place and all others as before |
| `Restart.ValueFile.UploadPage` | src/arena/disk.c:80-99 | a page comes back as it was dumped |
| `Restart.ValueFile.PageCount` | src/arena/disk.c:41-48 | the length of the file gives the number of pages |
| `Restart.SavePages` | src/arena/manager.c:36-48 | every marked page is compacted in its slot, written and clean, the rest as found; the value file then holds every page of memory exactly when every clean page was in step; from pages in order every record reads right exactly when the values of every marked page survive, and pages stay in order if that is so by sizes and offsets |
| `Restart.SavedReadsIff` | src/arena/manager.c:36-48 | the same on values |
| `Restart.TameConfined` | src/arena/manager.c:36-48 | by sizes and offsets alone, no compaction leaves its page |
| `Restart.UnsetInStep` | src/arena/manager.c:221-226 | removing a value keeps every clean page equal to its copy on disk |
| `Restart.SetInStepIff` | src/arena/manager.c:139-158 | storing a value keeps that exactly when the page was dirty already or its bytes do not change, since it is not marked; over the zeros behind the values they always change |
| `Restart.NewPageInStep` | src/arena/manager.c:83-100 | a new page, marked from the start, keeps that |
| `Restart.SetFreshInStep` | src/arena/manager.c:102-158 | and so does storing a value on it |
| `Restart.HeadSound` | src/arena/disk.c:139-170 | a page whose counts and offsets fit two bytes is written as it is, its keys naming it |
| `Restart.HeadsTell` | src/arena/disk.c:139-170 | what is dumped of a page is how far it is in use, and each key with its page and its value's offset |
| `Restart.PageNarrow` | src/arena/disk.c:139-170 | every page in order fits those widths |
| `Restart.RestartGivesBack` | src/main.c:154-193 | from pages in order, all of them in the file, the restart finds every key and every key leads to the value its meta record stood for |
| `Restart.PagesLoadBack` | src/main.c:154-193 | the load loop rebuilds every page's keys and offsets |
| `Restart.AllLeadBackIff` | src/main.c:154-193 | every key leads to its value exactly when every page of the value file has its values at the offsets in the key file |
| `Cycle.SnapshotAndStart` | src/main.c:154-195 | snapshot, end of session and next start in one: every key is found and leads to its value exactly when every marked page survives its compaction and every other has its values in the file, in step or not; the start's check passes exactly when at least as many keys are found as were dumped in the session, modulo 2^64 |
| `Cycle.FileIff` | src/arena/manager.c:36-48 | what the value file holds after a snapshot, in terms of the pages before it |
| `Restart.ReloadedPageOk` | src/main.c:154-160 | a loaded page, its fragmentation counted from zero, is a proper page |

## Left out

- Sockets, event loop, message parsing and replies, logging to the console, signals and process start: input and output around the parts modelled here.
- Memory mapping and allocation in the C library: memory is arrays and files are byte sequences; allocation always succeeds, reads are short only at the end of a file, writes are whole.
- `operation_update`, which is not implemented (src/operations/operations.c:176-182); `operation_select` is taken to return the reply it fills in.
- First-in-first-out order among transactions of one priority (TODO.md): a binary heap does not give it. Priorities are integers, not four bytes read through the address of a one-byte command.
- Operations.Database.Insert: its index is a finite map, so the branch for a failing index insertion (src/operations/operations.c:150-167) cannot be taken; HashRuns says when the index is such a map.
- PageStore.Store.Set: after an outcome other than Kept, which stands for a division by zero, a preferred page that is compacted first (Pages.NeverPreferable: not while pages are in order), an arena without an unused slot, or bytes behind the arena's end, the model changes nothing, where the code would go on. Evicting a page for a new one is modelled in PageCache, on opaque contents.
- PageStore.Store.Get: pages are in memory; PageCache models the fetch of one that is on disk, and Restart what it then holds. The same goes for PageStore.Store.Unset and PageStore.Store.NewPage.
- PageStore.Store.Defragmentate: blocks that leave the arena, or end behind their page, count as a fault that changes nothing.
- PageStore: the key list of a page is a sequence; Vector says when the array under it has room.
- PageCache: pages are opaque contents, and a write to a page is any function of them. A step is taken as a whole, so no page is being processed when a slot is needed: that mark is set and taken back within one compaction (src/arena/arena.c:54-69). A snapshot runs in a signal handler beside the worker thread (src/main.c:232-250 and 267), and what the two do to each other is not modelled.
- Lru.Queue.LeastRecent: an empty queue or one with every page being processed is excluded, as the search would follow a null pointer or not end.
- AvlUnlink.Remove: requires that no node below the root is rotated. AvlRemove says on values what such a rotation loses; the stale parent pointers it leaves are not modelled, so what is said of a tree holds up to and including its first removal of that kind. Freed nodes are only left out of the tree.
- HashIndex: trees inside the tables are values and tables are named by numbers; AvlNode.Insert and AvlUnlink.Remove show that the linked nodes of one tree are changed alike. The wrap of a slot's counter below zero and `hash_erase` are not modelled.
- HashMap.Index.Insert: a result of false stands for a step through a null pointer or a tree node read as a table, and the model then changes nothing; HashFaults.StepFaultsIff says when that is.
- Wal.LsnConsecutive: stated below 2^64; the wrap itself is in the model. Opening a log that already has records, and the flushed LSN, are not modelled.
- Snapshot.LoadDumpIff: a file that ends inside a record is read as a failure of the whole load, where the code would use memory that was never set.
- Restart.SavePages: requires that the compaction of every marked page stays inside the page (Restart.TameConfined says when sizes and offsets see to that), and all pages in memory; page LSNs and the LSN kept for the value file are left out. Cycle.SnapshotAndStart: starts from pages in order; for others PageStore.Store.Defragmentate has the condition, one compaction at a time.
- Buddy.BuddyInfo.Alloc: a request of less than a kilobyte is excluded, because rounding it up shifts by a negative number (src/lib/buddy/memory.c:15).
- Buddy: `buddy_dump`, `buddy_destroy` and pointers outside the pool; the pool is at most 2^21 kilobytes, within the 32-bit arithmetic of the original.
- `new_arena`'s pointer alignment and `destroy_arena`: raw addresses.
- `client/`, `legacy/`, the build files, `hexdump` and the examples.
