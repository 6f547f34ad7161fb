# CS24 lab allocators, pagers and ALU in Dafny

This project models, and proves properties of, the core pieces of a set of
CS24 lab solutions written in C:

- **The subpython allocator with a stop-and-copy collector** (`lab04 alloc.c`).
  This is the centrepiece, split over three modules:
  - `ValueLayout` (value_layout.dfy): the byte layout of a Value. It has a
    16-byte header holding type, data_size, ref and seen, followed by the
    payload. It also covers the walk over Values laid end to end.
  - `CopyState` (copy_state.dfy): the allocator's state read as a value
    (`Heap`). It states the invariant kept between collections
    (`Consistent`) and the invariant of a collection in progress (`GcOk`).
    Lemmas cover every step a collection takes.
  - `StopAndCopy` (stop_and_copy.dfy): the allocator itself, a class over two
    arrays.
    - The arrays are the pool (`mem`) and the reference table (`refTable`).
    - Its methods follow the C functions one by one: `mm_init`, `mm_malloc`,
      `make_reference`, `deref`, `memuse`, `has_space_available`,
      `copy_wrapper`, `copy_val`, `copy_list`, `copy_dict`, `copy_global`,
      `iterate_from`, `stop_and_copy` and `collect_garbage`.
    - The recursive copy is proved to copy exactly what the globals reach.
      Every such Value keeps its bytes and its Reference; every other
      Reference is cleared.
    - `collect_garbage` is proved to report exactly the total size of the
      unreachable Values.
- **The explicit free-list allocator** (`lab03 mm.c`, module `ExplicitList`).
  - The heap is a map of 4-byte words, and ghost state records the block
    sequence and the free list.
  - The model covers `malloc`, `free`, `realloc`, first-fit `find_fit`,
    `split_explicit`, the three coalescing functions, `expand_right`,
    `add_front`, `remove_free` and `mm_checkheap`.
  - Each operation is proved to keep the heap invariant that `mm_checkheap`
    checks, together with the boundary-tag invariant that no two free blocks
    sit side by side. Each also states exactly how the set of allocated blocks
    changes.
- **The small-object allocator** (`midterm smallobj.c`, module `SmallObj`): a
  pool of fixed-size objects served from a singly linked list of chunks, each
  with an occupancy array.
  - Ghost state records the chunks in list order, with each chunk's
    occupancy and cursor.
  - Each operation states exactly which slot, cursor and link changes; every
    other chunk keeps its occupancy and its cursor.
- **The page queue and the two page-replacement policies** (`lab08 queue.c`,
  `vmpolicy_fifo.c` and `vmpolicy_aging.c`; modules `PageQueues`,
  `FifoPolicy` and `AgingPolicy`).
- **The producer/consumer ring buffer** (`lab07 bounded_buffer.c`, module
  `BoundedBuffers`).
- **The 32-bit ALU of the processor simulator** (`lab01 alu.c`, module `Alu`).

Code that updates state in place is modelled as classes over arrays, maps and
linked nodes, with loops that carry their invariants. Pure computations are
modelled as functions. Six defects in the C code are logged under
"Findings". For each one, the model proves the corrected behaviour and uses it.

## Model

| member | source | states |
|---|---|---|
| `StopAndCopy.Allocator.MmInit` | lab04-mtjandra/subpython/alloc.c:110-144 | The lower half is active and empty, the upper half is the to half, there is no reference table, and the allocator invariant holds |
| `StopAndCopy.Allocator.Memuse` | lab04-mtjandra/subpython/alloc.c:311-314 | The bytes in use are never negative and never exceed half the pool |
| `StopAndCopy.Allocator.HasSpaceAvailable` | lab04-mtjandra/subpython/alloc.c:155-166 | A request fits exactly when the bytes in use plus the request fit in half the pool (corrected bound, see Findings) |
| `CopyState.HasSpace` | lab04-mtjandra/subpython/alloc.c:162-165 | The space test with the bound at the end of the active half. When it passes, the request also ends inside that half |
| `CopyState.HasSpaceAgrees` | lab04-mtjandra/subpython/alloc.c:162-165 | The test as written and the corrected test agree whenever the lower half is active or the pool size is even |
| `CopyState.HasSpaceAsWrittenOvershoots` | lab04-mtjandra/subpython/alloc.c:165 | Witness: in a 33-byte pool with the upper half active, the test as written admits 17 bytes at offset 16, more than the other half can take |
| `StopAndCopy.Allocator.Deref` | lab04-mtjandra/subpython/alloc.c:289-307 | NULL_REF gives NULL. Any other Reference in use gives a Value of the active half that records that Reference, so the address lies in the pool |
| `StopAndCopy.Allocator.MakeReference` | lab04-mtjandra/subpython/alloc.c:223-280 | The Reference is the lowest NULL entry below num_refs, or else num_refs, which then grows by one. The table is created with 8 entries and doubles when full. Its new entries are NULL, only the chosen entry changes, and the Value records its Reference |
| `StopAndCopy.FirstNull` | lab04-mtjandra/subpython/alloc.c:244-251 | The scan result is the first NULL entry, and every entry before it is in use |
| `StopAndCopy.FirstNullIs` | lab04-mtjandra/subpython/alloc.c:244-251 | Any index that is NULL with no NULL before it is the one the scan finds |
| `StopAndCopy.Grow` | lab04-mtjandra/subpython/alloc.c:257-271 | The widened table keeps every old entry, and the entries added are NULL |
| `CopyState.Widen` | lab04-mtjandra/subpython/alloc.c:236-238 | A table widened to n entries keeps its old entries as a prefix and is NULL past them |
| `CopyState.HasSpaceAsWritten` | lab04-mtjandra/subpython/alloc.c:162-165 | The test as written admits every request the corrected test admits |
| `ValueLayout.PayloadSize` | lab04-mtjandra/subpython/alloc.c:178-186 | Integers, floats, list nodes and dict nodes get their struct's payload, at least their fields. Other types get the caller's data_size |
| `StopAndCopy.Requested` | lab04-mtjandra/subpython/alloc.c:188 | A request is the 16-byte header plus a payload with room for the type's fields |
| `RequestWidth.RequestedAsWritten` | lab04-mtjandra/subpython/alloc.c:188 | The request as alloc.c stores it in an `int`: a 32-bit signed value, equal to the true byte count whenever that count fits |
| `RequestWidth.RequestedWrapsAsWritten` | lab04-mtjandra/subpython/alloc.c:188-193 | Witness: a string of INT_MAX bytes gives a negative request, which the space test as written admits on a 64-byte pool while the true request fails it |
| `StopAndCopy.Allocator.MmMalloc` | lab04-mtjandra/subpython/alloc.c:173-219 | Collects first only when the request does not fit, and allocates at the old freeptr when it did fit. When it did not fit, a collection has run: the halves are swapped. On success the Value ends at the new freeptr, inside the active half. It has its type and size, a Reference in use that leads back to it, seen 0 and a 0xCC payload. It fails only after a collection, when even then there is no room, and the heap is then exactly as that collection left it (`Collected`, with usage down by `Garbage`). Every Value the globals reach keeps its bytes |
| `StopAndCopy.Allocator.MakeRoom` | lab04-mtjandra/subpython/alloc.c:191-195 | When the request does not fit, a collection runs: the halves swap, `Collected` holds and usage drops by exactly `Garbage`. When it fits, freeptr stays. Then it reports whether the request fits. Reached Values keep their bytes below freeptr |
| `StopAndCopy.Allocator.PlaceValue` | lab04-mtjandra/subpython/alloc.c:196-210 | The new Value sits at the old freeptr, which moves past it. It becomes the last Value of the active half, and the allocator invariant still holds |
| `StopAndCopy.InitValue` | lab04-mtjandra/subpython/alloc.c:203-207 | Writes the type and size fields and fills the payload with 0xCC. No other byte changes |
| `StopAndCopy.Placement` | lab04-mtjandra/subpython/alloc.c:196-210 | The writes of mm_malloc describe one placement at freeptr. The Reference used was NULL, the new Value has the requested fields, and nothing below it changes |
| `CopyState.Placed` | lab04-mtjandra/subpython/alloc.c:196-210 | Placing a Value at freeptr keeps the allocator consistent, with the new Value appended to the active half |
| `StopAndCopy.KeptBelow` | lab04-mtjandra/subpython/alloc.c:196-210 | Writes at or past freeptr, and to table entries not in use, leave every reached Value's bytes in place |
| `StopAndCopy.Allocator.CollectGarbage` | lab04-mtjandra/subpython/alloc.c:592-612 | After one collection, a Reference keeps an entry exactly when the globals reach it, and its Value has its old bytes. The halves are swapped. The reported count equals the total size of the Values the globals no longer reach, and it is exactly the drop in usage |
| `StopAndCopy.Allocator.StopAndCopy` | lab04-mtjandra/subpython/alloc.c:569-587 | The halves swap. The entries left are exactly the reached References, each leading to a copy holding the original's bytes. freeptr drops by exactly the garbage |
| `StopAndCopy.Finished` | lab04-mtjandra/subpython/alloc.c:579-586 | Once the walk is done, sweeping, zeroing the old half and swapping leave a consistent allocator whose Values are the copies. Entries stay exactly for reached References, and the freed bytes are the garbage |
| `StopAndCopy.Allocator.Flip` | lab04-mtjandra/subpython/alloc.c:572-586 | Zeroes the active half from fromptr to its end, moves freeptr to allocptr, and swaps the halves. The table is untouched |
| `StopAndCopy.MemSet` | lab04-mtjandra/subpython/alloc.c:580 | memset sets exactly the n cells from d and leaves the rest alone |
| `StopAndCopy.Allocator.CopyGlobals` | lab04-mtjandra/subpython/alloc.c:570 | Hands every global to copy_global. Afterwards the roots are exactly the non-NULL globals, all copied, with nothing left waiting for its children |
| `StopAndCopy.Allocator.CopyGlobal` | lab04-mtjandra/subpython/alloc.c:526-535 | NULL_REF adds nothing. Any other global becomes a root and is copied together with everything it reaches |
| `StopAndCopy.Allocator.CopyVal` | lab04-mtjandra/subpython/alloc.c:509-520 | Afterwards the Value of r is copied, whether now or before, and the collection invariant holds. Everything copied stays copied, and the References waiting for their children are the same as before |
| `StopAndCopy.Allocator.CopyList` | lab04-mtjandra/subpython/alloc.c:448-468 | For a list node: afterwards r is copied and the collection invariant holds. Everything copied before stays copied, and the References waiting for their children are the same as before, so the node's value and the rest of the list are finished |
| `StopAndCopy.Allocator.CopyDict` | lab04-mtjandra/subpython/alloc.c:477-503 | For a dict node: afterwards r is copied and the collection invariant holds. Everything copied before stays copied, and the References waiting for their children are the same as before, so the key, the value and the rest of the dictionary are finished |
| `StopAndCopy.Allocator.CopyField` | lab04-mtjandra/subpython/alloc.c:488-496 | Copying a non-NULL key or value of node r moves that child. It keeps everything copied before and leaves r open for its other children |
| `StopAndCopy.Allocator.CopyNextList` | lab04-mtjandra/subpython/alloc.c:465-467 | Copying the next node of a list node moves it and keeps everything copied before |
| `StopAndCopy.Allocator.CopyNextDict` | lab04-mtjandra/subpython/alloc.c:500-502 | Copying the next node of a dict node moves it and keeps everything copied before |
| `StopAndCopy.Allocator.CopyWrapper` | lab04-mtjandra/subpython/alloc.c:410-435 | Copies exactly when the Reference was not copied yet; otherwise the state is unchanged. A copy moves exactly that Reference, keeps the collection invariant and lowers the room left |
| `CopyState.Skip` | lab04-mtjandra/subpython/alloc.c:418-429 | The corrected test copies a Value exactly when its address lies in the active half at or below freeptr, so a Value already copied to the start of the to half is skipped |
| `CopyState.SkipAsWrittenMissesFirstCopy` | lab04-mtjandra/subpython/alloc.c:418 | Witness: with a full lower half, the first copy lands exactly at toptr, and the test as written would copy it again |
| `CopyState.SkipAsWritten` | lab04-mtjandra/subpython/alloc.c:418-429 | The test as written skips only addresses the corrected test skips |
| `CopyState.SkipAgrees` | lab04-mtjandra/subpython/alloc.c:418 | The two tests differ exactly at toptr itself, when the lower half is active and filled up to toptr |
| `StopAndCopy.Allocator.MoveValue` | lab04-mtjandra/subpython/alloc.c:430-433 | memcpy of the Value to allocptr, then its seen flag set, its entry pointed at the copy and allocptr moved past it |
| `StopAndCopy.MemCopy` | lab04-mtjandra/subpython/alloc.c:430 | memcpy on non-overlapping ranges copies the bytes and changes nothing else |
| `CopyState.CopyKeeps` | lab04-mtjandra/subpython/alloc.c:430-433 | One copy step keeps the collection invariant, adds exactly r to the copied References and lowers the room left |
| `CopyState.RootAdded` | lab04-mtjandra/subpython/alloc.c:526-531 | Starting to copy from another global keeps the collection invariant |
| `CopyState.Blackened` | lab04-mtjandra/subpython/alloc.c:456-467 | A copied node whose children are all copied is finished, and the invariant still holds |
| `CopyState.ReachedMoved` | lab04-mtjandra/subpython/alloc.c:509-535 | Once every root is copied and no copy waits for its children, every Reference the roots reach has been copied |
| `CopyState.StartOk` | lab04-mtjandra/subpython/alloc.c:569-570 | A collection starting from a consistent allocator satisfies its invariant with nothing copied |
| `StopAndCopy.Allocator.IterateFrom` | lab04-mtjandra/subpython/alloc.c:543-558 | Walks the active half Value by Value and leaves the table cleared at the Reference of every Value still unseen |
| `CopyState.SweepStep` | lab04-mtjandra/subpython/alloc.c:545-556 | Each Value in the walk lies inside the active half and records a Reference in use. The next Value starts where it ends |
| `CopyState.SweptAll` | lab04-mtjandra/subpython/alloc.c:543-558 | After the sweep, an entry stays exactly when its Reference was copied, and it leads to the copy |
| `CopyState.SwapConsistent` | lab04-mtjandra/subpython/alloc.c:579-586 | After the swap the allocator is consistent again, with the copies as the Values of the new active half |
| `CopyState.CollectedReach` | lab04-mtjandra/subpython/alloc.c:569-587 | After stop_and_copy a Reference keeps an entry exactly when the globals reach it |
| `CopyState.CollectedContent` | lab04-mtjandra/subpython/alloc.c:569-587 | A Reference that keeps an entry leads to a Value holding the bytes it held when the collection began, below the new freeptr |
| `CopyState.DoneGarbage` | lab04-mtjandra/subpython/alloc.c:594-603 | Once the walk is done, the bytes of the Values left unseen are exactly the garbage |
| `CopyState.PendingGarbage` | lab04-mtjandra/subpython/alloc.c:602-603 | When a Value is unseen exactly when it is unreachable, the unseen total is the garbage total |
| `CopyState.EntryBelowFree` | lab04-mtjandra/subpython/alloc.c:296-304 | Between collections every Reference in use leads to a Value that records it and lies in the active half below freeptr |
| `ValueLayout.Ordered` | lab04-mtjandra/subpython/alloc.c:545-556 | Values laid end to end come in address order and do not overlap |
| `ValueLayout.FieldsAgree` | lab04-mtjandra/subpython/alloc.c:430-431 | A copy and its original, equal but for the original's seen flag, have the same type, size, Reference and children |
| `ExplicitList.Allocator.constructor` | lab03-mtjandra/mm.c:125-135 | The heap holds only the prologue word PACK(0, 1), the free list is empty and the heap invariant holds |
| `ExplicitList.Align` | lab03-mtjandra/mm.c:44 | ALIGN rounds up to the next multiple of 8, by less than 8 |
| `ExplicitList.PackFields` | lab03-mtjandra/mm.c:57-72 | For an 8-aligned size and an alloc field below 8, PACK is their sum, and GET_SIZE and GET_ALLOC recover both fields |
| `ExplicitList.LinkRoundTrip` | lab03-mtjandra/mm.c:142-191 | get_prev after set_prev, and get_next after set_next, give back the linked block or NULL |
| `ExplicitList.Allocator.SetPrev` | lab03-mtjandra/mm.c:170-177 | Writes only p's previous-offset word, which then leads to q |
| `ExplicitList.Allocator.SetNext` | lab03-mtjandra/mm.c:184-191 | Writes only p's next-offset word, which then leads to q |
| `ExplicitList.Allocator.AddFront` | lab03-mtjandra/mm.c:198-205 | The block becomes the head of the free list, in front of the old list, and the links stay consistent |
| `ExplicitList.PushedKeepsListed` | lab03-mtjandra/mm.c:198-205 | The three link writes of add_front make the stored links read as the block followed by the old list |
| `ExplicitList.Allocator.RemoveFree` | lab03-mtjandra/mm.c:211-231 | The k-th block leaves the free list and the rest keep their order (`Drop`). The link words are rewritten so that they read as the list without it. No other word changes |
| `ExplicitList.UnlinkedKeepsListed` | lab03-mtjandra/mm.c:211-231 | After the writes of remove_free, the stored links read as the list without its k-th entry |
| `ExplicitList.DropAt` | lab03-mtjandra/mm.c:211-231 | On a list of distinct blocks, unlinking the k-th entry is dropping the block it holds, the others in order |
| `ExplicitList.Allocator.CoalesceLeft` | lab03-mtjandra/mm.c:241-255 | When the block before is free, it absorbs the current block and is returned. Otherwise nothing changes. The set of allocated blocks is unchanged |
| `ExplicitList.Allocator.CoalesceRight` | lab03-mtjandra/mm.c:265-279 | When the block after is free, it merges into the current block and leaves the free list, the other entries keeping their order (`RightUnlisted`). Otherwise nothing changes |
| `ExplicitList.Allocator.AbsorbNext` | lab03-mtjandra/mm.c:269-276 | Free block i + 1 joins block i, whose header and footer carry the sum, and leaves the free list; the other entries keep their order |
| `ExplicitList.Allocator.Coalesce` | lab03-mtjandra/mm.c:283-293 | Boundary-tag coalescing: the freed block merges with a free successor, then with a free predecessor, and the blocks become `Coalesced(old, i)`. The list loses the free successor and keeps its order (`RightUnlisted`). The result is the merged free block, which is the block passed in exactly when the predecessor was allocated. The allocated blocks are unchanged |
| `ExplicitList.FreedApart` | lab03-mtjandra/mm.c:373-399 | Freeing a block and merging it with its free neighbours keeps the boundary-tag invariant: no two free blocks sit side by side |
| `ExplicitList.Allocator.Free` | lab03-mtjandra/mm.c:373-400 | Freeing a block in use turns it free and merges it with each free neighbour, so the blocks become `Freed(old, i)` and exactly that block leaves the allocated set. The list becomes `FreedList`: a free successor leaves it, and the freed block is pushed at the head unless a free predecessor absorbed it. The heap stays valid: no two free blocks sit side by side, and the list holds exactly the free blocks. Pointers below the first payload change nothing |
| `ExplicitList.Allocator.FreeBlock` | lab03-mtjandra/mm.c:391-399 | Block i becomes free and merged with its free neighbours, `Freed(old, i)`, and the list becomes `FreedList(old, old list, i)`, with the push at the head of add_front. The heap invariant holds again, and only block i leaves the allocated set |
| `ExplicitList.Allocator.Rejoin` | lab03-mtjandra/mm.c:394-399 | Runs coalesce and the final add_front for block i, just marked free: the blocks become `Freed` and the list `FreedList`, the heap invariant holds again, and the allocated blocks are unchanged |
| `ExplicitList.Allocator.Gather` | lab03-mtjandra/mm.c:394-395 | After coalesce of the freed block, the list is `FreedList` exactly when the merged block, if it still starts at the freed block, is pushed at its head |
| `ExplicitList.Allocator.Release` | lab03-mtjandra/mm.c:391-393 | The two tag writes of free mark exactly block i free, take it out of the allocated set and leave the free list as it was |
| `ExplicitList.Allocator.Relist` | lab03-mtjandra/mm.c:396-399 | When coalescing left the freed block where it was, that block is the one free block off the list and goes to its head. Otherwise the list is unchanged. Either way the heap invariant holds again |
| `ExplicitList.Allocator.FindFit` | lab03-mtjandra/mm.c:322-351 | Takes the first list block with room, in list order, and every block passed is too small. From a list block of s bytes it hands out newsize bytes when s - newsize > MIN_SIZE, and all s bytes otherwise. The break then stays, and the list becomes `FitList`: the block leaves it and a split-off remainder goes to its head. When no list block fits, the list stays and the new block is exactly newsize bytes at the old break, which moves up by newsize. NULL only when no free block fits and sbrk fails |
| `ExplicitList.NoFit` | lab03-mtjandra/mm.c:324-327 | When every block on the free list is too small, so is every free block of the heap |
| `ExplicitList.Allocator.Extend` | lab03-mtjandra/mm.c:327-336 | The sbrk branch: a new allocated block of newsize bytes at the old break, appended to the blocks, with the break moved up by newsize. NULL with nothing changed when the break would pass its limit |
| `ExplicitList.Allocator.Sbrk` | lab03-mtjandra/mm.c:328-330 | mem_sbrk: the break moves up by incr and the old break is returned, or -1 with the break unchanged when incr is negative or the break would pass its limit |
| `ExplicitList.AppendApart` | lab03-mtjandra/mm.c:327-336 | A new allocated block at the break keeps no two free blocks side by side |
| `ExplicitList.Allocator.Take` | lab03-mtjandra/mm.c:346-349 | The exact-fit branch: the whole free block is marked allocated and leaves the list, the other entries keeping their order |
| `ExplicitList.Allocator.Allocate` | lab03-mtjandra/mm.c:338-349 | The fit branch for list block curr: the block handed out starts at curr. It is newsize bytes when more than MIN_SIZE bytes would be left over, and the whole block otherwise. It joins the allocated set, and the list becomes `FitList`: curr leaves it and a remainder is pushed at its head |
| `ExplicitList.TakeApart` | lab03-mtjandra/mm.c:346-348 | Marking a free block allocated keeps no two free blocks side by side |
| `ExplicitList.Allocator.SplitExplicit` | lab03-mtjandra/mm.c:303-313 | The free block at curr is cut into an allocated block of allocsize bytes and a free remainder right after it, and the blocks become exactly `Split(old, i, allocsize)`. The list loses curr and gets the remainder at its head, the rest in order. Only the allocated block joins the allocated set. No two free blocks were adjacent, so the remainder's successor is allocated and its coalesce_right changes nothing |
| `ExplicitList.Allocator.Divide` | lab03-mtjandra/mm.c:305-309 | The four tag writes cut block i into the allocated and free halves at curr + allocsize |
| `ExplicitList.SplitApart` | lab03-mtjandra/mm.c:303-311 | Cutting a free block into an allocated block and a free remainder keeps no two free blocks side by side |
| `ExplicitList.Allocator.Malloc` | lab03-mtjandra/mm.c:361-368 | 0 bytes gives NULL. Otherwise the payload is 8-aligned and holds size bytes. A block taken from the free list is ALIGN(size + MIN_SIZE) bytes when more than MIN_SIZE bytes are left over, and the whole block otherwise; the break stays and the list becomes `FitList`. A block from sbrk is exactly ALIGN(size + MIN_SIZE) bytes at the old break, appended to the blocks; the break moves up by that much and the list stays. NULL only when no free block fits and the heap cannot grow, and then nothing changes |
| `ExplicitList.PaddedAsWritten` | lab03-mtjandra/mm.c:365 | ALIGN(size + MIN_SIZE) in 64-bit size_t arithmetic is a multiple of 8 below 2^64 |
| `ExplicitList.PaddedAgrees` | lab03-mtjandra/mm.c:365 | When nothing wraps, the size_t result is ALIGN(size + MIN_SIZE) |
| `ExplicitList.PaddedWraps` | lab03-mtjandra/mm.c:365 | The 23 largest requests wrap to a padded size of at most MIN_SIZE bytes, smaller than the request |
| `ExplicitList.MallocWrapAsWritten` | lab03-mtjandra/mm.c:365-366 | Witness: malloc(2^64 - 16) pads to 0, so find_fit cuts a 0-byte block from any free block of more than MIN_SIZE bytes |
| `ExplicitList.Allocator.ExpandRight` | lab03-mtjandra/mm.c:408-422 | The block grows over its successor exactly when that successor is free and the two hold asize bytes (`Absorbs`); the successor then leaves the list, the rest in order. Otherwise nothing changes |
| `ExplicitList.ExpandApart` | lab03-mtjandra/mm.c:412-418 | Merging a block with its free successor into one allocated block keeps no two free blocks side by side |
| `ExplicitList.Allocator.Realloc` | lab03-mtjandra/mm.c:429-466 | Size 0 frees, as `Free` does, and gives NULL, and a NULL pointer mallocs, as `Malloc` does. The block stays in place exactly when it, or it merged with a free successor, holds ALIGN(size + MIN_SIZE), with the break unchanged and the list as `InPlace` says. Otherwise it moves to a new block of at least size payload bytes: `Moved` states the malloc's blocks, list and break, then the free of the old block. A failed malloc changes nothing |
| `ExplicitList.ReallocWrapAsWritten` | lab03-mtjandra/mm.c:444-448 | Witness: realloc(p, 2^64 - 16) pads to 0, so any block passes the size test and p comes back in place with far fewer than size payload bytes |
| `ExplicitList.Allocator.Resize` | lab03-mtjandra/mm.c:444-465 | For a block in use and a nonzero size: stays in place exactly when it can grow to the aligned size, with the list and break as `InPlace` says, and moves otherwise, as `Moved` says |
| `ExplicitList.Allocator.TryGrow` | lab03-mtjandra/mm.c:444-449 | expand_right and the size test: succeeds exactly when the block holds or can absorb asize bytes, with the blocks and list as `InPlace` says; on failure nothing changed |
| `ExplicitList.Allocator.Relocate` | lab03-mtjandra/mm.c:451-465 | The moving branch: a new block with room for size bytes, placed by malloc with its list and break, and then the old block freed into that heap (`Moved`). Nothing changes when malloc fails |
| `ExplicitList.Allocator.MallocAside` | lab03-mtjandra/mm.c:451-456 | The malloc of a moving realloc: the new block has room for size bytes, the old block stays allocated, and the list and break are as malloc leaves them; NULL changes nothing |
| `ExplicitList.Allocator.CheckHeap` | lab03-mtjandra/mm.c:487-538 | Every heap the allocator keeps passes all the checks: the prologue, the back links of the free list, no allocated block on the list, aligned payloads, footers equal to headers, and a walk ending at the break |
| `ExplicitList.Allocator.CheckList` | lab03-mtjandra/mm.c:497-512 | Every free list the allocator keeps passes the walk: each block's previous block links back to it, and no allocated block is on the list |
| `ExplicitList.Allocator.CheckBlocks` | lab03-mtjandra/mm.c:515-538 | Every heap the allocator keeps passes the walk: the payloads are aligned, each footer equals its header, and the walk ends at the break |
| `ExplicitList.PrologueReported` | lab03-mtjandra/mm.c:491 | The corrected prologue test reports exactly when the prologue word is not PACK(0, 1) |
| `ExplicitList.ZeroPrologueNotReported` | lab03-mtjandra/mm.c:491 | Witness: a zeroed prologue word passes the test as written, although it is not PACK(0, 1) |
| `ExplicitList.PrologueReportedAsWritten` | lab03-mtjandra/mm.c:491 | The test as written reports only words the corrected test also reports |
| `ExplicitList.MergeAllocated` | lab03-mtjandra/mm.c:269-276 | Merging free block i + 1 into block i swaps block i for the merged block in the set of blocks in use |
| `SmallObj.Pool.constructor` | midterm-mtjandra/soalloc/smallobj.c:89-104 | An empty pool with the given object size and chunk capacity, for an object size and chunk size that fit a C `int` |
| `SmallObj.Pool.TotalPoolSize` | midterm-mtjandra/soalloc/smallobj.c:133-145 | The pool struct plus, per chunk, its header, object memory and occupancy array. The result is never zero |
| `SmallObj.Chunk.constructor` | midterm-mtjandra/soalloc/smallobj.c:157-174 | A new chunk has every slot free, the cursor at 0, num_freed equal to the capacity and no successor |
| `SmallObj.Chunk.UpdateNextAvail` | midterm-mtjandra/soalloc/smallobj.c:181-188 | The cursor moves to the first free slot, or to the end when there is none |
| `SmallObj.FirstFree` | midterm-mtjandra/soalloc/smallobj.c:231-237 | The result is a free slot at or after the start, or the end, and every slot skipped is in use |
| `SmallObj.Pool.GetNonfullChunk` | midterm-mtjandra/soalloc/smallobj.c:195-224 | Returns the first chunk in list order with a free slot, its cursor rewound when it had run off the end. Otherwise a fresh empty chunk with cursor 0 is linked at the tail. The cursor always lands on a slot inside the chunk, and no other chunk's occupancy or cursor changes |
| `SmallObj.Pool.FindChunkWithRoom` | midterm-mtjandra/soalloc/smallobj.c:202-211 | Stops at the first chunk with a free slot, with its predecessor. Every chunk passed is full |
| `SmallObj.Pool.ReadyCursor` | midterm-mtjandra/soalloc/smallobj.c:203-207 | The found chunk's cursor is rewound exactly when it has run off the end while a slot is free, and then lies inside the chunk. No other chunk's cursor moves |
| `SmallObj.Pool.RewindCursor` | midterm-mtjandra/soalloc/smallobj.c:203-206 | A chunk with a free slot whose cursor ran off the end gets the cursor moved to its first free slot, inside the chunk. No other chunk's cursor moves |
| `SmallObj.Pool.AppendChunk` | midterm-mtjandra/soalloc/smallobj.c:214-221 | A fresh empty chunk with cursor 0 is linked after the last one, or as the list head. The other chunks keep their occupancy and cursors |
| `SmallObj.Pool.LinkFirst` | midterm-mtjandra/soalloc/smallobj.c:219-220 | With no chunks, the fresh empty chunk becomes the list head and the only chunk |
| `SmallObj.Pool.LinkAfter` | midterm-mtjandra/soalloc/smallobj.c:217-218 | The fresh empty chunk is linked after the last chunk, and the chunks before it are unchanged |
| `SmallObj.Chunk.FindNextAvail` | midterm-mtjandra/soalloc/smallobj.c:231-238 | The cursor moves to the first free slot after it, or to the end |
| `SmallObj.Chunk.AllocObject` | midterm-mtjandra/soalloc/smallobj.c:245-261 | The cursor's slot was free and becomes used, and num_freed drops by one. The object is at mem + slot * objsize, and the cursor moves to the next free slot |
| `SmallObj.Pool.SoAlloc` | midterm-mtjandra/soalloc/smallobj.c:271-283 | The object comes from the first chunk with room, at its cursor (rewound first if it had run off the end), or from a new chunk's slot 0. Exactly that slot becomes used, and the address maps back to the slot. That chunk's cursor moves to the first free slot after the taken one. Every other chunk keeps its occupancy and cursor |
| `SmallObj.Pool.TakeSlot` | midterm-mtjandra/soalloc/smallobj.c:282 | Allocating from chunk i uses the free slot at its cursor, and its cursor moves to the first free slot after it. No other chunk's occupancy or cursor changes |
| `SmallObj.Chunk.SlotAddress` | midterm-mtjandra/soalloc/smallobj.c:255 | The address of a slot lies in the chunk's memory, and the index free_object_in_chunk computes from it is that slot |
| `SmallObj.Chunk.SlotOf` | midterm-mtjandra/soalloc/smallobj.c:305 | The index computed for an address in the chunk is a valid slot |
| `SmallObj.Chunk.FreeObject` | midterm-mtjandra/soalloc/smallobj.c:299-308 | The object's slot becomes free and num_freed grows by one |
| `SmallObj.Pool.FindHolder` | midterm-mtjandra/soalloc/smallobj.c:341-350 | Stops at the first chunk holding the address, with its predecessor. No chunk before it holds the address |
| `SmallObj.Pool.SoFree` | midterm-mtjandra/soalloc/smallobj.c:329-374 | Reports the abort case exactly when no chunk holds the address, and then nothing changes. Otherwise the object's slot is freed in the first chunk holding it, and that chunk is unlinked exactly when it becomes empty. Every chunk left in the pool keeps its cursor |
| `SmallObj.Pool.FreeFromChunk` | midterm-mtjandra/soalloc/smallobj.c:357-373 | Frees the slot, then unlinks the chunk exactly when all its slots are free. Every chunk left in the pool keeps its cursor, and of the predecessor only the link may change |
| `SmallObj.Pool.ReleaseSlot` | midterm-mtjandra/soalloc/smallobj.c:357 | Chunk i's slot for the object goes from used to free, and its num_freed is the new count of free slots. No other chunk's occupancy changes |
| `SmallObj.Pool.UnlinkHead` | midterm-mtjandra/soalloc/smallobj.c:361-362 | The list head skips the first chunk, which leaves the pool together with its occupancy and cursor |
| `SmallObj.Pool.UnlinkAfter` | midterm-mtjandra/soalloc/smallobj.c:363-364 | The predecessor skips chunk i, which leaves the pool together with its occupancy and cursor |
| `SmallObj.ZerosUpdate` | midterm-mtjandra/soalloc/smallobj.c:252-256 | Setting one occupancy entry changes the count of free slots by exactly what was there and what is put |
| `SmallObj.ZerosPositive` | midterm-mtjandra/soalloc/smallobj.c:203-207 | num_freed is positive exactly when some slot is free |
| `SmallObj.ZerosFull` | midterm-mtjandra/soalloc/smallobj.c:315-317 | num_freed equals the capacity exactly when every slot is free |
| `PageQueues.Queue.IsEmpty` | lab08-mtjandra/queue.c:12-15 | True exactly when head is NULL, which is exactly when no page is queued |
| `PageQueues.Queue.Append` | lab08-mtjandra/queue.c:21-42 | The page goes at the tail in a fresh node, and the earlier pages keep their order |
| `PageQueues.Queue.Take` | lab08-mtjandra/queue.c:49-73 | An empty queue gives -1 and stays empty. Otherwise the head page comes out and the rest keep their order, and a single page leaves both ends NULL |
| `PageQueues.Queue.Clear` | lab08-mtjandra/queue.c:77-88 | The walk releases every queued page, head to tail |
| `PageQueues.Queue.Find` | lab08-mtjandra/queue.c:108-110 | Finds the node of the first occurrence of the page, or NULL exactly when the page is absent |
| `PageQueues.Queue.Remove` | lab08-mtjandra/queue.c:101-132 | Returns 1 exactly when the page was queued. The queue loses its first occurrence and nothing else |
| `PageQueues.Queue.Unlink` | lab08-mtjandra/queue.c:115-128 | The node leaves the list, with head and tail fixed, and the other nodes keep their order |
| `PageQueues.Queue.Bypass` | lab08-mtjandra/queue.c:116-119 | The neighbours of node k are linked to each other, so the other nodes form a list in their old order with NULL at both ends. Node k keeps its own links, and no page changes |
| `PageQueues.RemoveFirstCounts` | lab08-mtjandra/queue.c:101-132 | Removing a present page drops exactly one occurrence of it. An absent page leaves the queue unchanged |
| `FifoPolicy.Fifo.constructor` | lab08-mtjandra/vmpolicy_fifo.c:53-63 | No page loaded and the queue empty (head and tail NULL, which the C code does not set) |
| `FifoPolicy.Fifo.PageMapped` | lab08-mtjandra/vmpolicy_fifo.c:78-82 | The page joins the back of the queue and the count grows by one |
| `FifoPolicy.Fifo.TimerTick` | lab08-mtjandra/vmpolicy_fifo.c:86-88 | A tick changes nothing |
| `FifoPolicy.Fifo.ChooseAndEvictVictim` | lab08-mtjandra/vmpolicy_fifo.c:94-109 | The victim is the earliest mapped page not yet evicted. It leaves the queue and the count drops by one |
| `AgingPolicy.Aging.constructor` | lab08-mtjandra/vmpolicy_aging.c:60-71 | Room for max_resident pages, none loaded |
| `AgingPolicy.Aging.PageMapped` | lab08-mtjandra/vmpolicy_aging.c:101-107 | The page is appended to the resident pages with age 1 << (SIZE_AGE - 1) |
| `AgingPolicy.NewAge` | lab08-mtjandra/vmpolicy_aging.c:83 | The new age is the old age halved plus the top bit when accessed. It stays below 2^SIZE_AGE and has the top bit exactly when the page was accessed |
| `AgingPolicy.ShiftedAgeIsSum` | lab08-mtjandra/vmpolicy_aging.c:83 | Below 2^SIZE_AGE the OR of the shifted age and the accessed bit is their sum |
| `AgingPolicy.AccessedOutranks` | lab08-mtjandra/vmpolicy_aging.c:83 | A page accessed in the last interval always ends up older than one that was not |
| `AgingPolicy.IdleAgeDecays` | lab08-mtjandra/vmpolicy_aging.c:77-88 | An age below 2^k that sees no access for k ticks is 0 |
| `AgingPolicy.Aging.ShiftAndSet` | lab08-mtjandra/vmpolicy_aging.c:77-88 | Only entry num ages. When its page was accessed, the accessed bit is cleared and its permission set to none. Otherwise the VM state is untouched |
| `AgingPolicy.Aging.TimerTick` | lab08-mtjandra/vmpolicy_aging.c:110-115 | Every resident page ages and the other entries do not. Exactly the accessed resident pages lose their accessed bit and get permission none |
| `AgingPolicy.Aging.FindVictim` | lab08-mtjandra/vmpolicy_aging.c:123-132 | The index found holds the lowest age, ties going to the lowest index |
| `AgingPolicy.VictimUnique` | lab08-mtjandra/vmpolicy_aging.c:127-132 | There is only one such index |
| `AgingPolicy.Aging.ChooseAndEvictVictim` | lab08-mtjandra/vmpolicy_aging.c:122-147 | The victim is the page of lowest age. The last page and its age move into its slot, so the resident pages lose exactly the victim and every survivor keeps its age |
| `AgingPolicy.SwapRemove` | lab08-mtjandra/vmpolicy_aging.c:138-140 | One entry fewer. Slot k holds the old last entry, and every other slot keeps its entry |
| `AgingPolicy.SwapRemoveMultiset` | lab08-mtjandra/vmpolicy_aging.c:138-140 | Moving the last entry into slot k removes exactly the entry at k |
| `BoundedBuffers.BoundedBuffer.constructor` | lab07-mtjandra/bounded_buffer.c:52-82 | Every slot is EMPTY, first and count are 0, and the buffer holds nothing |
| `BoundedBuffers.BoundedBuffer.Add` | lab07-mtjandra/bounded_buffer.c:88-109 | The element goes in after the last one, at (first + count) mod length. first stays and count grows by one |
| `BoundedBuffers.BoundedBuffer.Take` | lab07-mtjandra/bounded_buffer.c:115-140 | The oldest element comes out and its slot is cleared to EMPTY. first advances mod length and count drops by one |
| `BoundedBuffers.AddThenTake` | lab07-mtjandra/bounded_buffer.c:88-140 | Adding elements and then taking as many gives them back in the same order, leaving the buffer empty |
| `Alu.Decode` | lab01-mtjandra/proc/alu.c:60-127 | A code names an operation exactly when it is at most 10, and then the operation's code is that code |
| `Alu.AluEval` | lab01-mtjandra/proc/alu.c:45-129 | INV gives 2^32 - 1 - A, SRA gives A halved with bit 31 kept, and OR gives XOR plus AND |
| `Alu.AddSubInverse` | lab01-mtjandra/proc/alu.c:62-75 | ADD and SUB wrap modulo 2^32 and undo each other |
| `Alu.IncrIsAddOne` | lab01-mtjandra/proc/alu.c:88-91 | INCR ignores B and equals ADD of 1, so the largest word wraps to 0 |
| `Alu.InvComplements` | lab01-mtjandra/proc/alu.c:67-70 | A plus ~A is all ones, and INV applied twice gives back A |
| `Alu.XorSumOfProducts` | lab01-mtjandra/proc/alu.c:77-81 | XOR equals (~A & B) \| (A & ~B), the form the source keeps beside it |
| `Alu.OrAndXor` | lab01-mtjandra/proc/alu.c:83-96 | OR is XOR plus AND, and XOR and AND share no bit |
| `Alu.SraHalvesSigned` | lab01-mtjandra/proc/alu.c:98-104 | SRA halves A read as a signed integer, rounding down, and keeps bit 31 |
| `Alu.SrlHalves` | lab01-mtjandra/proc/alu.c:106-111 | SRL halves A as an unsigned integer and clears bit 31 |
| `Alu.SraSrlAgree` | lab01-mtjandra/proc/alu.c:98-111 | SRA and SRL agree exactly on words with bit 31 clear |
| `Alu.ShiftLeftSame` | lab01-mtjandra/proc/alu.c:113-121 | SLA and SLL give the same even result, and SRL of it gives back A without bit 31 |
| `Alu.UnknownOpIsZero` | lab01-mtjandra/proc/alu.c:123-126 | An unrecognised opcode drives 0 onto the output |

## Left out

- alloc.c `memdump` and the progress messages guarded by `quiet`: these are output only.
- alloc.c `mm_cleanup`, mm.c and smallobj.c's release functions, `policy_cleanup` of both policies, and `free_alu`/`build_alu`: memory release is not modelled.
- alloc.c `foreach_global` lives in the interpreter, which is not part of this model. The globals are a sequence parameter of `StopAndCopy`, `CollectGarbage` and `MmMalloc`. A ghost set `live` of References names what the program may follow. It is closed under children and is well formed (`LiveOk`): every live Reference is in use with a non-NULL entry, every child (value, key or next) is NULL or live, the `next` field of a list node holds NULL or a list node, and the `next` field of a dict node holds NULL or a dict node. The C code relies on this without checking it.
- alloc.c `deref`'s asserts are preconditions. `is_pool_address` has no member of its own: `Deref` proves the address lies in the active half, which implies the assert's test.
- alloc.c `exit(1)` in `mm_malloc` is the `OutOfMemory` outcome. The `realloc` failure of the reference table and the `malloc` failure in `mm_init` are not modelled.
- alloc.c: the pool is assumed zeroed at `mm_init`. `malloc` does not promise that, but `copy_wrapper`'s seen test relies on it.
- alloc.c `types.h` and `global.h` are not part of this model. The Value layout (header fields at 0, 4, 8 and 12, node fields after the header) and `INITIAL_SIZE = 8` follow the C declarations. The 4-byte fields are kept one cell each.
- mm.c `calloc` is not modelled.
- ExplicitList.Allocator.Realloc: payload bytes are not modelled, so the `memcpy` of the old contents is left out. That includes its byte count, which reads the raw header word.
- mm.c: memlib is not part of this model. `mem_sbrk` is the bounded bump `Sbrk`, and `mm_init`'s failure branch is excluded by requiring the limit to admit the prologue.
- ExplicitList.Allocator.CheckHeap: stated for the heaps the allocator keeps (it proves that every check passes). What it prints for a corrupted heap is not modelled.
- smallobj.c `OVERWRITE_MEM` poisoning `memset`s are not modelled. The chunk memory is an address range, and `malloc`'s address for a new chunk is a parameter.
- smallobj.c `abort()` in `so_free` is the `NotFromPool` result. The `malloc` failures in `make_so_pool` and `init_new_chunk` are not modelled.
- SmallObj.Pool.constructor: requires objsize to fit a C `int` and objects_per_chunk * objsize to lie in the `int` range, because smallobj.c:30 and :99 store the `size_t` objsize in an `int` and smallobj.c:78 multiplies the two as `int`s. A pool whose object size or chunk size overflows `int` is not modelled.
- SmallObj.Pool.ChunkMemSize: the product is unbounded; under the constructor's bound it is the `int` product of chunk_mem_size.
- SmallObj.Pool.TotalPoolSize: the sums are unbounded, as the `size_t` sums of total_pool_size are for any pool that fits in memory.
- SmallObj.Pool.SoFree: requires that the object's slot is in use. A double free, which the source lets through and which would push num_freed past the capacity, is not modelled.
- FifoPolicy.Fifo.constructor: vmpolicy_fifo.c:56-60 mallocs the policy state and sets only max_resident and num_loaded, never the queue's head and tail. The model assumes the fresh queue reads as empty (head and tail NULL), which `malloc` does not promise.
- AgingPolicy.Aging.PageMapped: requires that the page is not already resident. The virtual-memory system maps only pages that are not resident, and this keeps the victim's removal exact.
- vmpolicy_aging.c `is_page_accessed`, `clear_page_accessed` and `set_page_permission` belong to the virtual-memory system. They are the fields of a `Vm` object that the policy reads and updates.
- bounded_buffer.c semaphores and threads: concurrency is not modelled. `Add` requires room and `Take` requires an element, which is what the semaphore waits guarantee.
- alu.c pins: the ALU is the function from A, B and the opcode to the result. The opcode numbering follows declaration order, because the header defining it is not part of this model.

## Findings

| source | as written | input that shows it | evidently intended | confidence | as-written member | corrected member |
|---|---|---|---|---|---|---|
| lab04-mtjandra/subpython/alloc.c:418 | `copy_wrapper` skips a Value only when it lies strictly above `toptr` | A lower half filled exactly to `toptr`: the first copy lands at `toptr`, is not skipped, and would be copied again | Skip addresses at or above `toptr` (`>=`) | high, not executed | `CopyState.SkipAsWrittenMissesFirstCopy` | `CopyState.Skip` |
| lab04-mtjandra/subpython/alloc.c:165 | With the upper half active, a request may run to the end of the pool | A 33-byte pool, upper half active at offset 16: 17 bytes are admitted, more than the 16-byte lower half can receive in the next collection | Bound at `fromptr + HALF_MEMORY` | medium (only odd pool sizes), not executed | `CopyState.HasSpaceAsWrittenOvershoots` | `CopyState.HasSpace` |
| lab04-mtjandra/subpython/alloc.c:188 | `mm_malloc` keeps `sizeof(struct Value) + data_size` in an `int` | A string of `data_size` = INT_MAX: the request is negative, `has_space_available` admits it on any heap, and `freeptr` would move down | Keep the byte count in a type that holds it, so a request larger than the half gives the out-of-memory exit | medium (requests within 16 bytes of INT_MAX), not executed | `RequestWidth.RequestedWrapsAsWritten` | `StopAndCopy.Allocator.MmMalloc` |
| lab03-mtjandra/mm.c:491 | The prologue check reports only when size and alloc are both wrong (`&&`) | A zeroed prologue word (size 0, alloc 0) is not reported | Report when either is wrong (`\|\|`) | high, not executed | `ExplicitList.ZeroPrologueNotReported` | `ExplicitList.PrologueReported` |
| lab03-mtjandra/mm.c:365 | `malloc` pads with `ALIGN(size + MIN_SIZE)` in size_t arithmetic | `malloc(2^64 - 16)`: the padded size wraps to 0, and find_fit cuts a 0-byte block from the first free block of more than MIN_SIZE bytes | Pad without wrap-around, so a request too big for the heap gets NULL | high (requests within 23 bytes of SIZE_MAX), not executed | `ExplicitList.MallocWrapAsWritten` | `ExplicitList.Allocator.Malloc` |
| lab03-mtjandra/mm.c:444 | `realloc` pads with `ALIGN(size + MIN_SIZE)` in size_t arithmetic | `realloc(p, 2^64 - 16)`: the padded size wraps to 0, every block passes `GET_SIZE(newptr) >= asize`, and p comes back unchanged | Pad without wrap-around, so the request moves and fails with NULL | high (requests within 23 bytes of SIZE_MAX), not executed | `ExplicitList.ReallocWrapAsWritten` | `ExplicitList.Allocator.Realloc` |
