# NPFoundation, modelled in Dafny

This project models the four parts of NPFoundation that carry state across calls, and proves what
their documentation promises about every run of them.

* **Byte buffers.** A `ByteBuffer` is a queue of bytes with a reader and a writer cursor over a block
  that any number of buffers share until one of them writes. `ByteBuffer.dfy` has the classes, with
  the reference-counted block, the split on the first write, and an allocator that may answer any
  request with null. `EagerModel.dfy` says what a program over buffers means: every buffer owns a
  private sequence of bytes. `Session.dfy` runs whole programs of create, copy, move, assign, destroy,
  write, read, skip, discard and clear, and proves that the two agree in every reply and in the final
  content of every buffer. Which writes are accepted, and where a run has to stop because a copy found
  no memory, is computed in `Ledger.dfy` from the cursors, the capacities, the sharing of blocks and
  what the allocator is going to answer, so the whole outcome of a run is determined by the program and
  the allocator. `NamedBuffers.dfy` has the same operations on the buffers of a program by name.
  `Sizes.dfy` and `Storage.dfy` have the 64-bit rounding of capacities, the storage behind a buffer and
  the cost of its growth; `BufferModel.dfy` has the exact conditions under which a write or a discard
  survives an allocator that fails.
* **`CopyOnWriteBacked` as a concurrent protocol.** `CowProtocol.dfy` breaks every operation into its
  atomic steps (each operation on a count, each dereference of a block, each deletion) and lets any
  number of threads that own distinct instances interleave them. Counts are 32 bits wide and wrap, and
  touching a destroyed block sets a fault flag that the invariant excludes. The main results are that
  counts are exact and blocks are destroyed once, that `unique()` copies exactly when the block is shared
  and hands out an exclusive pointer, that every operation ends within five steps of its own, and that
  every interleaving is a run of atomic calls on instances with private values. `ConcurrentBuffers.dfy` puts byte buffers on top: whatever threads do
  with distinct buffers that share blocks, all their replies are those of the eager model.
* **`Heap`.** `Heap.dfy` has the binary heap in a vector with its loops, `PriorityQueue.dfy` the
  priority queue over a bag that it implements: the replies to any sequence of operations are
  determined up to ties, popping everything sorts, and the numbers of swaps and comparator calls are
  bounded.
* **Throttle, debounce and timer.** `Throttle.dfy` proves the greedy choice of a throttle a largest
  one. `Debounce.dfy` proves that many one-shot timers with a generation number and a cancel flag are
  one resettable deadline. `Timer.dfy` has the timer's two flags under a lock and the libdispatch calls
  issued after the lock has been released, under every interleaving.

`dafny verify dfyconfig.toml` checks the whole project.

## How the model reads the source

The source's objects are classes whose methods assign their fields (`ByteBufferStorage`, `Block`,
`ByteBuffer`, `Heap`, `Throttle`, `Debounce`, `NPTimer`); its loops are loops. Each of these methods is
proved against a function or relation on values, and the theorems are about those. `size_t` is the
range 0 to 2^64 - 1 with wrapping addition written out (`BufferModel.WrappingAdd`), and
`std::atomic<uint32_t>` wraps at 2^32 (`CowProtocol.Retain`, `CowProtocol.Release`).

A byte buffer takes its set of fellow buffers as a ghost argument, because the blocks they share tie
their states together: `AllLinked` says that every block in use counts exactly the buffers that refer
to it. What the allocator is going to answer is an input of every method that may ask it (`granted`,
`Grants`), and so is that of a whole program (`Session.Execute`); only the content of fresh memory is
left open. A theorem about every behaviour of the allocator is a theorem about all such inputs.

## Where the code and its documentation differ

* `README.md:108-109` says that a buffer whose allocator is exhausted reports a zero-byte write and
  leaves its storage intact. When the block is shared and the *split* finds no memory, the copy is an
  empty block and `unique()` installs it, so the written bytes are gone: the cursor assertion fails, or
  unread bytes are replaced by unspecified ones. `BufferModel.FailureIsIntactExactlyWhen`,
  `BufferModel.WriteIsSafeExactlyWhen` and `BufferModel.DiscardIsSafeExactlyWhen` give the exact
  conditions, and `BufferModel.WriteLosesExactlyWhen` and `BufferModel.DiscardLosesExactlyWhen` those for
  one call and what the allocator is going to answer to it. `Session.Execute` shows at which command of a
  program this happens (`Ledger.Loses`), and that no other buffer is affected. A program that copies no
  buffer, or whose splits all find memory, never gets there.
* `Sources/NPFoundation/include/NPFoundation/ByteBuffer.h:88-90` says that capacity is always rounded
  up to a power of two. It is zero after a failed allocation, and `SIZE_MAX` for requests above 2^63
  (`Growth.IsCapacity`, `Sizes.RoundedIsPowerOf2OrMax`).
* `Sources/NPFoundation/include/NPFoundation/ByteBuffer.h:202-204` says that `readBytes` returns
  min(size, readable). For a null destination it returns 0 and consumes nothing
  (`ByteBuffers.ByteBuffer.ReadBytes`).
* The flags of the timer are consistent under a lock, but the dispatch calls are issued after
  unlocking, so a resume can overtake the suspend it answers and drive libdispatch's suspend count
  below zero (`Timer.OvertakingResume`). `Timer.RunIsSafeExactlyWhen` says in exactly which runs this
  cannot happen; what does hold in all of them is `Timer.EveryRunConserves`.

## Model

| member | source | states |
|---|---|---|
| Sizes.NextPowerOf2ClampedToMax | Sources/NPFoundation/ByteBuffer.cpp:35-51 | The shift-and-or word computes the least power of two that holds the request, or SIZE_MAX, for every 64-bit request |
| Sizes.RoundedIsPowerOf2OrMax | Sources/NPFoundation/ByteBuffer.cpp:33-51 | The rounded capacity is a power of two if and only if the request is at most 2^63, and saturates if and only if it is above |
| Sizes.RoundedIsLeast | Sources/NPFoundation/ByteBuffer.cpp:33-51 | No smaller power of two holds the request; above 2^63 no 64-bit power of two does |
| Sizes.RoundedBelowDouble | Sources/NPFoundation/ByteBuffer.cpp:35-51 | Rounding less than doubles a request |
| Sizes.SmearStep | Sources/NPFoundation/ByteBuffer.cpp:41-46 | One shift-and-or doubles the number of positions into which every set bit has been copied |
| Sizes.Smear | Sources/NPFoundation/ByteBuffer.cpp:41-46 | The same for the 64-bit word of the source: no bit beyond the 64 is ever set |
| Sizes.SmearedFits | Sources/NPFoundation/ByteBuffer.cpp:41-46 | A smeared 64-bit word is a 64-bit word |
| Sizes.SmearedIsAllOnes | Sources/NPFoundation/ByteBuffer.cpp:41-50 | After six of them every position below the highest set bit is set, so the word is one less than a power of two |
| Sizes.ShiftRightIsDivision | Sources/NPFoundation/ByteBuffer.cpp:41-46 | The bit-by-bit shift is division by a power of two |
| Sizes.BitOrBits | Sources/NPFoundation/ByteBuffer.cpp:41-46 | The recursive or sets exactly the bits that either operand has |
| Sizes.MinimumOf | Sources/NPFoundation/ByteBuffer.cpp:53-55 | At most either operand, and one of the two |
| Storage.ByteBufferStorage.constructor | Sources/NPFoundation/ByteBuffer.cpp:85-92 | Storage of the rounded size if the allocator grants it, and empty otherwise |
| Storage.ByteBufferStorage.Copy | Sources/NPFoundation/ByteBuffer.cpp:94-105 | The copy has the same bytes and capacity if the allocator grants it, and is empty otherwise |
| Storage.ByteBufferStorage.Reserve | Sources/NPFoundation/ByteBuffer.cpp:113-130 | Succeeds if and only if the block holds the request already or the allocator grants it; asks only if it does not; never shrinks; keeps the old content as a prefix; failure leaves the block untouched |
| Storage.ByteBufferStorage.SetBytes | Sources/NPFoundation/ByteBuffer.cpp:132-144 | All of the bytes land at the index and nothing else changes, or none do; null, empty, overflowing and refused requests write nothing |
| Storage.ByteBufferStorage.CopyBytesTo | Sources/NPFoundation/ByteBuffer.cpp:146-156 | Copies the slice of the asked size at the index if it lies within the capacity, and all from the index to the end otherwise; nothing for a null destination or an index outside |
| Storage.Reallocate | Sources/NPFoundation/include/NPFoundation/ByteBuffer.h:48-56 | What a reallocation may answer: null, or a block of the asked size that starts with the old content |
| Growth.CapacityAfterIsCapacity | Sources/NPFoundation/ByteBuffer.cpp:113-130 | A reservation keeps the capacity zero, a power of two or SIZE_MAX, and never shrinks it |
| Growth.GrowthDoubles | Sources/NPFoundation/ByteBuffer.cpp:113-130 | Every reallocation at least doubles the capacity, but for the one byte that saturation loses |
| Growth.MovedIsAtMostFinalCapacity | Sources/NPFoundation/ByteBuffer.cpp:113-144 | Over any run of reservations, granted or refused, the old capacities handed to reallocations add up to at most the final capacity: growth is amortised linear |
| Growth.CapacityIsBoundedByNeed | Sources/NPFoundation/ByteBuffer.cpp:113-144 | The capacity never exceeds the initial one and twice the largest size ever needed |
| Storage.WriteOutcome | Sources/NPFoundation/ByteBuffer.cpp:132-144 | The count and the capacity after one write are decided by the capacity before it, the request and what the allocator grants |
| Storage.WritesAreAmortised | Sources/NPFoundation/ByteBuffer.cpp:113-144 | The reallocations that a run of writes asks for and gets are handed at most the final capacity in all, and the capacity stays the initial one or below twice the largest size needed |
| Storage.SetBytesAll | Sources/NPFoundation/ByteBuffer.cpp:113-144 | A run of writes to one storage ends in the capacity, and returns the counts, that its requests and the allocator determine; the old capacities counted at its successful reallocations are those of the requests, and add up to at most the capacity it ends with |
| BufferModel.WriteAppends | Sources/NPFoundation/ByteBuffer.cpp:188-192 | Unless a split runs out of memory, a write appends all bytes or leaves the buffer exactly as it was, whatever the growth request gets; no addition wraps and the cursor assertion holds |
| BufferModel.SuccessfulWrite | Sources/NPFoundation/ByteBuffer.cpp:188-192 | When room is found the readable bytes grow by the source and the count returned is its length |
| BufferModel.RefusedWrite | Sources/NPFoundation/ByteBuffer.cpp:132-141 | A null, empty, overflowing or refused write changes nothing and returns 0 |
| BufferModel.WriteThatFits | Sources/NPFoundation/include/NPFoundation/ByteBuffer.h:174-176 | Where a needed split finds memory, a write into enough writable space asks for no growth, ignores what the answer would be, keeps the capacity, and stores exactly its own bytes at the writer cursor |
| BufferModel.WriteToEmptied | Sources/NPFoundation/include/NPFoundation/CopyOnWriteBacked.h:146-153 | A split that finds no memory goes unnoticed while nothing has been written |
| BufferModel.WriteToDrained | Sources/NPFoundation/include/NPFoundation/CopyOnWriteBacked.h:146-153 | A split that finds no memory does no harm either when all that was written has been read and the write itself finds memory |
| BufferModel.WriteIsDecided | Sources/NPFoundation/ByteBuffer.cpp:188-192 | Unless a split loses bytes, the cursors, the capacity, the sharing and what the allocator grants decide whether a write goes through, the count it returns and the shape it leaves; it is all-or-nothing |
| BufferModel.WriteLosesExactlyWhen | Sources/NPFoundation/ByteBuffer.cpp:188-192 | What a caller relies on after a write fails for some content of fresh memory if and only if the block is shared, its split finds no memory, bytes have been written, and it is not the case that all of them have been read and the write goes through |
| BufferModel.WrappingAdd | Sources/NPFoundation/ByteBuffer.cpp:249-265 | Addition of machine sizes is modulo 2^64 |
| BufferModel.WriteIsSafeExactlyWhen | Sources/NPFoundation/include/NPFoundation/ByteBuffer.h:191-193 | A write is all-or-nothing and leaves a usable buffer under every allocator if and only if the block is unshared or nothing has been written yet |
| BufferModel.FailureIsIntactExactlyWhen | README.md:108-109 | A zero-byte write leaves cursors and storage as they were under every allocator if and only if the block is unshared or was never allocated |
| BufferModel.DiscardReclaims | Sources/NPFoundation/ByteBuffer.cpp:231-242 | Unless a split fails, discarding asks for no growth, keeps the readable bytes despite the overlapping move, keeps the capacity, and makes exactly the discarded space writable |
| BufferModel.DiscardIsSafeExactlyWhen | Sources/NPFoundation/include/NPFoundation/ByteBuffer.h:212-214 | Discarding does so under every allocator if and only if the block is unshared or there is nothing to move |
| BufferModel.DiscardIsDecided | Sources/NPFoundation/ByteBuffer.cpp:231-242 | Unless a split loses bytes, a discard keeps the readable bytes and leaves the shape that follows from the cursors |
| BufferModel.DiscardLosesExactlyWhen | Sources/NPFoundation/ByteBuffer.cpp:231-242 | What a caller relies on after a discard fails for some answers of the allocator if and only if the block is shared, its split finds no memory, and there are bytes to move |
| ByteBuffers.Block.constructor | Sources/NPFoundation/include/NPFoundation/CopyOnWriteBacked.h:63-65 | A new block counts one holder and is the only one around its element |
| ByteBuffers.Block.Retain | Sources/NPFoundation/include/NPFoundation/CopyOnWriteBacked.h:67-70 | One more holder, and the count remains the number of holders |
| ByteBuffers.Block.Release | Sources/NPFoundation/include/NPFoundation/CopyOnWriteBacked.h:72-80 | One holder fewer; the block goes exactly with the last one |
| ByteBuffers.ByteBuffer.constructor | Sources/NPFoundation/ByteBuffer.cpp:158-160 | A new buffer is empty, with both cursors at zero, on a block of its own of the rounded size or none; no other buffer changes |
| ByteBuffers.ByteBuffer.Copy | Sources/NPFoundation/include/NPFoundation/CopyOnWriteBacked.h:100-102 | The copy shares the block and shows the same bytes; no other buffer changes |
| ByteBuffers.ByteBuffer.Move | Sources/NPFoundation/include/NPFoundation/CopyOnWriteBacked.h:104-106 | The new buffer shows what the old one did, which is left without a block; the count does not change |
| ByteBuffers.ByteBuffer.Destroy | Sources/NPFoundation/include/NPFoundation/CopyOnWriteBacked.h:94-98 | The block is deleted if and only if no remaining buffer refers to it; no other buffer changes |
| ByteBuffers.ByteBuffer.CopyAssign | Sources/NPFoundation/include/NPFoundation/ByteBuffer.h:149-155 | Member-wise: the target shows the bytes of the source, for aliased and self-assigned operands too, and no third buffer changes |
| ByteBuffers.ByteBuffer.AssignBlock | Sources/NPFoundation/include/NPFoundation/CopyOnWriteBacked.h:108-117 | The handle refers to the other block and every count stays exact; an aliased handle keeps its block |
| ByteBuffers.ByteBuffer.MoveAssign | Sources/NPFoundation/include/NPFoundation/CopyOnWriteBacked.h:119-128 | The same, leaving a distinct source without a block; self-move is harmless |
| ByteBuffers.ByteBuffer.Unique | Sources/NPFoundation/include/NPFoundation/CopyOnWriteBacked.h:145-153 | Copies if and only if the block is shared; afterwards the block has one holder; the value is unchanged unless the copy found no memory; no other buffer changes |
| ByteBuffers.ByteBuffer.OnlyOwnElementChanged | Sources/NPFoundation/include/NPFoundation/CopyOnWriteBacked.h:41-44 | A change to the element of a block with count one is seen by no other buffer |
| ByteBuffers.ByteBuffer.Capacity | Sources/NPFoundation/ByteBuffer.cpp:175-177 | The capacity field is the true size of the block, null included |
| ByteBuffers.ByteBuffer.WritableBytes | Sources/NPFoundation/ByteBuffer.cpp:179-182 | The space between the writer cursor and the end of the block |
| ByteBuffers.ByteBuffer.WriteBytes | Sources/NPFoundation/ByteBuffer.cpp:188-192 | The new value is the write effect of the old one under answers that the allocator may give; the block is a new one if and only if the old one was shared; no other buffer changes |
| ByteBuffers.ByteBuffer.MoveWriterIndexForwardBy | Sources/NPFoundation/ByteBuffer.cpp:258-265 | The cursor moves by the wrapped sum, or the assertion fails and it stays |
| ByteBuffers.ByteBuffer.MoveReaderIndexForwardBy | Sources/NPFoundation/ByteBuffer.cpp:249-256 | The cursor assertion holds, and exactly a prefix of the readable bytes is gone |
| ByteBuffers.ByteBuffer.ReadBytes | Sources/NPFoundation/ByteBuffer.cpp:205-213 | Through a non-null destination, returns the first `size` readable bytes if there are as many, and all readable bytes otherwise, so the capacity clamp never shortens a read; consumes exactly what it returns; the reader assertion holds |
| ByteBuffers.ByteBuffer.ReadString | Sources/NPFoundation/ByteBuffer.cpp:215-223 | Returns and consumes the first `size` readable bytes if there are as many, and all readable bytes otherwise |
| ByteBuffers.ByteBuffer.SkipBytes | Sources/NPFoundation/ByteBuffer.cpp:225-229 | Drops exactly `size` bytes off the front if there are as many, and all readable bytes otherwise |
| ByteBuffers.ByteBuffer.DiscardReadBytes | Sources/NPFoundation/ByteBuffer.cpp:231-242 | The new value is the discard effect of the old one under answers that the allocator may give; a shared block is split only if there are bytes to move; no other buffer changes |
| ByteBuffers.ByteBuffer.MoveReadableToFront | Sources/NPFoundation/ByteBuffer.cpp:237-238 | The move within one block, and what happens when the split left no block to move in |
| ByteBuffers.ByteBuffer.Clear | Sources/NPFoundation/ByteBuffer.cpp:244-247 | Both cursors are zero, the block is untouched even when shared, and no other buffer changes |
| EagerModel.FirstInFirstOut | Sources/NPFoundation/ByteBuffer.cpp:188-242 | Over any program, the bytes put into a buffer are the bytes taken out followed by the bytes still there, in order, for all chunk sizes, skips, discards and copies in between |
| EagerModel.OneStepIsFifo | Sources/NPFoundation/ByteBuffer.cpp:188-242 | The same for one command |
| EagerModel.RepliesAreFifo | Sources/NPFoundation/ByteBuffer.cpp:188-242 | Between any two points of a run in which a buffer is written, read and discarded, the bytes in the replies and those still there are those that were there and those put in, in order |
| Ledger.GrantedSplitsLoseNothing | Sources/NPFoundation/include/NPFoundation/CopyOnWriteBacked.h:146-153 | No bytes are lost where splits find memory |
| Ledger.StaysUnshared | Sources/NPFoundation/include/NPFoundation/CopyOnWriteBacked.h:90-153 | Without copying no two buffers ever share a block |
| Ledger.WithoutCopiesNothingIsLost | Sources/NPFoundation/include/NPFoundation/CopyOnWriteBacked.h:146-153 | A program that copies no buffer loses nothing, whatever the allocator answers |
| Ledger.RoomDecides | Sources/NPFoundation/include/NPFoundation/ByteBuffer.h:174-193 | A write whose split does not fail is accepted if and only if it fits the block, or its end is a size and the allocator grants the growth |
| NamedBuffers.SharedIsCounted | Sources/NPFoundation/include/NPFoundation/CopyOnWriteBacked.h:132-147 | The count that `unique()` looks at is above one if and only if another buffer of the program refers to the block |
| Session.Make | Sources/NPFoundation/ByteBuffer.cpp:158-160 | Creating a buffer refines the eager model's |
| Session.Copy | Sources/NPFoundation/include/NPFoundation/CopyOnWriteBacked.h:100-102 | Sharing a block refines copying the bytes at once |
| Session.Move | Sources/NPFoundation/include/NPFoundation/CopyOnWriteBacked.h:104-106 | Move construction refines the eager move |
| Session.Destroy | Sources/NPFoundation/include/NPFoundation/CopyOnWriteBacked.h:94-98 | Destroying one buffer leaves what all others show |
| Session.CopyAssign | Sources/NPFoundation/include/NPFoundation/CopyOnWriteBacked.h:108-117 | Copy assignment refines replacing the bytes |
| Session.MoveAssign | Sources/NPFoundation/include/NPFoundation/CopyOnWriteBacked.h:119-128 | Move assignment refines the eager move, self-moves included |
| Session.Write | Sources/NPFoundation/ByteBuffer.cpp:188-192 | A write refines appending to one private queue, accepted or refused as the books say; bytes are lost exactly where the books say so, and then every other buffer still shows what it should |
| Session.Discard | Sources/NPFoundation/ByteBuffer.cpp:231-242 | Discarding refines doing nothing; bytes are lost exactly where the books say that a shared block with bytes to move finds no memory, and then every other buffer still shows what it should |
| Session.Read | Sources/NPFoundation/ByteBuffer.cpp:205-213 | Reading refines taking from the front of one private queue, with the same bytes in reply |
| Session.ReadString | Sources/NPFoundation/ByteBuffer.cpp:215-223 | The same for strings |
| Session.Skip | Sources/NPFoundation/ByteBuffer.cpp:225-229 | Skipping refines dropping from the front of one private queue |
| Session.Clear | Sources/NPFoundation/ByteBuffer.cpp:244-247 | Clearing refines emptying one private queue |
| Session.Perform | Sources/NPFoundation/ByteBuffer.cpp:158-247 | One command of any kind refines the step of the eager model and of the books, reply included, unless the books say that it loses bytes |
| Session.Execute | Sources/NPFoundation/include/NPFoundation/ByteBuffer.h:137-148 | For every legal program over any number of buffers and everything the allocator may answer: the run goes exactly to the first command at which a split loses bytes; up to there every write is accepted or refused as the books say, all replies are those of the eager model with one private queue per buffer, and at its end every buffer that has not been moved from is valid and its readable bytes are those of its queue, or every other buffer where the run stops; it completes if all splits find memory, and if no buffer is copied |
| Session.Relay | Sources/NPFoundation/ByteBuffer.cpp:188-242 | The replies of the implementation to the readers of a buffer, and the bytes it still holds, are what its accepted writes put in, in order |
| CowProtocol.CountedRetain | Sources/NPFoundation/include/NPFoundation/CopyOnWriteBacked.h:67-70 | The 32-bit increment keeps the count equal to the number of references |
| CowProtocol.CopyIsSafeExactlyWhen | Sources/NPFoundation/include/NPFoundation/CopyOnWriteBacked.h:67-70 | A copy keeps the invariant if and only if its block has fewer than 2^32 - 1 references before it |
| CowProtocol.CountedRelease | Sources/NPFoundation/include/NPFoundation/CopyOnWriteBacked.h:72-80 | The decrement keeps it, and never starts from zero |
| CowProtocol.DeletedRelease | Sources/NPFoundation/include/NPFoundation/CopyOnWriteBacked.h:73-79 | Exactly the releaser that saw a count of one becomes the deleter, and there is only one |
| CowProtocol.SplitKeeps | Sources/NPFoundation/include/NPFoundation/CopyOnWriteBacked.h:147-148 | Copying the shared element into a private block keeps the invariant, even when another sharer splits or lets go in between |
| CowProtocol.ReleaseKeeps | Sources/NPFoundation/include/NPFoundation/CopyOnWriteBacked.h:72-80 | A release between any steps of other threads keeps the invariant |
| CowProtocol.InstallKeeps | Sources/NPFoundation/include/NPFoundation/CopyOnWriteBacked.h:150-152 | Overwriting the stale pointer keeps the invariant |
| CowProtocol.TakeOverKeeps | Sources/NPFoundation/include/NPFoundation/CopyOnWriteBacked.h:104-106 | Moving a pointer moves its reference uncounted and keeps the invariant |
| CowProtocol.DeletingKeeps | Sources/NPFoundation/include/NPFoundation/CopyOnWriteBacked.h:77-78 | Deleting the element and then the block touches nothing that is gone and keeps the invariant |
| CowProtocol.StepKeeps | Sources/NPFoundation/include/NPFoundation/CopyOnWriteBacked.h:67-153 | Every atomic step of every operation keeps the invariant: counts are exact, no fault, one deleter, exclusive mutable pointers |
| CowProtocol.EveryRunKeeps | Sources/NPFoundation/include/NPFoundation/CopyOnWriteBacked.h:46-49 | Under every interleaving, in every state, each count is the number of live pointers and local variables to the block, and no step has touched a destroyed block or element |
| CowProtocol.MutablePointerIsExclusive | Sources/NPFoundation/include/NPFoundation/CopyOnWriteBacked.h:42-44 | What `unique()` returns is reachable through no other instance or local variable, so no other thread reads it, copies it or writes it |
| CowProtocol.UniqueSplitsExactlyWhenShared | Sources/NPFoundation/include/NPFoundation/CopyOnWriteBacked.h:145-153 | When `unique()` reads the count, it goes on to split if and only if another instance, or a local variable of a thread in the middle of an operation, refers to the block, and hands out the pointer at once otherwise; blocks, instances and references are as before |
| CowProtocol.ReadingCopiesNothing | Sources/NPFoundation/include/NPFoundation/CopyOnWriteBacked.h:108-143 | `read()` hands out its pointer at once and changes nothing else; assigning an instance that shares the block already changes nothing at all |
| CowProtocol.WriteChangesOneElement | Sources/NPFoundation/include/NPFoundation/CopyOnWriteBacked.h:145-153 | A write through the pointer from `unique()` changes the element of its own instance's block and nothing else |
| CowProtocol.OnlySplitsAllocate | Sources/NPFoundation/include/NPFoundation/CopyOnWriteBacked.h:41-44 | Blocks are allocated where an instance is made and where `unique()` splits a shared block, and nowhere else |
| CowProtocol.NothingLeaks | Sources/NPFoundation/include/NPFoundation/CopyOnWriteBacked.h:72-80 | When no operation is in progress a block is alive if and only if some instance refers to it, and its element with it |
| CowProtocol.DestroysExactlyWhen | Sources/NPFoundation/include/NPFoundation/CopyOnWriteBacked.h:72-80 | An element, or a block, is gone after a step that it was there before if and only if the step is the deletion of that element, or block, by its deleter |
| CowProtocol.OperationsEnd | Sources/NPFoundation/include/NPFoundation/CopyOnWriteBacked.h:67-153 | Under every interleaving an operation ends, or hands out its pointer, within five atomic steps of its own |
| CowProtocol.UniqueHandsOut | Sources/NPFoundation/include/NPFoundation/CopyOnWriteBacked.h:145-153 | Under every interleaving a thread that has called `unique()` and goes on is on its way to the pointer of that instance, and has it after five more steps of its own at the latest |
| CowProtocol.CopiesShare | Sources/NPFoundation/include/NPFoundation/CopyOnWriteBacked.h:100-117 | Under every interleaving a copy construction or assignment is over after at most four more steps of its own thread, and then the target refers to the very block that the source referred to when it began |
| CowProtocol.DeletersFinish | Sources/NPFoundation/include/NPFoundation/CopyOnWriteBacked.h:72-80 | A block that has lost its last reference is destroyed, element and block, within two steps of the thread that dropped it |
| CowProtocol.EveryRunCanRest | Sources/NPFoundation/include/NPFoundation/CopyOnWriteBacked.h:72-80 | Every run can be continued, by steps that only finish operations, to one that ends with no operation in progress, where nothing is leaked; no counter runs out on the way |
| CowProtocol.DestroyedOnce | Sources/NPFoundation/include/NPFoundation/CopyOnWriteBacked.h:73-79 | No run deletes an element or a block twice |
| CowProtocol.GoneAfter | Sources/NPFoundation/include/NPFoundation/CopyOnWriteBacked.h:77-78 | What has been deleted stays gone for the rest of the run |
| CowProtocol.GoneIsUnreachable | Sources/NPFoundation/include/NPFoundation/CopyOnWriteBacked.h:72-80 | No reference leads to a block whose element has been deleted, and the only pointers to it are ones about to be overwritten |
| CowProtocol.StepIsEffect | Sources/NPFoundation/include/NPFoundation/CopyOnWriteBacked.h:67-153 | What each atomic step does to the references and to the elements behind them; no element that is referred to changes except through its sole reference |
| CowProtocol.MeaningFollows | Sources/NPFoundation/include/NPFoundation/CopyOnWriteBacked.h:41-44 | The value an instance stands for after a step, read off the reference that carries it, which is a local variable while an operation is in progress |
| CowProtocol.CallsAreAtomic | Sources/NPFoundation/include/NPFoundation/CopyOnWriteBacked.h:41-49 | Every call takes effect on the instances' values at its first step, as if a copy were made there and then; all its further steps, splits and releases included, change no value of any instance |
| CowProtocol.EveryRunIsAtomic | Sources/NPFoundation/include/NPFoundation/CopyOnWriteBacked.h:41-49 | Every interleaving of steps by any number of threads is therefore a run of atomic calls on instances with private values |
| CowProtocol.PointersShowMeaning | Sources/NPFoundation/include/NPFoundation/CopyOnWriteBacked.h:140-153 | What a thread reads or writes through `read()` and `unique()`, or leaves behind when it is done, is the value the instance stands for |
| CowProtocol.MeaningOfOthers | Sources/NPFoundation/include/NPFoundation/CopyOnWriteBacked.h:42-49 | No step of a thread changes the value of another thread's instance |
| ConcurrentBuffers.ProtocolRefines | Sources/NPFoundation/include/NPFoundation/CopyOnWriteBacked.h:90-153 | Each atomic step of a copy, move, assignment or destruction of a byte buffer is one command on private queues or changes nothing that can be seen |
| ConcurrentBuffers.SetBytesAppendsExactlyWhen | Sources/NPFoundation/ByteBuffer.cpp:188-192 | It appends all bytes and reports their number if and only if there are some, their end is a machine size, and it is within the capacity or the growth request was granted; otherwise it appends nothing and reports zero; no other queue changes |
| ConcurrentBuffers.SetBytesRefines | Sources/NPFoundation/ByteBuffer.cpp:188-192 | Writing through the pointer from `unique()` and moving the cursor is one write to a private queue, accepted as the buffer's own cursors, its capacity and the growth answer decide beforehand, whatever other threads are in the middle of |
| ConcurrentBuffers.MoveToFrontRefines | Sources/NPFoundation/ByteBuffer.cpp:236-241 | Moving the readable bytes to the front through that pointer cannot be seen |
| ConcurrentBuffers.MoveToFrontReclaims | Sources/NPFoundation/ByteBuffer.cpp:236-241 | Moving the readable bytes to the front keeps them and the capacity, and leaves the reader cursor at zero and the writer cursor at their number |
| ConcurrentBuffers.UsesAreEnabled | Sources/NPFoundation/ByteBuffer.cpp:188-242 | In every state with the invariant, a thread with the pointer from `unique()` may write any bytes and use whatever memory a growth request gets, or move the readable bytes to the front, and one with the pointer from `read()` may read any number |
| ConcurrentBuffers.TakeBytesRefines | Sources/NPFoundation/ByteBuffer.cpp:205-223 | Reading through the pointer from `read()` takes from the front of a private queue, with the same bytes in reply |
| ConcurrentBuffers.StepRefines | Sources/NPFoundation/include/NPFoundation/ByteBuffer.h:147-148 | Every step of every thread refines the eager model, and no cursor assertion fails |
| ConcurrentBuffers.EveryRunIsEager | Sources/NPFoundation/include/NPFoundation/ByteBuffer.h:144-148 | Two buffers that share a block may be used from different threads: under every interleaving, the commands in the order in which they took effect are a legal program of the eager model that gives all the replies and all the contents; which of its writes are accepted is decided before each of them by the cursors and the capacity of the buffer and by whether the growth request is granted |
| PriorityQueues.BelowWithout | Sources/NPFoundation/include/NPFoundation/DataStructures/Heap.h:53 | How many elements come before a given one does not depend on the order in which they are counted |
| PriorityQueues.FirstsAreEquivalent | Sources/NPFoundation/include/NPFoundation/DataStructures/Heap.h:49-50 | First elements of bags that look alike to the order are ties |
| PriorityQueues.StepsAlike | Sources/NPFoundation/include/NPFoundation/DataStructures/Heap.h:95-217 | One operation on alike bags gives tied replies and leaves them alike |
| PriorityQueues.RepliesAreDetermined | Sources/NPFoundation/include/NPFoundation/DataStructures/Heap.h:49-51 | All replies to any sequence of operations are determined position by position up to ties, however ties are broken inside |
| PriorityQueues.WithoutTiesRepliesAreEqual | Sources/NPFoundation/include/NPFoundation/DataStructures/Heap.h:49-51 | In an order without ties the replies are equal |
| PriorityQueues.OrderByKey | Sources/NPFoundation/include/NPFoundation/DataStructures/Heap.h:53 | Ordering by a number, ascending or descending, is an order that the queue accepts |
| PriorityQueues.PopsConserve | Sources/NPFoundation/include/NPFoundation/DataStructures/Heap.h:202-217 | The elements popped so far and those left make up the original contents |
| PriorityQueues.PoppingSorts | Sources/NPFoundation/include/NPFoundation/DataStructures/Heap.h:202-217 | Popping until empty yields a sorted permutation of the contents |
| HeapShape.NodesOfHeight | Sources/NPFoundation/include/NPFoundation/DataStructures/Heap.h:129-139 | The nodes of height at least k are exactly the first size / 2^k indices |
| HeapShape.HeightsSum | Sources/NPFoundation/include/NPFoundation/DataStructures/Heap.h:114-119 | The heights of all nodes add up to the size less the ones in its binary notation, which are at least one |
| HeapShape.RootHeight | Sources/NPFoundation/include/NPFoundation/DataStructures/Heap.h:133-139 | The root's height is the binary logarithm of the size |
| HeapShape.DepthIsLogarithm | Sources/NPFoundation/include/NPFoundation/DataStructures/Heap.h:129-131 | The way from index i up to the root has log2(i + 1) edges |
| Heaps.SiftDownStep | Sources/NPFoundation/include/NPFoundation/DataStructures/Heap.h:168-171 | Exchanging with the first child moves the only disorder one level down |
| Heaps.NextIsFirst | Sources/NPFoundation/include/NPFoundation/DataStructures/Heap.h:158-167 | The two comparisons of a round choose a first one among a node and its children |
| Heaps.SiftUpStep | Sources/NPFoundation/include/NPFoundation/DataStructures/Heap.h:181-186 | Exchanging with the parent moves the only disorder one level up |
| Heaps.TopIsFirst | Sources/NPFoundation/include/NPFoundation/DataStructures/Heap.h:105-110 | In heap order the root comes first among all elements |
| Heaps.DroppingPops | Sources/NPFoundation/include/NPFoundation/DataStructures/Heap.h:208-216 | Dropping the old root from the end of a rearranged vector is a pop of the priority queue |
| Heaps.Heap.constructor | Sources/NPFoundation/include/NPFoundation/DataStructures/Heap.h:69-71 | An empty heap of the given type |
| Heaps.Heap.FromList | Sources/NPFoundation/include/NPFoundation/DataStructures/Heap.h:73-79 | Heap order and the list's elements, with at most n - 1 swaps and 2(n - 1) comparator calls on a list of n >= 1 |
| Heaps.Heap.Clear | Sources/NPFoundation/include/NPFoundation/DataStructures/Heap.h:95-97 | Nothing is left |
| Heaps.Heap.Top | Sources/NPFoundation/include/NPFoundation/DataStructures/Heap.h:105-110 | None exactly for an empty heap; else one of the contents, such that none of them is less in a `Min` heap, and none is greater in a `Max` heap |
| Heaps.Heap.Comparator | Sources/NPFoundation/include/NPFoundation/DataStructures/Heap.h:147-153 | The answer of `<` in a `Min` heap and of `>` in a `Max` heap, and one more comparison |
| Heaps.Heap.FirstOfThree | Sources/NPFoundation/include/NPFoundation/DataStructures/Heap.h:158-167 | Two comparator calls at most pick a first one among a node and its children |
| Heaps.Heap.Heapify | Sources/NPFoundation/include/NPFoundation/DataStructures/Heap.h:155-176 | Extends heap order to the given node, permutes, leaves everything outside its range alone, within the node's height in swaps and twice that in comparisons |
| Heaps.Heap.Build | Sources/NPFoundation/include/NPFoundation/DataStructures/Heap.h:114-119 | Any vector becomes a heap of the same elements within a linear number of steps |
| Heaps.Heap.SiftUp | Sources/NPFoundation/include/NPFoundation/DataStructures/Heap.h:178-188 | Restores heap order after an append, permuting, within the node's depth in steps |
| Heaps.Heap.Push | Sources/NPFoundation/include/NPFoundation/DataStructures/Heap.h:192-200 | Heap order, one more element, at most log2(n + 1) comparisons |
| Heaps.Heap.RootToEnd | Sources/NPFoundation/include/NPFoundation/DataStructures/Heap.h:208-212 | Exchanging the root with the last of n + 1 elements and sifting down leaves the others in heap order, within 2 log2(n) comparisons |
| Heaps.Heap.Pop | Sources/NPFoundation/include/NPFoundation/DataStructures/Heap.h:202-217 | None exactly for an empty heap; else one element leaves the contents, such that none of the others is less in a `Min` heap, and none is greater in a `Max` heap; no comparisons below two elements, at most 2 log2(n - 1) otherwise |
| Heaps.Heap.Perform | Sources/NPFoundation/include/NPFoundation/DataStructures/Heap.h:95-217 | Each operation is one of the priority queue |
| Heaps.Heap.PerformAll | Sources/NPFoundation/include/NPFoundation/DataStructures/Heap.h:47-51 | Any sequence of operations is a run of a priority queue over the contents |
| Heaps.Drain | Sources/NPFoundation/include/NPFoundation/DataStructures/Heap.h:202-217 | Popping until nothing is left returns the contents, in ascending order from a `Min` heap and in descending order from a `Max` heap |
| Heaps.BuildVersusPush | Sources/NPFoundation/include/NPFoundation/DataStructures/Heap.h:50-51 | A heap built from a list and one filled by pushing the same elements in any order answer every sequence of operations alike: position by position both with nothing, or with elements of which neither is less |
| Throttle.Throttle.constructor | Sources/NPFoundation/dispatch/schedule.m:82-83 | Nothing has been answered |
| Throttle.Throttle.OnSignal | Sources/NPFoundation/dispatch/schedule.m:86-93 | The signal is answered if and only if the greedy choice over all signals so far ends in it |
| Throttle.Throttle.Process | Sources/NPFoundation/dispatch/schedule.m:82-95 | Over any sequence of signals the callbacks submitted are exactly the greedy choice |
| Throttle.AnsweredIsSpaced | Sources/NPFoundation/dispatch/schedule.m:88-92 | Answered signals are spaced by the delay, and the first signal is answered |
| Throttle.AnsweredIsLargest | Sources/NPFoundation/include/NPFoundation/dispatch/schedule.h:50-51 | No choice of signals spaced by the delay is larger than the throttle's, and one of the same size does not end earlier |
| Throttle.AtMostOncePerWindow | Sources/NPFoundation/include/NPFoundation/dispatch/schedule.h:50-51 | Any two answered signals are at least the delay apart |
| Throttle.DroppedWithinWindow | Sources/NPFoundation/include/NPFoundation/dispatch/schedule.h:57-58 | A signal is ignored only within the delay after an answered one |
| Debounce.Debounce.constructor | Sources/NPFoundation/dispatch/schedule.m:103-104 | No signal yet, not cancelled, no timer |
| Debounce.Debounce.OnSignal | Sources/NPFoundation/dispatch/schedule.m:107-127 | A new generation with a timer of its own, besides all outstanding ones; the cancel flag is cleared |
| Debounce.Debounce.OnCancel | Sources/NPFoundation/dispatch/schedule.m:128-130 | Only the flag is set; outstanding timers stay |
| Debounce.Debounce.OnTimer | Sources/NPFoundation/dispatch/schedule.m:117-125 | The timer is used up; the callback is submitted if and only if the timer is the newest and no cancel intervened |
| Debounce.Debounce.Process | Sources/NPFoundation/dispatch/schedule.m:107-135 | Whatever runs on the serial queue, the state and the submissions are those of the step system |
| Debounce.StepRefines | Sources/NPFoundation/include/NPFoundation/dispatch/schedule.h:67-71 | Every step is one of a single optional deadline: set by a signal, cleared by a cancel, consumed by a firing that is due, unchanged by a stale timer |
| Debounce.RunRefines | Sources/NPFoundation/include/NPFoundation/dispatch/schedule.h:67-71 | Over every run, with arbitrarily many timers outstanding, the deadline is that of the abstract debounce |
| Debounce.FiringsAreDue | Sources/NPFoundation/include/NPFoundation/dispatch/schedule.h:67-68 | The callback is submitted only when the abstract deadline exists and has passed |
| Debounce.StateMeaning | Sources/NPFoundation/dispatch/schedule.m:103-130 | The generation is the number of signals, and the flag is set if and only if the last control event was a cancel |
| Debounce.TimerMeaning | Sources/NPFoundation/dispatch/schedule.m:109-116 | An outstanding timer was started by its own signal and has that signal's deadline |
| Debounce.OutstandingExactlyWhen | Sources/NPFoundation/dispatch/schedule.m:107-130 | A timer is outstanding if and only if its signal has been processed and its handler has not run since, whatever other signals and cancels there have been |
| Debounce.MayFireExactlyWhen | Sources/NPFoundation/dispatch/schedule.m:109-118 | The handler of a timer can run at a given time if and only if its signal was processed at least the delay before and the handler has not run since |
| Debounce.SubmissionAnswersSignal | Sources/NPFoundation/include/NPFoundation/dispatch/schedule.h:67-71 | A timer handler submits the callback if and only if neither a signal nor a cancel has followed the signal that started its timer |
| Debounce.TimerIsLate | Sources/NPFoundation/include/NPFoundation/dispatch/schedule.h:73-75 | That signal was processed at least the delay earlier |
| Debounce.SubmissionMatches | Sources/NPFoundation/include/NPFoundation/dispatch/schedule.h:67-75 | Every submission matches one signal, which started the timer, was processed at least the delay before, and has been followed by neither a signal nor a cancel |
| Debounce.SpentTimer | Sources/NPFoundation/dispatch/schedule.m:117-118 | A timer that has fired never becomes outstanding again |
| Debounce.OneHandlerPerSignal | Sources/NPFoundation/dispatch/schedule.m:117-125 | No two handlers belong to the same signal, so distinct submissions answer distinct signals |
| Timer.NPTimer.constructor | Sources/NPFoundation/dispatch/timer.m:40-47 | Neither cancelled nor suspended |
| Timer.NPTimer.Resume | Sources/NPFoundation/dispatch/timer.m:49-60 | Serialised, the timer is not suspended afterwards, the suspend count is zero, and a resume is never issued at 0; nothing else changes |
| Timer.NPTimer.Suspend | Sources/NPFoundation/dispatch/timer.m:62-73 | Serialised, the timer is suspended afterwards and the suspend count is 1, unless it has been cancelled, when both stay clear; nothing else changes |
| Timer.NPTimer.Cancel | Sources/NPFoundation/dispatch/timer.m:75-95 | Serialised, a cancelled timer has suspend count 0 and its source has been cancelled exactly once |
| Timer.StepConserves | Sources/NPFoundation/dispatch/timer.m:49-95 | Each lock step and each later dispatch call keeps the conservation law |
| Timer.EveryRunConserves | Sources/NPFoundation/dispatch/timer.m:49-95 | Under every interleaving, suspend count plus undelivered suspends less undelivered resumes is 1 if the flag is set and 0 otherwise, and source cancels issued or due are 1 if cancelled and 0 otherwise |
| Timer.FlagsMeaning | Sources/NPFoundation/dispatch/timer.m:49-95 | Under every interleaving the timer is cancelled if and only if some cancel has passed the lock, and suspended if and only if none has, and a suspend has with no resume since |
| Timer.OneMoreAction | Sources/NPFoundation/dispatch/timer.m:49-95 | Every run can be continued by any call of a thread that has nothing to issue, and by issuing what any thread has to |
| Timer.CancelledTimerIsReclaimable | Sources/NPFoundation/dispatch/timer.m:88-93 | The source is cancelled at most once, and a quiescent cancelled timer has suspend count 0 |
| Timer.NothingDecidedAfterCancel | Sources/NPFoundation/dispatch/timer.m:52-93 | After the lock step of a cancel and for the rest of the run, passing through the lock changes nothing, only calls decided by then are issued, and the resumes issued and still to be issued are exactly those decided before and the balancing one |
| Timer.DeliveryAfterCancel | Sources/NPFoundation/dispatch/timer.m:57-93 | The same for one step |
| Timer.IssuingKeepsFlags | Sources/NPFoundation/dispatch/timer.m:57-93 | Delivering decided calls in any order keeps the flags and the law, and adds no undelivered suspends |
| Timer.ResumesFirst | Sources/NPFoundation/dispatch/timer.m:57-93 | There is an order of delivery that takes the suspend count down by the number of undelivered suspends |
| Timer.OverResumesExactlyWhen | Sources/NPFoundation/dispatch/timer.m:57-73 | Some order of delivery resumes at zero if and only if more suspends are undelivered than the suspended flag stands for |
| Timer.RunIsSafeExactlyWhen | Sources/NPFoundation/dispatch/timer.m:49-95 | A run can never resume at zero if and only if no call in it clears the suspended flag while a suspend is undelivered |
| Timer.OvertakingResume | Sources/NPFoundation/dispatch/timer.m:57-73 | A concrete run in which a resume overtakes its suspend and the count becomes -1 |

## Left out

- Storage.Reallocate: says only what a growing reallocation promises; the insides of malloc, realloc, free and memmove are not modelled, and deallocation is the end of a block's life.
- Storage.ByteBufferStorage.SetBytes: takes its source as a snapshot; a source inside the block is modelled where `discardReadBytes` passes one, but not a self-overlapping write that has to reallocate, whose source is freed by the reallocation. The bytes of a block are a sequence value that the field is reassigned to, so a partly completed copy is not visible.
- Storage.Allocate: the content of fresh memory is arbitrary, and whether there is any is an input.
- ByteBuffers.Block.Retain: counts in unbounded numbers, since operations run one at a time; the 32-bit wrap-around is in CowProtocol.
- ByteBuffers.ByteBuffer.MoveReadableToFront: ends in `WildRead` where the source reads through a pointer computed from null; what such a read does is undefined.
- Session.Execute: stops at the first command at which a copy-on-write split loses bytes, because the buffer that was being changed no longer satisfies its cursor invariant; later operations on that buffer are not modelled. It keeps its buffers in a map of names, which the source does not have.
- CowProtocol.StepKeeps: assumes fewer than 2^32 references to any one block, which is what its counter can hold (`CowProtocol.CopyIsSafeExactlyWhen`); steps are sequentially consistent, so the memory orders (section 31.4 of ISO/IEC 14882:2020) are not modelled.
- CowProtocol.TakeOverKeeps: the two pointer assignments of a move are one step, since both instances belong to the same thread. Hand-over of an instance between threads happens only while its owner is idle.
- CowProtocol.EveryRunKeeps: the protocol is a state machine on values, because the object language has no threads; the same operations on objects, one at a time, are the class ByteBuffers.ByteBuffer. A failing `new` inside `unique()` throws and is not modelled.
- ConcurrentBuffers.EveryRunIsEager: splits find memory, as in the protocol; the effect of setting or reading bytes through a pointer is one step, together with the cursors, which only the owner of the buffer uses.
- Use of a moved-from buffer other than destroying it, moving it or assigning to it: the source dereferences null.
- Raw views kept across calls (`bytes`, `mutableBytes`, `readableBytesView`), `writeString` and `writeCString`, which add only a length.
- Cursor assertions are taken as enabled; a build without them would go on with the cursor beyond the block.
- Heaps.Heap.FromList: takes the order and its converse as parameters and requires a strict weak order, which the source leaves to the element type; copies and moves of elements are the same, `reserve` is left out, and indices do not overflow 64 bits.
- Throttle.Throttle.OnSignal: takes the clock's answer as a real number; the floating-point rounding of seconds is not modelled. Cancelling a throttle does nothing and has no model.
- Debounce.Debounce.OnSignal: takes the clock's answer and the delay as real numbers without the cast to nanoseconds, and counts generations without the 64-bit wrap-around; leeway is covered by letting a timer fire any time after its deadline.
- Target queues, when submitted callbacks run, block ownership and the freeing of handles (`NPScheduleWorkFree`); that a timer fires eventually is up to libdispatch.
- Timer.EveryRunConserves: models the source only by its suspend count and its cancellations; attaching the flags to the source and creating it are left out.
- `NPDispatchTimerObservable`, the Objective-C runtime helpers, value observing, diagnostics, the POSIX wrappers and the machine context: out of scope.
