# wasmig, verified

A Dafny model of the parts of wasmig that checkpoint and restore a running WebAssembly program, with proofs.

**Persistent stacks** (`References`, `StackHeap`, `Reclamation`, `StackWorld`, `StackRuns`, `StackViews`,
`StackHistories`, `StackRuntime`). Stacks are linked nodes that share tails and are reference-counted by hand.
`StackWorld` is the state machine: the node heap, and everyone who holds references into it (the handles the
caller still owes a release for, the live iterators, the slots of the snapshot maps). Its invariant says that
each count is the number of references to its node. It is kept by every operation, although it is broken and
repaired inside the recursive release, and three kinds of results follow for all legal runs: memory is reclaimed
exactly (counting agrees with tracing), handles, iterators and slots are persistent, and every operation on handles,
iterators and slots refines one on independent sequences of values. `StackRuntime.Runtime` is the library as it runs,
updating its tables in place; its methods are proved against the state machine, and each of them finds every node
it dereferences allocated and every count it increments below `INT_MAX`.

**Memory images** (`Bytes`, `MemoryImage`, `MemoryParsing`, `MemoryRestore`, `MemoryRoundTrip`, `MemoryFiles`).
The writer skips chunks of zeros; one reader accepts three formats and drives a visitor with 32-bit offsets.
The reader accepts exactly the well-formed images, restoring is overlaying the records in order, checkpoint and
restore are inverse to each other, and the three formats mean the same. `MemoryFiles` holds the loops, over a file
cursor and a buffer written in place. The page size and the limit of 65536 pages are those of sections 4.2.8 and
3.2.4 of the WebAssembly Core Specification 1.0.

**Globals** (`Globals`), the **address map** (`AddressTable`) and the **pending queue** (`PendingQueue`).

How the model reads the source:

- A node is named by the number of the allocation that made it, so a name is never used twice. That a node links
  only to older nodes is part of the type `Heap`; it is what makes chains end.
- `owned` in `World` records which releases the caller still owes. `Legal` is the library's contract: pass live
  stacks, destroy only handles you own, and save only stacks that something other than the overwritten slot
  leads to, such as a handle you own.
- The placement of iterators and maps by the allocator, and the order in which a hash table is iterated, are
  parameters or left to choice; the results hold for all of them.
- The callback of `foreach` is what it is called with; a visitor is a function from its user data and arguments to
  a return code and new user data.
- Files are byte sequences that are read in full or up to their end. Uninitialized memory has arbitrary contents.
- Allocation succeeds, also of zero bytes.

What holds only under a condition:

- `Array8.size` is a 32-bit number: at 65536 pages, the largest memory, the contents are restored but the size that
  is returned is 0 (`MemoryRoundTrip.RoundTrip`).
- A V2 extent of all 2^20 chunks is lost at 65536 pages (`MemoryRoundTrip.FullExtentIsLost`), and nothing else is
  lost up to that size (`MemoryRestore.RestoreIsOverlay`). Above it, a call is right exactly for starts and counts
  below 2^20 (`MemoryRestore.CallIsExactWhen`).
- `set_bidirect` does not clear the forward entry of another key with the same address. So keys found by address are
  always right, and the tables are inverse exactly as long as no step binds an address another key holds.
- `pop` on an empty root returns the caller's own handle without a reference of its own: giving back both would be
  one release too many (`StackHistories.PopSeen`).
- `save_pair` releases the old pair first. That is safe exactly for stacks that something other than the overwritten
  slot leads to (`StackWorld.SaveIsSafeExactlyWhen`), as for all stacks the caller owns, and a legal run of four
  calls leads to a save that is not (`StackHistories.UnownedSaveIsUnsafe`).

`docs/table_v3_README.md` describes an address map with 32-bit keys and one setter; the code has keys made of a
function index and an offset, two tables and three setters, and the model follows the code.

`dafny verify dfyconfig.toml` checks the project.

## Model

| member | source | states |
|---|---|---|
| References.RefsCount | src/stack.cpp:14-19 | the references a table of handles holds to a node are as many as its entries that point there; this is what a count is compared with |
| References.RefsSplit | src/stack.cpp:234-235 | dropping an entry gives back exactly its own reference, in whatever order entries are dropped |
| StackHeap.RetainCounted | src/stack.cpp:26-30 | a retain keeps every count equal to the references held, with one more held |
| StackHeap.AllocateCounted | src/stack.cpp:85-100 | a new node owns one reference to what it is pushed on, its creator one to it, and all counts stay right |
| StackHeap.UnlinkCounted | src/stack.cpp:36-38 | when the last reference to a node goes, the reference it holds itself becomes one that is owed a release; counts of the others are right again |
| StackHeap.ReleaseCounted | src/stack.cpp:33-41 | the recursive release repairs the invariant: afterwards every count is right for one reference less, no reference dangles, and it ends |
| StackHeap.ReleaseInPlace | src/stack.cpp:35-39 | freeing a node after the recursive call, as the code does, gives the heap that freeing its whole run gives |
| Reclamation.ReleaseIsExact | src/stack.cpp:33-41 | the nodes freed are the top of the chain, all of count one, down to the first node with a reference to spare, which loses one; nothing else changes |
| Reclamation.ReleaseFreesUnreachable | src/stack.cpp:33-41 | what a release leaves allocated is what a tracing collector would keep |
| Reclamation.ReclamationIsExact | src/stack.cpp:26-41 | under the counting invariant a node is allocated if and only if it is reachable from a reference held outside |
| Reclamation.CountingIsTracing | src/stack.cpp:26-41 | any freeing that ends with right counts keeps exactly what was reachable before from the references still held |
| Reclamation.HeapIsDetermined | src/stack.cpp:26-41 | two heaps with the same nodes and the same references into them are equal, counts included |
| Reclamation.SeenFrom | src/stack.cpp:85-116 | what is seen from a handle does not depend on which other nodes exist |
| StackWorld.AllocatedInv | src/stack.cpp:71-100 | create and push keep the invariant |
| StackWorld.PoppedInv | src/stack.cpp:102-116 | pop keeps the invariant |
| StackWorld.DestroyedInv | src/stack.cpp:138-140 | destroying an owned handle keeps the invariant |
| StackWorld.IterCreatedInv | src/stack.cpp:164-172 | creating an iterator keeps the invariant |
| StackWorld.IterAdvancedInv | src/stack.cpp:184-193 | retaining the next node and then releasing the current one keeps the invariant |
| StackWorld.IterDestroyedInv | src/stack.cpp:195-199 | destroying an iterator keeps the invariant |
| StackWorld.SavedInv | src/stack.cpp:226-246 | releasing the old pair before retaining the new one keeps the invariant, and both new stacks are still live in between, provided neither depends on the overwritten slot |
| StackWorld.SurvivesDropExactlyWhen | src/stack.cpp:230-235 | a stack survives the release of a slot if and only if an owned handle, an iterator or another slot leads to it |
| StackWorld.SaveIsSafeExactlyWhen | src/stack.cpp:226-246 | a save keeps the invariant if and only if both stacks are led to by something other than the overwritten slot; that is so for every owned stack, and for every live one under a new key |
| StackWorld.LoadedInv | src/stack.cpp:249-268 | loading a pair keeps the invariant |
| StackWorld.DropSlotInv | src/stack.cpp:281-298 | removing a slot keeps the invariant |
| StackWorld.DropSlotsInv | src/stack.cpp:313-316 | releasing any list of slots keeps the invariant and removes just those slots |
| StackWorld.StepInv | src/stack.cpp:66-322 | every legal operation keeps the invariant |
| StackRuns.RunInv | src/stack.cpp:66-322 | every legal run keeps the invariant, and nodes keep their shape through it |
| StackRuns.RunCountsReferences | src/stack.cpp:26-322 | after any legal run a count is the number of linked nodes, owned handles, iterators and map slots that refer to the node |
| StackRuns.CountsFit | src/stack.cpp:17-30 | a count is at least one and at most the number of references outstanding, which bounds the `int` |
| StackRuns.RunReclaimsExactly | src/stack.cpp:26-322 | after any legal run a node is allocated if and only if it is reachable from an owned handle, an iterator or a slot |
| StackRuns.NothingLeaks | src/stack.cpp:138-140 | when every handle, iterator and slot is given back no node is left |
| StackRuns.Persistence | src/stack.cpp:85-116 | a handle live before and after any evolution shows the same values |
| StackRuns.OwnershipStays | src/stack.cpp:66-322 | only destroying a handle uses up its ownership |
| StackRuns.HandleSurvives | src/stack.cpp:66-322 | a handle owned more often than a run destroys it stays live and shows the same values after the run |
| StackViews.StepRefines | src/stack.cpp:66-322 | seen as values, every operation on handles, iterators and maps is the operation on independent sequences; no operation shows through another iterator, key or handle |
| StackHistories.PushSeen | src/stack.cpp:85-100 | the new handle shows the value on top of the old stack, and is owned once |
| StackHistories.PopSeen | src/stack.cpp:102-116 | the result shows the rest of the stack; a reference is handed over exactly when the stack was not empty |
| StackHistories.SlotStays | src/stack.cpp:226-298 | a slot no step overwrites shows the same values through a whole run |
| StackHistories.LoadSeen | src/stack.cpp:249-268 | loading hands out two live, newly owned stacks that show what the slot shows, stored nulls as empty |
| StackHistories.SaveSeen | src/stack.cpp:226-246 | a saved slot shows what the two stacks showed at the call |
| StackHistories.SnapshotLasts | src/stack.cpp:226-298 | after a save and any legal run that does not overwrite the key, loading yields the values at the time of the save |
| StackHistories.IterationDelivers | src/stack.cpp:184-193 | an iterator advanced n times in any run has exactly the values below the first n left |
| StackHistories.AdvanceSeen | src/stack.cpp:184-193 | advancing drops the first value left, if any, and the iterator stands on a live stack, never on null |
| StackHistories.MapOrderIsIrrelevant | src/stack.cpp:313-317 | destroying a map gives the same world for every iteration order of its table |
| StackHistories.UnownedSaveIsUnsafe | src/stack.cpp:226-241 | a run of four legal calls after which saving the pair that a slot holds, under the same key, frees the stack it is about to retain and breaks the counts |
| StackRuntime.RoomForAll | src/stack.cpp:17-30 | while fewer than INT_MAX references exist every increment has room, two on the same count included |
| StackRuntime.Runtime.RetainNode | src/stack.cpp:26-30 | increments the count in place, within the range of `int` |
| StackRuntime.Runtime.ReleaseNode | src/stack.cpp:33-41 | the in-place recursion frees the run and lowers its boundary; every node it touches is allocated |
| StackRuntime.Runtime.StackCreate | src/stack.cpp:71-79 | a fresh empty root, owned once |
| StackRuntime.Runtime.StackPush | src/stack.cpp:85-100 | the step of the state machine, and the resulting values |
| StackRuntime.Runtime.StackPop | src/stack.cpp:102-116 | the step, the popped value (0 when empty), the rest, who owns it, and the handle: live, never null, the singleton for null or the singleton, the argument itself for an empty root |
| StackRuntime.Runtime.StackIsEmpty | src/stack.cpp:118-120 | empty exactly when no value is seen |
| StackRuntime.Runtime.StackTop | src/stack.cpp:122-127 | the first value seen, 0 if there is none |
| StackRuntime.Runtime.StackSize | src/stack.cpp:129-136 | the number of values seen |
| StackRuntime.Runtime.StackDestroy | src/stack.cpp:138-140 | the step that gives an owned handle back |
| StackRuntime.Runtime.IteratorCreate | src/stack.cpp:164-172 | the step that retains the start, null as the empty stack |
| StackRuntime.Runtime.IteratorHasNext | src/stack.cpp:174-177 | true exactly when values are left |
| StackRuntime.Runtime.IteratorNext | src/stack.cpp:184-193 | the step, and the first of the values left |
| StackRuntime.Runtime.IteratorDestroy | src/stack.cpp:195-199 | the step that releases where the iterator stands |
| StackRuntime.Runtime.StackForeach | src/stack.cpp:201-210 | the callback gets every value once, top to bottom, and all state is as before |
| StackRuntime.Runtime.StateMapCreate | src/stack.cpp:217-223 | a new, empty map |
| StackRuntime.Runtime.StateSavePair | src/stack.cpp:226-246 | the step, and the slot shows the values the stacks showed |
| StackRuntime.Runtime.StateLoadPair | src/stack.cpp:249-268 | success exactly on an occupied slot, with the stored handles, nulls as the singleton, the stored values and two more owned references |
| StackRuntime.Runtime.StateExists | src/stack.cpp:271-279 | true exactly on an occupied slot |
| StackRuntime.Runtime.StateRemove | src/stack.cpp:281-298 | success exactly on an occupied slot, which is then released and gone |
| StackRuntime.Runtime.StateMapDestroy | src/stack.cpp:300-322 | for some order of its slots, the step that releases them all |
| StackRuntime.Runtime.CountStackEntries | src/stack.cpp:353-372 | the length and the sum of the values when they fit 32 bits, else what wrapping leaves of them, with every reference it took given back |
| StackRuntime.WrapIsCongruent | src/stack.cpp:354-369 | what a 32-bit counter holds is congruent to the count modulo 2^32, and is the count itself if that fits |
| MemoryImage.ReadRecord | src/restore.cpp:179-232 | a record is read only if it is well-formed and its encoding is what the bytes begin with |
| MemoryImage.InspectsExactly | src/restore.cpp:36-70 | a page-count file is accepted with a given meaning if and only if it is a bare page count, or one of the two markers and a page count; chunks have 4096 bytes |
| MemoryImage.InspectSparseMeta | src/checkpoint.cpp:126-127 | the page-count file a checkpoint writes is inspected as format V1 with that page count |
| MemoryImage.MetaLayout | src/checkpoint.cpp:126-127 | the eight bytes of the page-count file of a checkpoint |
| MemoryParsing.ParseEncoded | src/restore.cpp:165-240 | records in front of any bytes are read first, the bytes after them as if alone |
| MemoryParsing.ParseIsSound | src/restore.cpp:165-240 | on any bytes, the records read are well-formed, are a prefix of the bytes, and reading stops in the last three bytes or at bytes that are no record |
| MemoryParsing.AcceptsExactlyImages | src/restore.cpp:165-240 | accepted if and only if the bytes are well-formed records in range followed by fewer than four bytes |
| MemoryParsing.ReadingIsUnique | src/restore.cpp:165-240 | the records read are the only ones the image encodes |
| MemoryParsing.RejectedAfter | src/restore.cpp:185-200 | a bad record stops the reader after exactly the records before it |
| MemoryParsing.DriveInTurn | src/restore.cpp:156-159 | the visitor is called for the records in order, for none after its first failure and for all before it |
| MemoryParsing.DriveOne | src/restore.cpp:156-159 | visiting one record is one call of the visitor with that record, and any return code but 0 fails the visit |
| MemoryParsing.VisitAcceptsExactly | src/restore.cpp:109-241 | in all three formats a visit returns 0 if and only if the page-count file is accepted, the memory file is well-formed and no call of the visitor fails, else -1 |
| MemoryRestore.CallIsExactWhen | src/restore.cpp:195-234 | a call has the data of its record and its offset and length modulo 2^32; these are the true ones if and only if start and count are below 2^20 |
| MemoryRestore.CallsStayInside | src/restore.cpp:127-239 | up to 65536 pages, for any bytes in any format, every call is chunk-aligned and within the memory; its length is that of its data unless it is the one extent of all 2^20 chunks |
| MemoryRestore.RestoreIsOverlay | src/restore.cpp:243-283 | up to 65536 pages success depends on the image alone, the destination check never fires, and the buffer is its old contents overlaid by the records before the end or the rejected one, except an extent of all 2^20 chunks, which is dropped |
| MemoryRestore.TooSmall | src/restore.cpp:249-264 | in all three formats a destination smaller than the memory is refused untouched, and so is any destination when the page-count file is not accepted |
| MemoryRestore.RestoreAcceptsExactly | src/restore.cpp:243-283 | restoring returns 0 if and only if the destination is large enough, the memory file is well-formed and every call stays in the destination, which up to 65536 pages every call does; else -1 |
| MemoryRestore.FreshAcceptsExactly | src/restore.cpp:285-341 | fresh memory is handed out if and only if the files are accepted; it is then as large as the memory and holds the overlay of zeros, and the size reported is the true one modulo 2^32 |
| MemoryParsing.ShapedParse | src/restore.cpp:185-216 | full-length records are read up to the first one out of range, and accepted if and only if all of them are in range |
| MemoryRestore.OverlayChunk | src/restore.cpp:270-280 | each chunk holds the last record for it, or its old bytes |
| MemoryRestore.OverlayPast | src/restore.cpp:270-280 | bytes past the memory are not touched |
| MemoryRestore.RecordOrderIsIrrelevant | src/restore.cpp:167-201 | overlaying a permutation of records for different chunks gives the same buffer |
| MemoryRestore.ImageOrderIsIrrelevant | src/restore.cpp:167-201 | restoring a V1 image of records for different chunks and one of the same records in another order gives the same return code and the same buffer |
| MemoryRoundTrip.CheckpointIsRead | src/checkpoint.cpp:99-139 | a checkpoint of any memory up to 65536 pages is accepted and read as the chunks that are not zero |
| MemoryRoundTrip.RoundTripInto | src/restore.cpp:243-283 | restoring a checkpoint into any large enough buffer sets the chunks that were not zero and leaves all other bytes |
| MemoryRoundTrip.RoundTrip | src/restore.cpp:285-341 | checkpoint then restore gives the memory back byte for byte; the reported size is right if and only if there are fewer than 65536 pages |
| MemoryRoundTrip.SparseIsCanonical | src/checkpoint.cpp:109-124 | the writer emits strictly increasing indices and no zero chunk |
| MemoryRoundTrip.WritesNonZeroChunks | src/checkpoint.cpp:110-118 | a chunk is written if and only if it is not zero |
| MemoryRoundTrip.ImageLength | src/checkpoint.cpp:117-118 | an image has 4100 bytes for each record |
| MemoryRoundTrip.CheckpointLayout | src/checkpoint.cpp:109-124 | the image of a memory in bytes: for each chunk with a byte that is not zero, in ascending order, four bytes of index and its 4096 bytes, and nothing else |
| MemoryRoundTrip.CanonicalImageIsReproduced | src/checkpoint.cpp:109-124 | restoring an image of the shape the writer produces and checkpointing again gives the same bytes |
| MemoryRoundTrip.DenseRestores | src/restore.cpp:141-163 | a dense image of the right length replaces the memory, any other is rejected before a byte is written |
| MemoryRoundTrip.DenseInOrder | src/restore.cpp:147-162 | a dense image of n chunks is visited chunk by chunk in order, each with its own bytes |
| MemoryRoundTrip.DenseAndSparseAgree | src/restore.cpp:141-201 | the dense image and the checkpoint of a memory restore the same |
| MemoryRoundTrip.ExpandAllOverlay | src/restore.cpp:204-239 | expanding extents to single chunks, overlapping or not, restores the same buffer |
| MemoryRoundTrip.ExtentsRefineChunks | src/restore.cpp:184-239 | a V2 image of full-length extents, overlapping or not, is accepted if and only if its expansion to V1 is, and then leaves the same buffer unless an extent covers all 2^20 chunks; when both are rejected, V2 leaves the extents before the first bad one and V1 also the chunks of that one within the memory |
| MemoryRoundTrip.FullExtentIsLost | src/restore.cpp:218-234 | at 65536 pages a single extent of all chunks is accepted and no buffer is changed by it, because its length wraps to zero |
| MemoryFiles.IsZeroMemoryChunk | src/checkpoint.cpp:22-29 | true exactly for a chunk of zeros |
| MemoryFiles.CheckpointMemory | src/checkpoint.cpp:99-139 | the loop writes the sparse image and the page-count file |
| MemoryFiles.InspectMemoryImage | src/restore.cpp:36-70 | accepts four bytes, or eight with a known marker |
| MemoryFiles.ChunkTurn | src/restore.cpp:184-201 | a V1 record in bytes: a little-endian index in range and 4096 bytes of data, else the image is rejected |
| MemoryFiles.ExtentTurn | src/restore.cpp:204-239 | a V2 record in bytes: a little-endian start and a count that is not zero and in range, and the data of that many chunks, else the image is rejected |
| MemoryFiles.NextRecord | src/restore.cpp:168-232 | one turn of the reading loop agrees with the parse of the bytes left, and consumes some |
| MemoryFiles.VisitMemoryChunks | src/restore.cpp:109-241 | for every visitor, the return code and the user data of driving it through the records in order up to the first failure |
| MemoryFiles.CopyChunk | src/restore.cpp:270-280 | refuses what does not fit and touches nothing, else copies in place, byte by byte |
| MemoryFiles.RestoreMemoryInto | src/restore.cpp:243-283 | the array ends up as the restored buffer, on success and on failure |
| MemoryFiles.RestoreMemory | src/restore.cpp:285-341 | zeroed memory with the image restored into it, or nothing at all |
| MemoryFiles.CheckpointAndRestore | src/checkpoint.cpp:99-139 | the two methods run one after the other give the memory back |
| Globals.CheckpointGlobal | src/checkpoint.cpp:159-171 | the low bytes of every value, one after the other |
| Globals.RestoreGlobal | src/restore.cpp:356-371 | the low bytes of each variable are those at its offset; nothing is claimed of the uninitialized high bytes |
| Globals.ImageHolds | src/checkpoint.cpp:165-167 | value i lies between the sums of the first i and i + 1 widths |
| Globals.PatchSetsLow | src/restore.cpp:366-368 | reading w bytes over a variable sets it modulo 256^w |
| Globals.RoundTrip | src/restore.cpp:356-371 | writing and reading with the same widths preserves every value modulo its width |
| Bytes.ReadBack | src/restore.cpp:47-53 | reading the low bytes of a number back gives it modulo the width |
| Bytes.WriteBack | src/restore.cpp:47-53 | no other bytes read back to that number |
| Bytes.PutOrder | src/checkpoint.cpp:117-127 | a 32-bit number is written as its four base-256 digits, least significant first |
| Bytes.GetOrder | src/restore.cpp:47-53 | four bytes are read with the first one least significant |
| AddressTable.PackIsBijective | src/table_v3.cpp:15-21 | packed keys and code positions correspond one to one |
| AddressTable.PackOnBits | src/table_v3.cpp:15-21 | the shifts and masks of the source compute the packing |
| AddressTable.KeyLookupIsSound | src/table_v3.cpp:52-157 | over runs of set_bidirect and remove, a key found for an address is bound to it, and keys found for different addresses differ |
| AddressTable.StepInverse | src/table_v3.cpp:52-69 | the tables stay inverse after a two-way step if and only if it does not bind an address another key holds |
| AddressTable.TablesStayInverse | src/table_v3.cpp:52-157 | over runs that never do so the tables are inverse and of equal size |
| AddressTable.StolenAddress | src/table_v3.cpp:57-63 | binding one address to two keys leaves the older key bound one way only |
| AddressTable.ValueLookupIsLastWrite | src/table_v3.cpp:112-123 | over all runs, get_value is the last forward write since the last removal |
| AddressTable.KeyLookupIsLastWrite | src/table_v3.cpp:97-110 | over all runs, get_key is the last backward write unless a later set_bidirect or remove acted on a key bound to that address |
| AddressTable.UnboundAddress | src/table_v3.cpp:97-110 | an address never bound back has no key |
| AddressTable.AddressMap.SetBidirect | src/table_v3.cpp:52-69 | both tables after the call |
| AddressTable.AddressMap.SetForward | src/table_v3.cpp:71-83 | the forward table after the call, the other unchanged |
| AddressTable.AddressMap.SetBackward | src/table_v3.cpp:85-95 | the backward table after the call, the other unchanged |
| AddressTable.AddressMap.GetKey | src/table_v3.cpp:97-110 | the two halves of the stored key, which is bound to the address while the tables are sound |
| AddressTable.AddressMap.GetValue | src/table_v3.cpp:112-123 | the stored address, if any |
| AddressTable.AddressMap.Remove | src/table_v3.cpp:144-157 | both tables after the call, and whether there was an entry |
| PendingQueue.StateQueue.StateEnqueue | src/table_v3.cpp:306-321 | appends an unconfirmed entry |
| PendingQueue.StateQueue.StateDequeue | src/table_v3.cpp:323-338 | takes the first entry, if there is one |
| PendingQueue.StateQueue.ConfirmPending | src/table_v3.cpp:340-362 | an entry is confirmed afterwards if and only if it was before or is at the position; order and positions are kept, and found is true if and only if an entry is there |
| PendingQueue.FirstInFirstOut | src/table_v3.cpp:306-362 | over all runs, entries leave in the order they were enqueued, whatever is confirmed in between |

## Left out

- StackRuntime.Runtime.StackForeach: the callback does not itself use the library while it is called; what an iterator yields when other operations come in between is `StackHistories.IterationDelivers`.
- Globals.RestoreGlobal: says nothing of the bytes above a variable's width, which the source leaves uninitialized.
- `wasmig_stack_iterator_peek`, the address map's exist and size queries, the queue's empty and size queries: they only read what other members state.
- Null map, list and queue pointers of the address table, null visitors, null callbacks and null out-pointers: refused before anything happens.
- Failing allocations and C++ exceptions.
- Opening files, stdio errors, logging and printing.
- The protobuf path for call stacks and typed globals (`src/state.cpp`): the wire codec is not part of this model, and the conversions are structural copies.
- `write_dirty_memory` and `restore_dirty_memory`: they depend on the page map of the operating system, and the source marks the writer as faulty.
- The registry (`src/registry.cpp`) and `wasmig_load_metadata_stacks`: plain pointer storage and one load; that destroying a map unregisters it is not claimed, since the source scans a different, empty table.
- Code positions (`prev_pc`, `next_pc`, the program counter file) and the Rust layer: their tables come from a crate that is not part of this model.
- The forbidden list: a plain set.
