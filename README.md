# Learn_STL in Dafny

This project models the core of Learn_STL, a small C++ library that re-creates
parts of the standard template library by hand, and proves properties of that
model. The model covers:

- **the small-object pool allocator `my_malloc_allocator`**, in its four copies:
  - the templated one in `my_list/include/memoryPool.h`;
  - the non-templated one split over `memoryPool/include/memoryPool.h` and
    `my_avl_tree/src/memoryPool.cpp`;
  - the early one in `memroyPool/test.cpp`.

  The pool keeps 512 bins of free blocks (one per 8-byte size class up to
  4096 bytes) and an arena window `[start_free, end_free)`. A request of at most
  4096 bytes comes from its bin. When the bin is empty, `refill` asks
  `chunk_alloc` for up to 20 blocks carved from the window. When the window is
  too small, its leftover is donated to a bin and the window grows from
  `operator new`. `make_shared_with_pool` wraps a pooled block in a shared
  pointer whose deleter hands it back.
- **`m_stl::list`**: a doubly linked ring of nodes around a sentinel embedded in
  the list object, with a signed element counter.
- **`m_vector`** and its raw-storage helpers (`uninit`, `deconstruct`): storage
  `[start, end_of_storage)` with the elements in `[start, finish)`.
- **`BTree`**: a B-tree whose insertion splits every full node on the way down.
- **`BPlusTree`**: a B+ tree with parent pointers and a chain of leaves, whose
  insertion splits a full leaf and hands keys up to the parents.

The form of the model follows the source:

- **Objects whose fields change become classes with `modifies` clauses.** These
  are the allocator (`Allocator.Pool`), the list and its nodes
  (`ListModel.List`, `ListModel.ListNode`), the vector (`VectorModel.Vector`)
  and the two trees (`BTreeModel.BTree`, `BPlusTreeModel.BPlusTree`).
- **Loops become `while` loops with invariants.** Examples are refill's
  chaining loop, the scavenge loop, erase over a range, iterator arithmetic,
  the shift and copy loops of the trees, and the fill loop of `uninit`.
- **Each state-changing method is tied by its `ensures` to a function on
  values,** and the properties are proved about those functions:
  - for the allocator, the functions of `PoolSpec` on a `PoolState`;
  - for the list, `ResizeSpec`;
  - for the vector, `PushBackSpec` and `InsertSpec`;
  - for the trees, the node functions on `BNode` and `BPNode`.

Pointers are natural-number addresses, with 0 standing for null.

- The intrusive `free_list_link` words of the allocator are a map from
  address to address.
- A tree keeps its nodes in a map from address to node record. An address
  is never reused.
- `operator new` is a parameter `sys`: the address it returns.

Undefined behaviour that the source can reach is a value of the model
(`Undefined(...)`, `Failed(...)`, `WriteOutOfBounds`, `ReadBeforeStart`):

- indexing past the bins;
- reading or writing through a null bin head;
- writing past the end of a vector's storage;
- reading before the start of a vector's storage, when insert is given a
  position past finish.

Three cases are preconditions instead: pop_back and pop_front on an empty
list, and erase(end()). Each hands the sentinel embedded in the list object
to deconstruct. "## Left out" lists them.

Where the source has a defect, the class or function takes a `corrected`
flag. The flag selects the step as written or the evidently intended step,
and "## Findings" lists both halves.

## Model

| member | source | states |
|---|---|---|
| SizeClass.RoundUp | my_list/include/memoryPool.h:126-128 | ROUND_UP gives a multiple of ALIGN in [n, n + ALIGN); in size_t it wraps to 0 for the last ALIGN - 1 values |
| SizeClass.FreelistIndex | my_list/include/memoryPool.h:130-132 | for 1..MAX_BYTES bytes the bin is ROUND_UP(bytes) / ALIGN - 1 and below FREELIST_SIZE; 0 bytes underflows to 2^64 - 1 |
| SizeClass.FreelistIndexOfRoundUp | my_list/include/memoryPool.h:107-110 | refill(ROUND_UP(n)) files its blocks in the same bin small_mem_allocate looked up for n |
| SizeClass.SameBinIffSameBlockSize | my_list/include/memoryPool.h:126-132 | two pooled sizes share a bin if and only if they round up to the same block size |
| SizeClass.BlockSizeOfBin | my_list/include/memoryPool.h:126-132 | the block size of a request is (its bin + 1) * ALIGN |
| SizeClass.EarlyBinInBounds | memroyPool/test.cpp:113-115 | in the early copy, with MAX_BYTES / MAX_BYTES bins, a request finds its bin in range if and only if it is at most ALIGN bytes |
| PoolSpec.MulIsProduct | my_list/include/memoryPool.h:290 | the repeated addition used for n * nobj in the model is the product |
| PoolSpec.QuotientIsDivision | my_list/include/memoryPool.h:299 | the repeated subtraction used for bytes_left / n is the quotient |
| PoolSpec.QuotientBounds | my_list/include/memoryPool.h:297-300 | bytes_left / n whole blocks fit into the leftover and one more does not |
| PoolSpec.TakeAsWritten | my_list/include/memoryPool.h:114-115 | as written, the block handed out is never unlinked: it is still the head of its bin afterwards, bins and links untouched, so the next request of that size gets it again |
| PoolSpec.Pop | my_list/include/memoryPool.h:114-115 | the intended pop returns the head and advances the bin to the head's link, keeping the pool well formed |
| PoolSpec.PutAsWritten | my_list/include/memoryPool.h:202-204 | as written, freeing p links p to the head but leaves every bin as it was |
| PoolSpec.Push | my_list/include/memoryPool.h:202-204 | the intended push makes p the head, linked to the old head |
| PoolSpec.Donate | my_list/include/memoryPool.h:306-310 | the leftover step keeps the window and heap_size; as written it changes no bin; with no leftover it does nothing |
| PoolSpec.ChunkAllocSpec | my_list/include/memoryPool.h:286-331 | chunk_alloc hands out between 1 and nobj blocks ending at the new start_free; when a block fits, the chunk starts at the old start_free; it fails only when the donation fails |
| PoolSpec.Grown | my_list/include/memoryPool.h:312-313 | growth makes the bytes_to_get fresh bytes at the address from operator new the window, and adds them to heap_size |
| PoolSpec.ChunkAllocRetries | my_list/include/memoryPool.h:327-329 | after growth at least one block fits, so the recursive chunk_alloc call carves |
| PoolSpec.RequestCoversBlock | my_list/include/memoryPool.h:290-297 | a request of nobj >= 1 blocks is at least one block |
| PoolSpec.CountBelowRequest | my_list/include/memoryPool.h:297-300 | the short branch hands out at least one block and fewer than requested |
| PoolSpec.RefillSpec | my_list/include/memoryPool.h:259-283 | refill keeps the pool well formed and keeps the number of bins |
| PoolSpec.RefillFrom | my_list/include/memoryPool.h:262-281 | installing a carved chunk keeps the pool well formed: every link of a bin leads to a block that has a link |
| PoolSpec.SmallAllocSpec | my_list/include/memoryPool.h:104-118 | small_mem_allocate keeps the pool well formed and the number of bins |
| PoolSpec.AllocateSpec | my_list/include/memoryPool.h:184-192 | allocate keeps the pool well formed and the number of bins |
| PoolSpec.DeallocSpec | my_list/include/memoryPool.h:195-213 | deallocate keeps a well-formed pool well formed and the number of bins |
| PoolSpec.Blocks | my_list/include/memoryPool.h:270-274 | block j of a chunk of n-byte blocks starts at chunk + j * n |
| PoolSpec.BlockAddressesDistinct | my_list/include/memoryPool.h:271 | distinct blocks of a chunk start at distinct addresses |
| PoolSpec.ChainLinkAt | my_list/include/memoryPool.h:270-271 | after k rounds of refill's loop, block m < k links to block m + 1 |
| PoolSpec.RefillLinkAt | my_list/include/memoryPool.h:270-274 | after the whole loop every block links to the next one and the last block links to null |
| PoolSpec.ChainLinksClosed | my_list/include/memoryPool.h:270-274 | during the loop only the last link written can dangle, and no old link word is lost |
| PoolSpec.RefillLinksClosed | my_list/include/memoryPool.h:272-273 | nulling the last block's link closes the chain |
| PoolSpec.RefillWalk | my_list/include/memoryPool.h:270-276 | following links from block j of a refilled chunk visits blocks j..nobj-1 in address order |
| PoolSpec.ScavengeAsWritten | my_list/include/memoryPool.h:314-325 | as written, the scavenge round either leaves a well-formed pool or ends in undefined behaviour |
| PoolSpec.FirstStockedSize | my_list/include/memoryPool.h:316-318 | the size found is between `from` and MAX_BYTES and its bin holds a block |
| PoolSpec.ScavengeSpec | my_list/include/memoryPool.h:314-325 | the intended scavenge keeps the pool well formed |
| Allocator.Pool.State | my_list/include/memoryPool.h:146-155 | the pool state has one bin per slot of the free_list array |
| Allocator.Pool.constructor | my_list/include/memoryPool.h:165-180 | the static state before any allocation: every bin empty, a null window, heap_size 0 |
| Allocator.Pool.Construct | my_list/include/memoryPool.h:58-76 | the constructors make the page from operator new the whole window and set heap_size to the page size |
| Allocator.Pool.Initializer | my_avl_tree/src/memoryPool.cpp:21-31 | initializer does the same once; while memoryPoolPtr is set nothing changes |
| Allocator.Pool.DonateLeftover | my_list/include/memoryPool.h:306-310 | the leftover step changes the fields exactly as Donate says |
| Allocator.Pool.ChunkAlloc | my_list/include/memoryPool.h:286-331 | chunk_alloc changes the fields and returns the chunk exactly as ChunkAllocSpec says |
| Allocator.Pool.Carve | my_list/include/memoryPool.h:290-301 | the two carving branches move start_free and return the chunk as ChunkAllocSpec says |
| Allocator.Pool.Grow | my_list/include/memoryPool.h:312-313 | the growth step changes the window and heap_size exactly as Grown says |
| Allocator.Pool.LinkChunk | my_list/include/memoryPool.h:270-274 | refill's loop leaves exactly the links RefillLinks describes and changes nothing else |
| Allocator.Pool.Refill | my_list/include/memoryPool.h:259-283 | refill changes the fields and returns the block exactly as RefillSpec says |
| Allocator.Pool.InstallChunk | my_list/include/memoryPool.h:262-281 | the tail of refill changes the fields exactly as RefillFrom says |
| Allocator.Pool.SmallMemAllocate | my_list/include/memoryPool.h:104-118 | small_mem_allocate changes the fields and returns the block exactly as SmallAllocSpec says |
| Allocator.Pool.Allocate | my_list/include/memoryPool.h:184-192 | allocate changes the fields and returns the block exactly as AllocateSpec says |
| Allocator.Pool.Deallocate | my_list/include/memoryPool.h:195-213 | deallocate changes the fields exactly as DeallocSpec says |
| Allocator.Pool.Scavenge | my_list/include/memoryPool.h:314-325 | the intended scavenge loop changes the fields exactly as ScavengeSpec says |
| PoolProperties.InitialState | my_list/include/memoryPool.h:165-180 | the static initial state is well formed with every bin empty |
| PoolProperties.ChunkAllocCarves | my_list/include/memoryPool.h:293-301 | when one block fits, the chunk starts at start_free and holds all nobj blocks if and only if they fit, else bytes_left / n blocks, and start_free moves past them |
| PoolProperties.ChunkAllocGrows | my_list/include/memoryPool.h:302-329 | when no block fits and the donation succeeds, the window becomes bytes_to_get fresh bytes, heap_size grows by as much, and the retry carves all nobj blocks |
| PoolProperties.RefillInstallsChain | my_list/include/memoryPool.h:262-281 | refill returns the first block of the chunk and leaves the rest in n's bin in address order, the last with a null link; a one-block chunk changes nothing |
| PoolProperties.FirstRequestGrowsByTwoBatches | my_list/include/memoryPool.h:104-118 | the first small request on a fresh pool returns the first block from operator new and grows heap_size by twice 20 blocks, with the second block at the head of the bin |
| PoolProperties.FirstRequestLinksNext | my_list/include/memoryPool.h:259-283 | after the first small request, the block at the head of the bin links to the next block of the batch |
| PoolProperties.FullPoolStaysInBounds | my_list/include/memoryPool.h:139 | with MAX_BYTES / ALIGN bins, no request of 1..MAX_BYTES bytes indexes past the bins |
| PoolProperties.ZeroByteRequestOutOfBounds | my_list/include/memoryPool.h:130-132 | a zero-byte request underflows FREELIST_INDEX and indexes past the bins |
| PoolProperties.DeallocNullIsNoOp | my_list/include/memoryPool.h:196-197 | deallocate(nullptr, size) leaves the pool as it was |
| PoolProperties.AllocateRoutes | my_list/include/memoryPool.h:184-192 | a request above MAX_BYTES gets operator new's block and leaves the pool alone; one up to MAX_BYTES is the pool's small allocation, which hands out the head of a stocked bin |
| PoolProperties.DeallocLargeLeavesPool | my_list/include/memoryPool.h:195-213 | a size that rounds above MAX_BYTES goes to operator delete and leaves the pool alone; a size among the last seven values of size_t rounds to 0 and indexes past the bins |
| PoolProperties.AsWrittenAllocationRepeats | my_list/include/memoryPool.h:114-115 | as written, two requests from a stocked bin get the same block and the pool does not change |
| PoolProperties.AsWrittenFreeMakesSelfLoop | my_list/include/memoryPool.h:202-204 | as written, freeing the block just allocated makes its link point at itself |
| PoolProperties.AsWrittenFreeIsLost | my_list/include/memoryPool.h:202-204 | as written, a freed block never reaches its bin and the next request of its size does not get it |
| PoolProperties.FreeThenAllocateReuses | my_list/include/memoryPool.h:195-204 | corrected, a freed block is the next one handed out for its size, and the bins are as before |
| PoolProperties.AllocateThenFreeRestores | my_list/include/memoryPool.h:104-118 | corrected, allocating from a stocked bin and freeing the block again restores the pool exactly |
| PoolProperties.AsWrittenThreeRequests | my_list/include/memoryPool.h:104-118 | as written, three 8-byte requests on a fresh pool get sys, sys + 8 and sys + 8 again |
| PoolProperties.CorrectedThreeRequests | my_list/include/memoryPool.h:104-118 | corrected, the same three requests get three adjacent blocks |
| PoolProperties.AsWrittenDonationWritesThroughNull | my_list/include/memoryPool.h:306-309 | as written, a leftover whose bin is empty is written through the null head |
| PoolProperties.AsWrittenDonationMakesCycle | my_list/include/memoryPool.h:306-309 | as written, a leftover whose bin is stocked forms a cycle with the head and never reaches the bin |
| PoolProperties.CorrectedDonationPushes | my_list/include/memoryPool.h:306-310 | corrected, the leftover becomes the head of its bin, linked to the old head, and the other bins keep their heads |
| PoolProperties.FirstStockedSizeIsFirst | my_list/include/memoryPool.h:316-318 | the search finds a stocked bin whenever one of a larger size is stocked, and what it finds is no larger |
| PoolProperties.AsWrittenScavengeReadsNull | my_list/include/memoryPool.h:316-322 | as written, scavenging with n's bin empty reads through the null head |
| PoolProperties.CorrectedScavengeFindsStockedBin | my_list/include/memoryPool.h:316-323 | corrected, scavenging succeeds whenever a bin of block size n + j * ALIGN is stocked, with a window no larger than that block |
| PoolProperties.EarlyPoolOutOfBounds | memroyPool/test.cpp:78-88 | in the early copy every small request above ALIGN bytes indexes past the one bin before anything else happens |
| SharedAdapter.RequestBytes | my_list/include/memoryPool.h:216-257 | the array overload's request sizeof(T) * N is computed in size_t: always a valid size, the true product when that fits, and smaller than the array when it wraps; the single-object overloads ask for sizeof(T) |
| SharedAdapter.MakeShared | my_list/include/memoryPool.h:216-257 | make_shared_with_pool keeps the pool well formed and constructs exactly once, for the overload with arguments and only when the block was obtained |
| SharedAdapter.Release | my_list/include/memoryPool.h:221-255 | the deleter deallocates exactly the bytes that were requested and destroys once, for the overload with arguments |
| SharedAdapter.ConstructionsBalance | my_list/include/memoryPool.h:216-257 | over a lifetime every overload runs as many destructors as constructors |
| SharedAdapter.LifetimeRestoresPool | memoryPool/include/memoryPool.h:152-182 | with the bin steps corrected, a shared object from a stocked bin leaves the pool exactly as before after make and release |
| ListModel.ListNode.Sentinel | my_list/include/my_list.h:25 | the sentinel node is linked to itself both ways |
| ListModel.ListNode.Holding | my_list/include/my_list.h:416-433 | construct and construct_in_palce give a node holding the value, whose links the caller sets |
| ListModel.AsSizeT | my_list/include/my_list.h:216 | converting the int counter to size_t is the identity on non-negative values and adds 2^64 to negative ones |
| ListModel.RingForward | my_list/include/my_list.h:85-91 | iterator + n stays on the ring |
| ListModel.RingBackward | my_list/include/my_list.h:92-98 | iterator - n stays on the ring |
| ListModel.RingForwardNoWrap | my_list/include/my_list.h:85-91 | n steps forward that do not pass end() land n positions further on, or on end() |
| ListModel.RingBackwardNoWrap | my_list/include/my_list.h:92-98 | n steps backward that do not pass the sentinel land n positions back |
| ListModel.IntOfSizeT | my_list/include/my_list.h:85 | a size_t passed to operator+(int) becomes the int with the same low 32 bits: itself below 2^31 |
| ListModel.ErasedByResize | my_list/include/my_list.h:378 | the range [begin(), begin() + n) holds at most every node, and none for an n of 0 or less |
| ListModel.ErasedByResizeInRange | my_list/include/my_list.h:376-378 | while n is at most the number of nodes, the range holds exactly n nodes |
| ListModel.ResizeSpec | my_list/include/my_list.h:375-380 | resize never adds elements; corrected, the counter equals the number of elements afterwards; as written, the walk from begin() takes n narrowed to int |
| ListModel.ResizeKeepsFront | my_list/include/my_list.h:375-380 | the corrected resize keeps the first n elements and the counter follows |
| ListModel.ResizeDropsFront | my_list/include/my_list.h:375-380 | resize as written drops the elements up to where begin() + n, with n narrowed to int, stops and takes two off the counter for each |
| ListModel.ResizeKeepsAll | my_list/include/my_list.h:376 | when n is above the counter, resize changes nothing |
| ListModel.NodeBytes | my_list/include/my_list.h:17-23 | a node occupies its two links and the value, rounded up to the alignment |
| ListModel.ReleasedBytes | my_list/include/my_list.h:438 | as written deconstruct gives back at least the two links' 16 bytes fewer than construct took for the node; corrected, exactly sizeof(list_node) |
| ListModel.List.constructor | my_list/include/my_list.h:198-201 | list() is the sentinel alone with a zero counter |
| ListModel.List.Empty | my_list/include/my_list.h:258 | empty() holds if and only if there are no elements |
| ListModel.List.Size | my_list/include/my_list.h:216 | size() is the counter as size_t; corrected, it is the number of elements |
| ListModel.List.Front | my_list/include/my_list.h:241-244 | front() is the first element of a non-empty list |
| ListModel.List.Back | my_list/include/my_list.h:249-252 | back() is the last element of a non-empty list |
| ListModel.List.LinkBack | my_list/include/my_list.h:281-286 | linking before the sentinel appends the node's value and counts one more |
| ListModel.List.LinkFront | my_list/include/my_list.h:294-299 | linking after the sentinel prepends the node's value and counts one more |
| ListModel.List.PushBack | my_list/include/my_list.h:278-287 | push_back(v) appends v |
| ListModel.List.PushFront | my_list/include/my_list.h:290-300 | push_front(v) prepends v |
| ListModel.List.EmplaceBack | my_list/include/my_list.h:304-313 | emplace_back(args) appends T(args) |
| ListModel.List.EmplaceFront | my_list/include/my_list.h:317-325 | emplace_front(args) prepends T(args) |
| ListModel.List.PopBack | my_list/include/my_list.h:327-334 | pop_back() removes the last element and counts one less |
| ListModel.List.PopFront | my_list/include/my_list.h:337-344 | pop_front() removes the first element and counts one less |
| ListModel.List.Erase | my_list/include/my_list.h:347-355 | erase(pos) removes exactly that node, returns the node after it, and counts one less |
| ListModel.List.CountDown | my_list/include/my_list.h:361 | the extra `_size--` of erase(first, last) changes the counter only |
| ListModel.List.EraseRangeTurn | my_list/include/my_list.h:360-361 | one turn of the loop erases one more node of the range |
| ListModel.List.EraseRange | my_list/include/my_list.h:358-364 | erase(first, last) removes exactly the range and returns last; the counter drops by two per node as written and by one corrected |
| ListModel.List.Clear | my_list/include/my_list.h:366-373 | clear() removes every element and zeroes the counter |
| ListModel.List.Advance | my_list/include/my_list.h:85-91 | iterator + n is the node n steps along next |
| ListModel.List.Retreat | my_list/include/my_list.h:92-98 | iterator - n is the node n steps along prev |
| ListModel.List.Resize | my_list/include/my_list.h:375-380 | resize(n) changes the elements and the counter exactly as ResizeSpec says |
| ListModel.List.KeepFront | my_list/include/my_list.h:376-379 | corrected, erase(begin() + n, end()) changes the elements and the counter exactly as ResizeSpec says, which keeps the first n elements |
| ListModel.List.DropFront | my_list/include/my_list.h:376-379 | as written, erase(begin(), begin() + n) with n narrowed to int changes the elements and the counter exactly as ResizeSpec says |
| ListProperties.ResizeAsWrittenErasesFront | my_list/include/my_list.h:375-379 | as written, resize(n) with n at most the count and below 2^31 erases the first n elements and takes 2n off the counter |
| ListProperties.ResizeNarrowedAwayKeepsAll | my_list/include/my_list.h:85-90 | as written, an n that passes the size check but narrows to an int of 0 or less erases nothing and leaves the counter |
| ListProperties.ResizeNarrowsToInt | my_list/include/my_list.h:375-379 | resize(3) on 10 20 30 40 50 leaves 40 50 with counter -1; then resize(2^31) erases nothing and resize(2^32 + 1) erases 40 |
| ListProperties.ResizeCorrectedKeepsFront | my_list/include/my_list.h:375-379 | corrected, resize(n) keeps the first n elements and the counter becomes n |
| ListProperties.ResizeOneOfThree | my_list/include/my_list.h:375-379 | resize(1) on 10 20 30 leaves 20 30 as written and 10 corrected |
| ListProperties.ResizeCounterUnderflows | my_list/include/my_list.h:358-362 | resize(1) on a one-element list, as written, empties it with the counter at -1, which size() reports as 2^64 - 1 |
| ListProperties.DeconstructUndersizesNode | my_list/include/my_list.h:438 | as written, a node goes back to the bin two size classes below the one it came from |
| ListProperties.DeconstructReturnsNodeBin | my_list/include/my_list.h:419 | corrected, a node goes back to the bin it came from |
| ListProperties.AsWrittenNodesShareBlock | my_list/include/my_list.h:416-424 | a node of a list of int takes 24 bytes; as written, the second and third nodes construct takes from a fresh pool are the same block |
| ListProperties.CorrectedNodesDistinct | my_list/include/my_list.h:416-424 | corrected, the same three nodes get three adjacent 24-byte blocks |
| Uninitialized.Filled | my_vector/include/uninitial.h:7-31 | filling [begin, end) puts the value in exactly those slots |
| Uninitialized.FilledStep | my_vector/include/uninitial.h:12-13 | filling one more slot extends the filled range by one |
| Uninitialized.UninitRange | my_vector/include/uninitial.h:7-25 | both overloads of __uninit fill [begin, end); the non-POD one runs one constructor per slot |
| Uninitialized.Uninit | my_vector/include/uninitial.h:27-31 | uninit(it, n, v) fills the n slots from it |
| Uninitialized.Deconstruct | my_vector/include/uninitial.h:33-51 | deconstruct leaves a POD slot alone and destroys any other value, changing no other slot |
| VectorModel.GrownCapacity | my_vector/include/my_vector.h:122-123 | the new capacity is 10 for an empty vector and twice the old one otherwise |
| VectorModel.AfterGrowth | my_vector/include/my_vector.h:119-142 | after growth the old slots sit at the same offsets and the new ones are raw |
| VectorModel.PushBackSpec | my_vector/include/my_vector.h:173-180 | push_back leaves a slot for v below the new storage end |
| VectorModel.ShiftedAsWritten | my_vector/include/my_vector.h:196-203 | the copy loop as written keeps the storage size |
| VectorModel.Shifted | my_vector/include/my_vector.h:196-203 | the intended copy keeps the storage size |
| VectorModel.CopySpec | my_vector/include/my_vector.h:196-203 | copy completes if and only if pos is at most finish and, as written, any write of slot finish + 1 lies inside the storage; corrected it then moves [pos, finish) up one slot; a write past the end changes nothing; a pos past finish moves every slot up to finish and then reads before the start |
| VectorModel.InsertSpec | my_vector/include/my_vector.h:181-194 | insert never shrinks the storage; it places v at pos and counts one more exactly when copy completes; it reads before the start exactly when pos lies past finish (as written, when slot finish + 1 also exists); otherwise finish stays |
| VectorModel.AllocateAndFill | my_vector/include/my_vector.h:104-117 | allocate_and_fill gives fresh storage of n slots, each holding v |
| VectorModel.Vector.Elements | my_vector/include/my_vector.h:99-101 | the elements are the finish slots from start |
| VectorModel.Vector.Empty | my_vector/include/my_vector.h:33 | the default constructor has no storage and no elements |
| VectorModel.Vector.Init | my_vector/include/my_vector.h:26-35 | m_vector(n, v) holds n copies of v in storage of exactly n slots |
| VectorModel.Vector.Size | my_vector/include/my_vector.h:63 | size() is the element count negated as written, and the element count corrected |
| VectorModel.Vector.Capacity | my_vector/include/my_vector.h:64 | capacity() is the storage length, never below the element count |
| VectorModel.Vector.ExtendCapacity | my_vector/include/my_vector.h:147-171 | extend_capacity() moves to fresh storage laid out as AfterGrowth says, with finish at the old capacity |
| VectorModel.Vector.PushBack | my_vector/include/my_vector.h:173-180 | push_back changes the storage and finish exactly as PushBackSpec says |
| VectorModel.Vector.ExtendCapacityWith | my_vector/include/my_vector.h:119-145 | extend_capacity(v) grows a full vector, then pushes v, as PushBackSpec says |
| VectorModel.Vector.Copy | my_vector/include/my_vector.h:196-203 | the loop changes the storage and returns how it ended exactly as CopySpec says, including a pos past finish; finish goes up by one when it completes |
| VectorModel.Vector.ShiftUp | my_vector/include/my_vector.h:199-201 | the intended loop moves [pos, finish) up one slot, or for a pos past finish moves every slot up to finish and stops at the read before the start, as CopySpec says |
| VectorModel.Vector.ShiftUpAsWritten | my_vector/include/my_vector.h:199-201 | the loop as written stops at a write past the end with the storage untouched, or moves the slots above pos one slot too high, or for a pos past finish reaches the read before the start, as CopySpec says |
| VectorModel.Vector.Insert | my_vector/include/my_vector.h:181-194 | for any pos, insert changes the storage and finish, and returns its result, exactly as InsertSpec says |
| VectorProperties.PushBackAppends | my_vector/include/my_vector.h:173-180 | corrected, push_back appends v; the capacity stays when there was room and grows when the storage was full |
| VectorProperties.AsWrittenPushBackOverwrites | my_vector/include/my_vector.h:175-176 | as written, push_back leaves the count as it was, so a second push_back overwrites the first |
| VectorProperties.FirstPushBackOnEmpty | my_vector/include/my_vector.h:119-145 | the first push_back on an empty vector puts v in slot 0 of 10; only the corrected step counts it |
| VectorProperties.InsertPlacesValue | my_vector/include/my_vector.h:181-194 | corrected, insert puts v before the element at pos, keeps the others in order, returns pos, and grows exactly when full |
| VectorProperties.AsWrittenInsertLosesElement | my_vector/include/my_vector.h:190-200 | as written, inserting 9 at the front of 1 2 3 gives 9 2 2 3; corrected it gives 9 1 2 3 |
| VectorProperties.AsWrittenInsertOverruns | my_vector/include/my_vector.h:190-200 | as written, inserting before an element with exactly one spare slot writes past the storage; corrected it succeeds |
| VectorProperties.AsWrittenInsertPastFinish | my_vector/include/my_vector.h:173-194 | as written, two push_backs on an empty vector leave finish at start, so insert at begin() + 1 reads before the start; corrected the same calls give a, c, b |
| VectorProperties.AsWrittenSizeIsNegative | my_vector/include/my_vector.h:63 | as written, size() of a vector with elements is negative |
| NodeArrays.ShiftInsertAt | my_B+Tree/include/my_B+Tree.h:64-69 | after the shift, the slots below pos are kept, x is at pos, the live slots from pos are one up, and the rest are kept |
| NodeArrays.ShiftInsertMultiset | my_B+Tree/include/my_B+Tree.h:64-70 | the shift adds exactly x to the live keys |
| NodeArrays.ShiftInsertSorted | my_B+Tree/include/my_B+Tree.h:64-70 | x written between its neighbours keeps sorted keys sorted |
| NodeArrays.ShiftInsertMembers | my_B+Tree/include/my_B+Tree.h:277-283 | after the shift, the live children are x and the old ones |
| NodeArrays.ShiftInsertDistinct | my_B+Tree/include/my_B+Tree.h:277-283 | a new child keeps the children free of repeats |
| NodeArrays.UpperBound | my_BTree/include/my_BTree.h:53-66 | the backward scan stops after the last key at most val; every later key is greater |
| NodeArrays.UpperBoundCounts | my_BTree/include/my_BTree.h:57-66 | in sorted keys the scan stops after exactly the keys at most val |
| NodeArrays.LowerBound | my_B+Tree/include/my_B+Tree.h:50-54 | std::lower_bound gives the first position whose key is not below key |
| NodeArrays.LowerBoundCounts | my_B+Tree/include/my_B+Tree.h:50-54 | in sorted keys the lower bound is the number of keys below key |
| NodeArrays.IndexOf | my_B+Tree/include/my_B+Tree.h:271 | the corrected position scan finds the first slot holding the child |
| NodeArrays.ShiftRight | my_B+Tree/include/my_B+Tree.h:64-69 | the backward shift loop writes x at pos over the shifted live slots, as ShiftInsert says |
| NodeArrays.CopyRun | my_B+Tree/include/my_B+Tree.h:167-169 | the copy loop of the splits moves a run of n slots to the front of the new node |
| NodeArrays.MoveRun | my_B+Tree/include/my_B+Tree.h:217-223 | the child loop of split_internal moves a run of children and nulls their old slots |
| BTreeModel.NewNode | my_BTree/include/my_BTree.h:31-38 | a new node has no keys and order - 1 key slots; an internal one has order null children |
| BTreeModel.LeafInserted | my_BTree/include/my_BTree.h:55-62 | the leaf step adds one key and keeps the slots and children |
| BTreeModel.LeafInsertedKeys | my_BTree/include/my_BTree.h:55-62 | the leaf step keeps the keys sorted and adds exactly val |
| BTreeModel.MidIndex | my_BTree/include/my_BTree.h:92-93 | the median slot is a key slot, and the left half is no larger than the right half plus one |
| BTreeModel.SplitHalves | my_BTree/include/my_BTree.h:92-110 | the full node keeps the keys below the median, the sibling takes those above it, and, for an internal node, the children are split between them |
| BTreeModel.AdoptPlaces | my_BTree/include/my_BTree.h:114-126 | the parent gains the median at slot i and the sibling at child slot i + 1, with the later keys and children one slot up |
| BTreeModel.SplitKeepsTree | my_BTree/include/my_BTree.h:87-127 | splitChild keeps the tree invariant: node shapes, key order, the key ranges of subtrees, and every node but the root hanging from the live child slot its place names |
| BTreeModel.SplitKeepsUps | my_BTree/include/my_BTree.h:104-126 | after splitChild every node but the root is the child at its recorded slot of its recorded parent: the moved children under the new sibling, the parent's later children one slot up |
| BTreeModel.HangsFromRoot | my_BTree/include/my_BTree.h:40-45 | every node of the heap reaches the root by parent steps, one level at a time, so the key count ranges over the tree's own nodes only |
| BTreeModel.SplitKeepsKeys | my_BTree/include/my_BTree.h:87-127 | splitChild neither loses nor duplicates a key |
| BTreeModel.SplitChildStep | my_BTree/include/my_BTree.h:87-127 | the split heap and places form a well-formed tree again and every key keeps its count |
| BTreeModel.LeafInsertKeepsKeys | my_BTree/include/my_BTree.h:55-62 | the leaf step adds exactly one occurrence of val to the tree |
| BTreeModel.ChildRange | my_BTree/include/my_BTree.h:65-66 | the child the scan picks has val inside its key range |
| BTreeModel.SplitDescent | my_BTree/include/my_BTree.h:69-74 | after splitting child i, comparing val with the median picks a child whose range holds val |
| BTreeModel.ScanBack | my_BTree/include/my_BTree.h:53-66 | the child-scan loop ends at the upper bound of val among the live keys |
| BTreeModel.InsertSortedKeys | my_BTree/include/my_BTree.h:53-61 | the leaf loop writes val at the upper bound over the shifted keys |
| BTreeModel.ShiftAbove | my_BTree/include/my_BTree.h:53-60 | the shift loop stops one slot before the upper bound of val, having moved every key above val one slot up and kept the others |
| BTreeModel.SplitNode | my_BTree/include/my_BTree.h:89-110 | splitChild's loops on the full node give exactly the two halves |
| BTreeModel.AdoptNode | my_BTree/include/my_BTree.h:114-126 | splitChild's loops on the parent give exactly the adopted parent |
| BTreeModel.BTree.constructor | my_BTree/include/my_BTree.h:144 | BTree() is the empty tree |
| BTreeModel.BTree.SplitChild | my_BTree/include/my_BTree.h:87-127 | splitChild keeps the tree invariant and the count of every key |
| BTreeModel.BTree.InsertNoFill | my_BTree/include/my_BTree.h:52-79 | insertNoFill on a node with room keeps the tree invariant, adds exactly one occurrence of val, and puts it in a leaf |
| BTreeModel.BTree.InsertIntoLeaf | my_BTree/include/my_BTree.h:55-62 | the leaf step changes only that leaf, as LeafInserted says, keeps the tree invariant and adds exactly one occurrence of val |
| BTreeModel.BTree.SplitForDescent | my_BTree/include/my_BTree.h:69-74 | a full child is split and the descent goes on, past the median when val is above it, into a child with room whose range holds val, one level down |
| BTreeModel.BTree.Insert | my_BTree/include/my_BTree.h:155-180 | insert keeps the tree invariant and adds exactly one occurrence of val, in a leaf; an empty tree gets a leaf root, and a full root gets a new root above it |
| BTreeModel.BTree.InsertThroughNewRoot | my_BTree/include/my_BTree.h:163-175 | a full root is hung under a new root and split, val goes into the half whose range holds it, the new root is the tree's root, and exactly one occurrence of val is added |
| BTreeModel.BTree.PlantRoot | my_BTree/include/my_BTree.h:156-160 | the empty-tree step makes a leaf root holding just val |
| BTreeModel.BTree.GrowRoot | my_BTree/include/my_BTree.h:163-167 | the full-root step puts a new keyless root above the old one, changing no count |
| BPlusTreeModel.NewNode | my_B+Tree/include/my_B+Tree.h:31-37 | a new node has no keys, no next and no parent, order - 1 key slots and, for an internal node, order null children |
| BPlusTreeModel.FindInsertPosition | my_B+Tree/include/my_B+Tree.h:50-54 | find_insert_position is the lower bound: every key before it is smaller, and the key at it is not |
| BPlusTreeModel.LeafInserted | my_B+Tree/include/my_B+Tree.h:60-71 | insert_into_leaf adds one key and keeps everything but the keys |
| BPlusTreeModel.LeafInsertedKeys | my_B+Tree/include/my_B+Tree.h:60-71 | insert_into_leaf keeps the keys sorted and adds exactly key |
| BPlusTreeModel.LeafSplitIndex | my_B+Tree/include/my_B+Tree.h:163-164 | both halves of a split leaf keep at least one key |
| BPlusTreeModel.LeafHalves | my_B+Tree/include/my_B+Tree.h:163-178 | the halves hold exactly the full leaf's keys, both stay sorted, every key of the old leaf is at most every key of the new one, and the old leaf points to the new one |
| BPlusTreeModel.ParentInsertedPlaces | my_B+Tree/include/my_B+Tree.h:274-284 | the parent gains key at slot pos and the new child at slot pos + 1, with the later keys and children one slot up |
| BPlusTreeModel.AsWrittenPosition | my_B+Tree/include/my_B+Tree.h:271 | the position insert_into_parent uses is within the live keys |
| BPlusTreeModel.IntendedPosition | my_B+Tree/include/my_B+Tree.h:271 | the intended position, the slot of the split node, is within the live keys |
| BPlusTreeModel.IntendedKeepsSiblingsAdjacent | my_B+Tree/include/my_B+Tree.h:271-283 | at the intended position the split node keeps its slot and the new node comes right after it |
| BPlusTreeModel.AsWrittenAgreesWhenDistinct | my_B+Tree/include/my_B+Tree.h:271 | the lower bound is the intended slot whenever key lies strictly above the key before it |
| BPlusTreeModel.AsWrittenMisplacesSibling | my_B+Tree/include/my_B+Tree.h:271-283 | with a repeated key the new node lands before the node it was split from |
| BPlusTreeModel.InternalSplitIndex | my_B+Tree/include/my_B+Tree.h:210-211 | an internal split keeps at least one key on the left; the left keys, the median and the right keys make up all order - 1 keys |
| BPlusTreeModel.InternalHalves | my_B+Tree/include/my_B+Tree.h:210-227 | the node keeps the keys below the median and their children; the new node takes the keys after the median and the children after them |
| BPlusTreeModel.LeafInsertCounts | my_B+Tree/include/my_B+Tree.h:60-71 | insert_into_leaf adds exactly one occurrence of key to the leaves |
| BPlusTreeModel.LeafSplitCounts | my_B+Tree/include/my_B+Tree.h:163-178 | splitting a leaf into a fresh node keeps every count |
| BPlusTreeModel.PlantKeepsTree | my_B+Tree/include/my_B+Tree.h:100-102 | one empty leaf is a well-formed tree and a leaf chain of itself |
| BPlusTreeModel.ChainKeysSorted | my_B+Tree/include/my_B+Tree.h:163-185 | sorted leaves whose key ranges follow one another along the chain give a sorted walk of the chain |
| BPlusTreeModel.ChainSortedOfRanges | my_B+Tree/include/my_B+Tree.h:98-118 | a well-formed tree whose nodes keep their key ranges, with ordered leaf ranges, reads its keys in sorted order along the leaf chain |
| BPlusTreeModel.LeafInsertRanges | my_B+Tree/include/my_B+Tree.h:60-71 | inserting a key of the leaf's range keeps every node within its range |
| BPlusTreeModel.LeafSplitRanges | my_B+Tree/include/my_B+Tree.h:163-185 | after a leaf split with key inserted, cutting the leaf's range at the new leaf's first key keeps every node within its range, with the new leaf pending in the parent |
| BPlusTreeModel.LeafSplitChainOrdered | my_B+Tree/include/my_B+Tree.h:175-177 | cutting a leaf's range and hanging the new leaf right after it in the chain keeps the leaves' ranges in chain order |
| BPlusTreeModel.LeafSplitRangesStep | my_B+Tree/include/my_B+Tree.h:158-188 | the leaf split keeps the ranges and the chain order, and the new leaf's range starts at the key split_leaf promotes |
| BPlusTreeModel.InternalSplitNodeRanges | my_B+Tree/include/my_B+Tree.h:205-230 | splitting a full internal node and cutting its range at the median keeps every node within its range, with the new node pending in the parent |
| BPlusTreeModel.InternalSplitRanges | my_B+Tree/include/my_B+Tree.h:205-233 | the same holds after the moved children point up to the new node |
| BPlusTreeModel.InternalSplitRangesStep | my_B+Tree/include/my_B+Tree.h:205-233 | the internal split keeps every leaf's range, and the new node's range starts at the key split_internal promotes |
| BPlusTreeModel.ParentHangRanges | my_B+Tree/include/my_B+Tree.h:271-284 | hanging the pending node right after the node it was split from, with its first key as separator, makes every node fit its slot's range again |
| BPlusTreeModel.NewRootRanges | my_B+Tree/include/my_B+Tree.h:250-260 | a new root over the split root and the pending node spans all keys and gives both their ranges |
| BPlusTreeModel.NewRootRangesStep | my_B+Tree/include/my_B+Tree.h:250-260 | the same, in the state create_new_root leaves, with every leaf's range kept |
| BPlusTreeModel.ChainOrderedKept | my_B+Tree/include/my_B+Tree.h:205-261 | keeping every leaf's range keeps the chain ordered |
| BPlusTreeModel.BPlusTree.constructor | my_B+Tree/include/my_B+Tree.h:85-88 | BPlusTree() has no root and no first leaf and holds no key; the order is at least 3 |
| BPlusTreeModel.BPlusTree.Insert | my_B+Tree/include/my_B+Tree.h:98-118 | insert keeps the tree and the leaf chain well formed and adds exactly one occurrence of key to the leaves; with the corrected parent position the walk along the leaf chain reads the keys in sorted order |
| BPlusTreeModel.BPlusTree.PlantLeaf | my_B+Tree/include/my_B+Tree.h:100-102 | the empty-tree step makes one empty leaf both the root and the first leaf |
| BPlusTreeModel.BPlusTree.FindLeaf | my_B+Tree/include/my_B+Tree.h:141-151 | find_leaf ends at a leaf of the chain; with the corrected parent position that leaf's key range holds the key |
| BPlusTreeModel.BPlusTree.LeafInsertHere | my_B+Tree/include/my_B+Tree.h:110-113 | a leaf with room takes key as insert_into_leaf says, and the tree, the chain and, corrected, the key ranges stay well formed, with key counted once more |
| BPlusTreeModel.BPlusTree.InsertIntoLeaf | my_B+Tree/include/my_B+Tree.h:60-71 | insert_into_leaf changes only that node, as LeafInserted says |
| BPlusTreeModel.BPlusTree.SplitLeaf | my_B+Tree/include/my_B+Tree.h:158-197 | split_leaf keeps the tree and the chain well formed and adds exactly one occurrence of key; corrected, every node keeps a key range its slot gives it and the leaves' ranges follow the chain |
| BPlusTreeModel.BPlusTree.SplitLeafDetach | my_B+Tree/include/my_B+Tree.h:158-185 | the leaf is split and key inserted, with the new leaf not yet hung in the parent; corrected, the old leaf's range is cut at the new leaf's first key and the chain stays ordered |
| BPlusTreeModel.BPlusTree.CutAtLeafSplit | my_B+Tree/include/my_B+Tree.h:163-185 | the range of the old leaf is cut at the new leaf's first key, which the new leaf's range starts at |
| BPlusTreeModel.BPlusTree.SplitLeafInsert | my_B+Tree/include/my_B+Tree.h:160-185 | the new leaf is the next fresh address, the old leaf points to it, the heap is exactly the leaf-split-and-insert heap, the chain gains the new leaf right after the old one, and key is counted once more |
| BPlusTreeModel.BPlusTree.SplitLeafWrites | my_B+Tree/include/my_B+Tree.h:160-185 | the node writes of split_leaf put key into the half it belongs to |
| BPlusTreeModel.BPlusTree.SplitOffLeaf | my_B+Tree/include/my_B+Tree.h:160-178 | the new leaf at a fresh address takes the upper keys, the successor and the parent, and the old leaf keeps the rest and points to it |
| BPlusTreeModel.BPlusTree.SplitInternal | my_B+Tree/include/my_B+Tree.h:205-242 | split_internal makes a full node a well-formed part of the tree again and keeps every leaf; corrected, it keeps every node within its key range and every leaf's range |
| BPlusTreeModel.BPlusTree.SplitInternalNode | my_B+Tree/include/my_B+Tree.h:205-233 | the new node is the next fresh address at the old node's height and parent, the halves are exactly the split heap with the moved children re-pointed, and every leaf is kept |
| BPlusTreeModel.BPlusTree.CutAtMedian | my_B+Tree/include/my_B+Tree.h:210-230 | the range of the split node is cut at the median, which the new node's range starts at, and every leaf keeps its range |
| BPlusTreeModel.BPlusTree.SplitOffInternal | my_B+Tree/include/my_B+Tree.h:207-227 | the new node takes the upper keys and children, and every moved child points up to it |
| BPlusTreeModel.BPlusTree.SplitOffHalves | my_B+Tree/include/my_B+Tree.h:207-227 | the node writes of split_internal before the re-pointing, with the moved children returned |
| BPlusTreeModel.BPlusTree.Repoint | my_B+Tree/include/my_B+Tree.h:217-221 | every non-null moved child gets the new node as its parent |
| BPlusTreeModel.BPlusTree.HandUp | my_B+Tree/include/my_B+Tree.h:188-196 | the promoted key goes into the parent, or, when the split node had no parent, into a new root over the two nodes; the tree is well formed with every leaf kept and, corrected, every node within its key range |
| BPlusTreeModel.BPlusTree.CreateNewRoot | my_B+Tree/include/my_B+Tree.h:250-261 | create_new_root puts a root with the one key over the two nodes, one level higher; corrected, the new root spans all keys and every other range is kept |
| BPlusTreeModel.BPlusTree.HangRoot | my_B+Tree/include/my_B+Tree.h:251-258 | the node writes of create_new_root, with both nodes pointing up to the new root |
| BPlusTreeModel.BPlusTree.InsertIntoParent | my_B+Tree/include/my_B+Tree.h:269-293 | insert_into_parent hangs the new node into the parent and splits the parent when it fills, keeping the tree well formed and every leaf; corrected, every node stays within its key range |
| BPlusTreeModel.BPlusTree.HangChild | my_B+Tree/include/my_B+Tree.h:271-287 | as written the position is the lower bound of key; corrected the new node lands right after the node it was split from, which held that slot before |
| BPlusTreeModel.BPlusTree.PutChild | my_B+Tree/include/my_B+Tree.h:274-287 | the shift loops put key at slot pos and the new child at slot pos + 1, with the later keys and children one slot up |

## Left out

- Locks (`LOCK`/`UNLOCK`, `pthread_mutex_t`): the model is sequential.
- `get_page_size`: it is a parameter of the constructors. `operator new` is a
  parameter of the steps that call it, and `operator delete` is not modelled.
  This covers big_mem_allocate, the allocator destructor and the large-block
  branch of deallocate.
- The alloc-failure handler `alloc_false_func` is left out: it is never called.
- Allocator.Pool.ChunkAlloc: the model tests "at least one block fits" before
  "the whole request fits". This gives the same result, because the whole
  request is at least one block.
- PoolSpec: `n * nobj` and `bytes_left / n` are stated through the recursive
  `Mul` and `Quotient`, which MulIsProduct and QuotientIsDivision prove equal
  to `*` and `/`.
- PoolSpec.ChunkAllocSpec: the model assumes `operator new` succeeds. The
  scavenge branch is modelled only apart from it, as ScavengeAsWritten and
  ScavengeSpec, because `operator new` throws rather than return null.
- size_t overflow of `n * nobj`, `bytes_to_get` and the address arithmetic is
  not modelled. Addresses are unbounded.
- list(n, value) and allocate_and_fill_value are left out. They link the new
  nodes to a by-value copy of the sentinel, and the model has no stack objects.
- The list copy and move constructors and assignments are declared without a
  body, so there is nothing to model. The reverse iterators only walk the
  ring, and they are left out.
- ListModel.ListNode.Holding: the node is a fresh Dafny object, as the
  corrected pool hands out blocks. The pool as written can hand out a block
  that is still in use (PoolProperties.AsWrittenAllocationRepeats,
  ListProperties.AsWrittenNodesShareBlock), so two live nodes can share
  storage. That aliasing is not modelled.
- ListModel.List.PushBack and ListModel.List.PushFront take their node from
  ListNode.Holding, so their fresh node holds only with the corrected pool.
- VectorModel.AllocateAndFill: the storage is a fresh array, for the same
  reason; as written two buffers can share a block.
- VectorModel.Vector.ExtendCapacity: the new storage is a fresh array, for
  the same reason. The old storage is not passed to deallocate, since the
  pool's state is not part of the vector model.
- ListModel.List.PopBack and ListModel.List.PopFront require a non-empty
  list. On an empty list the source unlinks the sentinel from itself,
  takes the counter to -1 and hands the sentinel, which lives inside the
  list object and never came from the pool, to deconstruct. The model has no
  object for a freed sentinel.
- ListModel.List.Erase requires a position other than end(), for the same
  reason: erase(end()) unlinks the sentinel and hands it to deconstruct.
- The list destructor is left out. It clears the list and then hands the
  embedded sentinel, which the pool never gave out, to deconstruct.
- ListModel.List.Erase reads the iterator's node as `now_node`. The source
  spells it `new_node`, a member the iterator does not have, so that template
  would not compile once instantiated.
- ListModel.List.Size: the int counter is read as size_t modulo 2^64. The
  int itself is unbounded, so its 32-bit overflow is not modelled.
- The m_vector destructor, `operator[]`, `begin()`/`end()` and both
  `operator=` are left out. The destructor and `end()` run to end_of_storage
  rather than finish. Both `operator=` take a `value_type` rather than a
  vector.
- Uninitialized.UninitRange and Uninitialized.Deconstruct count constructor
  and destructor calls. The side effects of the value type's own constructors
  and destructors are not modelled.
- The exception path of allocate_and_fill is left out: the model has no
  exceptions.
- The tree destructors and the `print` functions of both trees are left out:
  they only tear down or write output.
- BPlusTreeModel.BPlusTree.SplitInternal: the unused `new_child` and `key`
  parameters of split_internal are left out.
- BPlusTreeModel.BPlusTree.InsertIntoParent: it takes the split node `left`
  as an extra argument. The corrected position needs it, and the source knows
  it as the node it just split.
- BPlusTreeModel.BPlusTree.Insert: the sorted leaf chain is proved only with
  the corrected parent position. As written, AsWrittenMisplacesSibling shows a
  parent whose children break the order once keys repeat, so no such promise
  holds there; the as-written mode keeps the shape, the chain and the counts.
- BPlusTreeModel.BPlusTree.FindLeaf: the leaf's key range holds the key only
  with the corrected parent position, for the same reason.
- Tree nodes live at distinct addresses in a map, and addresses are never
  reused. Aliasing between nodes is therefore not modelled.
- SharedAdapter.MakeShared: the shared pointer's reference count and its
  control block, which the standard library allocates outside the pool, are
  not modelled.

## Findings

| source | as written | input that shows it | evidently intended | confidence | as-written member | corrected member |
|---|---|---|---|---|---|---|
| my_list/include/memoryPool.h:114-115 | small_mem_allocate advances a local copy of the bin head, so the bin keeps its head | three 8-byte requests on a fresh pool return sys, sys + 8, sys + 8 | the bin advances to the head's link | high; not executed | PoolProperties.AsWrittenThreeRequests | PoolProperties.CorrectedThreeRequests |
| my_list/include/memoryPool.h:114-115 | the same local copy makes every request from a stocked bin return the same block | two requests of the same size from a stocked bin | successive requests get successive blocks | high; not executed | PoolProperties.AsWrittenAllocationRepeats | PoolProperties.AllocateThenFreeRestores |
| my_list/include/memoryPool.h:202-204 | deallocate links p to the head but stores p into a local copy, so the bin never gets p | free p of 8 bytes while the 8-byte bin holds another block; the next request does not get p | p becomes the head of its bin | high; not executed | PoolProperties.AsWrittenFreeIsLost | PoolProperties.FreeThenAllocateReuses |
| my_list/include/memoryPool.h:306-309 | the donation writes through the bin head instead of making the leftover the head | a leftover of 8 bytes whose bin is empty: the write goes through null | the leftover is pushed onto its bin | high; not executed | PoolProperties.AsWrittenDonationWritesThroughNull | PoolProperties.CorrectedDonationPushes |
| my_list/include/memoryPool.h:306-309 | the same write, on a stocked bin, makes the head and the leftover link to each other | a leftover of 8 bytes whose bin holds one block | the leftover is pushed onto its bin | high; not executed | PoolProperties.AsWrittenDonationMakesCycle | PoolProperties.CorrectedDonationPushes |
| my_list/include/memoryPool.h:316-322 | scavenge looks at n's bin every round and tests the slot's address, which is never null, so it reads through a null head | operator new returns null while n's bin is empty and a larger bin is stocked | look at the bin of size i each round and take the first stocked one | medium (needs operator new to return null); not executed | PoolProperties.AsWrittenScavengeReadsNull | PoolProperties.CorrectedScavengeFindsStockedBin |
| memroyPool/test.cpp:115 | the early copy divides MAX_BYTES by MAX_BYTES, leaving one bin | any request of 9 to 4096 bytes | MAX_BYTES / ALIGN bins | high; not executed | PoolProperties.EarlyPoolOutOfBounds | PoolProperties.FullPoolStaysInBounds |
| my_list/include/my_list.h:378 | resize(n) erases [begin(), begin() + n), the first n elements | resize(1) on 10 20 30 leaves 20 30 | erase [begin() + n, end()), keeping the first n | high; not executed | ListProperties.ResizeAsWrittenErasesFront | ListProperties.ResizeCorrectedKeepsFront |
| my_list/include/my_list.h:360-361 | erase(first, last) decrements the counter again after erase(pos) already did | resize(1) on a one-element list leaves the counter at -1, and size() reports 2^64 - 1 | one decrement per erased node | high; not executed | ListProperties.ResizeCounterUnderflows | ListModel.List.EraseRange |
| my_list/include/my_list.h:438 | deconstruct gives back sizeof(value_type) bytes for a node of sizeof(list_node) bytes | any list of int: the node's block goes two bins down | give back sizeof(list_node) | high; not executed | ListProperties.DeconstructUndersizesNode | ListProperties.DeconstructReturnsNodeBin |
| my_vector/include/my_vector.h:63 | size() is start - finish | any vector with elements | finish - start | high; not executed | VectorProperties.AsWrittenSizeIsNegative | VectorModel.Vector.Size |
| my_vector/include/my_vector.h:175-176 | push_back with room constructs at finish but never advances finish | two push_backs with room: the second overwrites the first | advance finish after constructing | high; not executed | VectorProperties.AsWrittenPushBackOverwrites | VectorProperties.PushBackAppends |
| my_vector/include/my_vector.h:199-200 | copy moves slots finish..pos+1 to finish+1..pos+2, one slot too high, so the element at pos is lost | inserting 9 at the front of 1 2 3 with two spare slots gives 9 2 2 3 | move slots [pos, finish) up by one | high; not executed | VectorProperties.AsWrittenInsertLosesElement | VectorProperties.InsertPlacesValue |
| my_vector/include/my_vector.h:199-200 | the same loop writes slot finish + 1 | inserting before an element with exactly one spare slot writes past the storage | write at most slot finish | high; not executed | VectorProperties.AsWrittenInsertOverruns | VectorProperties.InsertPlacesValue |
| my_B+Tree/include/my_B+Tree.h:271 | insert_into_parent places the new node after the lower bound of its key, which with repeated keys is not the slot of the node it was split from | parent with key 5 over children 11 and 12; node 12 splits and promotes 5, giving children 11 13 12 | the new node goes right after the node it was split from | medium (repeated keys only); not executed | BPlusTreeModel.AsWrittenMisplacesSibling | BPlusTreeModel.IntendedKeepsSiblingsAdjacent |
