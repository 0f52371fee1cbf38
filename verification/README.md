# Verified models of the shared-memory containers and algorithms

This project models, in Dafny, the parts of the repository that other code has to trust, and proves that they do
what their comments and callers take them to do:

* the shared-memory allocator (`mem_layout.dfy`, `mem_steps.dfy`, `mem_facts.dfy`, `mem_arena.dfy`, `mem_create.dfy`,
  `mem_client.dfy`, `mem_stats.dfy`): a class over an array of 8-byte words, with the size tags, the links in the free
  payloads and the bucket heads where the source keeps them, and a ghost sequence of chunks;
* the bounded task queue on three semaphores (`task_queue.dfy`): a transition system over any number of callers, one
  step per semaphore operation, node access and pointer move, which refines an atomic FIFO queue;
* the chained hash set and its iterator (`hash_set.dfy`, `hash_set_iter.dfy`): linked entries, rehashed in place;
* the hash map with arrays of entries (`hash_map.dfy`), rehashed in place;
* the binary heap (`binary_heap.dfy`), whose key index is an object of the hash map (`heap_index.dfy`);
* SHA-1 (`sha1.dfy` is FIPS 180-4, sections 3.2 to 6.1.2, and `sha1_example.dfy` its value for one message;
  `sha1_transform.dfy` and `sha1_context.dfy` are the code);
* helpers (`sequences.dfy`, `hashing.dfy`, `arithmetic.dfy`);
* primes and the integer square root (`numeric.dfy`).

Code that updates state is a class or a method over an array, proved against functions of its contents. An address is
a word index into the segment (0 is NULL), `chunks` is the tiling of the arena, and `Kept(m, m', cs, but)` says that
no word of a used chunk changed, other than in those that start in `but`. Where the source exits the process on a
misuse, the method returns `false` and changes nothing.

Places where the code does less than its comments or callers expect, each with the exact condition under which it
does what they expect:

* `nt_mem_create` accepts a segment from 128 bytes on. For the aligned addresses at which segments are attached there
  is room for a chunk if and only if the segment has `MemCreate.SmallestSize(h)` bytes, which depends on the two strings
  and is always more than 128 (`MemCreate.RoomBySize`; `MemCreate.RoomExactly` is the condition for any address). Below
  it no tiling of the arena exists at all (`MemCreate.TooSmallSegments`). `MemCreate.Create` says which of the three
  outcomes a size leads to.
* `nt_hashmap_get` returns 0 for an absent key, and the heap tests its result against FAIL
  (`BinaryHeap.BuiltLookupRefusesInserts`: the two lookups lead to the same decision exactly for keys that are present).
  So, as compiled, an insert into a heap with the direct option always exits, and the other direct operations go on
  to an array that was never allocated. `BinaryHeap.Heap` has a constant that says which lookup is compiled in, that of
  nt_hashmap.c:129-152 or the one kept out of the build at nt_hashmap.c:104-126, and its contracts say how each direct
  operation ends with either.
* The test in `SHA1Update` for a full buffer is a 32-bit sum. It is right if and only if the sum does not wrap around
  (`Sha1Context.FillsBufferExactly`), `Sha1Context.FillsBufferMisses` gives lengths for which it does, and the copy that
  follows stays within the buffer under exactly the same condition (`Sha1Context.PieceFitsExactly`). `Update` takes
  data of any 32-bit length and says exactly when it works.
* When the very first allocation of the slots of a hash set fails, the number of slots is set all the same
  (`HashSet.Stranded`). `HashSet.Insert` and the constructor say that this is the one failure a set does not survive.

## Model

| member | source | states |
|---|---|---|
| MemLayout.ProperAllocSize | nt_mem.c:135-141 | the rounded size is the least multiple of 8 that is at least the request and at least 24 |
| MemLayout.BucketIsExact | nt_mem.c:143-150 | chunk sizes under 256 bytes have a bucket each, the larger ones share the last of the thirty, and buckets are ordered by size |
| MemLayout.SumsCoverTheArena | nt_mem.c:757 | used words, free words and two tag words per chunk add up to the arena |
| MemSteps.UnlinkStep | nt_mem.c:209-226 | relinking the neighbours of any chunk on any list takes just that chunk out of its list, the others staying in order, and keeps all tags and all used payloads |
| MemSteps.LinkStep | nt_mem.c:194-207 | pushing a chunk onto the list of its size keeps all lists well formed, all other tags, and all used payloads |
| MemArena.Arena.SetChunkSize | nt_mem.c:152-156 | writes exactly the two tags of the chunk, as free, and touches no other chunk |
| MemArena.Arena.SetUsedChunkSize | nt_mem.c:158-162 | writes exactly the two tags of the chunk, with the used flag, and touches no other chunk |
| MemArena.Arena.LinkChunk | nt_mem.c:194-207 | the chunk becomes the first on the list of its size; all other lists, chunks and payloads are as before |
| MemArena.Arena.UnlinkChunk | nt_mem.c:209-226 | the chunk is on no list; every other list and the order of its own are as before, and so is every other chunk and payload |
| MemArena.Arena.constructor | nt_mem.c:593-607 | a fresh arena is valid: one free chunk from bound to bound |
| MemArena.Arena.Clear | nt_mem.c:703-721 | whatever was allocated, the arena is one free chunk again |
| MemArena.Arena.FindFit | nt_mem.c:238-276 | finds nothing only if nothing fits; if a chunk under 256 bytes fits, a smallest one that fits; the first that fits on its list |
| MemArena.Arena.SettleChunk | nt_mem.c:284-308 | a chunk is used whole if the rest could not hold a chunk, and else cut in two, the rest first on its list, with the totals to match |
| MemArena.Arena.Malloc | nt_mem.c:230-311 | NULL exactly when no free chunk is as large as the rounded request, and then nothing changed; if a chunk under 256 bytes fits, a smallest one that fits, and the first that fits on its list; the exact chunks and the exact order of every list afterwards; no used payload changes; tiling, coalescing and totals are kept |
| MemArena.Arena.FuseFree | nt_mem.c:462-516 | the three merging branches compute one free chunk for the chunk and exactly its free neighbours |
| MemArena.Arena.Free | nt_mem.c:449-516 | the chunks are those before with the freed one and its free neighbours merged; the merged chunk is first on its list, its parts are on none, and all else is in order; no other used payload changes; validity is kept |
| MemArena.Arena.ShrinkMerge | nt_mem.c:334-350 | the given-back words join the free next chunk; the kept payload words are as before |
| MemArena.Arena.ShrinkSplit | nt_mem.c:351-365 | the given-back words become a free chunk; the kept payload words are as before |
| MemArena.Arena.Shrink | nt_mem.c:327-368 | above a quarter of the chunk nothing changes; below, the chunk is cut and the rest joined with the free next chunk |
| MemArena.Arena.Grow | nt_mem.c:370-403 | the chunk takes in the free next chunk, and gives back the rest if it can be a chunk; its payload is as before |
| MemArena.Arena.Move | nt_mem.c:404-411 | NULL exactly when nothing fits; else the chunk that an allocation takes replaces the old one, with its payload: chunks and lists are those of the allocation followed by the free |
| MemArena.Arena.ViaCopy | nt_mem.c:412-446 | when the predicted merged size covers the request, the allocation after the free succeeds (the abort at nt_mem.c:437-438 is unreachable), with the payload intact; chunks and lists are those of the free followed by an allocation of the request |
| MemArena.Arena.Elsewhere | nt_mem.c:404-446 | a request that does not fit in place moves, if any free chunk fits, and only otherwise is its chunk freed first; NULL, with nothing changed, exactly when neither serves it |
| MemArena.Arena.Realloc | nt_mem.c:313-447 | NULL exactly when the request fits neither in place, nor elsewhere, nor in what freeing would merge, and then nothing changed; else at least the rounded size, the first min(old, new) words kept, no other payload changed; on every path the exact address, chunks and lists: one above a quarter of the chunk changes nothing, one that fits in place keeps its address, any other is moved or, last, freed first |
| MemFacts.FreedCoalesced | nt_mem.c:462-516 | freeing leaves no two free neighbours |
| MemFacts.RecarveShape | nt_mem.c:327-403 | resizing in place, with or without a free next chunk, leaves no two free neighbours and the exact totals |
| MemFacts.FitsInPlaceExactly | nt_mem.c:327-370 | a request fits in place if and only if the chunk holds it, or the chunk and a free next one with the 16 bytes of tags between |
| MemFacts.UnservableExactly | nt_mem.c:404-428 | a request cannot be met if and only if no free chunk fits and the chunk with its free neighbours and the tags between is too small |
| MemFacts.BestFit | nt_mem.c:238-276 | what the search knows when it stops: nothing fits, or the chunk to take is found |
| MemFacts.ChosenIsUnique | nt_mem.c:238-276 | whatever is free and however it is filed, there is at most one chunk to take for a request |
| MemCreate.Align8 | nt_mem.c:121-124 | the least multiple of 8 from the address on, within 7 bytes |
| MemCreate.HeaderParts | nt_mem.c:567-594 | the header, thirty pointers of 8 bytes, both strings and the low bound follow each other without overlap, with no more room between than alignment takes |
| MemCreate.LayoutIsInside | nt_mem.c:567-598 | both bounds are 8-aligned, the low one behind the header and both strings and less than 8 bytes behind, the high one 1 to 8 bytes before the end of the segment, at any base address |
| MemCreate.RoomExactly | nt_mem.c:567-598 | at any address, there is room for a chunk if and only if the segment ends at least 41 bytes past the low bound |
| MemCreate.RoomBySize | nt_mem.c:542-598 | at an aligned address, there is room if and only if the size is the smallest size for the header, which is the sizes of its parts and 41 bytes, up to alignment, and above the minimum checked |
| MemCreate.TooSmallSegments | nt_mem.c:542-607 | at every smaller size no tiling by chunks exists between the bounds |
| MemCreate.LayOut | nt_mem.c:567-607 | at any address, the computed layout gives a valid arena behind the header and strings, with one free chunk of total_size bytes |
| MemCreate.Create | nt_mem.c:542-607 | a size is rejected exactly when it is out of the checked bounds, and an accepted one gives a valid arena exactly when it is the smallest size or more |
| MemCreate.DemandBound | nt_mem.c:788-789 | n requests need at most their sum, 23 bytes of rounding each, and 16 bytes of tags between |
| MemCreate.LargestDemand | nt_mem.c:788-789 | requests of one byte each need all of that bound |
| MemCreate.RequiredPerChunk | nt_mem.c:778-788 | the required size is that for one chunk and 39 bytes for each further one |
| MemCreate.CapacityBound | nt_mem.c:765-793 | a segment of the requests' sum plus the required size leaves enough for that, at any base alignment and with any strings, and at most 27 bytes more than the largest demand |
| MemCreate.ServeAll | nt_mem.c:771-773 | such a segment serves all the requests, one after another, in distinct chunks that are large enough |
| MemClient.Step | nt_mem.c:230-516 | one allocator command, seen by a program, does what it does to separate blocks: contents kept, none shared, none lost; it fails exactly when no free chunk fits or no way of resizing exists, and chunks, lists and addresses move exactly as the command says |
| MemClient.TurnIsSettled | nt_mem.c:230-516 | whether a command succeeds, and every chunk, list and address after it, are settled by those before it |
| MemClient.Run | nt_mem.c:230-516 | any sequence of commands on a fresh arena cannot be told from separate blocks, but for allocations that find no room, which are exactly those the state of the arena at that point does not allow; every used chunk is some live block's |
| MemClient.RunIsSettled | nt_mem.c:230-516 | any two runs of the same commands agree in every result, chunk, list and address |
| MemClient.NothingLeft | nt_mem.c:449-516 | once no block is live, the arena is the one free chunk it was at first |
| MemStats.WellFormed | nt_mem.c:26-95 | in a valid arena equal left and right tags tile the bounds, sizes are multiples of 8 from 24 on, and of two neighbours one is used |
| MemStats.FiledOnce | nt_mem.c:194-226 | a free chunk is on exactly one list, that of its size, once, with links to its neighbours there |
| MemStats.ChunksFromTotals | nt_mem.c:757 | used_size + free_size + 16 * (chunks - 1) = total_size |
| MemStats.Stats | nt_mem.c:732-760 | the reported numbers of chunks and of free chunks are right, though one comes from the totals and the other from the lists; each bucket's count is the length of its list; the sizes reported are those of a smallest and a largest free chunk |
| TaskQueue.LinkRing | nt_cycle.c:68-71 | the loop closes the nodes into a ring |
| TaskQueue.MutualExclusion | nt_cycle.c:127-171 | at most one caller is between its two operations on the mutex |
| TaskQueue.WriteIsSafe | nt_cycle.c:133-136 | a push about to write owns a node that no pop has still to read |
| TaskQueue.ReadIsSafe | nt_cycle.c:156-159 | a pop about to read finds the oldest unread task |
| TaskQueue.NextInv | nt_cycle.c:127-171 | every step of every caller keeps the invariant |
| TaskQueue.RunInv | nt_cycle.c:45-73 | every state of every interleaving from the created state satisfies it |
| TaskQueue.StepRefinesFifo | nt_cycle.c:127-171 | each step is a step of an atomic bounded FIFO queue with the same calls and returns: a push takes effect, with the task it was called with, when it moves tail; a pop takes effect when it moves head, and what it returns is the oldest task then; no other step changes the queue |
| TaskQueue.RunRefinesFifo | nt_cycle.c:127-171 | so any interleaving of any calls is, seen from outside, a run of the atomic queue |
| TaskQueue.CallsTakeEffectOnce | nt_cycle.c:127-171 | in any run, every push that returns has put the task it was called with at the end exactly once since its call, and every pop returns the task it took from the front exactly once since its call |
| TaskQueue.RunIsFifo | nt_cycle.c:127-171 | what was popped is a prefix of what was pushed, at most max_length tasks are in between, and the ring holds them |
| TaskQueue.TokensConserved | nt_cycle.c:127-171 | slots, items and the calls in flight always add up to max_length |
| TaskQueue.StuckExactly | nt_cycle.c:127-171 | the calls in progress are stuck if and only if all are pushes on a full queue or all are pops on an empty one |
| TaskQueue.NeverStuckTogether | nt_cycle.c:127-171 | with a push and a pop in progress, some call can go on |
| Hashset.LinkedMove | hashset.c:162-167 | taking an entry out of one chain and putting it first in another relinks exactly those two chains |
| Hashset.HashSet.MoveEntry | hashset.c:158-168 | the same for the code's pointer writes, through prev_next, with the scan going on at the entry after it |
| Hashset.HashSet.ScanChain | hashset.c:155-174 | every entry of one chain stays or moves to the front of hash % inc_slots, in turn, though chains scanned, unscanned and new receive entries meanwhile |
| Hashset.HashSet.Rehash | hashset.c:144-180 | the growth ends with exactly the same entries, each in slot hash % inc_slots, and in the order the scan of the chains gives |
| Hashset.GrowthMakesRoom | hashset.c:138-144 | growth is strict, and leaves the load below the critical one after one more entry |
| Hashset.HashSet.FindIn | hashset.c:128-134 | the search stops at the first entry of the chain with this hash and an equal datum |
| Hashset.HashSet.Search | hashset.c:196-219 | NULL exactly when no equal datum is in the set, for any hash consistent with the comparison |
| Hashset.HashSet.constructor | hashset.c:48-74 | a new set is empty, with as many slots as the least prime from the size on, or none; it is valid unless the slots could not be allocated |
| Hashset.HashSet.InitSlots | hashset.c:24-44 | as many empty slots as the least prime from the size on, or none; a failed allocation leaves the number without the slots |
| Hashset.HashSet.InsertNew | hashset.c:136-191 | grows exactly when the load would be critical; one new entry; unchanged contents when an allocation fails |
| Hashset.HashSet.Insert | hashset.c:114-194 | the set gains exactly the datum's class, as an entry in front of its chain; the entry there already is found; it grows exactly when a new entry makes the load critical; on NULL the contents are as before; num_data is the cardinality and num_data < floor(4 * num_slots / 5), but for a failed first allocation of the slots |
| Hashset.MembersWith | hashset.c:183-190 | adding an entry adds the class of its datum to the mathematical set |
| Hashset.MembersWithout | hashset.c:226-270 | removing the entries equal to a datum removes exactly its class |
| Hashset.HashSet.Remove | hashset.c:226-270 | the set loses exactly the datum's class, and no other entry goes |
| Hashset.HashSet.RemoveDirect | hashset.c:278-315 | exactly the entry with this address goes, if it is there |
| Hashset.HashSet.Clear | hashset.c:317-333 | no entry is left; the slots stay |
| HashsetIter.JoinedOnce | hashset.c:344-371 | slot after slot, chain after chain, each entry comes exactly once |
| HashsetIter.Iter.constructor | hashset.c:338-342 | after a reset exactly the entries of the set are to be visited, once each |
| HashsetIter.Iter.Next | hashset.c:344-371 | returns the first of the entries still to be visited, and NULL, for good, when there is none |
| HashsetIter.StepBack | hashset.c:381-402 | stepping back over a removed entry leaves the same entries to be visited, at the head of a chain and inside it |
| HashsetIter.Iter.Remove | hashset.c:373-403 | removes exactly the entry it stands on and changes nothing of what is still to be visited, also at the head of slot 0; refused on a bad iterator |
| HashsetIter.Sweep | hashset.c:338-403 | an iteration with removals at arbitrary points ends, visits every entry present at the reset exactly once, and removes exactly the chosen ones |
| Hashmap.MeaningSet | nt_hashmap.c:167-182 | storing under the equal key found, or a new one, overrides the map at the key's class |
| Hashmap.MeaningRemoved | nt_hashmap.c:233-242 | dropping the entry found removes the key's class from the map |
| Hashmap.StoredMove | nt_hashmap.c:203-212 | appending an entry to one slot and overwriting it by the last of its own keeps the stored entries exactly |
| Hashmap.HashMap.constructor | nt_hashmap.c:52-76 | a new map is empty, with as many slots as the least prime from the size on, or none |
| Hashmap.HashMap.InitSlots | nt_hashmap.c:33-48 | as many empty slots as the least prime from the size on, or none |
| Hashmap.HashMap.EnsureFree | nt_hashmap.c:18-31 | room for one more entry: 6 at first, then doubled when full; the entries are kept |
| Hashmap.HashMap.ScanSlot | nt_hashmap.c:196-213 | every entry of one slot stays or moves to its new slot, the one swapped in from the end being looked at next |
| Hashmap.HashMap.Rehash | nt_hashmap.c:189-216 | the growth ends with exactly the same entries, each in slot hash % inc_slots |
| Hashmap.HashMap.Get | nt_hashmap.c:129-152 | the value of the key, and 0 for an absent one |
| Hashmap.HashMap.GetOrFail | nt_hashmap.c:104-126 | the value of the key, and FAIL for an absent one |
| Hashmap.HashMap.AddEntry | nt_hashmap.c:176-218 | a new key is added, and the table grows exactly when the load then is critical |
| Hashmap.HashMap.Set | nt_hashmap.c:155-219 | the map is overridden at exactly the key's class; the table grows exactly when a new key makes the load critical; num_data is the number of keys and num_data < 5 * num_slots |
| Hashmap.HashMap.Remove | nt_hashmap.c:221-243 | the map loses exactly the key's class |
| Hashmap.HashMap.Clear | nt_hashmap.c:245-263 | the map is empty, and every slot has given its entries back |
| BinaryHeap.StepUp | nt_binaryheap.c:71-75 | after a swap with the parent the only disorder left is above it |
| BinaryHeap.StepDown | nt_binaryheap.c:102-121 | after a swap with the smaller child the only disorder left is below it |
| BinaryHeap.RootIsLeast | nt_binaryheap.c:196-205 | the root is no greater than any element, for any total preorder |
| BinaryHeap.BuiltLookupRefusesInserts | nt_binaryheap.c:211-215 | with the lookup compiled in every key looks like a duplicate; it agrees with the intended one exactly for keys present |
| BinaryHeap.IndexedSwap | nt_binaryheap.c:20-33 | the two index writes of a swap restore full agreement even if one of the two keys was not indexed |
| BinaryHeap.Heap.Swap | nt_binaryheap.c:20-33 | exchanges two elements, and writes their positions under their keys in the hash map |
| BinaryHeap.Heap.EnsureFreeSpace | nt_binaryheap.c:37-65 | room for one more element by the growth rule, with the elements kept |
| BinaryHeap.Heap.BubbleUp | nt_binaryheap.c:67-79 | the same elements, swapped upwards for as long as the parent is greater; ordered and indexed if the element moved, else untouched and only below it possibly out of order |
| BinaryHeap.Heap.BubbleDown | nt_binaryheap.c:81-125 | the same elements, swapped downwards with the lesser child, the left of equal ones, for as long as that is less; ordered; indexed if the element moved, else untouched |
| BinaryHeap.Heap.Place | nt_binaryheap.c:241-242 | an element that may be out of order either way goes up, or else down, and ends in order |
| BinaryHeap.Heap.FindMin | nt_binaryheap.c:196-205 | a least element |
| BinaryHeap.Heap.Add | nt_binaryheap.c:217-226 | the elements gain exactly the new one, at the end and up; order and index agreement are kept |
| BinaryHeap.Heap.Insert | nt_binaryheap.c:207-226 | without the direct option always done; with it exactly a key that is already there is refused, or, with the lookup compiled in, every key; done, the elements gain exactly the new one; order and index agreement are kept |
| BinaryHeap.Heap.UpdateDirect | nt_binaryheap.c:228-250 | the element with the key is replaced, wherever it is; it exits exactly without the option or for an absent key, and with the lookup compiled in it faults; order and index agreement are kept |
| BinaryHeap.Heap.RemoveMin | nt_binaryheap.c:252-273 | the elements lose exactly the root; order and index agreement are kept |
| BinaryHeap.Heap.RemoveDirect | nt_binaryheap.c:275-303 | the elements lose exactly the one with the key, wherever it is; it exits exactly without the option or for an absent key, and with the lookup compiled in it faults; order and index agreement are kept |
| BinaryHeap.Heap.Clear | nt_binaryheap.c:305-317 | no elements are left, and no entries in the hash map |
| BinaryHeap.Drain | nt_binaryheap.c:196-273 | taking the minimum until none is left gives the elements, each as often, in order |
| HeapIndex.IndexReads | nt_hashmap.c:104-152 | the heap's lookups are those of the hash map's contents, keys being compared as numbers |
| HeapIndex.IndexWrites | nt_hashmap.c:155-243 | the hash map's set and remove are the map update and removal the heap relies on |
| HeapIndex.SetKey | nt_hashmap.c:155-219 | on the hash map with number keys, set is the map update |
| HeapIndex.RemoveKey | nt_hashmap.c:221-243 | on the hash map with number keys, remove drops exactly the key |
| HeapIndex.FindKey | nt_hashmap.c:104-152 | either lookup gives what the map the hash map stands for gives, and FAIL or 0 for an absent key |
| Sha1Standard.ConstantsAreRoots | nt_ptcl.c:29-33 | the four round constants are the leading 32 bits of the square roots of 2, 3, 5 and 10 |
| Sha1Standard.InitialPattern | nt_ptcl.c:169-173 | the digits of the initial value, least significant byte first, count up, then down, then both in turn |
| Sha1Standard.PadIsShortest | nt_ptcl.c:243-255 | the padded message is the message, a one bit, zeros and its 64-bit length, and the shortest of that form in whole blocks |
| Sha1Example.AbcDigest | nt_ptcl.c:266-278 | the digest of "abc" is the one RFC 3174 lists, so rotations, round order, padding and output order are those of the standard |
| Sha1Transform.SwapLoads | nt_ptcl.c:17-19 | the two masked rotations turn a little-endian load into a big-endian word |
| Sha1Transform.ChCodeIsCh | nt_ptcl.c:29-30 | the rewritten choice function is Ch of section 4.1.1 of FIPS 180-4 |
| Sha1Transform.MajCodeIsMaj | nt_ptcl.c:32 | the rewritten majority function is Maj of section 4.1.1 |
| Sha1Transform.NextWord | nt_ptcl.c:25-26 | the four words of the sixteen-word ring are those the 80-word schedule combines |
| Sha1Transform.Blk0 | nt_ptcl.c:18-19 | gives W(t), and keeps the ring the latest sixteen schedule words |
| Sha1Transform.Blk | nt_ptcl.c:25-26 | gives W(t), and keeps the ring the latest sixteen schedule words |
| Sha1Transform.MacroIsStep | nt_ptcl.c:28-33 | each macro's sum is the T of section 6.1.2, step 3, for its twenty rounds |
| Sha1Transform.Round | nt_ptcl.c:28-33 | one macro call is one round, with the registers' roles rotated instead of their contents |
| Sha1Transform.Transform | nt_ptcl.c:38-161 | the block transform is the compression of section 6.1.2, for every state and block |
| Sha1Context.FillsBufferExactly | nt_ptcl.c:197 | the 32-bit test is right if and only if the sum does not wrap around |
| Sha1Context.FillsBufferMisses | nt_ptcl.c:197 | lengths for which it is wrong |
| Sha1Context.PieceFitsExactly | nt_ptcl.c:197-209 | where the test does not see a full buffer, the copy stays within the buffer if and only if the sum does not wrap around |
| Sha1Context.MoreBlocksExactly | nt_ptcl.c:201 | behind such data the 32-bit test of the block loop does not wrap around either |
| Sha1Context.CounterAdds | nt_ptcl.c:192-195 | the carry test adds 8 * len to the two-word counter modulo 2^64 |
| Sha1Context.SavedCount | nt_ptcl.c:243-246 | the eight saved bytes are the 64-bit count, most significant first |
| Sha1Context.Context.constructor | nt_ptcl.c:166-177 | the initial hash value of section 5.3.1, and nothing fed |
| Sha1Context.Context.Update | nt_ptcl.c:182-210 | it works exactly when the position in the buffer and the length add up below 2^32, and then state, buffer and counter stand for what was fed before followed by the data |
| Sha1Context.Context.PadZeros | nt_ptcl.c:250-254 | the loop feeds exactly the zeros section 5.1.1 asks for |
| Sha1Context.Context.Final | nt_ptcl.c:215-264 | the digest is the standard's, for all that was fed, and the context is wiped |
| Sha1Context.HashMessage | nt_ptcl.c:266-278 | byte by byte, the digest of the message |
| Sha1Context.HashPieces | nt_ptcl.c:166-264 | for any cut of a message into pieces the digest is that of the whole, exactly when no piece makes the test wrap around where it comes; pieces up to 2^32 - 64 bytes never do |
| Numeric.NoDivisorBeyondRoot | nt_algodefs.c:321-325 | without a divisor up to the square root a number is prime |
| Numeric.IsPrime | nt_algodefs.c:310-326 | true exactly for primes |
| Numeric.PrimeAbove | nt_algodefs.c:328-334 | there is a prime at or above every number, so the search ends |
| Numeric.NextPrime | nt_algodefs.c:328-334 | the least prime from n on |
| Numeric.RootRound | nt_algodefs.c:354-366 | one round keeps the root of the digits so far, and the remainder at most twice the root |
| Numeric.Isqrt32 | nt_algodefs.c:350-369 | r * r <= value < (r + 1) * (r + 1) for every 32-bit value, every shift taken modulo 2^32 |

## Left out

- MemArena.Arena.Malloc: takes the size as the public wrappers pass it on; their exits for size 0, sizes over 64 GB and, without allow_oom, a NULL result are not modelled.
- MemArena.Arena.Realloc: takes a pointer to a live chunk, as the source demands of its callers; the temporary copy of the last path is assumed to be allocated.
- Hashset.HashSet.Insert: with offset 0 only; a set whose first allocation of slots failed is not followed further.
- Sha1Context.Context.Update: says nothing of the state after the copy past the end of the buffer.
- Hashmap.HashMap.Set: allocations are assumed to succeed, as nt_algo.h:230-234 says for the heap.
- TaskQueue.NextInv: sem_wait blocks or takes a token and never fails; a caller that dies inside a call is not modelled.
- Segments, `mmap`, `shmget`, semaphore creation, `task_queue_open`, `task_queue_destroy` and the worker loops are system calls; their results are parameters or assumed.
- The bucket heads are an array of their own rather than words of the segment, and addresses are word indices; that buckets and chunks do not overlap is `MemCreate.LayoutIsInside`.
- Log output, also that of `nt_mem_dump_stats`.
- 4-byte pointers (`ALIGN4`) are left out; pointers are 8 bytes.
- The eighty unrolled macro calls of `SHA1Transform` are a loop over five calls, one period of the register roles; the host is little-endian; a negative length of `SHA1` is left out.
- Hash functions are any functions consistent with the comparison; `MurmurHash64A`, the string-key wrappers and `nt_hashset_insert_kv` are left out.
- The data of a hash set entry is a value: a caller that changes stored data through the returned pointer is not modelled.
- Overflow of `int` counters and of `i * i` in `is_prime` near the largest int; integers are unbounded outside SHA-1, the square root, the capacity bound and the tag flag.
- `ddl.c`, logging, sockets, processes and start-up.
