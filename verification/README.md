# Verified model of fredlib's hashers, list and thread pool

The project models the parts of fredlib whose correctness is not visible in any single function:

- **The BLAKE3 streaming hasher** (`hashes/b3/`). `Tree.dfy` defines the hash tree of section 2 of the BLAKE3 paper in a
  few recursive functions. `Bits.dfy`, `Words.dfy`, `ChunkState.dfy`, `Wide.dfy`, `CvStack.dfy` and `Hasher.dfy` model the
  implementation in its own form: classes and arrays updated in place, the portable bit tricks, the batch hashing of
  chunks and parents, the SIMD-degree-dependent recursion, the lazily merged stack. `Calls.dfy` proves that every run of
  updates, finalizations and resets answers what the tree answers. `Layout.dfy` states in plain numbers what every compression of
  the tree is given, and on which compressions a hash depends; `Soundness.dfy` proves that two inputs with the same hash give
  a collision of the compression function.
- **XXHash64** (`hashes/xxhash64.h`). `XxSpec.dfy` is the one-shot definition, steps 1 to 6 of the XXH64 algorithm
  description, and `XxNumbers.dfy` pins its steps down in plain numbers, rotations as products modulo 2^64 - 1; `XxHash.dfy` proves the buffered hasher against it, on the bytes of all additions put together; `Mixing.dfy`
  proves that finishing a hash loses nothing of the accumulator, which makes the condition after wrap-around exact;
  `XxWrap.dfy` constructs inputs for which that condition fails.
- **SafeList** (`include/safe_list.hpp`). `SafeList.dfy` proves the intrusive doubly linked list, on the heap, against a
  sequence.
- **The thread pool** (`include/threading.hpp`). `Pool.dfy` and `SyncPoint.dfy` are step machines: every stretch between
  taking a mutex and waiting or releasing it is one step, the end of a wait is a step guarded by its predicate. The
  number of workers and the length of the run are unbounded; threads may be added at any time, beside pause(), resume() and
  stop() too. `PoolSafety.dfy` proves what pause() and stop() promise, `PoolWaits.dfy` when their waits end, `PoolRuns.dfy`
  that the runs in which they go wrong exist, `PoolService.dfy` that what is pushed gets executed. `Shared.dfy` holds the objects the threads share, updated in place and with the
  SafeList as their queue, and proves that every mutex-held section does to them what its step does to the machine, and what
  the counters then say about the workers.

`dafny verify dfyconfig.toml` checks the whole project.

How the model reads the source:

- The compression function is a parameter, a pair of arbitrary total functions (`Tree.Compression`), so every BLAKE3
  statement holds for all compression functions. A chaining value is eight words and one array element; `Words.dfy`
  proves that storing it as 32 bytes and loading it back changes nothing.
- Words are natural numbers; `&`, `|` and `^` are defined bit by bit, shifts are multiplications and divisions by powers of two,
  and wrap-around is written out wherever it can happen. For inputs below 2^64 bytes chunk counters stay below 2^54, and for
  64-bit positions and lengths output block counters stay below 2^59, so those never wrap.
- The SIMD degree and the compile-time maximum are parameters, any two powers of two with the degree at most the maximum; the
  scratch arrays have the sizes the source gives them.
- `blake3_hasher_update` is one function in the source. Here its phases are methods of their own (`TopUpChunk`,
  `FinishChunk`, `AbsorbAll` with `AbsorbSubtree`, `PushChunk` and `PushSubtree`, `KeepTail`), called in the same order; the same holds for
  `XXHash64::add` and for the pointer surgery of the list, which `UnlinkFrom`, `LinkInto` and `LinkLast` restate from the
  sequence's point of view.

Results about the source that its comments do not say, or say differently:

- The comment at `hashes/b3/blake3.h:33-37` gives the stack one more slot than the tree depth because of lazy merging. With
  fewer than 2^64 bytes hashed the stack never holds more than 54 entries, so the 55th slot is never used
  (`Streaming.Hasher.PushCv` after every single push, `Calls.StackDepth` between them); an input of 2^64 - 1 bytes leaves 54 (`Calls.ReachDepth`).
- The comment at `hashes/b3/blake3.c:589-591` says that without bytes in the chunk state the top of the stack is a chunk's
  hash. It may stand for more: after four chunks hashed at once it stands for two (`Calls.TopCanBeLarger`). What finalization
  needs and `Calls.RootNotCompressed` proves is that the two topmost entries are siblings of equal size.
- `_add_thread` starts a thread before it counts it. So `pause()` and `stop()` can pass their waits beside `add_thread` while a
  worker runs something it popped: `PoolRuns.PauseMissesStarted` and `PoolRuns.StopMissesStarted` are such runs. In every run,
  when the guard of `pause()` holds, all workers are blocked exactly if no thread is between its start and its count by the
  pause point (`PoolSafety.PauseCountExact`); when the guard of `stop()` holds, all workers have finished exactly if no
  thread is between its start and its count by the fan-in point (`PoolSafety.StopMeansAllLeft`).
- The two counts of `add_thread` change what `pause()` and `stop()` wait for and notify nobody. Each of them can be what makes
  the guard true, after the last notification (`PoolRuns.PauseMissesWakeUp`, `PoolRuns.StopMissesWakeUp`); the waiting thread
  is then not woken any more unless another thread is added or it wakes spuriously (`PoolWaits.NeverNotified`). They are the only
  steps that end a wait without a notification (`PoolWaits.NotifiedIff`; for the workers' own wait `PoolWaits.WorkersAreWoken`).
- `stop()` called on a pool held by `pause()` can pass its wait exactly if every worker happens to be past its pause point, not
  having asked for the stop flag yet (`PoolWaits.StopReturnsIff`), as the worker of a pool that was paused before that worker was
  counted (`PoolRuns.HeldPastPausePoint`). In the usual case, all workers blocked (`PoolRuns.HeldIsReached`), it never does,
  whatever happens afterwards; the destructor calls `stop()`. Called on a pool that is not held it always can.
- Under fair scheduling, and without an `add_thread` beside the wait, `pause()`, `resume()`, and a `stop()` on a pool that is not
  held, return: only so many steps fit before the guard holds (`PoolWaits.WaitIsBounded`), some thread can make one until then
  (`PoolWaits.WaitGoesOn`), and the step that makes it true notifies the waiting thread.
- While the pool is neither paused nor stopping, a pushed element is popped after boundedly many steps of the workers
  (`PoolService.PopIsBounded`) and executed by one more of the worker that popped it. Once the stop flag is set, as many more are
  popped as there are workers about to pop, at most (`PoolService.FewPopsAfterStop`, `PoolService.PopsAfterStop`).
- A `SyncPoint` releases all its callers exactly if there are as many of them as expected (`SyncPoints.AllReturnIff`): with
  any other number every run goes on to an end (`SyncPoints.RunsEnd`), and at one some caller waits for ever
  (`SyncPoints.SomeWaitForEver`).
- `push_front` reads the head before it takes the mutex. If the head is popped in between, the new node is refused, if that was the
  only node, or lost and counted as an element, if there were more (`Lists.SafeList.PushFrontPastPop`); if the list was empty
  and something is pushed in between, it is refused (`Lists.SafeList.PushFrontPastPush`).
- XXHash64 counts its bytes modulo 2^64. It computes XXH64 exactly if the count and the number of bytes agree on whether there
  was a whole stripe, or the four lanes happen to converge to what the third one plus a constant is
  (`XxHash.XXHash64.Hash`). Of all inputs of a given length it hashes every one to XXH64 exactly if the first is the case
  (`XxWrap.CountDecides`); after any 2^64 - 32 bytes there is a stripe with which the result is wrong (`XxWrap.HashWrapped`).
  Whether new bytes fit in the buffer is decided rightly exactly if the buffered and the new ones are below 2^64 together
  (`XxHash.FitsIsDecidedRightly`), and the engine's loop over its input never wraps its index exactly if the input and one
  more piece are at most 2^64 bytes (`XxHash.EngineIndexFits`).

## Model

| member | source | states |
|---|---|---|
| Bits.PopCnt | hashes/b3/blake3_impl.h:118-129 | clearing the lowest set bit until none is left counts exactly the one bits |
| Bits.HighestOne | hashes/b3/blake3_impl.h:106-114 | the portable five-mask binary search finds the index of the highest set bit of every nonzero 64-bit word: 2 to that index is the largest power of two at most the word |
| Bits.RoundDownToPowerOf2 | hashes/b3/blake3_impl.h:131-135 | the largest power of two at most x for every 64-bit x, and 1 for 0 |
| Bits.AndIsMod | hashes/b3/blake3.c:521-523 | masking with one less than a power of two is the remainder, so the shrink loop tests divisibility |
| Bits.OperatorsBitwise | hashes/xxhash64.h:182-185 | the three bitwise operators, bit by bit |
| Words.LoadStoreCV | hashes/b3/blake3_impl.h:143-178 | storing eight words as 32 little-endian bytes and loading them back gives the same words |
| Words.StoreLoadKey | hashes/b3/blake3_impl.h:143-178 | and the other way round for every 32-byte key |
| Words.KeyIsLittleEndian | hashes/b3/blake3_impl.h:143-178 | the loaded words are the 32-bit digits of the 32 bytes read as one little-endian number, the first word lowest |
| Words.StoreIsLittleEndian | hashes/b3/blake3_impl.h:143-178 | and the stored bytes of eight words are that number |
| Tree.LeftLenIsLargest | hashes/b3/blake3.c:154-162 | the left subtree is the largest power-of-two number of chunks that leaves at least one byte for the right one |
| Tree.TreeOfFull | hashes/b3/blake3.c:154-162 | a full power of two of chunks followed by at most as much again splits right there |
| Tree.PairUpKeepsReduce | hashes/b3/blake3.c:207-245 | one layer of pairing, the odd value carried through, keeps the value of the left-balanced tree over any nonempty row of chaining values |
| Tree.PairUpKeepsChildren | hashes/b3/blake3.c:351-359 | with three values or more it keeps both children of the root, so repeating it ends at exactly those two |
| Tree.ChildrenOfLeaves | hashes/b3/blake3.c:164-182 | the row of all chunk values, chunk i under counter + i, has the recursive tree's two children |
| Tree.ReduceLeaves | hashes/b3/blake3.c:164-182 | and reduces to the recursive tree's chaining value |
| Layout.OneBlock | hashes/b3/blake3.c:142-147 | at most 64 bytes: one block padded with zeros, its length the number of bytes, the key words, the chunk's counter, mode flags plus 3 |
| Layout.OneChunk | hashes/b3/blake3.c:112-147 | up to 1024 bytes: 64-byte blocks chained from the key words, flag 1 on the first only; the last has one to 64 bytes, its length is their number, its flag is 2 |
| Layout.ManyChunks | hashes/b3/blake3.c:149-162 | more: the two stored chaining values, left first, under the key words, length 64, counter 0, flag 4 |
| Layout.FirstOutputBlock | hashes/b3/blake3.c:89-110 | the first 64 bytes of the hash of at most 64 bytes are one compression, with mode flags plus 11 |
| Layout.HashOfChunk | hashes/b3/blake3.c:89-110 | every byte of the output for a longer chunk, at every position, with flags plus 10 |
| Layout.HashOfParent | hashes/b3/blake3.c:89-110 | and for more than one chunk, with flags plus 12 |
| Layout.SameTree | hashes/b3/blake3_impl.h:13-21 | no chaining value of any tree depends on what the compression does with flags other than the mode flags plus 0 to 4: none is computed with bit 8 |
| Layout.HashDependsOn | hashes/b3/blake3_impl.h:13-21 | a hash depends on the compression at those for chaining values and at plus 10 to 12 for output only, so roots, inner nodes and modes never mix |
| Soundness.OneBlockSound | hashes/b3/blake3.c:142-147 | no two inputs of at most 64 bytes have the same topmost node |
| Soundness.TreeSound | hashes/b3/blake3.c:142-162 | two inputs with the same topmost node are equal, unless two of the compressions below collide |
| Soundness.CollisionInside | hashes/b3/blake3.c:89-162 | two different inputs with the same output give two different compressions with the same result |
| Chunks.ChunkState.FillBuf | hashes/b3/blake3.c:34-44 | takes as many bytes as fit; the buffer stays the zero-padded rest of the chunk |
| Chunks.ChunkState.Update | hashes/b3/blake3.c:112-140 | any bytes fed in any pieces leave the state that the concatenation determines, the last block always held back |
| Chunks.ChunkState.MakeOutput | hashes/b3/blake3.c:142-147 | the chunk's output node of the tree, with start and end flags on the right blocks |
| Chunks.SplitInsensitive | hashes/b3/blake3.c:112-140 | two chunk states given the same bytes agree on cv, buffer, buf_len and blocks_compressed |
| Chunks.CountersFit | hashes/b3/blake3.h:23-31 | blocks_compressed is at most 15 and buf_len at most 64, so both fit their eight bits |
| Wide.HashOne | hashes/b3/blake3_portable.c:125-143 | chains whole blocks with the start flag on the first and the end flag on the last |
| Wide.FullChunk | hashes/b3/blake3_portable.c:125-143 | on a full chunk the whole-chunk path and the incremental chunk state give the same chaining value |
| Wide.HashMany | hashes/b3/blake3_portable.c:145-160 | writes the values of all inputs in order, counters incremented or not, and nothing else |
| Wide.CompressChunksParallel | hashes/b3/blake3.c:168-205 | writes exactly the row of leaf values of the input, a partial last chunk included; an array of MAX_SIMD_DEGREE pointers holds the whole chunks |
| Wide.CompressParentsParallel | hashes/b3/blake3.c:212-245 | writes exactly the next layer of parents, an odd child copied, and nothing else; an array of MAX_SIMD_DEGREE_OR_2 pointers holds the pairs |
| Wide.LeftLength | hashes/b3/blake3.c:154-162 | rounding the number of whole chunks before the last byte down to a power of two gives the length the tree splits at |
| Wide.JoinWidths | hashes/b3/blake3.c:282-320 | where the code recurses the left call fills exactly the `degree` slots before the right one; the result has at least two values for more than one chunk and at most max(degree, 2) |
| Wide.CompressSubtreeWide | hashes/b3/blake3.c:264-321 | for every power-of-two degree the row it writes stands for the subtree: same tree value, same two children; it fits every scratch array |
| Wide.CompressSubtreeToParentNode | hashes/b3/blake3.c:333-360 | for every input over one chunk, exactly the chaining values of the root's two children in the recursive tree, whatever the degree |
| CvStack.CarryStep | hashes/b3/blake3.c:394-413 | the stack has more entries than the chunk count has one bits exactly if the two topmost are equal-sized; merging them restores the same shape, otherwise the stack is the binary decomposition |
| CvStack.CoversMerge | hashes/b3/blake3.c:404-413 | merging two equal-sized neighbours keeps every entry the chaining value of the subtree it stands for |
| CvStack.PushPair | hashes/b3/blake3.c:539-545 | pushing the two halves of an aligned subtree needs no merge in between and leaves them side by side on top |
| CvStack.RollUpIsTree | hashes/b3/blake3.c:592-610 | folding parents from the top of the stack down gives the recursive tree, because every split falls where the tree splits |
| CvStack.DepthBound | hashes/b3/blake3.h:33-38 | with fewer than 2^64 bytes pushed the stack has at most 54 entries |
| Streaming.IVIsRootFractions | hashes/b3/blake3_impl.h:72-74 | the starting words are the first 32 fractional bits of the square roots of the first eight primes, in order |
| Streaming.SubtreeLen | hashes/b3/blake3.c:503-526 | the shrink loop ends with the largest power of two that is at most the input length and divides the bytes hashed so far, never below one chunk |
| Streaming.OutputRootBytes | hashes/b3/blake3.c:89-110 | writes bytes seek up to seek + n of the root's output stream, for every seek and n, and nothing else |
| Streaming.Hasher.MergeCvStack | hashes/b3/blake3.c:404-413 | ends with exactly the binary decomposition, one entry for every one bit of the chunk count |
| Streaming.Hasher.PushCv | hashes/b3/blake3.c:447-453 | merges what the last push left, then adds the new entry; the stack then stands for the longer input and has at most 54 entries |
| Streaming.Hasher.AbsorbSubtree | hashes/b3/blake3.c:503-550 | one round takes a nonempty aligned piece of the input, conserves the bytes, and when it takes all of it leaves two equal siblings unmerged on top |
| Streaming.Hasher.AbsorbAll | hashes/b3/blake3.c:503-550 | the main loop conserves the bytes and ends with at most a chunk left; an input that is itself a subtree is taken whole and leaves its two halves on top |
| Streaming.Hasher.Update | hashes/b3/blake3.c:455-562 | for any input the hasher then holds the old bytes followed by the new ones, with the stack invariant restored |
| Streaming.Hasher.RootOutput | hashes/b3/blake3.c:581-609 | the root node of the recursive tree over everything hashed so far |
| Streaming.Hasher.FinalizeSeek | hashes/b3/blake3.c:569-611 | bytes seek up to seek + n of the hash of everything so far; the hasher is unchanged and can go on |
| Streaming.Hasher.Reset | hashes/b3/blake3.c:613-616 | back to the empty input in the same mode |
| Calls.Init | hashes/b3/blake3.c:369 | an empty hasher that starts from those words, with no flags |
| Calls.InitKeyed | hashes/b3/blake3.c:371-376 | an empty hasher in keyed mode, flags 16, with the key words loaded from the 32 key bytes |
| Calls.InitDeriveKeyRaw | hashes/b3/blake3.c:378-388 | the new key, flags 64, is the 32-byte hash of the context, flags 32 |
| Calls.Run | hashes/b3/blake3.c:455-616 | every run of updates, finalizations and resets, on every platform, answers what the recursive tree over the concatenated input answers |
| Calls.HashPieces | hashes/b3/blake3.c:455-562 | a hasher given any pieces one update at a time, on any platform, answers the hash of their concatenation |
| Calls.ReadOn | hashes/b3/blake3.c:89-110 | two reads of a hasher, the second from where the first ended, write what one longer read writes |
| Calls.StackDepth | hashes/b3/blake3.h:33-38 | every reachable hasher has at most 54 stack entries |
| Calls.ReachDepth | hashes/b3/blake3.h:33-38 | and the hasher given 2^64 - 1 bytes has 54 |
| Calls.TopCanBeLarger | hashes/b3/blake3.c:586-602 | after four chunks hashed at once the chunk state is empty and the top entry stands for two chunks |
| Calls.RootNotCompressed | hashes/b3/blake3.c:424-446 | no stack entry covers the whole input; with an empty chunk state a nonempty stack has two equal-sized siblings on top |
| XxHash.XXHash64.Add | hashes/xxhash64.h:43-96 | the hasher then stands for the old bytes followed by the new ones: whole stripes folded, the rest buffered; false exactly for no input |
| XxHash.FitsIsDecidedRightly | hashes/xxhash64.h:54 | the 64-bit comparison decides whether the new bytes fit in the buffer rightly exactly if the sum does not wrap |
| XxHash.XXHash64.Hash | hashes/xxhash64.h:100-150 | XXH64 of all bytes added, exactly if the byte count decides the stripe branch rightly or both branches give the same accumulator |
| XxHash.StripesConcat | hashes/xxhash64.h:77-92 | folding stripes over a concatenation at a stripe boundary is folding one part after the other |
| XxHash.DigestExact | hashes/xxhash64.h:104-121 | the state kept while streaming determines the hash; with a wrapped count it is XXH64 exactly under that condition |
| Mixing.FinishInjective | hashes/xxhash64.h:121-149 | adding the length, eating the rest and the final mixing map different accumulators to different hashes |
| XxNumbers.RoundInNumbers | hashes/xxhash64.h:188-191 | one word into an accumulator: times the second prime, times 2^31 modulo 2^64 - 1, times the first prime |
| XxNumbers.InitInNumbers | hashes/xxhash64.h:29-37 | the four starting accumulators for every seed |
| XxNumbers.ConvergeInNumbers | hashes/xxhash64.h:104-114 | the four rotations, as products modulo 2^64 - 1 by 2^1, 2^7, 2^12 and 2^18, and the order of the merges |
| XxNumbers.MergeInNumbers | hashes/xxhash64.h:110-113 | one merge, in numbers |
| XxNumbers.Eat8InNumbers | hashes/xxhash64.h:129-130 | eight bytes of the rest, with 2^27 |
| XxNumbers.Eat4InNumbers | hashes/xxhash64.h:133-137 | four bytes, with 2^23 |
| XxNumbers.Eat1InNumbers | hashes/xxhash64.h:140-141 | one byte, with 2^11 |
| XxNumbers.AvalancheInNumbers | hashes/xxhash64.h:144-148 | the final mixing with its shifts as divisions |
| XxNumbers.ShortInNumbers | hashes/xxhash64.h:100-150 | thirteen bytes from the seed to the final mixing |
| XxNumbers.LongInNumbers | hashes/xxhash64.h:43-150 | forty-five bytes, the words of the stripe to the accumulators in order |
| XxHash.HashPieces | hashes/xxhash64.h:43-150 | every sequence of additions, of any total, hashes to XXH64 of the concatenation exactly under that condition |
| XxHash.HashAll | hashes/xxhash64.h:43-150 | below 2^64 bytes in all, always |
| XxHash.EngineHash | include/hash.hpp:286-296 | adding a long input in 64 MB pieces gives XXH64 with seed 0 of the whole input |
| XxHash.EngineIndexFits | include/hash.hpp:291-293 | the loop index never wraps around exactly if the input and one piece are at most 2^64 bytes |
| XxWrap.CountDecides | hashes/xxhash64.h:104-121 | the hasher computes XXH64 of every input of a given length exactly if the byte count decides rightly whether there was a whole stripe |
| XxWrap.ClearedIsWrong | hashes/xxhash64.h:104-121 | where the count has wrapped below a stripe, any whole stripes before and any rest after a stripe that clears the accumulators give a wrong hash |
| XxWrap.HashWrapped | hashes/xxhash64.h:43-150 | for any 2^64 - 32 bytes a stripe is found such that the two additions do not hash to XXH64 |
| Lists.ListHook.Unlink | include/safe_list.hpp:314-319 | joins the two neighbours, leaves their other links alone and the hook unlinked |
| Lists.ListHook.LinkAfter | include/safe_list.hpp:326-331 | links both ways with the predecessor and its old successor |
| Lists.ListHook.LinkBefore | include/safe_list.hpp:338-343 | links both ways with the successor and its old predecessor |
| Lists.SafeList.Insert | include/safe_list.hpp:55-80 | refused exactly for a null node or a position that does not match emptiness; otherwise the sequence with the node in front of the existing one, links, ends and size in step; in front of a node taken out before, the sequence does not change but the size does |
| Lists.SafeList.Erase | include/safe_list.hpp:89-106 | the sequence without the node, which ends up fully unlinked |
| Lists.SafeList.PushBack | include/safe_list.hpp:115-132 | appends |
| Lists.SafeList.PushFront | include/safe_list.hpp:133 | prepends, if nothing happens between the read of the head and the insertion |
| Lists.SafeList.PushFrontFrom | include/safe_list.hpp:133 | with a head read before the list changed: refused if the list has become empty or stopped being empty, lost if that node was taken out, otherwise in front of it; prepended exactly if it is the head still |
| Lists.SafeList.PushFrontPastPop | include/safe_list.hpp:133 | with a pop_front between the read and the insertion, the new node gets into the list exactly if that was empty; from more than one node on the size is wrong afterwards |
| Lists.SafeList.PushFrontPastPush | include/safe_list.hpp:133 | with a push_back in between, prepended, but refused exactly if the list was empty |
| Lists.SafeList.PopFront | include/safe_list.hpp:152-159 | takes the first node, or answers null exactly on an empty list |
| Lists.SafeList.PopBack | include/safe_list.hpp:181-188 | takes the last node, or answers null exactly on an empty list |
| Lists.Iterator.Next | include/safe_list.hpp:233-241 | one position on; past the last node it becomes the null iterator |
| Lists.Iterator.Previous | include/safe_list.hpp:249-257 | one position back; before the first node it becomes the null iterator |
| Lists.Traverse | include/safe_list.hpp:294-297 | walking from begin() to end() visits every node once, in order, and stops |
| SyncPoints.NoEarlyReturn | include/threading.hpp:52-63 | in every run no call of sync() returns before as many as expected have entered |
| SyncPoints.GuardIsStable | include/threading.hpp:60 | once the last caller has entered, the guard of every waiter stays true |
| SyncPoints.RunsAreShort | include/threading.hpp:52-63 | no run takes more than two steps a caller |
| SyncPoints.AllReturnIff | include/threading.hpp:52-63 | where a run ends, all calls have returned exactly if there were as many callers as expected |
| SyncPoints.RunsEnd | include/threading.hpp:52-63 | every run goes on to one that ends |
| SyncPoints.SomeWaitForEver | include/threading.hpp:52-63 | there is a run at whose end some caller still waits exactly if there are not as many callers as expected |
| Pools.StepKeepsInv | include/threading.hpp:441-492 | every step of the pool keeps the counters, the phases, the queue order and the conservation of tasks |
| Pools.TaskInOnePlace | include/threading.hpp:447-451 | in every run a pushed task is in exactly one place: queued, held by one worker, or executed once |
| Pools.PoppedInOrder | include/threading.hpp:447-451 | in every run tasks are popped in push order, and the rest stays queued in order |
| PoolSafety.PauseCountExact | include/threading.hpp:175-218 | in every run the pause count is the number of blocked workers, none when the controller is idle; when it lets pause() pass, all are blocked exactly if no thread is started and not counted by the pause point |
| PoolSafety.NothingRunsWhileHeld | include/threading.hpp:196-218 | from the return of pause() with no thread half added until resume(), nothing is popped or executed in any run, even with threads added or stop() called |
| PoolSafety.HeldIsQuietIff | include/threading.hpp:441-452 | nothing runs in a held pool before resume() exactly if every worker is at its pause point |
| PoolSafety.StopMeansAllLeft | include/threading.hpp:102-120 | in every run the fan-in count is registered workers less finished ones; when it lets stop() pass, all have finished, holding nothing, exactly if no thread is started and not counted by the fan-in point |
| PoolSafety.NothingRunsAfterStop | include/threading.hpp:497-508 | after stop() passed its wait with no thread started and uncounted nothing runs in any run, with threads added too, and what was not popped stays queued |
| PoolSafety.StoppedIsQuietIff | include/threading.hpp:441-454 | with the stop flag set nothing runs any more exactly if no worker is past its look at the flag |
| PoolService.PopIsBounded | include/threading.hpp:441-454 | in a pool neither paused nor stopping, under any scheduling and any pushes, only so many worker steps fit before a queued element is popped, and two more for each thread added |
| PoolService.ServiceGoesOn | include/threading.hpp:441-454 | with a worker there, some worker can take a step |
| PoolService.CanBeExecuted | include/threading.hpp:447-451 | so everything pushed can be executed, without a pause or stop |
| PoolService.OneWorkerKeepsOrder | include/threading.hpp:447-451 | in every run with at most one worker, what has been executed is the first elements pushed, in push order |
| PoolService.FewPopsAfterStop | include/threading.hpp:443-451 | in every run from the stop flag on, no more is popped than there were workers about to pop |
| PoolService.PopsAfterStop | include/threading.hpp:443-451 | and in some run that many |
| PoolRuns.PauseMissesStarted | include/threading.hpp:460-464 | a run in which pause() can return while a worker, started and uncounted, runs something |
| PoolRuns.StopMissesStarted | include/threading.hpp:460-464 | a run in which stop() can pass its wait while a worker, started and uncounted, runs something; stop() had looked at the number of threads before |
| PoolWaits.WaitIsBounded | include/threading.hpp:114-218 | in every wait of pause(), resume() or stop(), under any scheduling and any pushes, only so many steps fit before the guard holds, and six more for each thread added |
| PoolWaits.WaitCanEnd | include/threading.hpp:114-218 | and from every such wait a run leads to its return |
| PoolWaits.WaitGoesOn | include/threading.hpp:441-464 | while a wait is not over some thread can make progress |
| PoolWaits.StopWhileHeldHangs | include/threading.hpp:179-185 | with a worker that is blocked, about to look at the pause flag, popping or running when stop() is called on a held pool, the wait of stop() never ends in any run |
| PoolWaits.StopReturnsIff | include/threading.hpp:271-274 | stop() can pass its wait exactly if the pool is not held when it looks at the number of threads, or every worker is about to ask for the stop flag |
| PoolRuns.HeldIsReached | include/threading.hpp:196-203 | a run to a held pool with its worker blocked, on which stop() can be called |
| PoolRuns.HeldPastPausePoint | include/threading.hpp:460-464 | a run to a held pool with every worker past its pause point, on which stop() can be called |
| PoolWaits.NotifiedIff | include/threading.hpp:98-218 | a step that makes the guard of a wait true notifies the waiting thread exactly if it is not one of the two counts of add_thread |
| PoolWaits.NeverNotified | include/threading.hpp:141-144 | in every run, if one of those two ends a wait its guard holds from then on and no step notifies the waiting thread, until another thread is added |
| PoolWaits.WakeUpLost | include/threading.hpp:230-233 | because then all workers are blocked, or all have finished |
| PoolRuns.PauseMissesWakeUp | include/threading.hpp:230-233 | a run after which the count by the pause point makes the guard of pause() true |
| PoolRuns.StopMissesWakeUp | include/threading.hpp:141-144 | a run after which the count by the fan-in point makes the guard of stop() true |
| Shared.SharedPool.PauseIfRequired | include/threading.hpp:175-182 | it comes to a wait exactly if the machine blocks the worker; the counter is then the number of blocked workers |
| Shared.SharedPool.PopTask | include/threading.hpp:448 | takes the first hook of the list on the heap, that of the oldest element not popped, and hands it to the worker the machine says; null exactly on an empty list |
| Shared.SharedPool.PushFunction | include/threading.hpp:487-492 | appends the hook of a new queue element to the list on the heap, the latest in push order |
| Shared.SharedPool.AllPaused | include/threading.hpp:200-201 | the comparison pause() waits for holds exactly if all workers the pause point expects are blocked: every worker, unless a thread is half added |
| Shared.SharedPool.NonePaused | include/threading.hpp:216 | the comparison resume() waits for holds exactly if no worker is blocked |
| Shared.SharedPool.GetNumThreads | include/threading.hpp:482-485 | with the mutex free, the number of workers, of which none is missing from either count |
| Shared.SharedPool.AllDone | include/threading.hpp:114-120 | the comparison stop() waits for holds exactly if every worker has finished, unless a thread is started and uncounted |
| Shared.Perform | include/threading.hpp:98-293 | every step of the machine is what its section of code does to the shared objects |
| Shared.Execute | include/threading.hpp:441-510 | after every run the counters tell how many workers are blocked and finished, and the list on the heap holds exactly the hooks of the elements not popped, in push order; the others are held by one worker or executed once |
| Shared.SharedSync.Sync | include/threading.hpp:52-63 | a caller comes to a wait exactly if it does not complete the expected number, as in the machine |
| Shared.SharedSync.AllEntered | include/threading.hpp:60 | the comparison a waiting caller waits for holds exactly if as many as expected have entered |

## Left out

- The rounds of the compression function, so also its known answers, the SIMD and assembly code, CPU detection and the compiler builtins for bit counting: the
  compression function is a parameter, the portable code is what is modelled.
- XxHash.XXHash64.Add: a single addition that wraps the 64-bit sum of buffered and new bytes (`XxHash.FitsIsDecidedRightly`) and
  an engine input whose index wraps (`XxHash.EngineIndexFits`): the code then reads or writes outside its buffers.
- XxHash.HashPieces: the additions are those `XxHash.XXHash64.Add` is modelled for.
- Null pointers with a nonzero length given to XXHash64::add: an empty input stands for both ways of having no data.
- Digests shorter than eight bytes in the XXHash64 engine, the other engines, HashKey and its ordering, CityHash.
- Inputs of 2^64 bytes or more to one BLAKE3 hasher: the chunk counter and lengths are 64-bit and the stack is sized for less.
- Lists.SafeList.PopFront: the wait before the pop is not modelled, only what happens once it is over, with or without a timeout; the
  same holds for PopBack.
- Lists.SafeList.PushFront: nothing happens between its read of the head and its insertion; `Lists.SafeList.PushFrontFrom` is the
  insertion after any change of the list, except that the node read has been deleted or put into another list. The pool does
  not use it.
- Shared.SharedPool.PopTask: the timed wait before the pop; the machine lets a worker find the queue empty at any time.
- The node arguments of insert and erase must belong to the list, or have been taken out of it before an insert, and new nodes
  must be unlinked, which the source does not check.
- The mapping between hooks and the objects they sit in (IntrusiveSafeList), iterator comparison by address, postfix increments.
- Tasks that never return, and what tasks do: executing one is a step that is always possible.
- Mutexes and condition variables as objects, and the interleavings within one mutex-held section: a section is one step, and the
  order of the sections is that of the machine's run. The flags read outside a mutex are single atomic accesses.
- The SyncPoint count of add_thread, which the pool does not use.
- WorkerThreads, re-initialising a point while threads wait, several threads that pause, resume or stop one pool, a stop() on a
  pool without threads, joining the threads after the wait of stop(), a pool used again after it, timers and the times returned.
