# libcircle's per-process work queue, in Dafny

libcircle is a work-stealing runtime. Each process keeps a queue of work items, which are C strings. This project models that queue, `CIRCLE_internal_queue_t` in `libcircle/myqueue.h` and `libcircle/myqueue.cpp`, and proves what its operations do.

The queue has three parts:

- **A FIFO of strings** held in a `std::deque<std::string>`. `push` inserts at the front; `pop` and `peek_size` work at the back. The `count` field mirrors the deque's size.
- **A growable scratch buffer** (`base`, `bytes`). It grows in steps of `sysconf(_SC_PAGESIZE) * 4096` bytes until it reaches the requested size.
  - `extend` frees and allocates, so the old contents are lost.
  - `extend_realloc` reallocates and keeps the contents.
- **A bulk codec over that buffer.**
  - `pop_multi` packs up to N of the oldest items back to back into `base` and records the end offset of each.
  - `push_multi` cuts the buffer back into items along such offsets and pushes them.
  - The checkpoint writer `write` lays the queue out as `item\n` lines, front to back, and then clears it.

## Layout

- `bytes.dfy` (`Bytes`): bytes, and the C-string view (`CString`) that `std::string(str)` takes of them. This view stops at the first NUL.
- `fifo.dfy` (`Fifo`): the deque as a sequence.
  - Index 0 is the front (newest item); the last index is the back (oldest).
  - `Reverse` gives the order in which pops return the items.
  - `PushAll` is a run of `push_front` calls.
  - The FIFO law relates the two.
- `growth.dfy` (`Growth`): the growth loop shared by both grow routines (`GrownSize`, `GrowSize`), and its laws.
- `packing.dfy` (`Packing`): the packed layout.
  - `Pack` and `Offsets` produce it; `Unpack` reads it back, item by item (`Cut`).
  - `PushedFrom` models `push_multi`'s rounds.
  - The lemmas prove the round trip and the transfer law.
- `checkpoint.dfy` (`Checkpoint`): the checkpoint text (`EncodeLines`), a reference line splitter, and the order reversal a re-push would cause.
- `myqueue.dfy` (`MyQueue`): the queue as a class `Queue` whose fields are those of the C struct.
  - `items` is the deque, and `count` is the `int32_t` count.
  - `base` is an `array?<byte>` that is NULL before the first grow and after a failed one.
  - `bytes` is the size of `base` while `base` is live. After a failed grow `base` is NULL and `bytes` keeps its old value.
  - Each C function is a method with the same branches and return codes, with these exceptions:
    - the NULL-`qp` branches of `pop` and `peek_size` are not modelled (see Left out); `free` keeps its NULL test (`MyQueue.Free`); the remaining modelled functions use `qp` untested;
    - `push_multi`'s branch that returns -1 when a `push` does not return 1 cannot be taken. `push` fails only on a NULL string, and `c_str()` is never NULL. `PushMulti` therefore always returns 1.
  - The `pop_multi` loop is split into parts:
    - `PackRounds` is the loop;
    - `Round` is one round: `MakeRoom` (the grow), then `PlaceNext` (the copy, offset store and pop, through `Place`);
    - `Rounds` is the state after some rounds, stated on values; `PackedState` is the same state for a queue object;
    - `Stuck` is the state after a failed grow.
  - `Popped` states the outcome of the whole call.
- `scenarios.dfy` (`Scenarios`): uses of the queue.
  - Two concrete runs: `PushThreePopThree` and `StaleCountAfterPopMulti`.
  - Concrete lemmas about `Popped`: `OneItemFits`, `OneItemPopped`, `NoMemoryPopsNothing` and its helper `NoMemoryFits`.
  - Methods over any queue: `PushPacked` (`push_multi` along offsets that cut the buffer into C strings) and `Requeue` (`pop_multi` followed by `push_multi`).
  - The lemma `AllTaken`.

Things the model takes as parameters or oracles:

- **Allocation.** `malloc` and `realloc` succeed exactly when they ask for at most `memLimit` bytes.
- **Page size.** `sysconf(_SC_PAGESIZE)` is the parameter `pageSize`.
- **File calls in `write`.** `fopen`, `fprintf` and `fclose` become three oracle arguments:
  - whether the open succeeds;
  - the index of the first line whose write fails;
  - whether the close succeeds.

  The method returns the text that reaches the file.

Behaviours worth knowing:

- **Line order of `write`.** `write` emits the deque front to back, which is newest first. Re-pushing the lines in file order reverses the queue (`Checkpoint.RestoreReversesOrder`).
- **`push_multi` bounds.** `push_multi` checks no bounds on the offsets it is given. `PushMulti` therefore requires offsets that fit the buffer.
- **`count` after `pop_multi`.** `pop_multi` never re-sets `count` (see Findings). `push` and `push_multi` re-set it from the deque, whatever it was before.

## Model

| member | source | states |
|---|---|---|
| MyQueue.Queue.constructor | libcircle/myqueue.cpp:15-27 | a new queue has no items, count 0, a NULL buffer and size 0, and satisfies the count invariant |
| MyQueue.Free | libcircle/myqueue.cpp:29-48 | a NULL queue gives -1; otherwise 1, with the deque emptied, count and size 0, and the buffer released |
| MyQueue.Queue.Push | libcircle/myqueue.cpp:50-64 | a NULL string gives -1 and changes nothing; otherwise 1, and the C string of the argument becomes the new front; count is re-set from the deque whatever it was, so the count invariant holds afterwards; the buffer is untouched |
| MyQueue.Queue.Pop | libcircle/myqueue.cpp:66-95 | an empty queue or NULL buffer gives -1 and changes nothing; otherwise 1, the oldest item and a NUL are copied to the caller's buffer with the rest of it untouched, and only that item is removed, with count re-set |
| MyQueue.Queue.PeekSize | libcircle/myqueue.cpp:97-122 | -1 on an empty queue; otherwise 1 and the length of exactly the item `Pop` would return, with no state change |
| MyQueue.Queue.Write | libcircle/myqueue.cpp:176-211 | an empty queue gives 0 and no text; a failed open gives -1; a failed line gives -1 after the earlier lines, with the queue kept; otherwise every item is written front to back as a line, the queue is drained and the result is fclose's |
| Checkpoint.EncodeLinesSnoc | libcircle/myqueue.cpp:196-204 | writing one more item appends exactly that item and a newline to the text |
| Checkpoint.SplitEncode | libcircle/myqueue.cpp:196-204 | the checkpoint text of newline-free items splits back into exactly those items |
| Checkpoint.RestoreReversesOrder | libcircle/myqueue.cpp:196-204 | re-pushing the written lines in file order yields the original deque reversed, so it pops the items newest first, the reverse of the order the original popped them |
| Growth.GrowSize | libcircle/myqueue.cpp:219-221 | the growth loop ends at `GrownSize` of its inputs |
| Growth.GrownSizeSpec | libcircle/myqueue.cpp:219-221 | the grown size reaches the target, never shrinks, adds a whole number of steps, is the smallest such size, and is unchanged when the target is already met |
| Growth.GrownSizeCompose | libcircle/myqueue.cpp:246-248 | growing towards a smaller target and then a larger one equals growing straight to the larger one |
| Growth.GrownSizeMonotone | libcircle/myqueue.cpp:246-248 | a larger request never yields a smaller size |
| Growth.GrownSizeIdempotent | libcircle/myqueue.cpp:246-248 | a second request no larger than the first leaves the size as it is |
| MyQueue.Queue.Extend | libcircle/myqueue.cpp:213-238 | the result is 0 exactly when the grown size fits the memory; on success a fresh buffer of the grown size (at least the request and at least the old size); on failure a NULL buffer with the size kept |
| MyQueue.Queue.ExtendRealloc | libcircle/myqueue.cpp:240-259 | same size rule, and on success the first old-size bytes of the old buffer are kept; on failure the buffer is NULL and the size kept |
| MyQueue.Queue.Reserve | libcircle/myqueue.cpp:271-278 | the grow happens only when the buffer is short; success exactly when the grow fits; on success the buffer holds the need, keeps its old bytes as a prefix, never shrinks, and is NULL exactly when it was NULL and did not grow; on failure it is NULL with the size kept |
| MyQueue.Queue.CopyIn | libcircle/myqueue.cpp:279 | the copy writes the item right after the first `cur` bytes and keeps the bytes before and after it |
| MyQueue.Queue.Place | libcircle/myqueue.cpp:279-284 | one round's copy, offset store and `pop_back`: the packed prefix grows by the item, its end offset is recorded at index i, the oldest item is removed, and the buffer beyond the item and the later offsets are untouched |
| MyQueue.Queue.MakeRoom | libcircle/myqueue.cpp:269-278 | the grow of a round: when the room for the next oldest item is had, the state is `PackedState` with the buffer grown just far enough for that item's end; otherwise it is `Stuck`, with the buffer NULL and nothing else changed |
| MyQueue.Queue.PlaceNext | libcircle/myqueue.cpp:269-284 | the rest of a round, once there is room: the state moves to `PackedState` one round on, and the packed length grows by exactly the next oldest item's length |
| MyQueue.Queue.Round | libcircle/myqueue.cpp:268-284 | one loop round takes the next oldest item and either reaches the `PackedState` state one round on, or ends in the `Stuck` state of a failed grow |
| MyQueue.RoundPlaced | libcircle/myqueue.cpp:279-284 | the copy, offset store and pop of round i turn the state after i rounds into the state after i + 1 rounds |
| MyQueue.RoundsStart | libcircle/myqueue.cpp:267-268 | before the first round nothing is popped, packed or indexed, and the buffer has not grown |
| MyQueue.Queue.PackRounds | libcircle/myqueue.cpp:267-285 | the loop runs all `min(count, size)` rounds and ends in `PackedState`, or stops at the round whose grow failed, in `Stuck` |
| MyQueue.OldestNext | libcircle/myqueue.cpp:268-269 | round i takes the back of what remains, which is item i of the oldest-first sequence of taken items |
| MyQueue.PackedAfterPack | libcircle/myqueue.cpp:279-280 | the bytes packed after i rounds are the first i taken items back to back |
| MyQueue.IndexAfterOffsets | libcircle/myqueue.cpp:280-282 | the offsets recorded after i rounds are the cumulative end offsets of the first i taken items |
| MyQueue.AfterRounds | libcircle/myqueue.cpp:267-285 | after i rounds the packed bytes and offsets are `Pack` and `Offsets` of the first i items, within the total of all taken items |
| MyQueue.AfterRoundsBound | libcircle/myqueue.cpp:271 | the size requested in any round never exceeds the total of the taken items |
| MyQueue.GrowOn | libcircle/myqueue.cpp:271-278 | two successive grows equal one grow to the later need, and stay within memory if each did |
| MyQueue.GrowFailurePersists | libcircle/myqueue.cpp:271-277 | a grow that failed part way would also fail when growing straight to the full total |
| MyQueue.GrowFitsReached | libcircle/myqueue.cpp:271-278 | a buffer that reached the total without a failed allocation means the grow to the total fits |
| MyQueue.PoppedAll | libcircle/myqueue.cpp:267-290 | a call that completed every round ends as `Popped` says: oldest items removed, packed, indexed, with the total returned, and the buffer NULL exactly when it was NULL and never grew |
| MyQueue.PoppedPart | libcircle/myqueue.cpp:271-277 | a call whose grow failed in round i ends as `Popped` says: 0 returned, buffer NULL, exactly the i items popped so far lost, the size grown for their running total, which fits while the total with item i does not, their offsets recorded and the offsets from i on untouched |
| MyQueue.FailedRound | libcircle/myqueue.cpp:271-277 | a grow that fails in round i fits the running total before that round and fails both at the running total with item i and at the total of all taken items |
| MyQueue.GrowFitsSmaller | libcircle/myqueue.cpp:271-278 | a grow that fits a target fits every smaller target |
| MyQueue.PrefixTotal | libcircle/myqueue.cpp:271 | the running total of a shorter prefix of the taken items is at most that of a longer one |
| MyQueue.PoppedDetermined | libcircle/myqueue.cpp:261-291 | the outcome of `pop_multi` is determined by its inputs: any two outcomes `Popped` allows agree on the deque, the size, whether the buffer is NULL, the offsets and the result; a failed grow loses exactly the items before the first round whose running total does not fit |
| MyQueue.Queue.PopMultiAsWritten | libcircle/myqueue.cpp:261-291 | `pop_multi` as written: the outcome is `Popped` for the state before and after, with `count` unchanged; on success the taken items are removed, packed and indexed and their total returned, and the buffer is NULL exactly when it was NULL before and did not have to grow; on a failed grow 0 is returned and exactly the items before the failing round are lost |
| MyQueue.Queue.PopMulti | libcircle/myqueue.cpp:261-291 | the same exact outcome as `PopMultiAsWritten`, with count re-set so that the count invariant holds afterwards |
| MyQueue.PoppedPacked | libcircle/myqueue.cpp:279-282 | after a `pop_multi` that got its memory, the offsets fit and are non-decreasing; they cut the buffer into exactly the taken items, oldest first; the result is the last offset (0 if none); and pushing the cut items onto any deque pops them after it, in taken order |
| MyQueue.Queue.PushSlice | libcircle/myqueue.cpp:298-310 | one round pushes the C string of item i of the buffer, reaching the next `Pushing` state |
| MyQueue.Queue.PushMulti | libcircle/myqueue.cpp:293-314 | returns 1, keeps the buffer, pushes, in index order, the C string of each slice the first `count` offsets delimit, and re-sets count from the deque when it pushed at all |
| Packing.PushedFromUnpack | libcircle/myqueue.cpp:297-311 | i rounds of `push_multi` push the C strings of the first i unpacked slices, in order |
| Packing.PushedFromAll | libcircle/myqueue.cpp:297-311 | all rounds push all the unpacked slices, in order |
| Packing.CutSlice | libcircle/myqueue.cpp:298-303 | item i of the buffer is the slice from the previous end offset (0 for the first item) up to its own |
| Packing.OffsetsSnoc | libcircle/myqueue.cpp:280-282 | packing one more item appends its end offset, the running total plus its length |
| Packing.PackSlice | libcircle/myqueue.cpp:279-282 | item i of the packed buffer sits exactly between the previous end offset and its own |
| Packing.PackOffsetsFit | libcircle/myqueue.cpp:280-282 | the recorded offsets start at or above 0, never decrease, and never pass the packed total |
| Packing.UnpackPack | libcircle/myqueue.cpp:279-282 | unpacking along the recorded offsets gives back exactly the packed items |
| Packing.PackedTransfer | libcircle/myqueue.cpp:296-313 | NUL-free packed items, unpacked and pushed onto any deque, pop after it in their packed order |
| Packing.PackedResult | libcircle/myqueue.cpp:290 | with a buffer and offsets that begin with the packing, the result is the last offset (0 for none) and the cut items are the packed ones |
| Packing.TotalLenPrefix | libcircle/myqueue.cpp:280 | the total length of any prefix of the items is at most the total of all |
| Packing.PackPrefix | libcircle/myqueue.cpp:279 | packing a prefix of the items gives a prefix of the packed buffer |
| Fifo.FifoOrder | libcircle/myqueue.cpp:60 | items pushed at the front pop after everything already queued, in the order they were pushed |
| Fifo.ReverseAt | libcircle/myqueue.cpp:86 | the k-th item to pop is the k-th from the back |
| Fifo.ReverseSnoc | libcircle/myqueue.cpp:91 | the item at the back pops first |
| Fifo.ReverseReverse | libcircle/myqueue.cpp:60 | reversing the pop order twice gives the deque back |
| Bytes.CString | libcircle/myqueue.cpp:60 | `std::string(str)` keeps the bytes before the first NUL: the result has no NUL, is a prefix of the input, is followed by a NUL when shorter, and is the whole input when that has no NUL |
| Bytes.CStrings | libcircle/myqueue.cpp:305-306 | the C strings of NUL-free items are the items themselves |
| MyQueue.ReverseNulFree | libcircle/myqueue.h:7-12 | the items taken from a queue of C strings are C strings |
| Scenarios.PushThreePopThree | libcircle/myqueue.cpp:50-122 | pushes of A, B, C followed by three pops return A, B, C, and the first peek sees A's length |
| Scenarios.StaleCountAfterPopMulti | libcircle/myqueue.cpp:284-290 | `pop_multi` as written, taking the only item, leaves count 1 over an empty deque; the next `push` re-sets count to 1 for its one item |
| Scenarios.OneItemPopped | libcircle/myqueue.cpp:268-290 | `pop_multi(1)` on a fresh one-item queue with room for one step takes the item, returns its length and leaves a live buffer of one step |
| Scenarios.OneItemFits | libcircle/myqueue.cpp:268-280 | `pop_multi(1)` on a queue holding only one one-byte item takes that item, one byte in all |
| Scenarios.NoMemoryPopsNothing | libcircle/myqueue.cpp:268-277 | with no memory at all, `pop_multi(2)` on a two-item queue fails its first grow: nothing is popped, 0 is returned, the size stays 0 and no offset is written |
| Scenarios.NoMemoryFits | libcircle/myqueue.cpp:219-221 | with no memory, a grow fits exactly when its target is 0 |
| Scenarios.PushPacked | libcircle/myqueue.cpp:293-314 | `push_multi` along offsets that cut the buffer into C strings queues those strings behind everything already queued, in index order, and leaves the buffer and its size alone |
| Scenarios.AllTaken | libcircle/myqueue.cpp:268 | when `pop_multi` may take every item, nothing is left and the taken items are the whole pop order |
| MyQueue.OldestAll | libcircle/myqueue.cpp:268-269 | taking all the items, oldest first, gives the whole pop order |
| Scenarios.Requeue | libcircle/myqueue.cpp:261-314 | `pop_multi` then `push_multi` with its offsets moves the taken items to the back of the pop order, in taken order; a queue whose items are all taken keeps its pop order; a NULL buffer afterwards has size 0, so the queue can be passed to `pop_multi` again |

## Left out

- `CIRCLE_internal_queue_read` is not part of this model. Its control flow is defective:
  - it returns -1 when the file does open;
  - its `eof()` loop never ends when the file did not open;
  - it pushes a trailing empty line.

  `Checkpoint.SplitLines` is only an idealised reference reader for the written text.
- File I/O in `write`: the file name, `fopen`, `fprintf` and `fclose` are oracle arguments.
- MyQueue.Queue.Write: the partial output of a line whose `fprintf` fails is not modelled; the returned text stops before that line.
- Logging (`LOG`) has no effect on the queue and is left out.
- The NULL tests on `qp` in `pop` and `peek_size`, and the NULL size pointer of `peek_size`, are not modelled. A Dafny receiver is never null. `free` keeps its NULL test (`MyQueue.Free`); the remaining modelled functions use `qp` untested.
- The `void*` handle cast and the shrink-to-fit swap after `pop_multi` have no effect on contents. The shrink is a no-op in the model.
- `size_t` overflow in the growth loops is not modelled: sizes are unbounded naturals.
- MyQueue.Queue.PopMulti requires the packed total to fit an `int32_t`. The source's `int32_t` offsets would otherwise overflow. The same precondition is on MyQueue.Queue.PopMultiAsWritten.
- MyQueue.Queue.Push: the `int32_t` cast of the deque size into `count` is not modelled; `count` is an unbounded integer.
- MyQueue.Queue.Pop: requires the caller's buffer `str` to hold the oldest item and its NUL. `pop` copies without checking the length.
- MyQueue.Queue.Pop, MyQueue.Queue.PeekSize and MyQueue.Queue.Write require the count invariant. These C functions test `count`, not the deque, so a stale `count` would send them down a different branch (see Findings).
- MyQueue.Queue.Push and MyQueue.Queue.PushMulti require of the queue only that its items are C strings and that `bytes` is the size of a live buffer; PushMulti also requires offsets that fit the buffer. MyQueue.Queue.PopMulti requires the same of the queue, plus an `offsets` array long enough for the items it takes and the buffer and `int32_t` conditions below. None of them reads `count`.
- The bytes a fresh `malloc` or `realloc` returns beyond the copied prefix are unspecified in C. In Dafny they are whatever the new array holds, and no contract depends on them.
- MyQueue.Queue.PopMultiAsWritten, MyQueue.Queue.PopMulti and Scenarios.Requeue require that the buffer not be NULL with a non-zero size. A failed grow leaves that state. From it, `pop_multi` writes through NULL when the first non-empty item it takes fits in the stale `bytes` (lines 271 and 279 of `libcircle/myqueue.cpp`). When that item does not fit, `realloc(NULL, ...)` at line 250 allocates a fresh buffer, and when nothing is taken nothing is written. The precondition excludes those inputs too.
- Allocation failure is modelled by a fixed memory bound `memLimit`, not by an arbitrary allocator.
- The concrete value of `sysconf(_SC_PAGESIZE)` is the parameter `pageSize > 0`.
- Concurrency: the queue is used by one thread per process, and none is modelled.

## Findings

| source | as written | input that shows it | evidently intended | confidence | as-written member | corrected member |
|---|---|---|---|---|---|---|
| libcircle/myqueue.cpp:284-290 | `pop_multi` removes items with `pop_back` but never re-sets `qp->count`, unlike every other mutator (lines 61, 92, 207) | a queue holding one item, `pop_multi(qp, 1, offsets)`: the deque is empty but `count` stays 1, so a following `pop` or `peek_size` passes the `count < 1` test and reads `back()` of an empty deque (Scenarios.StaleCountAfterPopMulti) | `count` re-set to the deque size after the loop, keeping `count` equal to the number of queued strings | not executed | MyQueue.Queue.PopMultiAsWritten | MyQueue.Queue.PopMulti |
