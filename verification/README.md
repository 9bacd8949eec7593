# fio, Himeno and mysqrt: a verified model

Dafny models of the parts of the repository that carry state through loops and over many calls, and proofs of what
they keep. Most of them belong to fio 2.1.7; two are small numeric programs.

| module | models |
|---|---|
| `Common` | option type, minimum, maximum, sizes of subsets |
| `Bits` | machine words as natural numbers, their bits, masks and shifts |
| `Scan`, `Smalloc`, `SmallocPools` | the bitmap allocator for shared memory: where its scan finds room, one pool, and the pools together |
| `IoUQueue`, `IoUnits` | the free stack and the requeue ring, and the life cycle of I/O units and files built on them |
| `IoEngine` | handing units to the I/O engine, the counters kept of them, and completions |
| `DoIo` | the main loop over both: units between the job's containers and the engine |
| `LatTarget` | the controller that searches for the largest queue depth within the latency target |
| `Mutex` | the semaphore as a system of steps |
| `Backend` | launcher, reaper and jobs as a system of steps, with stonewalls |
| `Flow` | the shared flow counter and the list of flows |
| `Fifo`, `Blktrace` | the byte ring with free-running indices, and the trace reader on top of it |
| `Flist`, `FileHash`, `Hash` | intrusive lists, the chained hash of files on top of them, and the hash functions |
| `IoLog` | the history of writes: search tree and list |
| `Distance` | the edit distance and the closest-option search |
| `Himeno` | the Jacobi solver over exact reals and grids of any size |
| `Mysqrt` | the integer Newton square root |

`dafny verify dfyconfig.toml` checks the project.

What the code updates in place is a class with the same fields; every method is proved against its effect on a ghost
view of the object (the live allocations of a pool, the sequence in a ring, the map a hash stands for), and the
invariants of the classes are what holds in every reachable state. Code whose point is its interleavings (`Mutex`,
`Backend`, `Flow`) is a set of steps, with theorems over every sequence of them. 32-bit and 64-bit wrap-around is
written out wherever a value can reach it.

Where a property one would expect does not hold of the code, the code is kept and the exact condition proved:

- the latency search never ends when the threshold is iodepth - 1 (`LatTarget.FindsThreshold`), and its bounds fail for
  depths from 2^31 on (`LatTarget.BoundsIff`);
- the count of units in flight is exact, and quiescing drains the engine, only while nothing waits for a commit and no
  sync has been queued (`IoEngine.Submission.InFlightExactIff`, `IoEngine.Submission.Quiesce`, `IoEngine.InFlightWraps`);
- a unit put back after an empty transfer or a refusal keeps its FLIGHT flag and fails an assertion when it is handed out
  again (`IoEngine.Submission.AssertionHoldsIff`, `IoEngine.EmptyReadSpoils`). For the loop to come to that turn,
  `continue_on_error` must cover the error (`backend.c:355-399`); the clean-up when a job ends does not need it, and
  would put back such a unit a second time if the engine cancels it (`DoIo.PutSafeIff`, `DoIo.CancelSafeIff`);
- the allocator's scan for n blocks misses some free runs. The runs it cannot miss are those of at least 1 block for
  n = 1, n + 64 for n from 2 to 31, and 2n - 2 from 32 on (`Scan.CertainIff`, `Scan.LeastPortable`), and what the
  allocator promises is stated for exactly those lengths;
- as a general semaphore the mutex can lose a wake-up (`Mutex.WakeupLostIff`), unless its value never exceeds 1
  (`Mutex.SafeIff`);
- the ring's full test is not masked, so a full ring can pass it; only the ring's size keeps that from happening
  (`IoUQueue.Ring.FullTestMissesWrap`);
- a trace payload longer than the fifo cannot be skipped (`Blktrace.FifoWalkIsDirectIff`);
- a pool for a request whose sizes wrap 32 bits is too small (`SmallocPools.PoolFitsIffNoWrap`), and such a request adds
  pools in vain (`SmallocPools.Allocator.Smalloc`);
- `mysqrt` is one too high for some numbers one below a square (`Mysqrt.ResultIsRoot`). What a caller can check before the
  call is sufficient only: the result is the root unless the number is one below a square. Which of those come out wrong
  is decided by the parity of the round in which the root comes up.

## Model

| member | source | states |
|---|---|---|
| `Smalloc.Layout` | I_benchmark/13-fio/fio_2.1.7/fio-2.1.7/smalloc.c:254-271 | for every size, header (with its pre-redzone), payload and post-redzone follow one another without overlap inside the blocks of the allocation |
| `Smalloc.MaskBits` | I_benchmark/13-fio/fio_2.1.7/fio-2.1.7/smalloc.c:117-121 | bit j of the mask is set exactly when idx <= j < idx + n, the full word included |
| `Smalloc.MaskClear` | I_benchmark/13-fio/fio_2.1.7/fio-2.1.7/smalloc.c:135-138 | `*map & mask` is zero exactly when none of the n bits from idx on is set |
| `Smalloc.MaskFull` | I_benchmark/13-fio/fio_2.1.7/fio-2.1.7/smalloc.c:140-145 | `(*map & mask) == mask` exactly when all of them are set |
| `Smalloc.SetMaskBits` | I_benchmark/13-fio/fio_2.1.7/fio-2.1.7/smalloc.c:147-152 | `&#124;= mask` sets those bits and keeps every other |
| `Smalloc.ClearMaskBits` | I_benchmark/13-fio/fio_2.1.7/fio-2.1.7/smalloc.c:140-145 | `&= ~mask` clears those bits and keeps every other |
| `Smalloc.BlockAt` | I_benchmark/13-fio/fio_2.1.7/fio-2.1.7/smalloc.c:315-317 | dividing an offset by 1024 and 32 gives back the word and bit of block p |
| `Smalloc.TakenAdd` | I_benchmark/13-fio/fio_2.1.7/fio-2.1.7/smalloc.c:160-164 | a run apart from the others adds exactly its n blocks to those taken |
| `Smalloc.TakenRemove` | I_benchmark/13-fio/fio_2.1.7/fio-2.1.7/smalloc.c:166-170 | taking a run away leaves exactly the other blocks, n fewer |
| `Smalloc.Pool.ApplyMask` | I_benchmark/13-fio/fio_2.1.7/fio-2.1.7/smalloc.c:135-152 | the callbacks change exactly the n bits of one word; under the stated conditions their assertions hold |
| `Smalloc.Pool.BlocksIter` | I_benchmark/13-fio/fio_2.1.7/fio-2.1.7/smalloc.c:99-133 | over a run that may straddle words: comparing says whether the whole run exists and is free and changes nothing; setting and clearing change exactly the blocks of the run; the loop ends |
| `Smalloc.Pool.FindNextZero` | I_benchmark/13-fio/fio_2.1.7/fio-2.1.7/smalloc.c:172-177 | the least clear position at or above `start`; only when there is none, whatever `ffz` of all ones leads to |
| `Smalloc.Pool.BlocksFree` | I_benchmark/13-fio/fio_2.1.7/fio-2.1.7/smalloc.c:154-158 | says whether the run is free; from a position past the word, where 32- and 64-bit sums wrap, the answer is no |
| `Scan.FoundIsFree` | I_benchmark/13-fio/fio_2.1.7/fio-2.1.7/smalloc.c:368-396 | what the scan finds is a free run from where it started |
| `Scan.CertainIff` | I_benchmark/13-fio/fio_2.1.7/fio-2.1.7/smalloc.c:368-396 | free runs of which lengths the scan for n blocks is certain to serve, in every pool, from every starting word and for every `ffz` of all ones up to b: exactly those of `Least(n, b)` blocks and more |
| `Scan.LeastPortable` | I_benchmark/13-fio/fio_2.1.7/fio-2.1.7/smalloc.c:368-396 | with the portable `ffz` that length is 1 for n = 1, n + 64 for n from 2 to 31, and 2n - 2 from 32 on |
| `Scan.LongRunFound` | I_benchmark/13-fio/fio_2.1.7/fio-2.1.7/smalloc.c:368-396 | a run of that length that the scan has not passed is not missed |
| `Scan.NextAhead` | I_benchmark/13-fio/fio_2.1.7/fio-2.1.7/smalloc.c:378-392 | stepping on from a candidate that fails does not pass such a run |
| `Scan.FullAhead` | I_benchmark/13-fio/fio_2.1.7/fio-2.1.7/smalloc.c:371-376 | stepping over a full word does not pass such a run |
| `Scan.RunMissed` | I_benchmark/13-fio/fio_2.1.7/fio-2.1.7/smalloc.c:378-392 | for every n from 2 on some pool has a free run of 2n - 3 blocks that is missed, whatever `ffz` does |
| `Scan.OvershootMisses` | I_benchmark/13-fio/fio_2.1.7/fio-2.1.7/smalloc.c:378-392 | for every n from 2 to 31 and every b from 2 on a run one block shorter than the overshoot of `ffz` asks for is missed |
| `Scan.FfzIrrelevant` | I_benchmark/13-fio/fio_2.1.7/fio-2.1.7/smalloc.c:368-396 | for n = 1 and n from 32 on the result does not depend on `ffz` of all ones at all |
| `Smalloc.Pool.FindRun` | I_benchmark/13-fio/fio_2.1.7/fio-2.1.7/smalloc.c:368-396 | the scan ends with a result that Scan.Find can give for the blocks taken, from the hint on; a run it finds is free |
| `Smalloc.Pool.SetBlocks` | I_benchmark/13-fio/fio_2.1.7/fio-2.1.7/smalloc.c:160-164 | marking a free run adds it to the allocations: bitmap and free count stay those of the allocations |
| `Smalloc.Pool.ClearBlocks` | I_benchmark/13-fio/fio_2.1.7/fio-2.1.7/smalloc.c:166-170 | the same for taking a live allocation away |
| `Smalloc.Pool.NoneTurnedAway` | I_benchmark/13-fio/fio_2.1.7/fio-2.1.7/smalloc.c:361-363 | the check of the free count turns away only what the scan would not find, whatever `ffz` does |
| `Smalloc.Pool.AllServe` | I_benchmark/13-fio/fio_2.1.7/fio-2.1.7/smalloc.c:361-396 | an untouched pool with enough blocks, or a free run of the least length that cannot be missed, is certain to serve |
| `Smalloc.Pool.AllocBlocks` | I_benchmark/13-fio/fio_2.1.7/fio-2.1.7/smalloc.c:351-404 | `__smalloc_pool`: a result the scan can give; the run found is marked and nothing else changed |
| `Smalloc.Pool.WriteHeader` | I_benchmark/13-fio/fio_2.1.7/fio-2.1.7/smalloc.c:254-271 | filling in size and redzones and clearing the payload leaves every allocation elsewhere intact |
| `Smalloc.Pool.SmallocPool` | I_benchmark/13-fio/fio_2.1.7/fio-2.1.7/smalloc.c:406-432 | a pointer to a new allocation of `size` bytes where the scan found room, with the invariant kept, or no change; certain to succeed where the scan cannot miss |
| `Smalloc.Pool.UserWrite` | I_benchmark/13-fio/fio_2.1.7/fio-2.1.7/smalloc.c:254-289 | writes inside the bytes asked for keep every header and redzone |
| `Smalloc.Pool.LivePtrValid` | I_benchmark/13-fio/fio_2.1.7/fio-2.1.7/smalloc.c:87-92 | the header and the pointer of every live allocation lie in the pool |
| `Smalloc.Pool.CheckRedzone` | I_benchmark/13-fio/fio_2.1.7/fio-2.1.7/smalloc.c:273-289 | both redzones of a live allocation are intact, so neither assertion fires |
| `Smalloc.Pool.SfreePool` | I_benchmark/13-fio/fio_2.1.7/fio-2.1.7/smalloc.c:300-326 | freeing a live allocation: no assertion fires, exactly that allocation goes, all invariants stay; a null pointer changes nothing |
| `Smalloc.Pool.MarkedIsOwned` | I_benchmark/13-fio/fio_2.1.7/fio-2.1.7/smalloc.c:99-170 | in every reachable state a bit is set exactly when its block belongs to a live allocation |
| `Smalloc.Pool.AllocationsApart` | I_benchmark/13-fio/fio_2.1.7/fio-2.1.7/smalloc.c:351-432 | in every reachable state live allocations have disjoint bytes, header and redzones included, inside the mapping |
| `Smalloc.Pool.constructor` | I_benchmark/13-fio/fio_2.1.7/fio-2.1.7/smalloc.c:196-205 | a zeroed mapping is a pool with nothing allocated and every block free |
| `Smalloc.Pool.Inspect` | I_benchmark/13-fio/fio_2.1.7/fio-2.1.7/smalloc.c:315-321 | pointer and header lead back to the word, bit and length of the allocation |
| `SmallocPools.PoolFitsIffNoWrap` | I_benchmark/13-fio/fio_2.1.7/fio-2.1.7/smalloc.c:179-202 | a pool sized by `add_pool` in 32 bits holds the request and its bitmap exactly when none of the sums wraps |
| `SmallocPools.PlainPool` | I_benchmark/13-fio/fio_2.1.7/fio-2.1.7/smalloc.c:179-202 | when the rounded size fits 32 bits, only the bitmap behind it can make the sums wrap |
| `SmallocPools.BitmapInsideIff` | I_benchmark/13-fio/fio_2.1.7/fio-2.1.7/smalloc.c:179-202 | the mapping leaves the bitmap outside exactly when the bytes for the blocks fit 32 bits and those for the bitmap make the sum wrap |
| `SmallocPools.MappedIff` | I_benchmark/13-fio/fio_2.1.7/fio-2.1.7/smalloc.c:187-202 | otherwise no bytes at all are mapped exactly when rounding up wraps |
| `SmallocPools.Allocator.AddPool` | I_benchmark/13-fio/fio_2.1.7/fio-2.1.7/smalloc.c:179-220 | a new empty pool apart from all others, certain to serve the request if its size does not wrap, or no change |
| `SmallocPools.Allocator.TryFrom` | I_benchmark/13-fio/fio_2.1.7/fio-2.1.7/smalloc.c:444-452 | the inner loop: at most one pool gains one allocation; if none does, no pool from there on had room the scan cannot miss |
| `SmallocPools.Allocator.Smalloc` | I_benchmark/13-fio/fio_2.1.7/fio-2.1.7/smalloc.c:434-471 | terminates for every size; changes at most one pool, never one before last_pool; adds at most one pool and succeeds whenever one may be added, if the size does not wrap; if it wraps, returns null and adds as many pools as it can, or none; a failure means that no pool searched had room the scan cannot miss |
| `SmallocPools.Allocator.Round` | I_benchmark/13-fio/fio_2.1.7/fio-2.1.7/smalloc.c:443-465 | one round of the loop: a pass, then the reset of last_pool, a new pool, or the end |
| `SmallocPools.Allocator.TooLarge` | I_benchmark/13-fio/fio_2.1.7/fio-2.1.7/smalloc.c:361-363 | a request whose pool size wraps fits no pool at all |
| `SmallocPools.Allocator.OnlyOne` | I_benchmark/13-fio/fio_2.1.7/fio-2.1.7/smalloc.c:87-92 | no address is valid in two pools |
| `SmallocPools.Allocator.Sfree` | I_benchmark/13-fio/fio_2.1.7/fio-2.1.7/smalloc.c:328-349 | the search by address ends at the owning pool, which loses exactly that allocation; a null pointer changes nothing |
| `IoUQueue.Stack.Push` | I_benchmark/13-fio/fio_2.1.7/fio-2.1.7/io_u_queue.h:21-24 | the unit goes on top, given room |
| `IoUQueue.Stack.Pop` | I_benchmark/13-fio/fio_2.1.7/fio-2.1.7/io_u_queue.h:13-19 | the top unit, or null exactly when empty |
| `IoUQueue.RingSize` | I_benchmark/13-fio/fio_2.1.7/fio-2.1.7/io_u_queue.c:19-38 | the rounding gives the least power of two of at least nr + 1 below 2^31, and wraps to zero from there on |
| `IoUQueue.Smear` | I_benchmark/13-fio/fio_2.1.7/fio-2.1.7/io_u_queue.c:23-33 | or-ing shifted copies fills in every bit below the top one |
| `IoUQueue.Ring.constructor` | I_benchmark/13-fio/fio_2.1.7/fio-2.1.7/io_u_queue.c:19-38 | an empty ring with more slots than units |
| `IoUQueue.Ring.Push` | I_benchmark/13-fio/fio_2.1.7/fio-2.1.7/io_u_queue.h:47-56 | first in, first out: the unit joins the end; the `assert(0)` is not reached while a slot stays free |
| `IoUQueue.Ring.Pop` | I_benchmark/13-fio/fio_2.1.7/fio-2.1.7/io_u_queue.h:58-68 | the oldest unit, or null exactly when empty |
| `IoUQueue.Ring.FullTest` | I_benchmark/13-fio/fio_2.1.7/fio-2.1.7/io_u_queue.h:47-56 | the unmasked test reports a full ring exactly when it is full and its tail is not at slot 0 |
| `IoUQueue.Ring.FullTestMissesWrap` | I_benchmark/13-fio/fio_2.1.7/fio-2.1.7/io_u_queue.h:47-56 | a full ring with its tail at slot 0 passes the test, and one more push would make it look empty |
| `IoUnits.ThreadData.constructor` | I_benchmark/13-fio/fio_2.1.7/fio-2.1.7/backend.c:960-1075 | all units start on the free stack, the ring is large enough for all of them |
| `IoUnits.ThreadData.DepthIsWhatIsOut` | I_benchmark/13-fio/fio_2.1.7/fio-2.1.7/io_u.c:689-732 | cur_depth = units - free - requeued in every reachable state |
| `IoUnits.ThreadData.CarriersKeepOpen` | I_benchmark/13-fio/fio_2.1.7/fio-2.1.7/filesetup.c:1276-1304 | a file that some unit carries is open: the real close never happens before |
| `IoUnits.ThreadData.PopIdle` | I_benchmark/13-fio/fio_2.1.7/fio-2.1.7/io_u.c:1298-1315 | the oldest requeued unit first, else the top of the free stack if the depth allows |
| `IoUnits.ThreadData.GetIoU` | I_benchmark/13-fio/fio_2.1.7/fio-2.1.7/io_u.c:1298-1338 | moves exactly one unit to the holders, null exactly when nothing is requeued and the queue is full; the FREE assertion holds |
| `IoUnits.ThreadData.PutFile` | I_benchmark/13-fio/fio_2.1.7/fio-2.1.7/filesetup.c:1276-1304 | drops one reference; the last one closes and counts the file out |
| `IoUnits.ThreadData.DropFile` | I_benchmark/13-fio/fio_2.1.7/fio-2.1.7/io_u.c:691-697 | the unit gives up its file and its reference, every file stays in order |
| `IoUnits.ThreadData.PutIoU` | I_benchmark/13-fio/fio_2.1.7/fio-2.1.7/io_u.c:689-704 | file reference dropped, unit on top of the free stack, partition and counts kept; the stack never overflows |
| `IoUnits.ThreadData.RequeueIoU` | I_benchmark/13-fio/fio_2.1.7/fio-2.1.7/io_u.c:712-732 | the unit keeps its file and joins the end of the ring; the ring is never full |
| `IoUnits.ThreadData.ClearIoU` | I_benchmark/13-fio/fio_2.1.7/fio-2.1.7/io_u.c:706-710 | as a put, with FLIGHT cleared |
| `IoUnits.ThreadData.OpenFile` | I_benchmark/13-fio/fio_2.1.7/fio-2.1.7/ioengines.c:407-486 | on success one reference, open, counted; on failure nothing changed |
| `IoUnits.ThreadData.CloseFile` | I_benchmark/13-fio/fio_2.1.7/fio-2.1.7/ioengines.c:488-504 | closes now exactly when no unit carries the file, else with the last carrier; each open is closed once |
| `IoUnits.ThreadData.AssignFile` | I_benchmark/13-fio/fio_2.1.7/fio-2.1.7/filesetup.c:1269-1274 | one more carrier is one more reference |
| `IoUnits.ThreadData.TryFile` | I_benchmark/13-fio/fio_2.1.7/fio-2.1.7/io_u.c:1020-1050 | takes a usable file, opening it if need be, gives up at the limit, or passes over; a file it opened is never closed again |
| `IoUnits.ThreadData.GetNextFileRR` | I_benchmark/13-fio/fio_2.1.7/fio-2.1.7/io_u.c:1010-1060 | ends within one round; only the returned file changes; no file is returned only if none was usable |
| `IoUnits.ThreadData.GetNextFile` | I_benchmark/13-fio/fio_2.1.7/fio-2.1.7/io_u.c:1062-1101 | stays with the current file while it is to be used again; otherwise a usable file, none only if no file is left, or an error at the limit of open files; only the returned file changed |
| `IoUnits.ThreadData.SetIoUFile` | I_benchmark/13-fio/fio_2.1.7/fio-2.1.7/io_u.c:1115-1140 | ends, because each further round marks one more file done; the unit ends up with an open, not closing file, and without one only if nothing is left or too many files are open |
| `IoUnits.ThreadData.FileDone` | I_benchmark/13-fio/fio_2.1.7/fio-2.1.7/io_u.c:1127-1135 | the reference is given back, the file marked closing and done |
| `IoUnits.ThreadData.Prepare` | I_benchmark/13-fio/fio_2.1.7/fio-2.1.7/io_u.c:1452-1528 | a unit that cannot be completed goes back to the free stack with its reference |
| `IoUnits.ThreadData.NextIoU` | I_benchmark/13-fio/fio_2.1.7/fio-2.1.7/io_u.c:1436-1528 | what is returned is held and carries an open file; otherwise every unit is back where it may be taken from; held units keep their files |
| `IoEngine.Submission.AssertionHoldsIff` | I_benchmark/13-fio/fio_2.1.7/fio-2.1.7/ioengines.c:272-273 | a unit not in the engine meets the FLIGHT assertion of `td_io_queue` exactly when no attempt with it has come out empty or refused |
| `IoEngine.Submission.SumExactIff` | I_benchmark/13-fio/fio_2.1.7/fio-2.1.7/backend.c:627-638 | io_u_queued + io_u_in_flight is the number of units in the engine exactly while no sync has been queued (but for multiples of 2^32) |
| `IoEngine.Submission.InFlightExactIff` | I_benchmark/13-fio/fio_2.1.7/fio-2.1.7/ioengines.c:381-405 | io_u_in_flight alone is the number of units in the engine exactly when what waits for a commit and the syncs queued add up to nothing (modulo 2^32) |
| `IoEngine.Submission.Commit` | I_benchmark/13-fio/fio_2.1.7/fio-2.1.7/ioengines.c:381-405 | what waits becomes in flight, in 32 bits |
| `IoEngine.Submission.Issue` | I_benchmark/13-fio/fio_2.1.7/fio-2.1.7/backend.c:766-838 | for every answer of the engine: where the unit ends up, the counters, the FLIGHT flag, and io_issues counting each I/O once however often it is tried |
| `IoEngine.Submission.Keep` | I_benchmark/13-fio/fio_2.1.7/fio-2.1.7/ioengines.c:334-346 | a queued unit is counted if it transfers data, and a full batch is committed |
| `IoEngine.Submission.TryAgain` | I_benchmark/13-fio/fio_2.1.7/fio-2.1.7/io_u.c:712-732 | a requeue takes back the count of the issue |
| `IoEngine.Submission.IoCompleted` | I_benchmark/13-fio/fio_2.1.7/fio-2.1.7/io_u.c:1611-1621 | the FLIGHT assertion of a completion holds |
| `IoEngine.Submission.GetEvents` | I_benchmark/13-fio/fio_2.1.7/fio-2.1.7/ioengines.c:222-263 | what the engine hands back leaves it, and io_u_in_flight drops by as many, in 32 bits |
| `IoEngine.Submission.Quiesce` | I_benchmark/13-fio/fio_2.1.7/fio-2.1.7/io_u.c:536-552 | the engine is drained and the loop left exactly when nothing waits for a commit and no sync has been queued (modulo 2^32); else it is left too early or waits forever |
| `IoEngine.InFlightWraps` | I_benchmark/13-fio/fio_2.1.7/fio-2.1.7/ioengines.c:222-263 | io_u_in_flight can wrap below zero with the engine empty, where Quiesce does not end |
| `IoEngine.EmptyReadSpoils` | I_benchmark/13-fio/fio_2.1.7/fio-2.1.7/backend.c:782-786 | an empty read leaves a unit with FLIGHT set outside the engine |
| `DoIo.InEngine` | I_benchmark/13-fio/fio_2.1.7/fio-2.1.7/backend.c:765-838 | a unit in the engine carries an open file and is on neither container |
| `DoIo.Take` | I_benchmark/13-fio/fio_2.1.7/fio-2.1.7/io_u.c:1436-1528 | taking a unit keeps the joint state of containers and engine |
| `DoIo.PutBack` | I_benchmark/13-fio/fio_2.1.7/fio-2.1.7/backend.c:766-838 | a unit the engine did not queue goes to the end of the ring or the top of the stack, by the answer |
| `DoIo.Turn` | I_benchmark/13-fio/fio_2.1.7/fio-2.1.7/backend.c:683-838 | one turn of the loop: the joint state is kept, the unit is the engine's or back, and the run is aborted exactly when an earlier attempt with the unit came out empty or refused; units given up so far stay outside the engine |
| `DoIo.PutSafeIff` | I_benchmark/13-fio/fio_2.1.7/fio-2.1.7/io_u.c:689-704 | pushing a unit on the free stack leaves every unit in one place exactly if it was held |
| `DoIo.CancelSafeIff` | I_benchmark/13-fio/fio_2.1.7/fio-2.1.7/backend.c:240-268 | every unit that the clean-up of pending I/O would put back is held, exactly if no attempt has come out empty or refused |
| `DoIo.Reap` | I_benchmark/13-fio/fio_2.1.7/fio-2.1.7/io_u.c:1775-1812 | exactly the units the engine hands back leave it and join the free stack; the ring is unchanged |
| `LatTarget.Controller.constructor` | I_benchmark/13-fio/fio_2.1.7/fio-2.1.7/io_u.c:1194-1207 | starts at depth 1, low 1, high iodepth |
| `LatTarget.Controller.Success` | I_benchmark/13-fio/fio_2.1.7/fio-2.1.7/io_u.c:1215-1255 | refines Succeed on all fields |
| `LatTarget.Controller.Failed` | I_benchmark/13-fio/fio_2.1.7/fio-2.1.7/io_u.c:1162-1183 | refines Fail; gives up exactly at depth 1 |
| `LatTarget.Doubling` | I_benchmark/13-fio/fio_2.1.7/fio-2.1.7/io_u.c:1215-1255 | from depth 1 the depth doubles up to 2^31 while every cycle meets the target |
| `LatTarget.StaysInBounds` | I_benchmark/13-fio/fio_2.1.7/fio-2.1.7/io_u.c:1162-1255 | for every series of outcomes, 1 <= low <= qd <= high <= iodepth wherever the search stands, for iodepth below 2^31 |
| `LatTarget.BoundsIff` | I_benchmark/13-fio/fio_2.1.7/fio-2.1.7/io_u.c:1215-1255 | those bounds hold in every reachable state exactly for iodepth from 1 to 2^31 - 1: above that doubling wraps |
| `LatTarget.StepCloser` | I_benchmark/13-fio/fio_2.1.7/fio-2.1.7/io_u.c:1162-1255 | against a threshold every cycle brings the search strictly closer to its end |
| `LatTarget.SearchEnds` | I_benchmark/13-fio/fio_2.1.7/fio-2.1.7/io_u.c:1215-1255 | the search is done after as many cycles as its measure says |
| `LatTarget.SearchCycles` | I_benchmark/13-fio/fio_2.1.7/fio-2.1.7/io_u.c:1215-1255 | with threshold iodepth - 1 it never ends |
| `LatTarget.FindsThreshold` | I_benchmark/13-fio/fio_2.1.7/fio-2.1.7/io_u.c:1162-1255 | the search ends if and only if the threshold is not iodepth - 1, and then at the largest depth that meets the target |
| `Mutex.LockAlways` | I_benchmark/13-fio/fio_2.1.7/fio-2.1.7/mutex.c:128-154 | as a lock, in every interleaving with spurious wake-ups and barging: value + holders = 1, waiters counted, no wake-up lost |
| `Mutex.MutualExclusion` | I_benchmark/13-fio/fio_2.1.7/fio-2.1.7/mutex.c:128-154 | two holders are the same thread |
| `Mutex.FreeLockCanBeTaken` | I_benchmark/13-fio/fio_2.1.7/fio-2.1.7/mutex.c:128-142 | if the lock is free and somebody waits, a waiter can take it at once |
| `Mutex.WakeupLostIff` | I_benchmark/13-fio/fio_2.1.7/fio-2.1.7/mutex.c:128-154 | for the semaphore in general, the exact steps that lose a wake-up |
| `Mutex.SafeIff` | I_benchmark/13-fio/fio_2.1.7/fio-2.1.7/mutex.c:128-154 | every run in which value stays at k or below loses no wake-up, if and only if k is at most 1 |
| `Mutex.BinaryLosesNone` | I_benchmark/13-fio/fio_2.1.7/fio-2.1.7/mutex.c:128-154 | over every run in which value never exceeds 1 no wake-up is lost |
| `Mutex.SemaphoreLosesWakeup` | I_benchmark/13-fio/fio_2.1.7/fio-2.1.7/mutex.c:144-154 | a run in which value never exceeds 2 and that leaves a sleeper behind while a unit is free |
| `Backend.StepKeeps` | I_benchmark/13-fio/fio_2.1.7/fio-2.1.7/backend.c:1607-1951 | every step of launcher, reaper or job keeps the accounting invariant |
| `Backend.RunKeeps` | I_benchmark/13-fio/fio_2.1.7/fio-2.1.7/backend.c:1607-1951 | and so does every interleaving |
| `Backend.LiveJobsCounted` | I_benchmark/13-fio/fio_2.1.7/fio-2.1.7/backend.c:1607-1702 | in every reachable state nr_started is the number of jobs created and not started, nr_running that of jobs started and not reaped, and their sum that of the live jobs |
| `Backend.NobodyQuitsEarly` | I_benchmark/13-fio/fio_2.1.7/fio-2.1.7/backend.c:1890-1903 | td->mutex holds every job back until it is started, so a job found settled has initialized and the branch for jobs that quit earlier is never taken |
| `Backend.NoUnderflow` | I_benchmark/13-fio/fio_2.1.7/fio-2.1.7/backend.c:1607-1702 | no counter is decremented below zero |
| `Backend.StonewallIsABarrier` | I_benchmark/13-fio/fio_2.1.7/fio-2.1.7/backend.c:1821-1825 | when a stonewall job is created every job created before it has been reaped |
| `Backend.FinishedMeansReaped` | I_benchmark/13-fio/fio_2.1.7/fio-2.1.7/backend.c:1713-1951 | when the launcher is finished every job has been reaped |
| `Flow.CounterIsTotal` | I_benchmark/13-fio/fio_2.1.7/fio-2.1.7/flow.c:16-38 | the counter is the sum over the jobs of flow times passes, after any series of checks |
| `Flow.CounterBounded` | I_benchmark/13-fio/fio_2.1.7/fio-2.1.7/flow.c:16-38 | it stays within the largest watermark + &#124;flow&#124; of each side |
| `Flow.CounterFits` | I_benchmark/13-fio/fio_2.1.7/fio-2.1.7/flow.c:16-38 | with 32-bit options the 64-bit counter cannot overflow |
| `Flow.TwoJobsBalance` | I_benchmark/13-fio/fio_2.1.7/fio-2.1.7/flow.c:16-38 | two jobs of opposite sign pass in inverse proportion to their flows, up to a constant |
| `Flow.BothHeldIff` | I_benchmark/13-fio/fio_2.1.7/fio-2.1.7/flow.c:16-38 | two jobs of opposite sign can both be held back, at some value of the counter, exactly if their watermarks add up to -2 or less |
| `Flow.GetsThrough` | I_benchmark/13-fio/fio_2.1.7/fio-2.1.7/flow.c:16-38 | a job that is held back gets through after a bounded number of checks by a job of the other sign |
| `Flow.FioFlow.ThresholdExceeded` | I_benchmark/13-fio/fio_2.1.7/fio-2.1.7/flow.c:16-38 | the check and its effect on the shared counter |
| `Flow.FioFlow.Checks` | I_benchmark/13-fio/fio_2.1.7/fio-2.1.7/flow.c:16-38 | a series of checks brings the shared counter to the value these theorems are about |
| `Flow.FlowList.Get` | I_benchmark/13-fio/fio_2.1.7/fio-2.1.7/flow.c:40-75 | one flow per id, shared by its users, appended with counter 0 when new |
| `Flow.FlowList.Put` | I_benchmark/13-fio/fio_2.1.7/fio-2.1.7/flow.c:77-90 | the flow leaves the list exactly with its last user |
| `Fifo.IndexAdvances` | I_benchmark/13-fio/fio_2.1.7/fio-2.1.7/fifo.c:49-97 | a free-running index that wraps at 2^32 still moves round a power-of-two buffer without a jump |
| `Fifo.MaskIsPositionIff` | I_benchmark/13-fio/fio_2.1.7/fio-2.1.7/fifo.c:49-97 | masking with size - 1 finds the position of every index exactly when the size is a power of two |
| `Fifo.Fifo.constructor` | I_benchmark/13-fio/fio_2.1.7/fio-2.1.7/fifo.c:28-41 | an empty byte queue |
| `Fifo.Fifo.Len` | I_benchmark/13-fio/fio_2.1.7/fio-2.1.7/fifo.h:33-36 | in - out is the number of bytes held, wrapped or not |
| `Fifo.Fifo.Room` | I_benchmark/13-fio/fio_2.1.7/fio-2.1.7/fifo.h:38-41 | size - in + out is the rest |
| `Fifo.Fifo.Put` | I_benchmark/13-fio/fio_2.1.7/fio-2.1.7/fifo.c:49-70 | appends a prefix of length min(len, room) |
| `Fifo.Fifo.Get` | I_benchmark/13-fio/fio_2.1.7/fio-2.1.7/fifo.c:72-97 | takes min(len, used) bytes from the front, copied or discarded |
| `Fifo.Fifo.TakenIsPrefix` | I_benchmark/13-fio/fio_2.1.7/fio-2.1.7/fifo.c:49-97 | over any run the bytes taken are a prefix of the bytes put, the rest is what the fifo holds |
| `Blktrace.TraceFile.Refill` | I_benchmark/13-fio/fio_2.1.7/fio-2.1.7/blktrace.c:18-39 | tops up the fifo and loses no byte |
| `Blktrace.TraceFile.TraceFifoGet` | I_benchmark/13-fio/fio_2.1.7/fio-2.1.7/blktrace.c:44-55 | the next bytes of the file in order, as many as asked for unless the file or one fill runs out |
| `Blktrace.NextRecord` | I_benchmark/13-fio/fio_2.1.7/fio-2.1.7/blktrace.c:387-418 | one turn of the loop takes one record off the walk over the file |
| `Blktrace.ReadRecords` | I_benchmark/13-fio/fio_2.1.7/fio-2.1.7/blktrace.c:387-455 | the loop through the fifo processes exactly the records of the walk over the bytes |
| `Blktrace.HigherLimit` | I_benchmark/13-fio/fio_2.1.7/fio-2.1.7/blktrace.c:60-68 | raising the limit on payloads changes the walk exactly when some payload exceeds the old one |
| `Blktrace.FifoWalkIsDirectIff` | I_benchmark/13-fio/fio_2.1.7/fio-2.1.7/blktrace.c:60-68 | that walk is the direct walk over the file exactly when no payload is longer than 8192 bytes |
| `Blktrace.LoadTrace` | I_benchmark/13-fio/fio_2.1.7/fio-2.1.7/blktrace.c:366-455 | the loaded state is the fold of the records, in order, and balances |
| `Blktrace.FoldBalances` | I_benchmark/13-fio/fio_2.1.7/fio-2.1.7/blktrace.c:232-345 | after any records o.size is the sum of the queued lengths modulo 2^64, and the block sizes are the largest queued |
| `Blktrace.QueueBalances` | I_benchmark/13-fio/fio_2.1.7/fio-2.1.7/blktrace.c:258-345 | one record keeps that balance |
| `Flist.Init` | I_benchmark/13-fio/fio_2.1.7/fio-2.1.7/flist.h:41-44 | a ring of one |
| `Flist.IsEmpty` | I_benchmark/13-fio/fio_2.1.7/fio-2.1.7/flist.h:117-120 | true exactly for a ring of one |
| `Flist.AddBetween` | I_benchmark/13-fio/fio_2.1.7/fio-2.1.7/flist.h:46-54 | a new link between two neighbours: the ring is the old sequence with it inserted, both directions, no repetition |
| `Flist.Add` | I_benchmark/13-fio/fio_2.1.7/fio-2.1.7/flist.h:64-68 | the link comes first |
| `Flist.AddTail` | I_benchmark/13-fio/fio_2.1.7/fio-2.1.7/flist.h:70-74 | the link comes last |
| `Flist.Unlink` | I_benchmark/13-fio/fio_2.1.7/fio-2.1.7/flist.h:83-88 | the neighbours close up, the rest of the ring keeps its order |
| `Flist.Del` | I_benchmark/13-fio/fio_2.1.7/fio-2.1.7/flist.h:96-101 | removed, and its own links null |
| `Flist.DelInit` | I_benchmark/13-fio/fio_2.1.7/fio-2.1.7/flist.h:107-111 | removed, and a ring of its own |
| `Flist.SpliceBetween` | I_benchmark/13-fio/fio_2.1.7/fio-2.1.7/flist.h:122-134 | the entries of one ring, in order, behind the head of another |
| `Flist.SpliceInit` | I_benchmark/13-fio/fio_2.1.7/fio-2.1.7/flist.h:143-150 | the same, and the emptied list is a ring of one; nothing for an empty list |
| `FileHash.Buckets.constructor` | I_benchmark/13-fio/fio_2.1.7/fio-2.1.7/filehash.c:102-111 | 512 empty rings |
| `FileHash.Bucket` | I_benchmark/13-fio/fio_2.1.7/fio-2.1.7/filehash.c:16-19 | every name has one of the 512 buckets |
| `FileHash.FileHash.constructor` | I_benchmark/13-fio/fio_2.1.7/fio-2.1.7/filehash.c:102-111 | the empty map |
| `FileHash.FileHash.Lookup` | I_benchmark/13-fio/fio_2.1.7/fio-2.1.7/filehash.c:34-52 | the walk along the bucket ends and finds exactly what the map holds under the name |
| `FileHash.FileHash.Add` | I_benchmark/13-fio/fio_2.1.7/fio-2.1.7/filehash.c:64-83 | adds the name to the map if it was free, else returns the file that has it; the hashed flag is set exactly when linked |
| `FileHash.FileHash.Remove` | I_benchmark/13-fio/fio_2.1.7/fio-2.1.7/filehash.c:21-32 | the name leaves the map; the assertion on the list holds |
| `FileHash.EnterIndex` | I_benchmark/13-fio/fio_2.1.7/fio-2.1.7/filehash.c:75-79 | linking a file into its bucket keeps one entry per name, each in its own bucket |
| `FileHash.LeaveIndex` | I_benchmark/13-fio/fio_2.1.7/fio-2.1.7/filehash.c:25-29 | and so does unlinking one |
| `Hash.HashLong` | I_benchmark/13-fio/fio_2.1.7/fio-2.1.7/hash.h:33-58 | the shifts and adds are a multiplication by 0x9e37fffffffc0001 modulo 2^64 |
| `Hash.HashIsReversible` | I_benchmark/13-fio/fio_2.1.7/fio-2.1.7/hash.h:33-69 | the multiplication is a bijection, with this inverse |
| `Hash.HashBits` | I_benchmark/13-fio/fio_2.1.7/fio-2.1.7/hash.h:60-64 | the result is below 2^bits |
| `Hash.MixIsReversible` | I_benchmark/13-fio/fio_2.1.7/fio-2.1.7/hash.h:87-96 | the mix is a bijection on triples of words, as its comment promises |
| `Hash.FinalIsReversible` | I_benchmark/13-fio/fio_2.1.7/fio-2.1.7/hash.h:98-108 | and so is the final mix |
| `Hash.Jhash` | I_benchmark/13-fio/fio_2.1.7/fio-2.1.7/hash.h:110-150 | the loop computes the block-by-block hash |
| `Hash.SkippedByte` | I_benchmark/13-fio/fio_2.1.7/fio-2.1.7/hash.h:118-126 | in every block but the last only bytes 0, 4 and 8 of 12 reach the hash |
| `Hash.LastBytesCount` | I_benchmark/13-fio/fio_2.1.7/fio-2.1.7/hash.h:128-148 | in the last block every byte reaches the final words: keys that differ there leave different words |
| `IoLog.History.Descend` | I_benchmark/13-fio/fio_2.1.7/fio-2.1.7/iolog.c:231-257 | the descent ends at the node with the key, or at the one free place where it belongs |
| `IoLog.History.Erase` | I_benchmark/13-fio/fio_2.1.7/fio-2.1.7/iolog.c:252-256 | exactly the piece with that key goes, the order stays, the count drops by one |
| `IoLog.History.Insert` | I_benchmark/13-fio/fio_2.1.7/fio-2.1.7/iolog.c:260-263 | the piece is added in order, without a duplicate |
| `IoLog.History.LogSorted` | I_benchmark/13-fio/fio_2.1.7/fio-2.1.7/iolog.c:224-264 | the tree holds exactly the latest write to each place, in strict order; the search restarts at most once |
| `IoLog.History.LogUnsorted` | I_benchmark/13-fio/fio_2.1.7/fio-2.1.7/iolog.c:215-222 | the list keeps the writes in order |
| `IoLog.History.Log` | I_benchmark/13-fio/fio_2.1.7/fio-2.1.7/iolog.c:181-264 | exactly one of the two takes the write; the length is tree nodes plus list entries |
| `IoLog.History.Prune` | I_benchmark/13-fio/fio_2.1.7/fio-2.1.7/iolog.c:156-176 | both structures end up empty and the length at zero |
| `IoLog.History.First` | I_benchmark/13-fio/fio_2.1.7/fio-2.1.7/iolog.c:161-162 | the way to the leftmost node |
| `IoLog.Logged` | I_benchmark/13-fio/fio_2.1.7/fio-2.1.7/iolog.c:224-264 | replacing the entry with the new key gives the latest writes of the longer log |
| `IoLog.AroundReplaced` | I_benchmark/13-fio/fio_2.1.7/fio-2.1.7/iolog.c:252-263 | replacing a part of the tree replaces exactly that part of the in-order sequence |
| `Distance.StringDistance` | I_benchmark/13-fio/fio_2.1.7/fio-2.1.7/parse.c:972-1005 | the two swapped rows compute the recursive edit distance |
| `Distance.DistanceIsLeastScript` | I_benchmark/13-fio/fio_2.1.7/fio-2.1.7/parse.c:968-971 | which is the least length of a script of insertions, deletions and changes |
| `Distance.DistanceReached` | I_benchmark/13-fio/fio_2.1.7/fio-2.1.7/parse.c:972-1005 | some script has that length |
| `Distance.DistanceLeast` | I_benchmark/13-fio/fio_2.1.7/fio-2.1.7/parse.c:972-1005 | no script is shorter |
| `Distance.ZeroIffEqual` | I_benchmark/13-fio/fio_2.1.7/fio-2.1.7/parse.c:972-1005 | zero exactly for equal strings |
| `Distance.Symmetric` | I_benchmark/13-fio/fio_2.1.7/fio-2.1.7/parse.c:972-1005 | symmetric |
| `Distance.Triangle` | I_benchmark/13-fio/fio_2.1.7/fio-2.1.7/parse.c:972-1005 | triangle inequality |
| `Distance.LevBound` | I_benchmark/13-fio/fio_2.1.7/fio-2.1.7/parse.c:972-1005 | at most the length of the longer string |
| `Distance.Weigh` | I_benchmark/13-fio/fio_2.1.7/fio-2.1.7/parse.c:1092-1098 | a strictly closer option takes the place of the best so far |
| `Distance.ShowCmdHelp` | I_benchmark/13-fio/fio_2.1.7/fio-2.1.7/parse.c:1064-1135 | finds an option exactly if an eligible one is asked for, shows those asked for in order, and with everything asked for only options without a parent; when nothing is found suggests the first of the closest, and only below distance 3 |
| `Himeno.Solver.Initmt` | I_benchmark/1-himeno/himenoBMTxps.c:147-186 | the coefficients of the seven-point average, and p = (i / (imax - 1))^2 in the region |
| `Himeno.Solver.Residual` | I_benchmark/1-himeno/himenoBMTxps.c:200-217 | with these coefficients the 34 operations come to the neighbours' average less the point |
| `Himeno.Solver.Relax` | I_benchmark/1-himeno/himenoBMTxps.c:197-223 | the first nest puts the new pressures into wrk2 and sums the squared residuals in loop order |
| `Himeno.Solver.CopyBack` | I_benchmark/1-himeno/himenoBMTxps.c:225-228 | the second nest moves them to p, and touches no other point |
| `Himeno.Solver.OneSweep` | I_benchmark/1-himeno/himenoBMTxps.c:194-228 | one round maps the pressure field by Sweep |
| `Himeno.Solver.Jacobi` | I_benchmark/1-himeno/himenoBMTxps.c:188-233 | nn rounds map it by Sweep nn times; the value returned is the sum of squared residuals of the last |
| `Himeno.Solver.Benchmark` | I_benchmark/1-himeno/himenoBMTxps.c:92-138 | after both calls of `main` the edges are as at the start and no point is above i / (imax - 1) |
| `Himeno.Comparison` | I_benchmark/1-himeno/himenoBMTxps.c:197-228 | comparison principle: a field below another stays below it |
| `Himeno.NeverLowered` | I_benchmark/1-himeno/himenoBMTxps.c:197-228 | from a field that the first sweep does not lower no sweep lowers any point |
| `Himeno.NeverAbove` | I_benchmark/1-himeno/himenoBMTxps.c:197-228 | a field that a sweep does not raise bounds whatever starts below it |
| `Himeno.BoundaryFixed` | I_benchmark/1-himeno/himenoBMTxps.c:197-228 | points outside the interior never change |
| `Himeno.SweepsAdd` | I_benchmark/1-himeno/himenoBMTxps.c:92-138 | two runs in a row are one run of the total length |
| `Himeno.RampIsFlat` | I_benchmark/1-himeno/himenoBMTxps.c:197-228 | i / (imax - 1) is a fixed point of the sweep |
| `Himeno.StartRises` | I_benchmark/1-himeno/himenoBMTxps.c:168-185 | the first sweep from the start lowers no point |
| `Himeno.StartBelowRamp` | I_benchmark/1-himeno/himenoBMTxps.c:168-185 | the start is nowhere above i / (imax - 1) |
| `Himeno.PressureRisesToRamp` | I_benchmark/1-himeno/himenoBMTxps.c:147-233 | for every grid and number of sweeps: edges fixed, never lowered, never above i / (imax - 1) |
| `Himeno.GosaZero` | I_benchmark/1-himeno/himenoBMTxps.c:219-233 | the returned value is zero exactly when the last sweep changed nothing |
| `Mysqrt.Mysqrt` | kernel/meltdown/meltdown-example/meltdown-baohua.c:197-207 | no division by zero, no int overflow; leaving early or at the cap, the result is the hundredth Newton estimate; 0 for 0 and 1 |
| `Mysqrt.StepNotBelow` | kernel/meltdown/meltdown-example/meltdown-baohua.c:203 | a round never goes below the root |
| `Mysqrt.StepHalves` | kernel/meltdown/meltdown-example/meltdown-baohua.c:203 | above the root it at least halves the error |
| `Mysqrt.StepAtRoot` | kernel/meltdown/meltdown-example/meltdown-baohua.c:203 | at the root it stays, or goes one up exactly when val + 1 is a square |
| `Mysqrt.ErrorHalved` | kernel/meltdown/meltdown-example/meltdown-baohua.c:201-204 | after n rounds the error is at most one, or was halved n times |
| `Mysqrt.RootReached` | kernel/meltdown/meltdown-example/meltdown-baohua.c:201-204 | the root comes up after 32 rounds at most |
| `Mysqrt.FromRoot` | kernel/meltdown/meltdown-example/meltdown-baohua.c:201-204 | from then on it stays, or alternates with one more |
| `Mysqrt.ResultIsRoot` | kernel/meltdown/meltdown-example/meltdown-baohua.c:197-207 | the result is the root, or one more exactly when val + 1 is a square and the root comes up an odd number of rounds before the last |
| `Mysqrt.OneTooMany` | kernel/meltdown/meltdown-example/meltdown-baohua.c:197-207 | 24 is a case where it is one more |
| `Bits.SmearedIsOnes` | I_benchmark/13-fio/fio_2.1.7/fio-2.1.7/io_u_queue.c:27-33 | a word smeared over 32 places is one less than a power of two, at most twice the original |
| `Bits.Pow2Test` | I_benchmark/13-fio/fio_2.1.7/fio-2.1.7/io_u_queue.c:24 | `x & (x - 1)` is zero exactly for powers of two |
| `Bits.MaskIsRemainder` | I_benchmark/13-fio/fio_2.1.7/fio-2.1.7/fifo.c:55 | masking with 2^k - 1 is the remainder modulo 2^k |

## Left out

- SmallocPools.Allocator.Smalloc: excludes only the requests whose pool would have its bitmap outside the mapping (see `BitmapInsideIff`), because the code then writes to memory that it does not own.
- Smalloc.Pool.FindNextZero: on a word of all ones C leaves the result of `ffz` undefined; any position of a bit in an unsigned long, 0 to 63, is allowed, as `lib/ffz.h` guarantees, and may differ from place to place. The `bsf` of `arch/arch-x86_64.h:45-49` leaves its result for such a word open and is not modelled; for one block and for 32 blocks or more the answer makes no difference (`Scan.FfzIrrelevant`).
- Smalloc.Pool.SfreePool: null pointers and live allocations only, not other pointers.
- Smalloc.Pool.FindRun: where `next_non_full` ends up is not stated; it is only a hint, and the scan never looks before it.
- Locks of the allocator, of the flows and of the file hash: each operation is one atomic step. A failed allocation in `flow_get`, which returns with the lock held, is left out.
- IoUnits.ThreadData.GetIoU: `verify_async` is off.
- IoUnits.ThreadData.constructor: an iodepth of 2^31 or more, for which the ring's size wraps to zero (see `IoUQueue.RingSize`).
- IoUnits.ThreadData.CloseFile: a second close request on a file that is already closing; each open is closed at most once.
- IoUnits.ThreadData.Prepare: whether an I/O can be filled in and prepared is one free choice.
- IoUnits.ThreadData.OpenFile: failures after the reference has been taken are left out, as is `fio_io_sync`.
- IoUnits.ThreadData.NextIoU: whether an I/O can be filled in and prepared is left open; read-back and trim requests and I/O logs are not offered as sources of units.
- IoUnits.ThreadData.GetNextFileRR: flag filters (`goodf`, `badf`) are those of its only caller; random file choice and profile hooks are left out.
- IoUnits.ThreadData.SetIoUFile: the unit forgets its file before the file is closed, not after; nothing can tell the difference.
- IoEngine.Submission.Issue: the unit must meet the assertion on FLIGHT (see `AssertionHoldsIff`). Issue times, rates and the separate accounting direction of verify reads are left out.
- IoEngine.Submission.GetEvents: how many events are asked for, errors of the engine and the early return of a job that is done, which change nothing.
- Latency percentiles and time windows: a cycle of `LatTarget` met the target or missed it.
- Mutex: the timed and the try variants of down, and destruction.
- Backend: terminate requests, the start-up timeout, failure to create a job, rates and output; a job that is killed before it reports in leaves the launcher waiting.
- Fifo.Fifo.constructor: failure of the two allocations, and sizes that are not a power of two; `MaskIsPositionIff` says why the latter cannot work.
- Blktrace: device numbers, opening and closing pieces, read errors and short reads, and the final choice of a direction, whose read-only case tests a flag and its negation and so is never taken. The machine is little-endian.
- FileHash: the bucket function is a parameter, `Bucket` being the real one; files without a name and the assertion on file descriptors are left out.
- DoIo.CancelSafeIff: which of the units the engine agrees to cancel is left open, and the engine's own record of what it cancelled.
- DoIo.Turn: one turn for any answer of the engine; when the loop goes on, rates, think time and verification are left out.
- Flist: the iteration macros, and `flist_splice` without re-initialisation, which shares `SpliceBetween`.
- IoLog: how the red-black tree balances; any rebalancing that keeps the in-order sequence is allowed. Trim entries and piece flags are left out.
- Distance.StringDistance: strings of 2^31 characters and more, whose distance the int result cannot hold.
- Distance.ShowCmdHelp: printing, and with it the children that are printed below an option.
- Himeno.Solver.Initmt: grids exactly two planes thick in the first direction, where the start divides by zero; floating-point rounding and timing are left out everywhere.
- Mysqrt.Mysqrt: negative numbers and numbers from 2^32 on.
- Everything else in `meltdown-baohua.c`, and fio's clients, servers, graphical front end, engines, statistics, profiles and parsers.
