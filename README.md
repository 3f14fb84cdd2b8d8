# Sequential model of the SPMC ring buffer and the profiler's sample buffer

This project models, in Dafny, the two sequential cores of the
Lock-free-Single-Producer-Multiple-Consumer-queue repository:

* **`SPMCQueue`**, the bounded ring buffer of 1024 `int` slots. It is modelled as the class
  `SpmcQueue.Queue`. The class has two arrays: `meta` holds each slot's `occupied` and
  `available` flags, and `data` holds the values. It also has the producer index `back`,
  the claim counter `front` and the `evict` flag. `Emplace`/`Push` and `Pop` update these
  fields in place, as the C++ methods do. The index helpers `increment` and `wrap` are
  pure functions.
  Two ghost views are derived from the concrete state:
  * `Contents()`: the values in the order they will be popped.
  * `InSync()`: the occupied slots are exactly the `Count()` slots from the next claim on.
  Every push and every successful pop keeps `InSync()`. An evicting pop breaks it,
  and that is proved as well.
  The object invariant `Valid()` has three parts. The two flags of every slot agree,
  `back` is a slot, and `front` equals `ClaimCounter(claims)`. The ghost field `claims`
  counts the pops. This means `front` stays in `[0, 1024]`, and the slot it designates
  is `claims % 1024`.
* **`Profiler`'s sample buffer**, modelled as the class `Profiling.Profiler` with a
  `seq<nat>` field for `data_points_`. `End` appends a sample. `Flush` sorts the
  buffer, reads off the lowest, highest, median (the element at `size / 2`) and integer
  mean, and then clears the buffer. `Summarize` is the pure statement of what `Flush`
  reports. Its contract proves the following:
  * `lowest` is the minimum and `highest` is the maximum of the recorded samples.
  * The median is a recorded sample between the two.
  * The mean is `Sum / count` of the recorded samples in recording order. The code
    sums the sorted buffer, and `SumPermutation` shows that this gives the same sum.

The module `QueueScenarios` holds two client methods. Each is proved from the queue's
contracts alone. The first is the demo's push 3, 2, 1 / pop ×3 sequence. The second
fills the ring, checks that one more push is refused, pops one value and pushes again.

## Model

| member | source | states |
|---|---|---|
| SpmcQueue.Increment | SingleProducerMultiConsumer/SPMCQueue.hpp:97-108 | for an in-range index the result is `Wrap(index + 1)`, the next slot round the ring; the result is a slot exactly when the index is |
| SpmcQueue.Wrap | SingleProducerMultiConsumer/SPMCQueue.hpp:109-112 | the result is always a slot (< 1024) and is the identity on slots |
| SpmcQueue.WrapPeriodic | SingleProducerMultiConsumer/SPMCQueue.hpp:59-66 | subtracting one capacity from the raw counter does not change the slot it designates, so the pull-back never moves a claim |
| SpmcQueue.ClaimCounterBounds | SingleProducerMultiConsumer/SPMCQueue.hpp:57-66 | after any number of single-threaded pops, `front` is within `[0, capacity]` and designates slot `pops % capacity` |
| SpmcQueue.ClaimStep | SingleProducerMultiConsumer/SPMCQueue.hpp:57-66 | the pop's counter update (increment, then subtract capacity when the claimed raw value was ≥ capacity and wrapped to 0) takes the counter after `k` pops to the counter after `k + 1` pops |
| SpmcQueue.ClaimAdvancesHead | SingleProducerMultiConsumer/SPMCQueue.hpp:57-66 | each pop claims the slot after the one the previous pop claimed (`increment` of it) |
| SpmcQueue.Queue.constructor | SingleProducerMultiConsumer/SPMCQueue.hpp:114-117 | a new queue has no flag set, `back = front = 0`, no eviction, and is in step with empty contents |
| SpmcQueue.Queue.Emplace | SingleProducerMultiConsumer/SPMCQueue.hpp:24-43 | refuses exactly when the slot at `back` is occupied, and then changes nothing; otherwise writes the value into the old `back` slot, raises both of that slot's flags only, sets `back := increment(back)` and returns true; `front` and `evict` never change; in step, it is refused exactly when the queue holds capacity items, and it appends the value to the contents |
| SpmcQueue.Queue.Push | SingleProducerMultiConsumer/SPMCQueue.hpp:45-52 | both `push` overloads behave as `Emplace` (same contract) |
| SpmcQueue.Queue.FullIffBackOccupied | SingleProducerMultiConsumer/SPMCQueue.hpp:28-32 | in step, the slot at `back` is occupied if and only if the queue holds capacity items (the "full" test) |
| SpmcQueue.Queue.EmptyIffHeadFree | SingleProducerMultiConsumer/SPMCQueue.hpp:69-76 | in step, the slot the next pop claims is occupied (and so available) if and only if the queue is non-empty |
| SpmcQueue.Queue.PushKeepsSync | SingleProducerMultiConsumer/SPMCQueue.hpp:34-42 | writing the next free slot and raising its flags keeps the ring in step and appends the value to the contents |
| SpmcQueue.Queue.Pop | SingleProducerMultiConsumer/SPMCQueue.hpp:54-83 | `front` becomes `AfterClaim(old front)` and `claims` grows by one; if the claimed slot `wrap(old front)` is available it returns `(true, data[slot])` and lowers both flags of that slot only; otherwise (eviction set) it returns `(false, 0)` and changes no slot; `back`, `data` and `evict` are unchanged; in step, it succeeds exactly when the contents are non-empty, returns their first element and leaves the rest in step, and an evicting pop leaves the ring out of step |
| SpmcQueue.Queue.ClaimFront | SingleProducerMultiConsumer/SPMCQueue.hpp:57-66 | the claim step of `pop`: returns the slot `wrap(old front)`, which is the number of earlier pops modulo capacity; `front` becomes `AfterClaim(old front)`; the next claim is the slot after it; no slot, flag or value changes |
| SpmcQueue.Queue.PopKeepsSync | SingleProducerMultiConsumer/SPMCQueue.hpp:69-82 | taking the head slot and lowering its flags keeps the ring in step and drops the first value of the contents |
| SpmcQueue.Queue.PopCount | SingleProducerMultiConsumer/SPMCQueue.hpp:57-82 | after a successful pop the ring holds one item fewer |
| SpmcQueue.Queue.PopSync | SingleProducerMultiConsumer/SPMCQueue.hpp:69-82 | after a successful pop the occupied slots are exactly the remaining ones counted from the new head |
| SpmcQueue.Queue.EvictBreaksSync | SingleProducerMultiConsumer/SPMCQueue.hpp:57-75 | an evicting pop on an empty ring still advances `front` past `back`, so the occupied slots no longer match the count: the ring is out of step |
| SpmcQueue.Queue.EvictWaitingConsumers | SingleProducerMultiConsumer/SPMCQueue.hpp:85-88 | sets `evict` and changes nothing else; when `evict` was already set, the object is unchanged (idempotent); no operation ever clears it |
| QueueScenarios.PushThreePopThree | SingleProducerMultiConsumer/main.cpp:17-26 | pushing 3, 2, 1 into a new queue and popping three times yields `(true,3)`, `(true,2)`, `(true,1)` |
| QueueScenarios.FillPopRefill | SingleProducerMultiConsumer/SPMCQueue.hpp:26-59 | 1024 pushes into a new queue succeed and the next is refused; one pop returns the first value pushed, and then a push succeeds again |
| Profiling.Insert | SingleProducerMultiConsumer/Profiler.cpp:46 | inserting into a sorted sequence gives a sorted sequence with one more element, `x` |
| Profiling.Sort | SingleProducerMultiConsumer/Profiler.cpp:46 | the result is sorted, has the same length and is a permutation (same multiset) of the input |
| Profiling.SortedUnique | SingleProducerMultiConsumer/Profiler.cpp:46 | two sorted sequences with the same multiset are equal, so `Sort` yields exactly what `std::sort` yields |
| Profiling.SortedExtremes | SingleProducerMultiConsumer/Profiler.cpp:52-54 | the front, the middle element and the back of a sorted permutation are recorded samples, and the front and back bound every sample |
| Profiling.SumPermutation | SingleProducerMultiConsumer/Profiler.cpp:55 | the `accumulate` sum is the same for any permutation, so summing the sorted buffer gives the sum of the samples as recorded |
| Profiling.MeanBetween | SingleProducerMultiConsumer/Profiler.cpp:55-56 | the integer mean lies between any lower and upper bound of the samples |
| Profiling.Summarize | SingleProducerMultiConsumer/Profiler.cpp:46-56 | for a non-empty buffer: `lowest` is the minimum and `highest` the maximum of the samples (both samples); `median` is the sample at index `size / 2` of the sorted samples, with `lowest <= median <= highest`; `mean` is `Sum(samples) / size` and lies between `lowest` and `highest` |
| Profiling.Profiler.constructor | SingleProducerMultiConsumer/Profiler.cpp:15-18 | a new profiler holds no samples (the size only reserves room) |
| Profiling.Profiler.End | SingleProducerMultiConsumer/Profiler.cpp:35-42 | appends exactly the given sample at the back and leaves the earlier samples as they were |
| Profiling.Profiler.Flush | SingleProducerMultiConsumer/Profiler.cpp:44-66 | needs at least one sample; returns `Summarize` of the samples recorded so far and leaves the buffer empty |

## Left out

- Concurrency: the atomics' memory orderings, how several consumers race on `fetch_add`,
  the cache-line alignment, and the busy-wait as a liveness question. Every operation runs
  to completion before the next one starts.
- SpmcQueue.Queue.Pop: requires `evict` or an available claimed slot. On an unavailable slot without
  eviction, the source spins forever, waiting for another thread to publish. A
  single-threaded run cannot return from that call, so the model excludes it rather than
  looping. The spin loop becomes one `exchange` step.
- The sequential flag invariant is stated as `available == occupied` for every slot. This
  is stronger than "available implies occupied", and it holds because nothing runs between
  the two flag stores.
- `emplace`'s variadic perfect forwarding: the model takes an `int`. The element type of
  the source is `int`; values are only copied, so its width plays no role.
- `size_t` overflow of `front` is not modelled. Single-threaded, the counter never exceeds 1024.
- The initial contents of `data_` are unspecified in the source; the model fills them with 0.
- Profiler timing: `start`, and `clock::now()` in `end`, are left out. `End` takes the
  elapsed duration as a parameter, a `nat`, since steady-clock durations are never
  negative.
- Profiling.Summarize: the standard deviation (`std::sqrt` over `long double`) is not modelled, because it is floating point.
- Profiling.Summarize: the sum is an unbounded integer. The source's 64-bit `rep` would overflow
  only for sums beyond 2^63 nanoseconds. Because samples are non-negative, the signed sum
  converted to unsigned for `sum / size` agrees with the model's division.
- The `Profiler()` default constructor behaves like `Profiler(0)`.
- The process-wide `global`/`current`/`make_current` are left out: they are a global
  pointer with no behaviour of its own.
- `std::sort` is stood in by the insertion sort `Sort`. By `SortedUnique`, any sort yields
  the same sequence.
- The thread pool and fork-join scheduler (`ThreadPool.hpp`, `ForkJoinModel.hpp`) are left
  out, because their behaviour is concurrency. So are the console lock in `StdLocks.hpp` and
  the empty `TaskBasedModel.hpp`. The demo in `main.cpp` is used only for its FIFO sequence.
