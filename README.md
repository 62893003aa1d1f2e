# Bounded multi-producer, multi-consumer queue

A Dafny model of `Queue<T>` from the `mpmc` crate: a FIFO buffer of fixed
capacity shared by any number of producer and consumer threads. `put` waits
while the buffer is full, then appends at the back. `take` waits while it is
empty, then removes from the front.

The model has three layers:

- `QueueSpec` (queue_spec.dfy) is the sequential meaning. All access to the
  buffer happens under one mutex, so every run is some sequence of critical
  sections executed one after another. `Run(cap, ops)` replays such a sequence
  from the empty buffer. If an operation's wait loop would never exit in the
  state it meets, the run is `Blocked` at that operation. The capacity bound,
  FIFO order, conservation of elements and the blocking behaviour are lemmas
  about `Run`.
- `Mpmc.Queue` (queue.dfy) is the object itself: an immutable `cap`, the
  buffer `items`, and ghost fields recording the completed operations and the
  values taken. Each wait loop becomes the precondition its exit establishes
  (`!IsFull(cap, items)` for `put`, `!IsEmpty(items)` for `take`). `Valid()`
  says that the object's state is exactly what `Run` gives for its history,
  so every lemma about `Run` holds of the object. `Take` goes through
  `PopFront(...).Unwrap()`, so verifying it shows that the `unwrap()` in the
  source cannot panic.
- `QueueTest.SingleThreadUse` (queue_test.dfy) replays the single-threaded
  test as a verified client of the class.

The capacity is fixed when the queue is built and never changes. The guard in
`put` compares the length with `VecDeque::capacity()`, not with the `count`
passed to `with_capacity`. `VecDeque::with_capacity(count)` only promises
that this capacity is at least `count`. So the constructor takes the capacity
the allocator chose as a parameter `reserved >= count`, and nothing in the
model assumes `cap == count`. The `put` guard is modelled as written, with
`len == capacity`. The invariant `|items| <= cap` is what makes it mean
"there is room". The doc comment at src/queue.rs:28 promises space for at
most `count` elements, which this guard does not ensure when the buffer
reserved more. See "## Findings".

`with_capacity` does not reject a `count` of 0 (src/queue.rs:32-36). If the
buffer it builds has capacity 0, `ZeroCapacityPutWaits` shows that a `put`
waits forever, and `ZeroCapacityCompletesNothing` shows that no operation
ever completes.

## Model

| member | source | states |
|---|---|---|
| `Wrappers.Option.Unwrap` | src/queue.rs:69 | `unwrap()` may only be applied to `Some`, and it returns the value inside. |
| `QueueSpec.PopFront` | src/queue.rs:69 | `pop_front` yields `Some` exactly when the buffer is non-empty, and then the front element followed by the rest rebuilds the buffer. |
| `QueueSpec.IsFull` | src/queue.rs:47 | Definition of the `put` wait condition `len == capacity`. `Step`, `BlockedIff` and `RunBounded` are the facts proved about it. |
| `QueueSpec.IsEmpty` | src/queue.rs:64 | Definition of the `take` wait condition `is_empty()`. `PopFront`, `Step` and `BlockedIff` are the facts proved about it. |
| `QueueSpec.Waits` | src/queue.rs:46-66 | Definition: the wait loop of an operation does not exit (full for `put`, empty for `take`). `BlockedIff` characterises runs by it. |
| `QueueSpec.Step` | src/queue.rs:47-69 | One critical section of `put` (:51) or `take` (:69). It blocks exactly when the wait condition holds, and otherwise completes. Then the taken values followed by the buffer grow by the value put (for `put`) or stay the same (for `take`). A `take` adds exactly one taken value. A buffer within `cap` stays within `cap`, even though the guard tests `==`. |
| `QueueSpec.Run` | src/queue.rs:11-69 | The serialized run of critical sections from the empty buffer `with_capacity` builds. A blocked run names an operation that is in the run. The lemmas below are about it. |
| `QueueSpec.RunBounded` | src/queue.rs:47-51 | In every completed sequential run, the buffer never holds more than `cap` items. |
| `QueueSpec.RunFifo` | src/queue.rs:38-69 | The values taken, followed by the values still buffered, are exactly the values put, in put order. So the takes return a prefix of the puts, in order. |
| `QueueSpec.RunConserves` | src/queue.rs:51-69 | The number of values taken equals the number of `take` calls. The buffer length is the number of puts minus the number of takes. |
| `QueueSpec.BlockedStays` | src/queue.rs:46-49 | Once an operation waits forever in a sequential run, no later operation changes the outcome. |
| `QueueSpec.BlockedIff` | src/queue.rs:46-66 | A run blocks at operation `i` if and only if the operations before `i` complete and the wait loop of operation `i` (full for `put`, empty for `take`) does not exit. |
| `QueueSpec.ZeroCapacityPutWaits` | src/queue.rs:11-17 | A buffer of capacity 0 is not rejected, and any `put` on it blocks forever. |
| `QueueSpec.PutsWithinCapComplete` | src/queue.rs:47-51 | Up to `cap` puts from an empty buffer never wait, and the buffer then holds exactly the values put, in order. |
| `QueueSpec.CountIsNotABound` | src/queue.rs:13-47 | When the buffer's capacity exceeds `count`, `count + 1` puts all complete, so the queue holds more than `count` elements. |
| `QueueSpec.ExactCapacityHoldsAtMostCount` | src/queue.rs:28-47 | With a capacity of exactly `count`, `count` puts fill the queue, the next `put` waits, and no completed run holds more than `count` elements. |
| `QueueSpec.ZeroCapacityCompletesNothing` | src/queue.rs:47-66 | With capacity 0 the only sequential run that completes is the empty one: the first `put` finds the buffer full and the first `take` finds it empty. |
| `Mpmc.Queue.WithCapacity` | src/queue.rs:11-36 | A new queue is empty, has no history, and has a fixed capacity of at least `count`. |
| `Mpmc.Queue.WithExactCapacity` | src/queue.rs:28-36 | The queue as documented: empty, no history, capacity exactly `count`, so `Valid()` bounds it by `count`. |
| `Mpmc.Queue.Put` | src/queue.rs:42-53 | Runs only once the buffer is not full. Appends `value` at the back, leaves the taken values unchanged, and keeps `Valid()`, so `len <= cap` still holds. |
| `Mpmc.Queue.Take` | src/queue.rs:59-70 | Runs only once the buffer is non-empty. Returns the old front and leaves the old items minus that front. Appends the value to the taken values and keeps `Valid()`. The `unwrap()` never fails. |
| `QueueTest.SingleThreadUse` | tests/test.rs:5-21 | With capacity 10 (any reserved capacity of at least 10): putting 0..9 never waits, and each alternating `take` returns `j - 10` before `put(j)`. The last ten takes return 10..19, so the values taken are 0..19 in order. The body also proves that they equal the values put. |

## Left out

- The `Mutex` and its lock-poisoning `unwrap()`s (src/queue.rs:44, 61): each critical section is one atomic method call.
- The `Condvar` waits and `notify_one` calls (src/queue.rs:48, 52, 65, 68): a wait loop appears only as the precondition its exit establishes, and as the `Blocked` outcome of `Run`. Wake-up, progress and fairness between threads are not modelled.
- The `Arc` handle and the derived `Clone` (src/queue.rs:22-25, 34): they share one buffer between threads and have no sequential content.
- The threaded test `test_single_consumer` (tests/test.rs:23-46): it needs thread spawning and joining. Sequentially, `RunFifo` and `RunConserves` give what its sum check relies on: no value is lost or duplicated.
- `Mpmc.Queue.WithCapacity`: does not model the panic ("capacity overflow") of `VecDeque::with_capacity(count)` (src/queue.rs:13) when `count` elements exceed `isize::MAX` bytes, nor the abort when the allocation fails. The constructor succeeds for every `count`, because allocation is outside this model.
- `usize` width: lengths and capacities are unbounded naturals. Within `put` and `take` the length never exceeds the capacity, so those two operations have no overflow path.

## Findings

| source | as written | input that shows it | evidently intended | confidence | as-written member | corrected member |
|---|---|---|---|---|---|---|
| src/queue.rs:28 | The `put` guard (src/queue.rs:47) compares the length with `VecDeque::capacity()`, and `VecDeque::with_capacity(count)` (src/queue.rs:13) only promises that this is at least `count`. | `with_capacity(2)` whose buffer reserves 3 slots: `put(0)`, `put(1)`, `put(2)` all complete and the queue holds 3 elements, more than 2. | The queue holds at most `count` elements, as its doc comment says: the guard compares against `count` itself. | medium; not executed | `QueueSpec.CountIsNotABound` | `QueueSpec.ExactCapacityHoldsAtMostCount` |

The corrected queue is built by `Mpmc.Queue.WithExactCapacity`, whose
capacity is exactly `count`. The rest of the model keeps the code as written:
`Mpmc.Queue.WithCapacity` takes the reserved capacity, and every lemma holds
for any capacity, so each holds for the corrected queue as well.

