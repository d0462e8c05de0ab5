# Sizeless circular queue and in-place quicksort, in Dafny

This project models two sequential components of a Java course repository and
proves their contracts.

- **`SizelessCircularQueue<T>`** (`circular_queue.dfy`, module `CircularQueue`).
  It is a fixed-capacity ring-buffer FIFO that keeps no element count. Its whole
  state is an array of slots plus the two cursors `front` and `rear`, which are
  both -1 when the queue is empty. `isEmpty` reads the cursors. `isFull` scans
  the array for a free (null) slot. `enqueue` and `dequeue` move the cursors
  modulo the array length, and `dequeue` frees the slot it empties.
  - The model is a class over `array<Option<T>>`. `None` is Java's `null`.
  - A ghost field `Contents` holds the abstract queue, front first. The
    predicate `Represents` ties it to the slots and cursors: the cursors are
    both -1 or both indices, and the occupied slots are exactly the circular
    range `front..rear` read in order.
  - The ghost histories `Enqueued` and `Dequeued` record every accepted and
    every returned element. The object invariant `Valid()` keeps
    `Enqueued == Dequeued + Contents`. That equation is FIFO order: the values
    dequeued so far are always a prefix of the values enqueued, in order.
  - Each state change is proved as a lemma on plain values (`EnqueueIntoEmpty`,
    `EnqueueAtRear`, `DequeueAtFront`). The class methods call these lemmas.
  - Java exceptions become result values. The constructor's
    `IllegalArgumentException` becomes `Failure(InvalidCapacity)` from the
    static method `Create`. `enqueue`'s two exceptions become
    `Fail(InvalidElement)` and `Fail(QueueFull)`.
- **`QuickSort`** (`quick_sort.dfy`, module `QuickSort`). This is a recursive
  quicksort with Lomuto partitioning; the pivot is the last element of the
  range. The module also has the driver's checker `validateSortedAscending`.
  All methods except the generic `Swap` work on `array<int>` in place. Their contracts cover sortedness
  of the range, permutation (multisets), the frame outside `[left, right]`, and
  the partition split.
- `queue_scenarios.dfy` (module `QueueScenarios`) holds clients of the queue:
  - the FIFO round trip (`RoundTrip`) and the capacity bound (`Overfill`).
    These are black-box: they see only the results of the queue's operations.
  - the repository tester's scenarios (`ConstructorScenario`,
    `EnqueueScenario`, `WrapScenario`, `DrainWrapped`). These change the
    queue only by calling its operations, where the tester overwrites the
    private fields by reflection to set up a state. Like that tester, their
    assertions also inspect the cursors `front` and `rear`, the slots and the
    ghost `Contents`. Each states its expected outcomes as `assert`s, and the
    verifier proves them.
- `wrappers.dfy` (module `Wrappers`) holds `Option`, `Outcome` and `Result`.

A design question is answered by a proof. `enqueue` has two "queue full"
guards: the slot scan `!isEmpty() && isFull()`, and the check that
`(rear + 1) % length` would land on `front`. `WrapGuardIffFull` proves that,
on every valid non-empty state, the second guard fires exactly when the queue
is at capacity. The two guards are therefore redundant with each other, and
neither is a latent bug. Both are kept in `Enqueue`, in the source's order.

## Model

| member | source | states |
|---|---|---|
| `CircularQueue.SizelessCircularQueue.constructor` | src/SizelessCircularQueue.java:31-33 | A queue of `size >= 1` slots, all free, with `front = rear = -1`. It satisfies the invariant and holds no elements. |
| `CircularQueue.SizelessCircularQueue.Create` | src/SizelessCircularQueue.java:26-34 | Fails with `InvalidCapacity` exactly when `size < 1`. Otherwise it returns a fresh valid queue of `size` slots, all free, with both cursors at -1 and empty contents and histories, so it is empty and not full. |
| `CircularQueue.EmptyRepresents` | src/SizelessCircularQueue.java:31-33 | All slots free with both cursors at -1 represents the empty queue. |
| `CircularQueue.SizelessCircularQueue.IsEmpty` | src/SizelessCircularQueue.java:41-43 | True exactly when both cursors are -1. Under the invariant, that is exactly when the contents are empty. |
| `CircularQueue.SizelessCircularQueue.IsFull` | src/SizelessCircularQueue.java:48-57 | The slot scan returns true exactly when no slot is free. That is exactly when the queue holds as many elements as it has slots. |
| `CircularQueue.FullIffAtCapacity` | src/SizelessCircularQueue.java:48-57 | For every represented state: all slots are occupied if and only if the element count equals the capacity. |
| `CircularQueue.WrapGuardIffFull` | src/SizelessCircularQueue.java:70-83 | On a non-empty represented state, `(rear + 1) % n == front` holds if and only if the queue is at capacity. So the wrap guard refuses exactly the calls the fullness check refuses. |
| `CircularQueue.EnqueueIntoEmpty` | src/SizelessCircularQueue.java:74-76 | On an empty state, writing slot 0 and setting both cursors to 0 represents the one-element queue `[x]`. |
| `CircularQueue.EnqueueAtRear` | src/SizelessCircularQueue.java:78-89 | On a non-empty state below capacity, the slot `(rear + 1) % n` is free. Writing `x` there and moving `rear` onto it, with `front` unchanged, represents `contents + [x]`. |
| `CircularQueue.DequeueAtFront` | src/SizelessCircularQueue.java:103-111 | On a non-empty state, slot `front` holds the first element. Freeing it, and then either resetting both cursors (when `front == rear`) or advancing `front` modulo n, represents the contents without their first element. |
| `CircularQueue.SizelessCircularQueue.Enqueue` | src/SizelessCircularQueue.java:65-90 | A `None` element gives `InvalidElement`. A queue at capacity gives `QueueFull`; this covers the capacity-1 queue's second enqueue. Every other call succeeds. A refused call changes nothing. On success the element is appended to the contents and to the enqueue history. The cursors go to `0, 0` when the queue was empty; otherwise `rear` becomes `(rear + 1) % length` and `front` is unchanged. The array changes only at the new `rear`. The invariant is kept. |
| `CircularQueue.SizelessCircularQueue.Dequeue` | src/SizelessCircularQueue.java:97-114 | On an empty queue it returns `None` and changes nothing. Otherwise: it returns the first element, which is removed from the contents and appended to the dequeue history. Only slot `front` changes, and it becomes free. Both cursors reset to -1 when `front == rear`; otherwise `front` advances modulo the length and `rear` stays. The invariant is kept. |
| `CircularQueue.SizelessCircularQueue.Peek` | src/SizelessCircularQueue.java:120-126 | Returns `None` on an empty queue and the first element otherwise. It reads state only, so repeated peeks agree. |
| `QueueScenarios.RoundTrip` | src/SizelessCircularQueue.java:65-114 | For any `xs` of length at most the capacity: each enqueue succeeds, and dequeueing until `IsEmpty` returns exactly `xs` in order, no more and no fewer. |
| `QueueScenarios.Overfill` | src/SizelessCircularQueue.java:374-388 | After a queue of capacity `|xs|` is filled with `xs`, one more enqueue fails with `QueueFull` and the front is still `xs[0]`. |
| `QuickSort.AdjacentSortedIffSorted` | src/QuickSort.java:33-49 | Having no adjacent pair out of order is equivalent to having every pair in order. |
| `QuickSort.ValidateSortedAscending` | src/QuickSort.java:33-49 | Returns true exactly when no `k` has `arr[k+1] < arr[k]`, which is exactly when the array is sorted. Arrays of length 0 or 1 give true. |
| `QuickSort.Swap` | src/QuickSort.java:104-108 | The new array is the old one with `arr[i]` and `arr[j]` exchanged; when `i == j` nothing changes. The multiset of elements is kept. |
| `QuickSort.PartitionSkip` | src/QuickSort.java:81-90 | A loop step whose element is not below the pivot keeps the partition invariant with `j + 1`. |
| `QuickSort.PartitionAdvance` | src/QuickSort.java:81-90 | A loop step whose element is below the pivot swaps it to position `i`. This keeps the partition invariant with `i + 1` and `j + 1`: `[left, i)` below the pivot, `[i, j)` not below it, the pivot at `right`, and the array a permutation that agrees outside `[left, right]`. |
| `QuickSort.PartitionPlacePivot` | src/QuickSort.java:92-93 | The final swap puts the pivot at `i`, with every element of `[left, i)` below it and every element of `(i, right]` not below it. |
| `QuickSort.Partition` | src/QuickSort.java:76-94 | Returns `p` with `left <= p <= right` and `arr[p]` equal to the old `arr[right]`. Elements of `[left, p)` are below `arr[p]` and elements of `(p, right]` are not. The range is permuted, the whole multiset is kept, and nothing outside `[left, right]` changes. |
| `QuickSort.QuickSortStep` | src/QuickSort.java:60-64 | After a partition and sorts of both sides, each by permutation within its side, the range `[left, right]` is sorted and permuted and the rest of the array is as before. |
| `QuickSort.QuickSort` | src/QuickSort.java:59-65 | With `left >= right` the array is unchanged. Otherwise `arr[left..right]` ends non-decreasing and is a permutation of its old contents. Nothing outside `[left, right]` changes, and the whole multiset is kept. |
| `QuickSort.SortAndValidate` | src/QuickSort.java:13-17 | Sorting the whole array and then checking it always passes the check. The elements are kept. |

## Left out

- The `Tester` class (src/SizelessCircularQueue.java:132-621) is not modelled because it uses reflection to overwrite private fields and prints to `System.err`. Its enqueue, dequeue, peek and full/empty scenarios are re-expressed in `QueueScenarios`: they reach the same states by calling the queue's operations, and they inspect the cursors and slots directly. Its checks at lines 430 and 563 compare an `Integer` with an `Object[]`, so they are always false; they are not treated as asserted behaviour.
- `QuickSort.main` (src/QuickSort.java:5-23) is not modelled because it draws input from `Math.random` (floating point), loops 1000 times and writes to the console. One run of its check is `SortAndValidate`, for an arbitrary input array.
- Generic elements with `Comparable.compareTo` are not modelled. QuickSort's elements are `int`, the driver's element type, and `a < b` stands for `a.compareTo(b) < 0`. `Swap` stays generic, as it is in the source.
- Null array elements in quicksort (a `NullPointerException` in `compareTo`) are not modelled. Neither is the unchecked `(T)` cast in `dequeue`/`peek`: under the invariant the front slot is always occupied.
- `ArrayIndexOutOfBoundsException` in `quickSort`, `partition` and `swap` (src/QuickSort.java:78, :86, :105) is not modelled. `QuickSort`, `Partition` and `Swap` instead require in-range indices. Every call in the source meets that requirement (src/QuickSort.java:13, :61-63, :87, :92).
- 32-bit integer overflow is not modelled. The cursors and indices stay within the array bounds, so Java's `int` arithmetic never wraps here; the model uses unbounded `int`.
- The queue's backing array is a `const` field. The source assigns it only in the constructor, so the model does not cover reassigning the array reference.
- Construction failure is modelled by `Create`, a static method returning a `Result`, because a Dafny constructor cannot fail. The unnamed constructor is the allocation path after the size check.
