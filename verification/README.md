# Heap-indexed Ladner–Fischer prefix sums

This project models classes `Heaper` and `SumHeap` from `hw2-1.cpp` and
`hw2-2.cpp` in Dafny, and proves what they compute. The two files implement
the same tree prefix sum:

- `Heaper` lays a complete binary tree over a flat index space of `2n - 1`
  nodes. Indices `0 .. n - 2` are interior nodes stored in `interior`. Index
  `i >= n - 1` is leaf `i - (n - 1)` of the input `data`.
- The `SumHeap` constructor runs the up-sweep `calcSum`. It fills every
  interior slot with the sum of its two children, so `sum()` (the root) is the
  total.
- `prefixSums` runs the down-sweep `calcPrefix`. It passes a running offset
  `top` down the tree: the left child keeps `top`, and the right child gets
  `top + value(left(i))`. Each leaf writes `top + value(leaf)` into its slot of
  the output buffer.

Both recursions fork their left child with `std::async` up to some recursion
level. The two files differ in their leaf test, fork test, starting level and join,
so each file is a `Variant` of one model:

- `LevelsVariant` (hw2-1) tests for a leaf with `right(i) >= size()`, forks
  while `level < PARALLEL_LEVELS` (4), starts at level 0, and joins with
  `handle.wait()`. That join does not rethrow an exception the forked left
  child ended with.
- `ThreadsVariant` (hw2-2) tests for a leaf with `i >= n - 1`, forks while
  `level <= N_THREADS / 2` (8 / 2), starts at level 1, and joins with
  `handle.get()`, which rethrows it.

A forked call is modelled as running the right child to completion and then
the left one. The left one runs even when the right one threw, because the
future's destructor waits for it. An unforked call runs left, then right, and
skips the right child when the left one threw.

A `vector::at` past the end of the output buffer throws `std::out_of_range`.
The down-sweep's result `Sweep` keeps the buffer with every write done so far,
and records whether an exception escapes the call. `prefixSums` reports an
escaping exception as `Failure(OutOfRange)`. The allocation of `n - 1` slots
with `n == 0` becomes `Failure(LengthError)`.

Modules, one per file:

- `Heaper` (`heaper.dfy`) holds the index arithmetic, the two leaf tests and
  `value`.
- `Subtree` (`subtree.dfy`) holds the tree shape. It defines which nodes lie
  under which, and the sum a built heap holds at every node. For `2^k` leaves
  it proves that each subtree covers a contiguous run of the input.
- `Sweeps` (`sweeps.dfy`) holds the constructor, `sum`, `calcSum`,
  `calcPrefix` and `prefixSums`.
- `Correctness` (`correctness.dfy`) proves the heap invariant, the total, and
  the prefix sums. It also has the examples: all ones as in `main`, four
  leaves, one leaf, and three leaves. With three leaves and a two-slot buffer
  the two files give different outcomes.
- `Schedule` (`schedule.dfy`) proves that results do not depend on the fork
  threshold, the starting level or the variant, for every leaf count, when
  the buffer has a slot per leaf. With a shorter buffer, every slot still
  holds either its old content or its final value.
- `Writes` (`writes.dfy`) defines the order in which each sweep writes its
  slots. It proves that every slot is written exactly once. The up-sweep
  equals its writes carried out in that order, and so does the down-sweep
  when every leaf has its slot in the buffer.

## Model

| member | source | states |
|---|---|---|
| `Heaper.Left` | hw2-2.cpp:58-60 | The left child of a node has a larger index than the node, and `parent` of the left child is the node again. |
| `Heaper.Right` | hw2-1.cpp:42-44 | The right child is `left(i) + 1` (hw2-2 writes it as `2i + 2`), and for every node `parent` of the right child is the node again. |
| `Heaper.SizeEndsAtLastChild` | hw2-1.cpp:27-29 | `size()` ends the index space just past the right child of the last interior node. It holds the `n - 1` interior nodes followed by the `n` leaves. |
| `Heaper.Parent` | hw2-2.cpp:72-74 | With C++ truncating division the root is its own parent. Every other node's parent is smaller than the node, and the node is one of the parent's two children. |
| `Heaper.IsLeaf` | hw2-2.cpp:49-53 | A non-leaf node's right child is inside the index space of `2n - 1` nodes. A leaf inside the index space maps to a position of `data`. |
| `Heaper.IsLeafByRight` | hw2-1.cpp:45-47 | The hw2-1 test `right(i) >= size()` agrees with the hw2-2 test `i >= n - 1` for every `n` and `i`, over unbounded integers. |
| `Heaper.RightChildFitsInt` | hw2-1.cpp:42-47 | In a 32-bit `int`, `right(i)` is in range at every node the sweeps visit exactly when `n <= 2^29`. |
| `Heaper.InteriorChildrenFitInt` | hw2-2.cpp:49-67 | hw2-2 computes children only at interior nodes, and every such index fits in a 32-bit `int` exactly when `n <= 2^30`. |
| `Heaper.Value` | hw2-2.cpp:39-44 | `value(i)` succeeds exactly for `0 <= i < 2n - 1`. It returns `interior[i]` below `n - 1` and `data[i - (n - 1)]` from there on. |
| `Sweeps.LeafIn` | hw2-1.cpp:45-47 | Over unbounded integers, both variants classify every node alike. |
| `Sweeps.DeeperLevelsRunInline` | hw2-1.cpp:83-91 | A call forks exactly on the levels above the first level that runs inline (`level < PARALLEL_LEVELS` in hw2-1, `level <= N_THREADS/2` in hw2-2). Once a level runs inline, every deeper level does too. |
| `Sweeps.CalcSum` | hw2-2.cpp:94-112 | `calcSum(i, level)` sets exactly the interior slots under `i`, each to the sum of the leaves below it. Every other slot and the input stay unchanged, whichever branch each level takes. |
| `Sweeps.ParentWrite` | hw2-2.cpp:110 | Once both children's subtrees are summed, `interior[i] = value(left(i)) + value(right(i))` makes the whole subtree of `i` summed and changes nothing else. |
| `Sweeps.Build` | hw2-2.cpp:80-82 | The constructor succeeds exactly when `n >= 1`; with `n == 0` it is a length error. It keeps the input, and afterwards every interior slot holds its subtree's sum. |
| `Sweeps.Sum` | hw2-2.cpp:83-85 | `sum(node)` succeeds exactly for nodes in the index space. On a built heap it is the sum of the leaves under `node`. |
| `Sweeps.CalcPrefix` | hw2-1.cpp:79-93 | The down-sweep keeps the buffer's length, whether or not an exception escapes. |
| `Sweeps.CalcPrefixWritesOwnLeaves` | hw2-1.cpp:79-93 | For every leaf count and either join, the down-sweep of subtree `i` changes no slot except the slots of the leaves under `i`, thrown or not. It throws nothing when every such leaf has its slot. Under `get()` joins it throws exactly when some leaf lacks its slot. |
| `Sweeps.PrefixSums` | hw2-2.cpp:86-88 | `prefixSums` returns normally whenever the buffer has at least `n` slots. Under `get()` (hw2-2) it returns normally only then. Its only error is out-of-range, and a normal return keeps the buffer's length and leaves the slots past `n` alone. |
| `Subtree.SubtreeChildren` | hw2-2.cpp:58-67 | The subtree of `i` is `i` together with the subtrees of `left(i)` and `right(i)`. |
| `Subtree.ChildrenDisjoint` | hw2-2.cpp:58-67 | The subtrees of two siblings share no node, and neither contains the parent. |
| `Subtree.RootCoversAll` | hw2-2.cpp:72-74 | Following `parent` from any node reaches the root. |
| `Subtree.NodeShape` | hw2-2.cpp:49-67 | With `2^k` leaves, node `p` of level `d` lies inside the index space. It is a leaf exactly on level `k`, and then it is leaf `p`. Its children are nodes `2p` and `2p + 1` of the next level. |
| `Subtree.SubtreeSumIsLeafSum` | hw2-2.cpp:94-112 | For any leaf count, the sum a built heap holds at node `i` is the sum of the inputs whose leaves lie under `i`. |
| `Subtree.RootSumIsTotal` | hw2-2.cpp:83-85 | For any leaf count, the root of a built heap holds the total of the input. |
| `Subtree.Pow2IsPowerOfTwo` | hw2-2.cpp:137 | Every `2^k` passes the power-of-two test, and `Log2` gives back `k`. With `Log2`'s own contract, the lengths the FIXME allows are exactly the `2^k`. |
| `Subtree.SubtreeSumIsRangeSum` | hw2-2.cpp:137 | With a power-of-two leaf count, every subtree sums a contiguous, left-to-right run of the input. This is what the power-of-two requirement buys. |
| `Correctness.PairSummedValue` | hw2-2.cpp:94-112 | If every interior slot is `value(left(i)) + value(right(i))`, then every node's value is the sum of the leaves under it. |
| `Correctness.PairSummedIffSummed` | hw2-2.cpp:103-110 | The local invariant "each interior slot is the sum of its two children" holds exactly when every interior slot holds its subtree's sum. |
| `Correctness.BuildIsPairSummed` | hw2-1.cpp:52-54 | After the constructor, for any `n >= 1`, `interior[i] == value(left(i)) + value(right(i))` for every interior `i`. |
| `Correctness.SumOfNode` | hw2-1.cpp:55-57 | With `2^k` leaves, `sum(i)` of node `p` on level `d` is the sum of that node's run of the input, and the run lies inside the input. |
| `Correctness.SumIsTotal` | hw2-2.cpp:83-85 | For any non-empty input, `sum()` of the built heap is the total of the input. |
| `Correctness.CalcPrefixComputesPrefixes` | hw2-2.cpp:118-133 | With `2^k` leaves, the down-sweep of a node from offset `top` throws exactly when the node's run does not fit in the buffer, under either join. Otherwise it writes into each slot of the run `top` plus the inputs of the run up to and including that slot, and leaves every other slot alone. |
| `Correctness.ForkedPrefix` | hw2-1.cpp:83-87 | The same statement, for the forked branch. It runs the right child from `top + value(left(i))`, then the left child from `top` even if the right one threw; the left child's exception escapes only through `get()`. |
| `Correctness.SequentialPrefix` | hw2-2.cpp:129-132 | The same statement, for the unforked branch, which runs the left child from `top` and then the right child from `top + value(left(i))`. |
| `Correctness.LeftChildSum` | hw2-1.cpp:86-90 | The offset added for the right child, `sum(left(i))`, is the sum of the left half of the node's run. |
| `Correctness.RootPrefixes` | hw2-1.cpp:58-60 | `prefixSums` on a summed power-of-two heap is the down-sweep from the root at offset 0. It writes the inclusive prefix sums of the whole input into the first `n` slots. |
| `Correctness.PrefixSumsCorrect` | hw2-2.cpp:86-88 | For a power-of-two input, `prefixSums` on the built heap succeeds exactly when the buffer has `n` slots. Slot `j` then receives `data[0] + ... + data[j]`. |
| `Correctness.AllOnes` | hw2-2.cpp:152-157 | The check in `main`: all-ones data of power-of-two length, written into a buffer of ones, gives `j + 1` in slot `j`, and `sum()` is `n`. |
| `Correctness.FourLeaves` | hw2-2.cpp:86-88 | A worked example: the input `[3, 1, 4, 1]` gives prefix sums `[3, 4, 8, 9]` and total 9. |
| `Correctness.SingleLeaf` | hw2-1.cpp:45-47 | With one leaf the interior is empty, and both `sum()` and output slot 0 are the single input. |
| `Correctness.ThreeLeaves` | hw2-2.cpp:137 | With three leaves the output is `[x + y + z, y, y + z]`, not prefix sums. The power-of-two requirement is needed. |
| `Correctness.ThreeOnesMisordered` | hw2-1.cpp:96 | Three ones give `[3, 1, 2]`, which the check in `main` would reject. |
| `Correctness.ThreeLeavesShortBuffer` | hw2-1.cpp:83-87 | Three leaves into a two-slot buffer: hw2-1 drops the exception of leaf 4 at a `wait()` join and returns `[x + y + z, y]`. hw2-2 throws. So does hw2-1 with `PARALLEL_LEVELS` set to 0. |
| `Correctness.VariantsAgreeOnPowersOfTwo` | hw2-1.cpp:96 | For a power-of-two input, hw2-1 and hw2-2 give the same `prefixSums` outcome on every buffer. |
| `Schedule.UpSweepThresholdFree` | hw2-2.cpp:99-111 | The up-sweep's result is the same whatever the fork threshold, starting level or leaf test. |
| `Schedule.CalcPrefixValues` | hw2-2.cpp:118-133 | When every leaf of a subtree has its slot, the subtree's down-sweep throws nothing. Each leaf slot receives an order-independent value: the offset, plus the left siblings passed on the path from the subtree's root, plus the leaf's own input. All other slots are unchanged. |
| `Schedule.PartialWritesAreFinal` | hw2-1.cpp:79-93 | Whatever a down-sweep leaves behind, thrown or dropped, each slot holds either its old content or the value a complete down-sweep writes there. |
| `Schedule.DownSweepThresholdFree` | hw2-2.cpp:123-132 | When every leaf of the subtree has its slot, the down-sweep's outcome is the same whatever the fork threshold, starting level or join, for every leaf count. Under `get()` joins it throws in the same cases for every buffer. |
| `Schedule.PrefixSumsThresholdFree` | hw2-1.cpp:83-91 | `prefixSums` gives the same outcome under every variant, for every leaf count, when the buffer has `n` slots. Two variants that both join with `get()` agree on every buffer. |
| `Schedule.VariantsAgree` | hw2-1.cpp:52-60 | hw2-1 and hw2-2 build the same heap from the same input, for every leaf count. Their `prefixSums` agree on it whenever the buffer has `n` slots. |
| `Writes.SumWritesOnce` | hw2-2.cpp:94-112 | `calcSum(i, …)` writes each interior slot under `i` exactly once and no other slot. |
| `Writes.UpSweepWritesEachSlotOnce` | hw2-1.cpp:66-78 | From the root, the up-sweep writes each of the `n - 1` interior slots exactly once. |
| `Writes.CalcSumReplaysTrace` | hw2-1.cpp:66-78 | The up-sweep equals its list of writes carried out one after another, on any heap. Each write is `interior[i] = value(left(i)) + value(right(i))`, reading both children from the heap the earlier writes left behind. Every write is inside `interior`. |
| `Writes.PrefixWritesOnce` | hw2-2.cpp:120-121 | `calcPrefix(i, …)` writes the output slot of each leaf under `i` exactly once and no other slot. |
| `Writes.CalcPrefixReplaysTrace` | hw2-2.cpp:118-133 | When every leaf of the subtree has its slot, the down-sweep equals its list of writes carried out one after another. Each write sets its slot to the value `Schedule.PrefixAt` gives its leaf. |
| `Writes.DownSweepWritesEachSlotOnce` | hw2-2.cpp:86-88 | `prefixSums` writes each of the slots `0 .. n - 1` exactly once and no other slot. It returns normally whenever every slot it writes exists, and under `get()` only then. |

## Left out

- The `std::async` threads are not modelled as concurrency. A forked call runs
  the right child to completion and then the left one. The two children write
  disjoint slots and read only `data` and `interior`, so every interleaving
  leaves the same buffer. Thread creation failing with `std::system_error` is
  not modelled.
- `Sweeps.CalcSum`: values are unbounded integers, so the 32-bit `int`
  overflow of the sums is not modelled. The input in `main` has total `2^26`,
  which fits.
- `Sweeps.CalcPrefix`: the same holds for the running offsets `top` and
  `sumPrior`, which are also unbounded here.
- `Sweeps.PrefixSums`: when an exception escapes `prefixSums`, the writes it
  already made to the caller's buffer are not part of the result. Only the
  failure is.
- `Sweeps.PrefixSums`: the output buffer is taken to be a different vector
  from `data`. The C++ signature also accepts `prefixSums(&data)`. Then a leaf
  write changes an input that `value()` reads later: an unforked branch reads
  `value(left(i))` after its left child has written to it, and a forked branch
  races on it. The model does not cover that call.
- `Heaper.IsLeafByRight`: indices are unbounded integers here. In hw2-1,
  `right(i)` is an `int` and overflows at the last leaves once `n > 2^29`
  (`Heaper.RightChildFitsInt`). Signed overflow is undefined in C++, so the
  agreement of the two leaf tests carries over to hw2-1 only while
  `n <= 2^29`. The count `n` itself comes from `n(data->size())`, a `size_t`
  narrowed into an `int`, which the model does not narrow.
- `Sweeps.LeafIn`: the two variants' leaf tests agree only over unbounded
  integers. hw2-1's `right(i) >= size()` matches `i >= n - 1` only while
  `n <= 2^29`, for the reason given on the `Heaper.IsLeafByRight` line.
- `Schedule.VariantsAgree`: for the same reason it describes hw2-1 only for
  `n <= 2^29`. hw2-2 computes children only at interior nodes and never calls
  `size()`, so its indices stay in range exactly while `n <= 2^30`
  (`Heaper.InteriorChildrenFitInt`). Both files also narrow `data->size()`, a
  `size_t`, into `int n` (`n(data->size())`). `main` uses `2^26`.
- `Correctness.PrefixSumsCorrect`: it is proved only for a power-of-two `n`,
  as the FIXME at `N` in both files requires. For other `n` the output is not
  the prefix sums (`Correctness.ThreeLeaves`). The frame, write-once and replay
  properties hold for every `n`. Threshold independence holds for every `n`
  when the buffer has `n` slots.
- `n == 0`: the allocation of `n - 1` slots with a `size_t` wrap-around throws,
  modelled as `Failure(LengthError)`. With `n == 0` both `sum()` and
  `prefixSums` are unreachable.
- `main` in both files: the timing with `chrono`, the printing, and the
  constant-filled input. Only its result check is kept, as
  `Correctness.AllOnes`.
- `dump()` in hw2-1 is console output.
- Virtual dispatch, ownership of `interior` through a `Data *` (`new` and
  `delete`) and the destructor. `interior` is a sequence of `n - 1` integers,
  and the heap is an immutable value. Writes to the output buffer reach
  neither `data` nor `interior` (but see the aliasing line above).
- How many threads run at once: `N_THREADS` (8) and `PARALLEL_LEVELS` (4)
  enter the model only through the level test that decides whether a call
  forks.
