# Bubble sort, modelled and verified in Dafny

The repository's one program sorts a `std::vector<int>` in place with an
unoptimised bubble sort (`bubbleSort` in `bubble_sort.cpp`) and prints the
vector before and after. This project models `bubbleSort` and proves what it
promises.

`Bubble.BubbleSort` is the C++ function as an imperative Dafny method on an
`array<int>` with `modifies a`. It keeps the same two nested counting loops:
`i` from 0 while `i < n - 1`, `j` from 0 while `j < n - i - 1`. It swaps
`a[j]` and `a[j + 1]` when `a[j] > a[j + 1]` strictly. The loop invariants
tie the array at every iteration to pure functions that replay the same loops:

- `Step(s, j)` is one iteration of the inner loop body.
- `PassUpTo(s, j)` is the first `j` iterations of one pass.
- `SweepsUpTo(s, i)` is the first `i` passes.
- `BubbleSortSpec(s)` is all `max(n - 1, 0)` passes.

The loops also carry the classic invariants, established from lemmas about
those functions. On the outer loop, the cells from `n - i` on are settled:
they are sorted and nothing before them is larger. On the inner loop, `a[j]`
is a maximum of `a[0..j]`.

The method's postcondition says the array ends up equal to
`BubbleSortSpec` of its old contents. It also says the result is sorted and
has the same multiset of values as the input.

The lemmas prove these facts about the spec functions:

- The loop invariant that the source's comment describes: after pass `i`, the
  last `i + 1` cells hold the largest values, in order (`SweepsSettle`).
- The inner invariant: the running maximum of `a[0..j]` sits at `j`
  (`PassKeeps`).
- Every step keeps the multiset of values.
- An already sorted vector, equal neighbours included, is never changed, so
  sorting is idempotent.
- Vectors of length 0 and 1 are left alone.
- The result is *the* sorted permutation of the input: any sorted sequence
  with the same values is equal to it.

`SortSample` calls `BubbleSort` on the driver's literal array. Its
postcondition states that the array then holds `11 12 22 25 34 64 90`.

Values are only compared, never added or multiplied, so Dafny's unbounded
`int` matches C++ `int` exactly here. All indices stay below `n`, and Dafny
checks every array access.

## Model

| member | source | states |
|---|---|---|
| `Bubble.BubbleSort` | bubble_sort.cpp:5-16 | After the call the array equals `BubbleSortSpec` of its old contents. The result is sorted (non-decreasing for every pair `p < q`) and has the same multiset of values as before. All accesses `a[j]`, `a[j + 1]` are in bounds. The loops keep the settled suffix from `n - i` and the running maximum at `j` as invariants. |
| `Bubble.Step` | bubble_sort.cpp:10-13 | One inner-loop body keeps the length. Its meaning is stated by `StepEffect` (swap only when strictly out of order, nothing else changes) and `StepPermutes` (same multiset). |
| `Bubble.PassUpTo` | bubble_sort.cpp:9-14 | The first `j` inner-loop iterations keep the length. Their meaning is stated by `PassKeeps` (settled suffix kept, running maximum at `j`), `PassPermutes` (same multiset) and `PassFixed` (no change on sorted input). |
| `Bubble.SweepsUpTo` | bubble_sort.cpp:7-15 | The first `i` passes keep the length. Their meaning is stated by `SweepsSettle` (last `i` cells final), `SweepsPermute` (same multiset) and `SweepsFixed` (no change on sorted input). |
| `Bubble.PassCount` | bubble_sort.cpp:6-7 | The number of passes is 0 when `n <= 1` and otherwise below `n`, so it is a legal pass count. It is at least `n - 1`, so the passes leave at most the first cell outside the settled suffix. |
| `Bubble.BubbleSortSpec` | bubble_sort.cpp:5-16 | The whole sort keeps the length. Its meaning is stated by `BubbleSortCorrect` (sorted permutation), `BubbleSortIsSortedPermutation` (equal to every sorted rearrangement), `SortedUnchanged` and `BubbleSortIdempotent`. |
| `Bubble.StepEffect` | bubble_sort.cpp:10-13 | One inner-loop step changes nothing when `s[j] <= s[j + 1]`, equal values included. When `s[j] > s[j + 1]` it exchanges the two cells. No other cell changes, and afterwards the pair is in order. |
| `Bubble.StepPermutes` | bubble_sort.cpp:12 | A compare-and-swap keeps the multiset of values. |
| `Bubble.PassPermutes` | bubble_sort.cpp:9-14 | Any number of iterations of the inner loop keeps the multiset of values. |
| `Bubble.SweepPermutes` | bubble_sort.cpp:7-15 | Pass `i` keeps the multiset of values left by the passes before it. |
| `Bubble.SweepsPermute` | bubble_sort.cpp:7-15 | Any number of passes keeps the multiset of values. |
| `Bubble.StepKeeps` | bubble_sort.cpp:9-13 | One step below the bound `m` keeps the settled suffix `s[m..]`. It moves the running maximum from `j` to `j + 1`. |
| `Bubble.SettleBoundary` | bubble_sort.cpp:9 | When the inner loop stops at `j = m - 1`, the maximum there extends the settled suffix to `s[m - 1..]`. |
| `Bubble.PassKeeps` | bubble_sort.cpp:8-14 | Inner-loop invariant: after `j` iterations of a pass with bound `m`, `s[m..]` is still settled and `s[j]` is a maximum of `s[0..j]`. |
| `Bubble.SweepsSettle` | bubble_sort.cpp:7-15 | Outer-loop invariant: after `i` passes the last `i` cells are sorted and no earlier cell exceeds them. |
| `Bubble.BubbleSortCorrect` | bubble_sort.cpp:5-16 | The sort's result is sorted, has the input's length and has the input's multiset of values. |
| `Bubble.PassFixed` | bubble_sort.cpp:10-12 | On a sorted vector no inner-loop iteration changes anything. A swap needs `>` strictly. |
| `Bubble.SweepsFixed` | bubble_sort.cpp:7-15 | On a sorted vector no pass changes anything. |
| `Bubble.SortedUnchanged` | bubble_sort.cpp:5-16 | An already sorted input is returned exactly as it was. |
| `Bubble.BubbleSortIdempotent` | bubble_sort.cpp:5-16 | Sorting twice gives the same vector as sorting once. |
| `Bubble.ShortUnchanged` | bubble_sort.cpp:6-7 | Empty and one-element vectors are left unchanged, because `i < n - 1` is false at once. |
| `Bubble.SortedUnique` | bubble_sort.cpp:5-16 | Two sorted sequences with the same multiset of values are equal. This is the independent reference for what a correct sort must return. |
| `Bubble.BubbleSortIsSortedPermutation` | bubble_sort.cpp:5-16 | The sort's result equals every sorted rearrangement of the input. |
| `Bubble.SampleSorted` | bubble_sort.cpp:27-32 | The driver's input `64 34 25 12 22 11 90` becomes `11 12 22 25 34 64 90`. |
| `Bubble.SortSample` | bubble_sort.cpp:26-32 | Calls `BubbleSort` on the driver's literal array. Its postcondition states that the array then holds `11 12 22 25 34 64 90`. |
| `Bubble.DuplicatesKept` | bubble_sort.cpp:5-16 | Duplicates keep their multiplicity: `5 3 5 1` becomes `1 3 5 5`. |

## Left out

- `printArray` (bubble_sort.cpp:19-24) and the labelled console output in `main` (bubble_sort.cpp:29-35): these are output only. `SortSample` models the rest of `main`: it builds the vector and sorts it.
- The narrowing of `arr.size()` (`size_t`) to `int` at bubble_sort.cpp:6: the model uses the unbounded `a.Length`. The overflow for vectors longer than `INT_MAX` depends on machine width and is not part of the algorithm.
- `std::vector` is modelled as a fixed-length `array<int>`. `bubbleSort` never resizes the vector, so nothing is lost.
- `BubbleSort`'s postcondition does not repeat that a sorted input is left unchanged. This follows from its first postcondition together with `SortedUnchanged`.
