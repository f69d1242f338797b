# Mutation operators and pheromone intensification

A model of two operator layers of a metaheuristics course repository:

- **Mutation operators** of the genetic algorithm (`Mutator` module, `mutator.dfy`). A candidate
  (`Individual`) holds an integer job-assignment array. Each operator overwrites that array in
  place and returns the candidate it was given:
  - `RandomMutator.Mutate` replaces each position picked by a Bernoulli mask with a value drawn
    from `[0, max)`, where `max` is taken before any write.
  - `BoundaryMutator.Mutate` uses a ternary mask and writes the array's original min (tag 0) or
    max (tag 2). It does this in two passes, one per tag.
  - `SwapMutator.Mutate` exchanges one position with its cyclic successor.
  - `RandomMutator.DynamicAdaptation` rescales the rate from the original rate. The no-op
    `DynamicAdaptation` of the other two mutators has no `modifies` clause, so it changes nothing.
- **Pheromone intensification** of the ant-colony solver (`Intensifier` module,
  `intensifier.dfy`). `Intensifier.Intensify` sets `delta * ratio` on each consecutive edge
  `(solution[k], solution[k+1])` of a zero update matrix. It returns the input plus the update
  as a fresh `array2<real>` and leaves the input alone.

The random draws become method parameters: the Bernoulli mask, the values `randint` returned for
the marked positions, the ternary mask and the swap position. That makes every operator
deterministic. Each operator method is proved against a function on sequences:
`Scatter`, `BoundaryMutated`, `Swapped` and `IntensifiedMatrix`. The lemmas state what the
source promises about those functions.

Error behaviour follows the code. A `mutate` call whose numpy call would raise returns
`Failed(...)` and leaves the array unchanged:

- `np.random.choice` refuses a probability outside `[0, 1]`, which gives `InvalidRate`.
- `max()` of an empty array, or `randint(0)` for the swap position, gives `EmptyAssignments`.
- `randint(0, max)` with `max <= 0` and at least one position marked gives `EmptyDrawRange`.
  When nothing is marked, numpy's `randint` returns an empty draw of size zero without checking
  its bounds, so the model does not fail in that case.

`Intensify` returns `IndexError` when an index is outside `[-n, n)` for its axis. It reads a
negative index from the end of the axis, as numpy does (`Wrap`).

`mutationRate` is used as a Bernoulli probability, which `np.random.choice` accepts only in
`[0, 1]`. The code does not clamp the adapted rate, so an adaptation early in the run can push it above 1 (`AdaptedRateCanLeaveRange`).
The next `mutate` then raises `InvalidRate`.

## Model

| member | source | states |
|---|---|---|
| `Mutator.Individual.constructor` | ex2/Mutator.py:23-31 | the candidate wraps the given job-assignment array, the object every `mutate` receives and returns |
| `Mutator.Max` | ex2/Mutator.py:48 | the array maximum is an element of the array and bounds every element from above |
| `Mutator.Min` | ex2/Mutator.py:49 | the array minimum is an element of the array and bounds every element from below |
| `Mutator.Successor` | ex2/Mutator.py:69 | `(p+1) % size` is the next position, wrapping the last one to 0 |
| `Mutator.Swapped` | ex2/Mutator.py:69-70 | positions p and its successor are exchanged, every other position is unchanged, length and multiset of values are preserved |
| `Mutator.SwapTwiceRestores` | ex2/Mutator.py:69-70 | swapping twice at the same position restores the original array |
| `Mutator.SwapSingletonIsIdentity` | ex2/Mutator.py:67-70 | on a one-element array the swap is a self-swap that changes nothing |
| `Mutator.SwapMutator.Mutate` | ex2/Mutator.py:60-71 | an empty array fails (no position can be drawn); otherwise the array becomes `Swapped(old, mutPos)` and the same candidate is returned |
| `Mutator.Overwrite` | ex2/Mutator.py:50-51 | the masked assignment `a[mask == tag] = v` keeps the array length; its per-position meaning is `OverwriteAt` |
| `Mutator.OverwriteAt` | ex2/Mutator.py:50-51 | a masked assignment `a[mask == tag] = v` sets exactly the tagged positions to v |
| `Mutator.OverwriteWhere` | ex2/Mutator.py:50-51 | the in-place masked assignment loop yields `Overwrite(old, mask, tag, v)` |
| `Mutator.BoundaryMutated` | ex2/Mutator.py:47-51 | the boundary mutation (min and max read first, then the tag-0 and tag-2 passes) keeps the array length; its per-position meaning is `BoundaryMutatedAt` |
| `Mutator.BoundaryMutatedAt` | ex2/Mutator.py:48-51 | tag 0 gives the original min, tag 2 gives the original max, any other tag keeps the value |
| `Mutator.BoundaryMutatedInRange` | ex2/Mutator.py:48-51 | every element after the boundary mutation lies in [original min, original max] |
| `Mutator.BoundaryIntroducesOnlyBounds` | ex2/Mutator.py:48-51 | each position ends as its old value, the original min, or the original max |
| `Mutator.BoundaryMutator.Mutate` | ex2/Mutator.py:40-52 | an empty array fails (max() of an empty array); otherwise min and max are read first, the two masked passes run, and the same candidate is returned |
| `Mutator.CountMarked` | ex2/Mutator.py:30 | the size of the selection `jobAssignments[mutPos]` is at most the array size |
| `Mutator.CountMarkedSnoc` | ex2/Mutator.py:30 | extending the mask by one position adds one marked position exactly when it is marked |
| `Mutator.CountMarkedBefore` | ex2/Mutator.py:30 | a marked position's rank among marked positions is below the number of draws |
| `Mutator.Scatter` | ex2/Mutator.py:30 | the boolean-mask assignment `a[mask] = draws` keeps the array length; its per-position meaning is `ScatterAt` |
| `Mutator.ScatterAt` | ex2/Mutator.py:30 | a boolean-mask assignment gives the k-th marked position the k-th draw and leaves unmarked positions alone |
| `Mutator.ScatterInto` | ex2/Mutator.py:30 | the in-place loop over the mask yields `Scatter(old, mask, draws)` |
| `Mutator.RandomMutatedInRange` | ex2/Mutator.py:29-30 | unmarked positions are unchanged and each marked position gets a value in [0, original max) |
| `Mutator.RandomMutationError` | ex2/Mutator.py:29-30 | `mutate` succeeds exactly when the rate is a probability, the array is non-empty, and the max is positive or nothing is marked |
| `Mutator.RandomMutator.constructor` | ex2/Mutator.py:18-21 | the rate and the original rate both start at the given rate (default 0.5); adaptation defaults to off |
| `Mutator.RandomMutator.Mutate` | ex2/Mutator.py:23-31 | on error the array is unchanged and the error is returned; otherwise the array becomes `Scatter(old, mutPos, draws)` and the same candidate is returned |
| `Mutator.AdaptedRate` | ex2/Mutator.py:35 | progress 0.2 gives the original rate and progress 1.0 gives 0.2 times it |
| `Mutator.AdaptedRateDecays` | ex2/Mutator.py:33-35 | for progress in [0.2, 1.2] the adapted rate is a valid probability, at most the original, and non-increasing in progress |
| `Mutator.AdaptedRateCanLeaveRange` | ex2/Mutator.py:29-35 | original rate 1.0 at progress 0 adapts to 1.2, and the next mutate fails with `InvalidRate` |
| `Mutator.RandomMutator.DynamicAdaptation` | ex2/Mutator.py:33-35 | with adaptation on, the rate becomes `AdaptedRate(origMutationRate, progress)`; otherwise it is unchanged; the original rate is a constant |
| `Intensifier.Wrap` | ex3/Intensifier.py:22 | an accepted numpy index picks a position inside the axis, counting negative indices from the end |
| `Intensifier.Deposits` | ex3/Intensifier.py:21-22 | the update matrix (zeros, then `delta*ratio` assigned on the edges) has the input's shape; its entries are described by `IntensifiedAt` |
| `Intensifier.IntensifiedMatrix` | ex3/Intensifier.py:21-23 | the returned matrix, input plus update, has the input's shape; its entries are described by `IntensifiedAt` |
| `Intensifier.IntensifiedAt` | ex3/Intensifier.py:21-23 | each result entry is the input entry plus delta*ratio on an edge of the solution, and the input entry elsewhere |
| `Intensifier.EdgeReceivesDeposit` | ex3/Intensifier.py:22-23 | for every k < len(solution) - 1 the entry (solution[k], solution[k+1]) receives delta*ratio |
| `Intensifier.DirectEdgeReceivesDeposit` | ex3/Intensifier.py:22-23 | with non-negative indices, `result[solution[k]][solution[k+1]] == input[...] + delta*ratio` |
| `Intensifier.RepeatedEdgeDepositedOnce` | ex3/Intensifier.py:22 | an edge that occurs twice in the solution still gets a single deposit |
| `Intensifier.NonEdgeUnchanged` | ex3/Intensifier.py:21-23 | an entry that is no consecutive pair of the solution equals the input entry |
| `Intensifier.ZeroAmountIsIdentity` | ex3/Intensifier.py:22-23 | a zero deposit (ratio 0) returns the input matrix |
| `Intensifier.ShortSolutionIsIdentity` | ex3/Intensifier.py:22-23 | a solution of at most one node has no edge and returns the input matrix |
| `Intensifier.NonNegativeAmountIsMonotone` | ex3/Intensifier.py:22-23 | a non-negative deposit never lowers an entry |
| `Intensifier.ThreeNodeExample` | ex3/Intensifier.py:11-23 | path [0,1,2] on a zero 3x3 matrix with the default delta and ratio 1.0 deposits 0.1 at (0,1) and (1,2) and nothing elsewhere |
| `Intensifier.Intensifier.constructor` | ex3/Intensifier.py:5-11 | delta is the given value, 0.1 by default |
| `Intensifier.Intensifier.Intensify` | ex3/Intensifier.py:13-23 | IndexError exactly when an index is out of numpy's bounds; otherwise a fresh matrix of the input's shape that equals `IntensifiedMatrix`; the input is not modified |

## Left out

- Random number generation (`np.random.choice`, `np.random.randint`): the draws are parameters. Their ranges are preconditions: mask length equals the array size, the swap position is in `[0, size)`, there is one draw per marked position, and each draw is in `[0, max)`. The Bernoulli distribution and the uniform distributions are not modelled.
- Floating-point arithmetic: rates, `delta`, `ratio` and matrix entries are exact reals. IEEE rounding is not modelled, and no clamping of the rate is added.
- numpy scalar types: job assignments are unbounded integers. The operators only copy existing values or write values below the maximum, so no integer width matters.
- The `Mutator` abstract base class: Dafny traits are not used. The three mutators are independent classes with the same `Mutate` and `DynamicAdaptation` shape.
- The no-op `dynamicAdaptation` of `BoundaryMutator` and `SwapMutator` (ex2/Mutator.py:54-55, 73-74) is modelled by a method without a `modifies` clause. It has no `ensures` and no row above.
- The docstring of `intensify` calls `solution` an N×N binary matrix. The code indexes with it as a one-dimensional node sequence, and the model follows the code.
- The candidate object beyond its `jobAssignments` array, the tour-length heuristics (`Final Project/Heuristic.py`) and the GA/ACO driver are not part of this model.
