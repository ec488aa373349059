# reinvention: `myReduce` and `useCustomEffect` in Dafny

A model of two small JavaScript reimplementations, with proofs about each.

- `myReduce(array, callback, initialValue)` is a hand-written left fold. When
  `initialValue` is `undefined`, the accumulator starts at `array[0]` and the loop
  starts at index 1. Otherwise the accumulator starts at the seed and the loop
  starts at 0. Each iteration replaces the accumulator with
  `callback(accumulator, array[i], i, array)`.
- `useCustomEffect(callback, deps)` is a conditional-effect hook. It keeps two refs:
  `hasMounted` and `prevDeps`. The first effect run always calls the callback and
  marks the hook mounted. Every later run calls the callback only when
  `areDepsEqual(prevDeps, deps)` is false, and then it stores `deps`.
  `areDepsEqual` compares the arrays index by index, driven by the old array only.

Files:

- `js_value.dfy` (module `JsValues`): JavaScript values as `Undefined | Defined(v)`.
  `At(a, i)` is `a[i]`, which reads `undefined` past the end. `Argument` models a
  parameter that may be omitted.
- `reduce.dfy` (module `ArrayReduce`) covers `myReduce`:
  - `Reduce` is the pure specification, and `LoopFrom` is the `for` loop as recursion.
  - `FoldLeft` over `Enumerated` (element, index) pairs is an independent textbook
    left fold.
  - `MyReduce` is the loop itself. It returns the result together with the list of
    callback invocations.
- `use_effect.dfy` (module `CustomEffect`) covers the hook:
  - `AreDepsEqual`.
  - `Step`, one run of the effect body as a pure transition `(state, deps) -> (fired, state')`.
  - `Run` and `Lifecycle`, a whole sequence of renders whose first render's `deps`
    initialises `prevDeps`.

The JavaScript `undefined` is modelled explicitly because both snippets depend on it:

- An empty array reduced without a seed returns `array[0]`. That is `undefined`,
  and no error is raised.
- A seed that is explicitly `undefined` counts as no seed.
- In `areDepsEqual`, a `newDeps` shorter than `oldDeps` reads `undefined` at the
  missing indices. So `areDepsEqual([undefined], [])` is true.

The built-in `Array.prototype.reduce` raises a `TypeError` for an empty array
without a seed, and one might expect the same here. The code returns `undefined`
instead, and this model follows the code (`ArrayReduce.ReduceEmpty`).

## Model

| member | source | states |
|---|---|---|
| `ArrayReduce.MyReduce` | javascript/reduce.js:2-26 | The loop's result equals the specification `Reduce` and the left fold of the callback from the initial accumulator. The callback runs once per index from the start index to the end, in strictly ascending order, and never when the start index is past the end. Each call gets `array[index]`, and its accumulator is the previous call's result (the first gets the initial accumulator). The returned value is the last call's result. The loop invariant states that the accumulator is the fold of the prefix `array[startIndex..i]`. |
| `ArrayReduce.LoopFromIsFoldLeft` | javascript/reduce.js:18-22 | Running the loop from index `i` equals the textbook left fold of the callback over the (element, index) pairs from `i` to the end. |
| `ArrayReduce.ReduceWithSeed` | javascript/reduce.js:7-21 | With a defined seed, the result is the left fold of the callback over all elements from index 0, starting at the seed. |
| `ArrayReduce.ReduceWithoutSeed` | javascript/reduce.js:7-21 | Without a seed and with a non-empty array, the accumulator starts at `array[0]` and the fold covers indices 1 to the end. |
| `ArrayReduce.ReduceEmpty` | javascript/reduce.js:7-25 | An empty array returns the seed unchanged, whatever the seed. With no seed (an `undefined` seed) it therefore returns `undefined` and raises no error. |
| `ArrayReduce.ExplicitUndefinedIsOmitted` | javascript/reduce.js:2-11 | Passing `undefined` as the initial value gives the same result as leaving the argument out. |
| `ArrayReduce.LoopFromShift` | javascript/reduce.js:18-21 | Running the loop from index `i + 1` over `a` equals running it from `i` over `a[1..]` with the callback's indices shifted up by one. |
| `ArrayReduce.UnseededIsSeededTail` | javascript/reduce.js:7-21 | For a non-empty array whose first element is defined, reducing without a seed equals reducing `array[1..]` with seed `array[0]` and indices shifted by one. |
| `ArrayReduce.UndefinedHeadIsNoSeed` | javascript/reduce.js:7-11 | The previous property needs its side condition. For `[undefined, 10, 20]`, a counting callback gives 2 unseeded but 11 on the tail, because the `undefined` seed is treated as absent. |
| `ArrayReduce.SumExample` | javascript/reduce.js:2-26 | Summing `[1, 2, 3, 4]` gives 10 without a seed and 110 with seed 100. |
| `CustomEffect.EveryFrom` | react/useEffect.js:29 | The `every` scan from index `i` is true exactly when each `oldDeps[k]` with `k >= i` equals `newDeps[k]`, where an index past the end of `newDeps` reads `undefined`. |
| `CustomEffect.AreDepsEqualMeaning` | react/useEffect.js:28-30 | `areDepsEqual(old, new)` holds iff `old[i] == new[i]` for every `i < |old|`, with a missing `new[i]` read as `undefined`. An empty `old` equals anything. |
| `CustomEffect.AreDepsEqualReflexive` | react/useEffect.js:29 | Every dependency array is equal to itself. |
| `CustomEffect.AreDepsEqualIgnoresExtra` | react/useEffect.js:28-30 | Entries of `new` beyond `|old|` are ignored. When `new` is at least as long as `old`, the comparison is true iff `old` is a prefix of `new`. |
| `CustomEffect.AreDepsEqualShorterNew` | react/useEffect.js:28-30 | When `new` is shorter, the comparison holds iff `new` is a prefix of `old` and every extra entry of `old` is `undefined`. |
| `CustomEffect.AreDepsEqualNotSymmetric` | react/useEffect.js:28-30 | `areDepsEqual([], [1])` holds but `areDepsEqual([1], [])` does not. `areDepsEqual([undefined], [])` holds. |
| `CustomEffect.Step` | react/useEffect.js:11-23 | After any effect run the hook is mounted. An unmounted hook always fires and keeps `prevDeps`. A mounted hook fires exactly when `areDepsEqual(prevDeps, deps)` is false, and then stores `deps` and changes nothing else. A run that does not fire leaves the state unchanged. |
| `CustomEffect.Run` | react/useEffect.js:4-24 | Over a sequence of effect runs, there is one firing flag per run. `hasMounted` never goes back to false, and any run mounts the hook. With no firing the state is unchanged. The remembered `prevDeps` is the initial one or the deps of a run that fired. |
| `CustomEffect.LastFiring` | react/useEffect.js:13-17 | Returns an index into the firing flags. No run after it fired, and a non-zero index is itself a run that fired, so it is the last run that fired. |
| `CustomEffect.RunPrefix` | react/useEffect.js:9-24 | Running only the first `k` renders fires exactly as the full run does on those renders. |
| `CustomEffect.LifecycleState` | react/useEffect.js:4-23 | After the first `k` renders, where the first render's deps initialise `prevDeps`, the first run has fired, the hook is mounted, and `prevDeps` holds the deps of the most recent render that fired. |
| `CustomEffect.LifecycleMountFires` | react/useEffect.js:19-23 | The first effect run of a lifecycle always fires. |
| `CustomEffect.LifecycleKeepsLastFiredDeps` | react/useEffect.js:7-17 | At the end of a lifecycle, `prevDeps` holds the deps of the most recent render that fired. |
| `CustomEffect.LifecycleFiresIffDepsChanged` | react/useEffect.js:11-17 | Every run after the first fires exactly when its deps are not `areDepsEqual` to those of the most recent render that fired. |
| `CustomEffect.EmptyDepsQuietUpTo` | react/useEffect.js:11-30 | When the first render passes an empty dependency array, none of the runs 1 to `k - 1` fires. |
| `CustomEffect.EmptyDepsFireOnlyOnMount` | react/useEffect.js:7-30 | When the first render passes an empty dependency array, the callback fires on mount and in no later run. |
| `JsValues.At` | react/useEffect.js:29 | JavaScript `a[i]`: the element when `i` is in range, and `undefined` past the end. This is the read `newDeps[i]` at react/useEffect.js:29 and `array[0]` on an empty array at javascript/reduce.js:7. |
| `JsValues.Bind` | javascript/reduce.js:2 | An `initialValue` argument that is left out binds to `undefined`, and a passed one binds to the value passed. |

## Left out

- The React runtime is not modelled (react/useEffect.js:4,7,9,24). That covers `useRef`
  persistence across renders, when React schedules the effect, and React's own gating
  of the effect by the `deps` argument. `Run` and `Lifecycle` treat each effect run as
  one `Step`.
- The callbacks are pure function values. Their side effects and exceptions are not
  modelled. For the hook, "the callback is invoked" is the `fired` flag. In JavaScript a
  `myReduce` callback receives `array` by reference and may mutate it. In the model a
  callback cannot mutate the array, so the loop's re-reading of `array.length` and of
  later elements after such a mutation is not modelled.
- JavaScript `===` corner cases are not modelled: `NaN`, `-0` versus `+0`, and object
  identity versus structure. Values are a generic type compared with `==`.
- Sparse arrays and holes are not modelled: `every` skips holes, and the `for` loop
  reads them as `undefined`. A missing or non-array `deps`, which makes `every` throw,
  is not modelled either. Dependency arrays are sequences.
- Dependency arrays are treated as immutable values. The source stores a reference to
  the `deps` array in `prevDeps` (react/useEffect.js:7,17). A caller that mutates that
  array in place and renders again with the same array makes the source compare the
  array with itself, so the effect does not fire. The model compares the stored
  contents with the new contents, so it fires. Mutation of a stored array in place is
  not modelled.
- Type coercion and JavaScript's number representation of indices are not modelled.
  Indices are unbounded naturals.
- The `calls` out-parameter of `ArrayReduce.MyReduce` records the callback invocations for
  the contract. The source does not return them.
