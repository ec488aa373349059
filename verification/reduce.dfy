/**
 A hand-written `reduce`: fold a callback over an array from left to right,
 starting either from a caller-supplied seed or, when the seed is `undefined`,
 from the first element.
 */
module ArrayReduce {
  import opened JsValues

  /** The user's callback `(accumulator, element, index, array) => accumulator`,
      taken to be a pure function. */
  type Callback<!T> = (JsValue<T>, JsValue<T>, nat, seq<JsValue<T>>) -> JsValue<T>

  /** One invocation of the callback: the accumulator it was handed, the element
      and the index. (The fourth argument is always the whole array.) */
  datatype Call<T> = Call(acc: JsValue<T>, element: JsValue<T>, index: nat)

  /** The accumulator before the loop: the seed, or `array[0]` when the seed is
      `undefined`, which is itself `undefined` for an empty array. */
  function InitialAccumulator<T>(a: seq<JsValue<T>>, seed: JsValue<T>): JsValue<T>
  {
    if seed.Undefined? then At(a, 0) else seed
  }

  /** Where the loop starts: after the element that became the accumulator. */
  function StartIndex<T>(seed: JsValue<T>): nat
  {
    if seed.Undefined? then 1 else 0
  }

  /** The `for` loop run from index `i` with accumulator `acc`. */
  function LoopFrom<T>(f: Callback<T>, acc: JsValue<T>, a: seq<JsValue<T>>, i: nat): JsValue<T>
    decreases |a| - i
  {
    if i < |a| then LoopFrom(f, f(acc, a[i], i, a), a, i + 1) else acc
  }

  /** `myReduce(array, callback, seed)`, where a seed of `undefined` counts as
      no seed. */
  function Reduce<T>(a: seq<JsValue<T>>, f: Callback<T>, seed: JsValue<T>): JsValue<T>
  {
    LoopFrom(f, InitialAccumulator(a, seed), a, StartIndex(seed))
  }

  /** The call as written in JavaScript, with the third argument possibly left out. */
  function ReduceCall<T>(a: seq<JsValue<T>>, f: Callback<T>, initialValue: Argument<T>): JsValue<T>
  {
    Reduce(a, f, Bind(initialValue))
  }

  // ---------------------------------------------------------------------------
  // Reference definition: the textbook left fold over (element, index) pairs.
  // ---------------------------------------------------------------------------

  /** The elements of `a` from index `from` on, each paired with its index. */
  function Enumerated<T>(a: seq<T>, from: nat): (r: seq<(T, nat)>)
    ensures from <= |a| ==> |r| == |a| - from
    ensures |a| < from ==> r == []
    ensures forall k :: 0 <= k < |r| ==> r[k] == (a[from + k], from + k)
    decreases |a| - from
  {
    if from < |a| then [(a[from], from)] + Enumerated(a, from + 1) else []
  }

  function FoldLeft<A, E>(g: (A, E) -> A, acc: A, s: seq<E>): A
  {
    if s == [] then acc else FoldLeft(g, g(acc, s[0]), s[1..])
  }

  /** The callback as a binary function on (element, index) pairs of `a`. */
  function Combine<T>(f: Callback<T>, a: seq<JsValue<T>>): (JsValue<T>, (JsValue<T>, nat)) -> JsValue<T>
  {
    (acc: JsValue<T>, p: (JsValue<T>, nat)) => f(acc, p.0, p.1, a)
  }

  /** The callback seen from `a[1..]`: each index is shifted back up by one and
      the array argument is the original `a`. */
  function ShiftIndices<T>(f: Callback<T>, a: seq<JsValue<T>>): Callback<T>
  {
    (acc: JsValue<T>, x: JsValue<T>, i: nat, arr: seq<JsValue<T>>) => f(acc, x, i + 1, a)
  }

  lemma {:induction false} FoldLeftSnoc<A, E>(g: (A, E) -> A, acc: A, s: seq<E>, x: E)
    ensures FoldLeft(g, acc, s + [x]) == g(FoldLeft(g, acc, s), x)
    decreases |s|
  {
    if s == [] {
      assert [] + [x] == [x];
    } else {
      assert (s + [x])[1..] == s[1..] + [x];
      FoldLeftSnoc(g, g(acc, s[0]), s[1..], x);
    }
  }

  /** The loop from index `i` is the left fold of the callback over the
      remaining (element, index) pairs. */
  lemma {:induction false} LoopFromIsFoldLeft<T>(f: Callback<T>, acc: JsValue<T>, a: seq<JsValue<T>>, i: nat)
    ensures LoopFrom(f, acc, a, i) == FoldLeft(Combine(f, a), acc, Enumerated(a, i))
    decreases |a| - i
  {
    if i < |a| {
      var e := Enumerated(a, i);
      assert e[0] == (a[i], i);
      assert e[1..] == Enumerated(a, i + 1);
      LoopFromIsFoldLeft(f, f(acc, a[i], i, a), a, i + 1);
    }
  }

  /** With a seed, the result is the left fold of the callback over every
      element from index 0, starting at the seed. */
  lemma ReduceWithSeed<T>(a: seq<JsValue<T>>, f: Callback<T>, seed: JsValue<T>)
    requires seed.Defined?
    ensures Reduce(a, f, seed) == FoldLeft(Combine(f, a), seed, Enumerated(a, 0))
  {
    LoopFromIsFoldLeft(f, seed, a, 0);
  }

  /** Without a seed, `array[0]` is the accumulator and the fold starts at
      index 1. */
  lemma ReduceWithoutSeed<T>(a: seq<JsValue<T>>, f: Callback<T>)
    requires |a| > 0
    ensures Reduce(a, f, Undefined) == FoldLeft(Combine(f, a), a[0], Enumerated(a, 1))
  {
    LoopFromIsFoldLeft(f, a[0], a, 1);
  }

  /** An empty array returns the seed untouched: the loop body never runs. With
      no seed this is `array[0]` of an empty array, i.e. `undefined`, and no
      error is raised. */
  lemma ReduceEmpty<T>(f: Callback<T>, seed: JsValue<T>)
    ensures Reduce([], f, seed) == seed
  {
  }

  /** Passing `undefined` explicitly as the initial value is the same as leaving
      it out. */
  lemma ExplicitUndefinedIsOmitted<T>(a: seq<JsValue<T>>, f: Callback<T>)
    ensures ReduceCall(a, f, Passed(Undefined)) == ReduceCall(a, f, Omitted)
    ensures ReduceCall(a, f, Omitted) == Reduce(a, f, Undefined)
  {
  }

  lemma {:induction false} LoopFromShift<T>(f: Callback<T>, acc: JsValue<T>, a: seq<JsValue<T>>, i: nat)
    requires |a| > 0
    ensures LoopFrom(f, acc, a, i + 1) == LoopFrom(ShiftIndices(f, a), acc, a[1..], i)
    decreases |a| - i
  {
    if i + 1 < |a| {
      assert a[1..][i] == a[i + 1];
      assert ShiftIndices(f, a)(acc, a[1..][i], i, a[1..]) == f(acc, a[i + 1], i + 1, a);
      LoopFromShift(f, f(acc, a[i + 1], i + 1, a), a, i + 1);
    }
  }

  /** Reducing a non-empty array without a seed is reducing its tail with the
      first element as the seed and indices shifted by one — provided that
      first element is not itself `undefined` (see the next lemma). */
  lemma UnseededIsSeededTail<T>(a: seq<JsValue<T>>, f: Callback<T>)
    requires |a| > 0 && a[0].Defined?
    ensures Reduce(a, f, Undefined) == Reduce(a[1..], ShiftIndices(f, a), a[0])
  {
    LoopFromShift(f, a[0], a, 0);
  }

  function CountCalls(acc: JsValue<int>, x: JsValue<int>, i: nat, arr: seq<JsValue<int>>): JsValue<int>
  {
    match acc
    case Undefined => Defined(1)
    case Defined(n) => Defined(n + 1)
  }

  /** The side condition above is needed: a leading `undefined` used as a seed
      is indistinguishable from no seed, so the tail's own first element is
      taken as the accumulator instead. */
  lemma UndefinedHeadIsNoSeed()
    ensures var a := [Undefined, Defined(10), Defined(20)];
            Reduce(a, CountCalls, Undefined) == Defined(2) &&
            Reduce(a[1..], ShiftIndices(CountCalls, a), a[0]) == Defined(11)
  {
    var a := [Undefined, Defined(10), Defined(20)];
    var tail := a[1..];
    assert tail == [Defined(10), Defined(20)];
    var g := ShiftIndices(CountCalls, a);
    assert g(Defined(10), Defined(20), 1, tail) == CountCalls(Defined(10), Defined(20), 2, a) == Defined(11);
    assert LoopFrom(g, Defined(10), tail, 1) == LoopFrom(g, Defined(11), tail, 2) == Defined(11);
    assert Reduce(tail, g, a[0]) == LoopFrom(g, Defined(10), tail, 1);
  }

  function Add(acc: JsValue<int>, x: JsValue<int>, i: nat, arr: seq<JsValue<int>>): JsValue<int>
  {
    if acc.Defined? && x.Defined? then Defined(acc.value + x.value) else Undefined
  }

  /** Summing [1, 2, 3, 4] gives 10 without a seed and 110 from a seed of 100. */
  lemma SumExample()
    ensures Reduce([Defined(1), Defined(2), Defined(3), Defined(4)], Add, Undefined) == Defined(10)
    ensures Reduce([Defined(1), Defined(2), Defined(3), Defined(4)], Add, Defined(100)) == Defined(110)
  {
  }

  // ---------------------------------------------------------------------------
  // The loop itself.
  // ---------------------------------------------------------------------------

  /** `calls` is the log of the loop run from index `start` with accumulator
      `init`: one call per index from `start` on, in order, each handed the
      result of the call before it. */
  ghost predicate IsCallLog<T>(calls: seq<Call<T>>, f: Callback<T>, a: seq<JsValue<T>>, start: nat, init: JsValue<T>)
  {
    && (forall k :: 0 <= k < |calls| ==>
          calls[k].index == start + k && start + k < |a| && calls[k].element == a[start + k])
    && (|calls| > 0 ==> calls[0].acc == init)
    && (forall k :: 0 < k < |calls| ==>
          calls[k].acc == f(calls[k - 1].acc, calls[k - 1].element, calls[k - 1].index, a))
  }

  /** The accumulator once the logged calls have run. */
  ghost function ResultAfter<T>(calls: seq<Call<T>>, f: Callback<T>, a: seq<JsValue<T>>, init: JsValue<T>): JsValue<T>
  {
    if calls == [] then init
    else f(calls[|calls| - 1].acc, calls[|calls| - 1].element, calls[|calls| - 1].index, a)
  }

  /** One more loop iteration appends one call to the log. */
  lemma ExtendCallLog<T>(calls: seq<Call<T>>, f: Callback<T>, a: seq<JsValue<T>>, start: nat, init: JsValue<T>, i: nat)
    requires IsCallLog(calls, f, a, start, init)
    requires |calls| == i - start && start <= i < |a|
    ensures var next := calls + [Call(ResultAfter(calls, f, a, init), a[i], i)];
            IsCallLog(next, f, a, start, init) &&
            ResultAfter(next, f, a, init) == f(ResultAfter(calls, f, a, init), a[i], i, a)
  {
  }

  /** `myReduce` as the loop it is written as. Besides the result it returns the
      callback invocations in the order they happen. */
  method MyReduce<T>(items: seq<JsValue<T>>, callback: Callback<T>, initialValue: JsValue<T>)
    returns (accumulator: JsValue<T>, calls: seq<Call<T>>)
    ensures accumulator == Reduce(items, callback, initialValue)
    ensures accumulator == FoldLeft(Combine(callback, items), InitialAccumulator(items, initialValue),
                                    Enumerated(items, StartIndex(initialValue)))
    // exactly one call per index from the start index on, in ascending order,
    // each handed the previous call's result; the last call's result is returned
    ensures |calls| == if StartIndex(initialValue) <= |items| then |items| - StartIndex(initialValue) else 0
    ensures IsCallLog(calls, callback, items, StartIndex(initialValue), InitialAccumulator(items, initialValue))
    ensures forall j, k :: 0 <= j < k < |calls| ==> calls[j].index < calls[k].index
    ensures accumulator == ResultAfter(calls, callback, items, InitialAccumulator(items, initialValue))
  {
    var init := InitialAccumulator(items, initialValue);
    var startIndex := StartIndex(initialValue);
    ghost var pairs := Enumerated(items, startIndex);
    accumulator := init;
    calls := [];
    var i := startIndex;
    while i < |items|
      invariant startIndex <= i && (i <= |items| || i == startIndex)
      invariant |calls| == i - startIndex
      invariant IsCallLog(calls, callback, items, startIndex, init)
      invariant accumulator == ResultAfter(calls, callback, items, init)
      // the accumulator is the fold of the prefix items[startIndex..i]
      invariant accumulator == FoldLeft(Combine(callback, items), init, pairs[..i - startIndex])
      decreases |items| - i
    {
      ExtendCallLog(calls, callback, items, startIndex, init, i);
      calls := calls + [Call(accumulator, items[i], i)];
      var p: (JsValue<T>, nat) := (items[i], i);
      assert pairs[..i + 1 - startIndex] == pairs[..i - startIndex] + [p];
      FoldLeftSnoc(Combine(callback, items), init, pairs[..i - startIndex], p);
      accumulator := callback(accumulator, items[i], i, items);
      i := i + 1;
    }
    assert pairs[..i - startIndex] == pairs;
    LoopFromIsFoldLeft(callback, init, items, startIndex);
  }
}
