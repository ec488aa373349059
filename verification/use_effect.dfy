/**
 The decision logic of `useCustomEffect`: the effect body seen as a two-field
 state machine (has the hook mounted, which dependency list was last acted on),
 stepped once per effect run, together with the shallow `areDepsEqual` check.
 */
module CustomEffect {
  import opened JsValues

  /** A dependency array. */
  type Deps<T> = seq<JsValue<T>>

  // ---------------------------------------------------------------------------
  // areDepsEqual
  // ---------------------------------------------------------------------------

  /** `oldDeps.every((oldDep, i) => oldDep === newDeps[i])`, run from index `i`. */
  function EveryFrom<T(==)>(oldDeps: Deps<T>, newDeps: Deps<T>, i: nat): (r: bool)
    ensures r <==> forall k :: i <= k < |oldDeps| ==> oldDeps[k] == At(newDeps, k)
    decreases |oldDeps| - i
  {
    i >= |oldDeps| || (oldDeps[i] == At(newDeps, i) && EveryFrom(oldDeps, newDeps, i + 1))
  }

  /** True when every entry of `oldDeps` equals the entry of `newDeps` at the
      same index, where an index past the end of `newDeps` reads `undefined`.
      Only `oldDeps` drives the comparison. */
  predicate AreDepsEqual<T(==)>(oldDeps: Deps<T>, newDeps: Deps<T>)
  {
    EveryFrom(oldDeps, newDeps, 0)
  }

  lemma AreDepsEqualMeaning<T>(oldDeps: Deps<T>, newDeps: Deps<T>)
    ensures AreDepsEqual(oldDeps, newDeps) <==>
              forall i :: 0 <= i < |oldDeps| ==> oldDeps[i] == At(newDeps, i)
    ensures AreDepsEqual([], newDeps)
  {
  }

  lemma AreDepsEqualReflexive<T>(d: Deps<T>)
    ensures AreDepsEqual(d, d)
  {
  }

  /** Entries of `newDeps` beyond the length of `oldDeps` play no part. */
  lemma AreDepsEqualIgnoresExtra<T>(oldDeps: Deps<T>, newDeps: Deps<T>, extra: Deps<T>)
    requires |oldDeps| <= |newDeps|
    ensures AreDepsEqual(oldDeps, newDeps + extra) <==> AreDepsEqual(oldDeps, newDeps)
    ensures AreDepsEqual(oldDeps, newDeps) <==> oldDeps == newDeps[..|oldDeps|]
  {
  }

  /** When `newDeps` is the shorter one, the entries it lacks read as
      `undefined`, so they match exactly the `undefined` entries of `oldDeps`. */
  lemma AreDepsEqualShorterNew<T>(oldDeps: Deps<T>, newDeps: Deps<T>)
    requires |newDeps| <= |oldDeps|
    ensures AreDepsEqual(oldDeps, newDeps) <==>
              oldDeps[..|newDeps|] == newDeps &&
              forall i :: |newDeps| <= i < |oldDeps| ==> oldDeps[i].Undefined?
  {
  }

  /** The comparison is not symmetric. */
  lemma AreDepsEqualNotSymmetric()
    ensures AreDepsEqual([], [Defined(1)])
    ensures !AreDepsEqual([Defined(1)], [])
    ensures AreDepsEqual<int>([Undefined], [])
  {
  }

  // ---------------------------------------------------------------------------
  // The effect body as a state machine
  // ---------------------------------------------------------------------------

  /** The two refs the hook keeps across renders. */
  datatype HookState<T> = HookState(hasMounted: bool, prevDeps: Deps<T>)

  /** What one effect run does: whether it invoked the callback, and the refs
      afterwards. */
  datatype StepResult<T> = StepResult(fired: bool, state: HookState<T>)

  /** The refs as created on the first render: not mounted, and `prevDeps`
      holding that render's dependencies. */
  function InitialState<T>(deps: Deps<T>): HookState<T>
  {
    HookState(false, deps)
  }

  /** One run of the effect body with the current render's `deps`. */
  function Step<T(==)>(s: HookState<T>, deps: Deps<T>): (r: StepResult<T>)
    // after any run the hook is mounted
    ensures r.state.hasMounted
    // the first run always fires and leaves prevDeps alone
    ensures !s.hasMounted ==> r.fired && r.state.prevDeps == s.prevDeps
    // later runs fire exactly when the dependencies changed ...
    ensures s.hasMounted ==> (r.fired <==> !AreDepsEqual(s.prevDeps, deps))
    // ... and then remember the new dependencies
    ensures s.hasMounted && r.fired ==> r.state == HookState(true, deps)
    // a run that does not fire changes nothing
    ensures !r.fired ==> r.state == s
  {
    if s.hasMounted then
      if !AreDepsEqual(s.prevDeps, deps) then StepResult(true, s.(prevDeps := deps))
      else StepResult(false, s)
    else
      StepResult(true, s.(hasMounted := true))
  }

  /** The callback invocations of a sequence of effect runs, and the refs after them. */
  datatype Trace<T> = Trace(fires: seq<bool>, state: HookState<T>)

  /** Runs the effect once for each entry of `renders`, in order. */
  function Run<T(==)>(s: HookState<T>, renders: seq<Deps<T>>): (t: Trace<T>)
    ensures |t.fires| == |renders|
    // hasMounted is monotone, and any run at all mounts the hook
    ensures s.hasMounted || |renders| > 0 ==> t.state.hasMounted
    // without a single firing, nothing changes
    ensures (forall k :: 0 <= k < |t.fires| ==> !t.fires[k]) ==> t.state == s
    // the remembered dependencies are the initial ones or those of a render that fired
    ensures t.state.prevDeps == s.prevDeps ||
            exists k :: 0 <= k < |renders| && t.fires[k] && t.state.prevDeps == renders[k]
    decreases |renders|
  {
    if renders == [] then Trace([], s)
    else
      var before := Run(s, renders[..|renders| - 1]);
      var r := Step(before.state, renders[|renders| - 1]);
      var fires := before.fires + [r.fired];
      assert forall k :: 0 <= k < |before.fires| ==> fires[k] == before.fires[k];
      assert fires[|before.fires|] == r.fired;
      assert (forall k :: 0 <= k < |fires| ==> !fires[k]) ==>
               (forall k :: 0 <= k < |before.fires| ==> !before.fires[k]) && !r.fired;
      Trace(fires, r.state)
  }

  /** The hook over its whole life: the first render's `deps` seed `prevDeps`,
      then the effect runs for that render and every later one. */
  function Lifecycle<T(==)>(first: Deps<T>, later: seq<Deps<T>>): Trace<T>
  {
    Run(InitialState(first), [first] + later)
  }

  /** The index of the last run that fired (0 if only the first could have). */
  function LastFiring(fires: seq<bool>): (k: nat)
    requires |fires| > 0
    ensures k < |fires|
    ensures 0 < k ==> fires[k]
    ensures forall j :: k < j < |fires| ==> !fires[j]
    decreases |fires|
  {
    if |fires| == 1 || fires[|fires| - 1] then |fires| - 1 else LastFiring(fires[..|fires| - 1])
  }

  /** Running a prefix of the renders fires as the whole run does on that prefix. */
  lemma {:induction false} RunPrefix<T>(s: HookState<T>, renders: seq<Deps<T>>, k: nat)
    requires k <= |renders|
    ensures Run(s, renders[..k]).fires == Run(s, renders).fires[..k]
    decreases |renders|
  {
    if k < |renders| {
      var init := renders[..|renders| - 1];
      assert init[..k] == renders[..k];
      RunPrefix(s, init, k);
    } else {
      assert renders[..k] == renders;
    }
  }

  /** One more render runs the effect once more on the state left by the others. */
  lemma RunSnoc<T>(s: HookState<T>, renders: seq<Deps<T>>, deps: Deps<T>)
    ensures var before := Run(s, renders);
            var r := Step(before.state, deps);
            Run(s, renders + [deps]) == Trace(before.fires + [r.fired], r.state)
  {
  }

  lemma PrefixSnoc<X>(xs: seq<X>, k: nat)
    requires 0 < k <= |xs|
    ensures xs[..k] == xs[..k - 1] + [xs[k - 1]]
  {
  }

  lemma LastFiringSnoc(fires: seq<bool>, fired: bool)
    requires |fires| > 0
    ensures LastFiring(fires + [fired]) == if fired then |fires| else LastFiring(fires)
  {
  }

  /** After the first `k` renders of a lifecycle, the hook is mounted, the
      first run fired, and `prevDeps` holds the dependencies of the last render
      that fired. */
  lemma {:induction false} LifecycleState<T>(renders: seq<Deps<T>>, k: nat)
    requires 1 <= k <= |renders|
    ensures var t := Run(InitialState(renders[0]), renders[..k]);
            t.fires[0] && t.state == HookState(true, renders[LastFiring(t.fires)])
    decreases k
  {
    var s := InitialState(renders[0]);
    if k == 1 {
      PrefixSnoc(renders, 1);
      RunSnoc(s, [], renders[0]);
    } else {
      LifecycleState(renders, k - 1);
      var before := Run(s, renders[..k - 1]);
      var r := Step(before.state, renders[k - 1]);
      PrefixSnoc(renders, k);
      RunSnoc(s, renders[..k - 1], renders[k - 1]);
      var fires := before.fires + [r.fired];
      assert Run(s, renders[..k]) == Trace(fires, r.state);
      assert fires[0] == before.fires[0];
      LastFiringSnoc(before.fires, r.fired);
    }
  }

  /** The first effect run of a lifecycle always fires. */
  lemma LifecycleMountFires<T>(first: Deps<T>, later: seq<Deps<T>>)
    ensures Lifecycle(first, later).fires[0]
  {
    var renders := [first] + later;
    LifecycleState(renders, |renders|);
    assert renders[..|renders|] == renders;
  }

  /** After a lifecycle, `prevDeps` holds the dependencies of the most recent
      render whose run fired. */
  lemma LifecycleKeepsLastFiredDeps<T>(first: Deps<T>, later: seq<Deps<T>>)
    ensures var renders := [first] + later;
            var t := Lifecycle(first, later);
            t.state == HookState(true, renders[LastFiring(t.fires)])
  {
    var renders := [first] + later;
    LifecycleState(renders, |renders|);
    assert renders[..|renders|] == renders;
  }

  /** Every run after the first fires exactly when its dependencies differ from
      those of the most recent render that fired. */
  lemma LifecycleFiresIffDepsChanged<T>(first: Deps<T>, later: seq<Deps<T>>, k: nat)
    requires 1 <= k < 1 + |later|
    ensures var renders := [first] + later;
            var t := Lifecycle(first, later);
            t.fires[k] <==> !AreDepsEqual(renders[LastFiring(t.fires[..k])], renders[k])
  {
    var renders := [first] + later;
    var s := InitialState(first);
    var t := Lifecycle(first, later);
    var before := Run(s, renders[..k]);
    var upTo := Run(s, renders[..k + 1]);
    RunPrefix(s, renders, k);
    RunPrefix(s, renders, k + 1);
    assert before.fires == t.fires[..k];
    assert upTo.fires[k] == t.fires[k];
    LifecycleState(renders, k);
    assert before.state == HookState(true, renders[LastFiring(t.fires[..k])]);
    assert renders[..k + 1][..k] == renders[..k];
    assert upTo.fires[k] == Step(before.state, renders[k]).fired;
  }

  lemma {:induction false} EmptyDepsQuietUpTo<T>(later: seq<Deps<T>>, k: nat)
    requires k <= 1 + |later|
    ensures var t := Lifecycle([], later);
            forall j :: 1 <= j < k ==> !t.fires[j]
    decreases k
  {
    if k > 1 {
      EmptyDepsQuietUpTo(later, k - 1);
      var t := Lifecycle([], later);
      var renders := [[]] + later;
      LifecycleFiresIffDepsChanged([], later, k - 1);
      var last := LastFiring(t.fires[..k - 1]);
      assert last == 0;
      assert renders[last] == [];
    }
  }

  /** With an empty dependency array the callback runs on mount and never again. */
  lemma EmptyDepsFireOnlyOnMount<T>(later: seq<Deps<T>>)
    ensures var t := Lifecycle([], later);
            t.fires[0] && forall j :: 1 <= j < |t.fires| ==> !t.fires[j]
  {
    LifecycleMountFires([], later);
    EmptyDepsQuietUpTo(later, 1 + |later|);
  }
}
