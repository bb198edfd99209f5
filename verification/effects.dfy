/**
 Dependency comparison and the rules `commitEffectHooks` applies to each
 effect hook: when an old hook's cleanup is invoked, and when a new hook's
 callback runs.  Callbacks and cleanups are opaque: `returned(cb)` is the
 cleanup (if any) that running callback `cb` hands back.
 */
module Effects {
  import opened Values
  import opened Hooks

  /** Shallow equality of dependency lists: same length and `===` at every index. */
  predicate DepsEqual(a: seq<Value>, b: seq<Value>) {
    |a| == |b| && forall i :: 0 <= i < |a| ==> a[i] == b[i]
  }

  /** `deps.every((dep, index) => dep === newDeps[index])` from index `i` on. */
  function EveryFrom(a: seq<Value>, b: seq<Value>, i: nat): (r: bool)
    requires |a| == |b| && i <= |a|
    ensures r <==> forall j :: i <= j < |a| ==> a[j] == b[j]
    decreases |a| - i
  {
    if i == |a| then true else a[i] == b[i] && EveryFrom(a, b, i + 1)
  }

  /** The first `isDepsEqual`, written with `every`. */
  function IsDepsEqualEvery(a: seq<Value>, b: seq<Value>): (r: bool)
    ensures r <==> DepsEqual(a, b)
  {
    if |a| != |b| then false else EveryFrom(a, b, 0)
  }

  /**
   The second `isDepsEqual`, written with a loop.  Both declarations are
   hoisted and the later one is the one every call reaches; they agree.
   */
  method IsDepsEqual(deps: seq<Value>, newDeps: seq<Value>) returns (r: bool)
    ensures r <==> DepsEqual(deps, newDeps)
    ensures r == IsDepsEqualEvery(deps, newDeps)
  {
    if |deps| != |newDeps| {
      return false;
    }
    var i := 0;
    while i < |deps|
      invariant i <= |deps|
      invariant forall j :: 0 <= j < i ==> deps[j] == newDeps[j]
    {
      if deps[i] != newDeps[i] {
        return false;
      }
      i := i + 1;
    }
    return true;
  }

  /** A dependency list always equals itself: with no NaN among values, `===` is reflexive. */
  lemma DepsEqualReflexive(a: seq<Value>)
    ensures IsDepsEqualEvery(a, a)
  {
  }

  /** The comparison does not depend on which list is the old one. */
  lemma DepsEqualSymmetric(a: seq<Value>, b: seq<Value>)
    ensures IsDepsEqualEvery(a, b) <==> IsDepsEqualEvery(b, a)
  {
  }

  /**
   Whether `runCleanup` invokes the old hook's cleanup:
   `!hook.deps || !isDepsEqual(hook.deps, deps)`; comparing a list with an
   absent one reads `.length` of `undefined`.
   */
  function CleanupDue(prior: EffectHook, hook: EffectHook): (r: Result<bool>)
    ensures prior.deps.None? ==> r == Ok(true)
    ensures prior.deps.Some? && hook.deps.None? ==> r == Err(DepsUndefined)
    ensures prior.deps.Some? && hook.deps.Some? ==> r == Ok(!DepsEqual(prior.deps.value, hook.deps.value))
  {
    match prior.deps
    case None => Ok(true)
    case Some(d) =>
      match hook.deps
      case None => Err(DepsUndefined)
      case Some(nd) => Ok(!IsDepsEqualEvery(d, nd))
  }

  /** What `run` does with one new hook. */
  datatype RunOutcome =
    | Runs
    | Skips
    | RunsThenThrows(fault: Fault)  // the callback ran, then the commit threw
    | Throws(fault: Fault)

  /**
   The rule `run` applies, as written, to the new hook at `index`, given
   the previous generation's hooks (`None` on first mount).  With no
   dependency list on a re-render the callback runs and the next line
   reads `newHook.deps.length` of `undefined`.
   */
  function RunRuleAsWritten(alternate: Option<seq<EffectHook>>, index: nat, hook: EffectHook): (r: RunOutcome)
    ensures alternate.None? ==> r == Runs
    ensures alternate.Some? && hook.deps.None? ==> r == RunsThenThrows(DepsUndefined)
    ensures alternate.Some? && hook.deps == Some([]) ==> r == Skips
  {
    match alternate
    case None => Runs
    case Some(olds) =>
      match hook.deps
      case None => RunsThenThrows(DepsUndefined)
      case Some(d) =>
        if |d| > 0 then
          if index >= |olds| then Throws(MissingHook)
          else match olds[index].deps
            case None => Throws(DepsUndefined)
            case Some(od) => if IsDepsEqualEvery(od, d) then Skips else Runs
        else Skips
  }

  /**
   The run rule as intended: an effect without a dependency list runs on
   every commit; everything else as written.
   */
  function RunRule(alternate: Option<seq<EffectHook>>, index: nat, hook: EffectHook): (r: RunOutcome)
    ensures alternate.Some? && hook.deps.None? ==> r == Runs
    ensures alternate.Some? && hook.deps.Some? ==> r == RunRuleAsWritten(alternate, index, hook)
    ensures alternate.None? ==> r == Runs
  {
    if alternate.Some? && hook.deps.None? then Runs else RunRuleAsWritten(alternate, index, hook)
  }

  /**
   On first mount every effect runs; on a re-render an effect with a
   non-empty list runs exactly when the list differs from the previous
   one, an effect with an empty list never runs, and one with no list
   always runs.
   */
  lemma RunRuleDecides(alternate: Option<seq<EffectHook>>, index: nat, hook: EffectHook)
    ensures alternate.None? ==> RunRule(alternate, index, hook) == Runs
    ensures alternate.Some? && hook.deps.None? ==> RunRule(alternate, index, hook) == Runs
    ensures alternate.Some? && hook.deps == Some([]) ==> RunRule(alternate, index, hook) == Skips
    ensures alternate.Some? && hook.deps.Some? && |hook.deps.value| > 0 &&
            index < |alternate.value| && alternate.value[index].deps.Some? ==>
              (RunRule(alternate, index, hook) == Runs <==>
                 !DepsEqual(alternate.value[index].deps.value, hook.deps.value)) &&
              (RunRule(alternate, index, hook) == Runs || RunRule(alternate, index, hook) == Skips)
  {
  }

  /** One effect hook position across one commit. */
  datatype SlotStep = SlotStep(cleaned: Option<nat>, ran: bool, hook: EffectHook)

  /** First mount: the callback runs and its return value becomes the cleanup. */
  function Mount(hook: EffectHook, returned: nat -> Option<nat>): (s: SlotStep)
    ensures s.ran && s.cleaned.None?
    ensures s.hook == hook.(cleanup := returned(hook.callback))
  {
    SlotStep(None, true, hook.(cleanup := returned(hook.callback)))
  }

  /**
   A re-render as written: the old cleanup is invoked when due, the
   callback runs when the run rule says so and its return value is stored
   on the new hook; a skipped hook keeps the `undefined` cleanup `useEffect`
   gave it.
   */
  function RerenderAsWritten(prior: EffectHook, hook: EffectHook, returned: nat -> Option<nat>): (r: Result<SlotStep>)
    ensures r.Ok? && !r.value.ran ==> r.value.hook == hook
    ensures r.Ok? ==> r.value.ran == (RunRuleAsWritten(Some([prior]), 0, hook) == Runs)
  {
    var due :- CleanupDue(prior, hook);
    var cleaned := if due then prior.cleanup else None;
    match RunRuleAsWritten(Some([prior]), 0, hook)
    case Runs => Ok(SlotStep(cleaned, true, hook.(cleanup := returned(hook.callback))))
    case Skips => Ok(SlotStep(cleaned, false, hook))
    case RunsThenThrows(f) => Err(f)
    case Throws(f) => Err(f)
  }

  /**
   A re-render as intended: as written, except that an effect without a
   dependency list runs, and a skipped hook keeps the old hook's cleanup
   unless that cleanup was just invoked.  Whatever cleanup was pending is
   either invoked now or still pending afterwards, never both, never lost.
   */
  function Rerender(prior: EffectHook, hook: EffectHook, returned: nat -> Option<nat>): (r: Result<SlotStep>)
    ensures r.Ok? <==> CleanupDue(prior, hook).Ok? &&
                       (RunRule(Some([prior]), 0, hook) == Runs || RunRule(Some([prior]), 0, hook) == Skips)
    ensures r.Ok? ==> r.value.ran == (RunRule(Some([prior]), 0, hook) == Runs)
    ensures r.Ok? && r.value.ran ==>
              r.value.cleaned == prior.cleanup && r.value.hook == hook.(cleanup := returned(hook.callback))
    ensures r.Ok? && !r.value.ran && CleanupDue(prior, hook) == Ok(true) ==>
              r.value.cleaned == prior.cleanup && r.value.hook == hook.(cleanup := None)
    ensures r.Ok? && !r.value.ran && CleanupDue(prior, hook) == Ok(false) ==>
              r.value.cleaned.None? && r.value.hook == hook.(cleanup := prior.cleanup)
  {
    var due :- CleanupDue(prior, hook);
    var cleaned := if due then prior.cleanup else None;
    match RunRule(Some([prior]), 0, hook)
    case Runs => Ok(SlotStep(cleaned, true, hook.(cleanup := returned(hook.callback))))
    case Skips => Ok(SlotStep(cleaned, false, hook.(cleanup := if due then None else prior.cleanup)))
    case RunsThenThrows(f) => Err(f)
    case Throws(f) => Err(f)
  }

  datatype Version = AsWritten | Intended

  function Step(v: Version, prior: EffectHook, hook: EffectHook, returned: nat -> Option<nat>): Result<SlotStep> {
    if v.AsWritten? then RerenderAsWritten(prior, hook, returned) else Rerender(prior, hook, returned)
  }

  /** The steps after `last`, one per later evaluation's hook at this position. */
  function Continue(v: Version, last: SlotStep, rest: seq<EffectHook>, returned: nat -> Option<nat>)
    : (r: Result<seq<SlotStep>>)
    ensures r.Ok? ==> |r.value| == |rest|
    decreases |rest|
  {
    if rest == [] then Ok([])
    else
      var s :- Step(v, last.hook, rest[0], returned);
      var tail :- Continue(v, s, rest[1..], returned);
      Ok([s] + tail)
  }

  /**
   One effect position across successive commits: `renders[t]` is the
   hook `useEffect` built in the t-th evaluation (no cleanup yet).
   */
  function Lifecycle(v: Version, renders: seq<EffectHook>, returned: nat -> Option<nat>)
    : (r: Result<seq<SlotStep>>)
    requires |renders| > 0
    ensures r.Ok? ==> |r.value| == |renders| && r.value[0] == Mount(renders[0], returned)
  {
    var m := Mount(renders[0], returned);
    var tail :- Continue(v, m, renders[1..], returned);
    Ok([m] + tail)
  }

  function OptSeq(o: Option<nat>): seq<nat> {
    if o.Some? then [o.value] else []
  }

  /** The cleanups returned by runs, in order. */
  function Produced(steps: seq<SlotStep>): seq<nat> {
    if steps == [] then []
    else (if steps[0].ran then OptSeq(steps[0].hook.cleanup) else []) + Produced(steps[1..])
  }

  /** The cleanups invoked, in order. */
  function Invoked(steps: seq<SlotStep>): seq<nat> {
    if steps == [] then [] else OptSeq(steps[0].cleaned) + Invoked(steps[1..])
  }

  /** The cleanup still held after the last step. */
  function Pending(last: SlotStep, steps: seq<SlotStep>): seq<nat> {
    if steps == [] then OptSeq(last.hook.cleanup) else OptSeq(steps[|steps| - 1].hook.cleanup)
  }

  /** One intended step hands on what was pending: invoked now, or still held. */
  lemma StepConserves(last: SlotStep, hook: EffectHook, returned: nat -> Option<nat>)
    requires Step(Intended, last.hook, hook, returned).Ok?
    ensures var s := Step(Intended, last.hook, hook, returned).value;
            OptSeq(last.hook.cleanup) + (if s.ran then OptSeq(s.hook.cleanup) else []) ==
              OptSeq(s.cleaned) + OptSeq(s.hook.cleanup)
  {
    var s := Rerender(last.hook, hook, returned).value;
    if !s.ran && CleanupDue(last.hook, hook) != Ok(true) {
      assert CleanupDue(last.hook, hook) == Ok(false);
    }
  }

  lemma ContinueUnfold(v: Version, last: SlotStep, rest: seq<EffectHook>, returned: nat -> Option<nat>)
    requires rest != [] && Continue(v, last, rest, returned).Ok?
    ensures Step(v, last.hook, rest[0], returned).Ok?
    ensures var s := Step(v, last.hook, rest[0], returned).value;
            Continue(v, s, rest[1..], returned).Ok? &&
            Continue(v, last, rest, returned).value == [s] + Continue(v, s, rest[1..], returned).value
  {
  }

  lemma StepsCons(s: SlotStep, tail: seq<SlotStep>)
    ensures Produced([s] + tail) == (if s.ran then OptSeq(s.hook.cleanup) else []) + Produced(tail)
    ensures Invoked([s] + tail) == OptSeq(s.cleaned) + Invoked(tail)
  {
    assert ([s] + tail)[1..] == tail;
  }

  lemma PendingCons(last: SlotStep, s: SlotStep, tail: seq<SlotStep>)
    ensures Pending(last, [s] + tail) == Pending(s, tail)
  {
  }

  lemma Regroup(a: seq<nat>, ps: seq<nat>, b: seq<nat>, c: seq<nat>, p: seq<nat>, i: seq<nat>, e: seq<nat>)
    requires a + ps == b + c
    requires c + p == i + e
    ensures a + (ps + p) == b + i + e
  {
    calc {
      a + (ps + p);
      (a + ps) + p;
      b + (c + p);
      b + (i + e);
    }
  }

  lemma {:induction false} ContinueConserves(last: SlotStep, rest: seq<EffectHook>, returned: nat -> Option<nat>)
    requires Continue(Intended, last, rest, returned).Ok?
    ensures var tail := Continue(Intended, last, rest, returned).value;
            OptSeq(last.hook.cleanup) + Produced(tail) == Invoked(tail) + Pending(last, tail)
    decreases |rest|
  {
    if rest != [] {
      ContinueUnfold(Intended, last, rest, returned);
      var s := Step(Intended, last.hook, rest[0], returned).value;
      var tail' := Continue(Intended, s, rest[1..], returned).value;
      ContinueConserves(s, rest[1..], returned);
      StepConserves(last, rest[0], returned);
      StepsCons(s, tail');
      PendingCons(last, s, tail');
      Regroup(OptSeq(last.hook.cleanup), if s.ran then OptSeq(s.hook.cleanup) else [],
              OptSeq(s.cleaned), OptSeq(s.hook.cleanup),
              Produced(tail'), Invoked(tail'), Pending(s, tail'));
    }
  }

  /**
   With the intended rules every cleanup a run returns is invoked exactly
   once, in the order the runs happened, except the one still held after
   the last commit; in particular it is invoked before the effect runs
   again.
   */
  lemma CleanupsConserved(renders: seq<EffectHook>, returned: nat -> Option<nat>)
    requires |renders| > 0
    requires Lifecycle(Intended, renders, returned).Ok?
    ensures var steps := Lifecycle(Intended, renders, returned).value;
            Produced(steps) == Invoked(steps) + OptSeq(steps[|steps| - 1].hook.cleanup)
  {
    var m := Mount(renders[0], returned);
    var steps := Lifecycle(Intended, renders, returned).value;
    var tail := Continue(Intended, m, renders[1..], returned).value;
    assert steps == [m] + tail;
    assert steps[1..] == tail;
    ContinueConserves(m, renders[1..], returned);
  }

  /** A steady dependency value `[1]` followed by a change to `[2]`, each callback returning a cleanup. */
  function SkipThenChange(): seq<EffectHook> {
    [EffectHook(0, Some([Num(1)]), None), EffectHook(1, Some([Num(1)]), None),
     EffectHook(2, Some([Num(2)]), None)]
  }

  /**
   As written, a skipped commit drops the pending cleanup: the cleanup the
   first run returned is never invoked, not even when the effect runs
   again.
   */
  lemma AsWrittenLosesCleanup()
    ensures var steps := Lifecycle(AsWritten, SkipThenChange(), c => Some(c));
            steps.Ok? &&
            Produced(steps.value) == [0, 2] && Invoked(steps.value) == [] &&
            steps.value[2].ran && steps.value[2].cleaned.None?
  {
    var rs := SkipThenChange();
    var ret: nat -> Option<nat> := c => Some(c);
    DepsOneTwo();
    var m := Mount(rs[0], ret);
    var s1 := SlotStep(None, false, rs[1]);
    var s2 := SlotStep(None, true, rs[2].(cleanup := Some(2)));
    assert Step(AsWritten, m.hook, rs[1], ret) == Ok(s1);
    assert Step(AsWritten, s1.hook, rs[2], ret) == Ok(s2);
    assert rs[1..][1..] == [rs[2]] && [rs[2]][1..] == [];
    assert Continue(AsWritten, s2, [], ret) == Ok([]);
    assert [s2] + [] == [s2] && [s1] + [s2] == [s1, s2] && [m] + [s1, s2] == [m, s1, s2];
    assert Continue(AsWritten, s1, [rs[2]], ret) == Ok([s2]);
    assert Continue(AsWritten, m, rs[1..], ret) == Ok([s1, s2]);
    assert Lifecycle(AsWritten, rs, ret) == Ok([m, s1, s2]);
    StepsCons(s2, []);
    StepsCons(s1, [s2]);
    StepsCons(m, [s1, s2]);
  }

  lemma DepsOneTwo()
    ensures IsDepsEqualEvery([Num(1)], [Num(1)])
    ensures !IsDepsEqualEvery([Num(1)], [Num(2)])
  {
    assert [Num(1)][0] != [Num(2)][0];
  }

  /** With the intended rules the same commits invoke the first cleanup when the effect runs again. */
  lemma IntendedInvokesCleanup()
    ensures var steps := Lifecycle(Intended, SkipThenChange(), c => Some(c));
            steps.Ok? && Produced(steps.value) == [0, 2] && Invoked(steps.value) == [0]
  {
    var rs := SkipThenChange();
    var ret: nat -> Option<nat> := c => Some(c);
    DepsOneTwo();
    var m := Mount(rs[0], ret);
    var s1 := SlotStep(None, false, rs[1].(cleanup := Some(0)));
    var s2 := SlotStep(Some(0), true, rs[2].(cleanup := Some(2)));
    assert Step(Intended, m.hook, rs[1], ret) == Ok(s1);
    assert Step(Intended, s1.hook, rs[2], ret) == Ok(s2);
    assert rs[1..][1..] == [rs[2]] && [rs[2]][1..] == [];
    assert Continue(Intended, s2, [], ret) == Ok([]);
    assert [s2] + [] == [s2] && [s1] + [s2] == [s1, s2] && [m] + [s1, s2] == [m, s1, s2];
    assert Continue(Intended, s1, [rs[2]], ret) == Ok([s2]);
    assert Continue(Intended, m, rs[1..], ret) == Ok([s1, s2]);
    assert Lifecycle(Intended, rs, ret) == Ok([m, s1, s2]);
    StepsCons(s2, []);
    StepsCons(s1, [s2]);
    StepsCons(m, [s1, s2]);
  }

  /** An effect with no dependency list, rendered twice. */
  function NoDepsTwice(): seq<EffectHook> {
    [EffectHook(0, None, None), EffectHook(1, None, None)]
  }

  /** As written, the second commit runs the callback and then throws reading the absent list's length. */
  lemma AsWrittenNoDepsThrows()
    ensures RunRuleAsWritten(Some([Mount(NoDepsTwice()[0], c => Some(c)).hook]), 0, NoDepsTwice()[1]) ==
              RunsThenThrows(DepsUndefined)
    ensures Lifecycle(AsWritten, NoDepsTwice(), c => Some(c)) == Err(DepsUndefined)
  {
  }

  /**
   With the intended rules an effect with no dependency list runs on every
   commit, and the cleanup of its previous run is invoked just before.
   */
  lemma {:induction false} NoDepsRunsEveryCommit(last: SlotStep, rest: seq<EffectHook>, returned: nat -> Option<nat>)
    requires last.hook.deps.None?
    requires forall t :: 0 <= t < |rest| ==> rest[t].deps.None?
    ensures Continue(Intended, last, rest, returned).Ok?
    ensures var tail := Continue(Intended, last, rest, returned).value;
            forall t :: 0 <= t < |tail| ==>
              tail[t].ran && tail[t].cleaned == (if t == 0 then last else tail[t - 1]).hook.cleanup
    decreases |rest|
  {
    if rest != [] {
      var s := Step(Intended, last.hook, rest[0], returned).value;
      NoDepsRunsEveryCommit(s, rest[1..], returned);
      var tail := Continue(Intended, last, rest, returned).value;
      var tail' := Continue(Intended, s, rest[1..], returned).value;
      assert tail == [s] + tail';
      forall t | 0 <= t < |tail|
        ensures tail[t].ran && tail[t].cleaned == (if t == 0 then last else tail[t - 1]).hook.cleanup
      {
        if t > 0 {
          assert tail[t] == tail'[t - 1];
          assert (if t - 1 == 0 then s else tail'[t - 2]) == tail[t - 1];
        }
      }
    }
  }

  /**
   An effect with an empty dependency list runs only on mount: later
   commits neither run it nor invoke its cleanup, in both versions.
   */
  lemma {:induction false} EmptyDepsRunOnce(v: Version, last: SlotStep, rest: seq<EffectHook>, returned: nat -> Option<nat>)
    requires last.hook.deps == Some([])
    requires forall t :: 0 <= t < |rest| ==> rest[t].deps == Some([])
    ensures Continue(v, last, rest, returned).Ok?
    ensures var tail := Continue(v, last, rest, returned).value;
            forall t :: 0 <= t < |tail| ==> !tail[t].ran && tail[t].cleaned.None?
    decreases |rest|
  {
    if rest != [] {
      assert IsDepsEqualEvery([], []);
      var s := Step(v, last.hook, rest[0], returned).value;
      EmptyDepsRunOnce(v, s, rest[1..], returned);
      var tail := Continue(v, last, rest, returned).value;
      var tail' := Continue(v, s, rest[1..], returned).value;
      assert tail == [s] + tail';
      forall t | 0 <= t < |tail|
        ensures !tail[t].ran && tail[t].cleaned.None?
      {
        if t > 0 {
          assert tail[t] == tail'[t - 1];
        }
      }
    }
  }

  /** On every commit after mount, an empty-dependency effect does nothing. */
  lemma EmptyDepsOnlyOnMount(v: Version, renders: seq<EffectHook>, returned: nat -> Option<nat>)
    requires |renders| > 0
    requires forall t :: 0 <= t < |renders| ==> renders[t].deps == Some([])
    ensures Lifecycle(v, renders, returned).Ok?
    ensures var steps := Lifecycle(v, renders, returned).value;
            steps[0].ran && forall t :: 1 <= t < |steps| ==> !steps[t].ran && steps[t].cleaned.None?
  {
    var m := Mount(renders[0], returned);
    EmptyDepsRunOnce(v, m, renders[1..], returned);
    var steps := Lifecycle(v, renders, returned).value;
    var tail := Continue(v, m, renders[1..], returned).value;
    assert steps == [m] + tail;
    forall t | 1 <= t < |steps|
      ensures !steps[t].ran && steps[t].cleaned.None?
    {
      assert steps[t] == tail[t - 1];
    }
  }
}
