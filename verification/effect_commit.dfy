/**
 `commitEffectHooks` over a whole tree: `runCleanup` visits every fiber
 and invokes the due cleanups of the previous generation's hooks, then
 `run` visits every fiber again and decides, hook by hook, whether the
 callback runs.  Cleanups and callbacks are identifiers; invoking them is
 recorded, not performed, and `returned` says what a callback returns.
 */
module EffectCommit {
  import opened Values
  import opened Hooks
  import opened Fibers
  import opened Effects
  import opened Traversal

  /** A cleanup invoked by `runCleanup`: hook `index` of the alternate of `fiber`. */
  datatype CleanupCall = CleanupCall(fiber: nat, index: nat, cleanup: nat)

  /** What `run` did with hook `index` of `fiber`: whether the callback ran, and the hook it left. */
  datatype HookCommit = HookCommit(fiber: nat, index: nat, ran: bool, hook: EffectHook)

  /** `fiber.alternate?.effectHooks`, as `runCleanup` reads it. */
  function PriorHooks(a: Arena, i: nat): Option<seq<EffectHook>>
    requires Linked(a) && i < |a|
  {
    match a[i].alternate
    case None => None
    case Some(alt) => a[alt].effectHooks
  }

  /**
   The `forEach` of `runCleanup` from old hook `k` on: reading the new
   hook at the same position throws when there is none.
   */
  function CleanupsFrom(i: nat, olds: seq<EffectHook>, news: Option<seq<EffectHook>>, k: nat)
    : Result<seq<CleanupCall>>
    decreases |olds| - k
  {
    if k >= |olds| then Ok([])
    else if news.None? || k >= |news.value| then Err(MissingHook)
    else
      var due :- CleanupDue(olds[k], news.value[k]);
      var rest :- CleanupsFrom(i, olds, news, k + 1);
      Ok((if due && olds[k].cleanup.Some? then [CleanupCall(i, k, olds[k].cleanup.value)] else []) + rest)
  }

  /** `runCleanup` on fiber `i` alone. */
  function FiberCleanups(a: Arena, i: nat): Result<seq<CleanupCall>>
    requires Linked(a) && i < |a|
  {
    match PriorHooks(a, i)
    case None => Ok([])
    case Some(olds) => CleanupsFrom(i, olds, a[i].effectHooks, 0)
  }

  /** Every old hook from `k` on has a new hook at its position whose comparison does not throw. */
  predicate Comparable(olds: seq<EffectHook>, news: Option<seq<EffectHook>>, k: nat) {
    forall j :: k <= j < |olds| ==> ComparableAt(olds, news, j)
  }

  /** Old hook `j` has a new counterpart, and comparing their lists does not throw. */
  predicate ComparableAt(olds: seq<EffectHook>, news: Option<seq<EffectHook>>, j: nat) {
    j < |olds| && news.Some? && j < |news.value| && CleanupDue(olds[j], news.value[j]).Ok?
  }

  lemma ComparableSplit(olds: seq<EffectHook>, news: Option<seq<EffectHook>>, k: nat)
    requires k < |olds|
    ensures Comparable(olds, news, k) <==> ComparableAt(olds, news, k) && Comparable(olds, news, k + 1)
  {
  }

  /** The `runCleanup` pass of old hooks `k..` throws exactly when one of them is not comparable. */
  lemma {:induction false} CleanupsFromOk(i: nat, olds: seq<EffectHook>, news: Option<seq<EffectHook>>, k: nat)
    requires k <= |olds|
    ensures CleanupsFrom(i, olds, news, k).Ok? <==> Comparable(olds, news, k)
    decreases |olds| - k
  {
    if k < |olds| {
      CleanupsFromOk(i, olds, news, k + 1);
      ComparableSplit(olds, news, k);
    }
  }

  /** Old hook `j`'s cleanup exists and is due. */
  predicate DueAt(olds: seq<EffectHook>, news: Option<seq<EffectHook>>, j: nat) {
    j < |olds| && news.Some? && j < |news.value| &&
    CleanupDue(olds[j], news.value[j]) == Ok(true) && olds[j].cleanup.Some?
  }

  /** The cleanup, if any, invoked for old hook `k` itself. */
  function HeadCall(i: nat, olds: seq<EffectHook>, news: Option<seq<EffectHook>>, k: nat): seq<CleanupCall>
    requires k < |olds|
  {
    if DueAt(olds, news, k) then [CleanupCall(i, k, olds[k].cleanup.value)] else []
  }

  lemma CleanupsFromUnfold(i: nat, olds: seq<EffectHook>, news: Option<seq<EffectHook>>, k: nat)
    requires k < |olds| && CleanupsFrom(i, olds, news, k).Ok?
    ensures CleanupsFrom(i, olds, news, k + 1).Ok?
    ensures CleanupsFrom(i, olds, news, k).value ==
              HeadCall(i, olds, news, k) + CleanupsFrom(i, olds, news, k + 1).value
  {
  }

  /** Every cleanup invoked from old hooks `k..` belongs to a hook whose cleanup exists and is due. */
  lemma {:induction false} CleanupsFromSound(i: nat, olds: seq<EffectHook>, news: Option<seq<EffectHook>>, k: nat)
    requires k <= |olds| && CleanupsFrom(i, olds, news, k).Ok?
    ensures forall c :: c in CleanupsFrom(i, olds, news, k).value ==>
              c.fiber == i && k <= c.index && DueAt(olds, news, c.index) &&
              olds[c.index].cleanup == Some(c.cleanup)
    decreases |olds| - k
  {
    if k < |olds| {
      CleanupsFromUnfold(i, olds, news, k);
      CleanupsFromSound(i, olds, news, k + 1);
    }
  }

  /** Every old hook from `k` on whose cleanup exists and is due has it invoked. */
  lemma {:induction false} CleanupsFromComplete(i: nat, olds: seq<EffectHook>, news: Option<seq<EffectHook>>, k: nat)
    requires k <= |olds| && CleanupsFrom(i, olds, news, k).Ok?
    ensures forall j :: k <= j && DueAt(olds, news, j) ==>
              exists c :: c in CleanupsFrom(i, olds, news, k).value && c.index == j
    decreases |olds| - k
  {
    if k < |olds| {
      CleanupsFromUnfold(i, olds, news, k);
      CleanupsFromComplete(i, olds, news, k + 1);
      var r := CleanupsFrom(i, olds, news, k).value;
      var rest := CleanupsFrom(i, olds, news, k + 1).value;
      forall j | k <= j && DueAt(olds, news, j)
        ensures exists c :: c in r && c.index == j
      {
        if j == k {
          assert r[0] == CleanupCall(i, k, olds[k].cleanup.value);
        } else {
          var c :| c in rest && c.index == j;
          assert c in r;
        }
      }
    }
  }

  /** The cleanups invoked from old hooks `k..` name hooks from `k` on. */
  lemma {:induction false} CleanupsFromAbove(i: nat, olds: seq<EffectHook>, news: Option<seq<EffectHook>>, k: nat)
    requires k <= |olds| && CleanupsFrom(i, olds, news, k).Ok?
    ensures var cs := CleanupsFrom(i, olds, news, k).value;
            forall p :: 0 <= p < |cs| ==> k <= cs[p].index
    decreases |olds| - k
  {
    if k < |olds| {
      CleanupsFromUnfold(i, olds, news, k);
      CleanupsFromAbove(i, olds, news, k + 1);
      var rest := CleanupsFrom(i, olds, news, k + 1).value;
      var cs := CleanupsFrom(i, olds, news, k).value;
      if HeadCall(i, olds, news, k) != [] {
        assert forall p :: 1 <= p < |cs| ==> cs[p] == rest[p - 1];
      } else {
        assert cs == rest;
      }
    }
  }

  /** The cleanups of one fiber are invoked in hook order. */
  lemma {:induction false} CleanupsFromOrdered(i: nat, olds: seq<EffectHook>, news: Option<seq<EffectHook>>, k: nat)
    requires k <= |olds| && CleanupsFrom(i, olds, news, k).Ok?
    ensures var cs := CleanupsFrom(i, olds, news, k).value;
            forall p, q :: 0 <= p < q < |cs| ==> cs[p].index < cs[q].index
    decreases |olds| - k
  {
    if k < |olds| {
      CleanupsFromUnfold(i, olds, news, k);
      CleanupsFromOrdered(i, olds, news, k + 1);
      CleanupsFromAbove(i, olds, news, k + 1);
      var head := HeadCall(i, olds, news, k);
      var rest := CleanupsFrom(i, olds, news, k + 1).value;
      var cs := CleanupsFrom(i, olds, news, k).value;
      forall p, q | 0 <= p < q < |cs|
        ensures cs[p].index < cs[q].index
      {
        if head != [] && p == 0 {
          assert cs[q] == rest[q - 1];
          assert cs[p].index == k;
        } else if head != [] {
          assert cs[p] == rest[p - 1] && cs[q] == rest[q - 1];
        } else {
          assert cs[p] == rest[p] && cs[q] == rest[q];
        }
      }
    }
  }

  /** `fiber.alternate?.effectHooks[index]` as `run` reads it: `None` on first mount. */
  function RunAlternate(a: Arena, i: nat): Option<seq<EffectHook>>
    requires Linked(a) && i < |a|
  {
    match a[i].alternate
    case None => None
    case Some(alt) => Some(a[alt].effectHooks.GetOr([]))
  }

  /**
   The cleanup a skipped hook carries over in the corrected rule: the old
   hook's, unless that cleanup was due in this commit.
   */
  function Kept(olds: Option<seq<EffectHook>>, k: nat, hook: EffectHook): Option<nat> {
    if olds.Some? && k < |olds.value| && CleanupDue(olds.value[k], hook) == Ok(false)
    then olds.value[k].cleanup
    else None
  }

  /**
   The body of `run`'s `forEach` for new hook `k`: whether the callback
   runs, and the hook afterwards.  As written, a skipped hook keeps the
   `undefined` cleanup `useEffect` gave it.
   */
  function RunHook(v: Version, olds: Option<seq<EffectHook>>, k: nat, hook: EffectHook,
                   returned: nat -> Option<nat>): Result<(bool, EffectHook)>
  {
    var outcome := if v.AsWritten? then RunRuleAsWritten(olds, k, hook) else RunRule(olds, k, hook);
    match outcome
    case Runs => Ok((true, hook.(cleanup := returned(hook.callback))))
    case Skips => Ok((false, if v.AsWritten? then hook else hook.(cleanup := Kept(olds, k, hook))))
    case RunsThenThrows(f) => Err(f)
    case Throws(f) => Err(f)
  }

  /** `run`'s `forEach` from new hook `k` on. */
  function RunsFrom(v: Version, i: nat, olds: Option<seq<EffectHook>>, news: seq<EffectHook>, k: nat,
                    returned: nat -> Option<nat>): Result<seq<HookCommit>>
    decreases |news| - k
  {
    if k >= |news| then Ok([])
    else
      var s :- RunHook(v, olds, k, news[k], returned);
      var rest :- RunsFrom(v, i, olds, news, k + 1, returned);
      Ok([HookCommit(i, k, s.0, s.1)] + rest)
  }

  /** `run` on fiber `i` alone. */
  function FiberRuns(v: Version, a: Arena, i: nat, returned: nat -> Option<nat>): Result<seq<HookCommit>>
    requires Linked(a) && i < |a|
  {
    match a[i].effectHooks
    case None => Ok([])
    case Some(news) => RunsFrom(v, i, RunAlternate(a, i), news, 0, returned)
  }

  /** `run` handles the new hooks `k..` in order, one record each, and throws when any of them throws. */
  lemma {:induction false} RunsFromExact(v: Version, i: nat, olds: Option<seq<EffectHook>>, news: seq<EffectHook>,
                                         k: nat, returned: nat -> Option<nat>)
    requires k <= |news|
    ensures RunsFrom(v, i, olds, news, k, returned).Ok? <==>
              forall j :: k <= j < |news| ==> RunHook(v, olds, j, news[j], returned).Ok?
    ensures RunsFrom(v, i, olds, news, k, returned).Ok? ==>
              var rs := RunsFrom(v, i, olds, news, k, returned).value;
              |rs| == |news| - k &&
              forall m :: 0 <= m < |rs| ==>
                rs[m].fiber == i && rs[m].index == k + m &&
                Ok((rs[m].ran, rs[m].hook)) == RunHook(v, olds, k + m, news[k + m], returned)
    decreases |news| - k
  {
    if k < |news| {
      RunsFromExact(v, i, olds, news, k + 1, returned);
      if RunsFrom(v, i, olds, news, k, returned).Ok? {
        var rs := RunsFrom(v, i, olds, news, k, returned).value;
        var rest := RunsFrom(v, i, olds, news, k + 1, returned).value;
        forall m | 1 <= m < |rs|
          ensures rs[m] == rest[m - 1]
        {
        }
      }
    }
  }

  /** On first mount every callback runs and its return value becomes the hook's cleanup. */
  lemma RunHookMount(v: Version, k: nat, hook: EffectHook, returned: nat -> Option<nat>)
    ensures RunHook(v, None, k, hook, returned) == Ok((Mount(hook, returned).ran, Mount(hook, returned).hook))
  {
  }

  lemma RunRuleAt(olds: seq<EffectHook>, k: nat, hook: EffectHook)
    requires k < |olds|
    ensures RunRuleAsWritten(Some(olds), k, hook) == RunRuleAsWritten(Some([olds[k]]), 0, hook)
    ensures RunRule(Some(olds), k, hook) == RunRule(Some([olds[k]]), 0, hook)
  {
  }

  /**
   On a re-render, a hook that has an old counterpart goes through the
   tree-level cleanup and run passes exactly as the single-position step
   of the effect lifecycle says: the same cleanup invoked, the same
   decision to run, the same hook left for the next commit.  This holds
   for the code as written and for the corrected rule alike.
   */
  lemma {:induction false} PassesAgreeWithSlot(v: Version, olds: seq<EffectHook>, k: nat, hook: EffectHook,
                                              returned: nat -> Option<nat>)
    requires k < |olds| && CleanupDue(olds[k], hook).Ok?
    ensures RunHook(v, Some(olds), k, hook, returned).Ok? <==> Step(v, olds[k], hook, returned).Ok?
    ensures RunHook(v, Some(olds), k, hook, returned).Ok? ==>
              RunHook(v, Some(olds), k, hook, returned).value ==
                (Step(v, olds[k], hook, returned).value.ran, Step(v, olds[k], hook, returned).value.hook)
    ensures Step(v, olds[k], hook, returned).Ok? ==>
              Step(v, olds[k], hook, returned).value.cleaned ==
                (if CleanupDue(olds[k], hook) == Ok(true) then olds[k].cleanup else None)
  {
    RunRuleAt(olds, k, hook);
    assert Kept(Some(olds), k, hook) ==
           (if CleanupDue(olds[k], hook) == Ok(false) then olds[k].cleanup else None);
  }

  /** `runCleanup` as the per-fiber step of a visit. */
  function CleanupsOf(a: Arena): nat -> Result<seq<CleanupCall>>
    requires Linked(a)
  {
    (i: nat) => if i < |a| then FiberCleanups(a, i) else Ok([])
  }

  /** `run` as the per-fiber step of a visit. */
  function RunsOf(v: Version, a: Arena, returned: nat -> Option<nat>): nat -> Result<seq<HookCommit>>
    requires Linked(a)
  {
    (i: nat) => if i < |a| then FiberRuns(v, a, i, returned) else Ok([])
  }

  datatype EffectPass = EffectPass(cleanups: seq<CleanupCall>, commits: seq<HookCommit>)

  /**
   `commitEffectHooks`: every due cleanup in the tree is invoked before
   any callback runs; a throw in either pass ends the commit.
   */
  function CommitEffects(v: Version, a: Arena, root: nat, returned: nat -> Option<nat>): Result<EffectPass>
    requires Linked(a) && root < |a|
  {
    var cleanups :- Visit(a, Some(root), CleanupsOf(a));
    var commits :- Visit(a, Some(root), RunsOf(v, a, returned));
    Ok(EffectPass(cleanups, commits))
  }

  /** A first mount: every fiber lacks an alternate. */
  predicate FirstMount(a: Arena, ws: seq<nat>)
    requires forall k :: 0 <= k < |ws| ==> ws[k] < |a|
  {
    forall k :: 0 <= k < |ws| ==> a[ws[k]].alternate.None?
  }

  /** On first mount a fiber invokes no cleanup and runs every callback it holds. */
  lemma FiberMountFacts(v: Version, a: Arena, i: nat, returned: nat -> Option<nat>)
    requires Linked(a) && i < |a| && a[i].alternate.None?
    ensures FiberCleanups(a, i) == Ok([])
    ensures FiberRuns(v, a, i, returned).Ok?
    ensures forall c :: c in FiberRuns(v, a, i, returned).value ==>
              c.ran && c.hook.cleanup == returned(c.hook.callback)
  {
    if a[i].effectHooks.Some? {
      var news := a[i].effectHooks.value;
      RunsFromExact(v, i, None, news, 0, returned);
      forall j | 0 <= j < |news|
        ensures RunHook(v, None, j, news[j], returned).Ok?
      {
        RunHookMount(v, j, news[j], returned);
      }
      var rs := FiberRuns(v, a, i, returned).value;
      forall c | c in rs
        ensures c.ran && c.hook.cleanup == returned(c.hook.callback)
      {
        var m :| 0 <= m < |rs| && rs[m] == c;
        RunHookMount(v, m, news[m], returned);
      }
    }
  }

  /**
   On first mount no cleanup is invoked and every effect callback in the
   tree runs, each hook keeping what its callback returned as cleanup.
   */
  lemma FirstMountRunsAll(v: Version, a: Arena, root: nat, returned: nat -> Option<nat>)
    requires Linked(a) && root < |a|
    requires FirstMount(a, Walk(a, Some(root)))
    ensures CommitEffects(v, a, root, returned).Ok?
    ensures CommitEffects(v, a, root, returned).value.cleanups == []
    ensures CommitEffects(v, a, root, returned).value.commits ==
              Flatten(Walk(a, Some(root)), MountRecordsOf(a, returned))
    ensures forall c :: c in CommitEffects(v, a, root, returned).value.commits ==>
              c.ran && c.hook.cleanup == returned(c.hook.callback)
  {
    var rs := Flatten(Walk(a, Some(root)), MountRecordsOf(a, returned));
    MountCleansNothing(a, root);
    MountRunsAll(v, a, root, returned);
    MountRecordsExact(v, a, root, returned);
    CommitEffectsOk(v, a, root, returned, [], rs);
  }

  /** Both passes succeeding makes the effect commit succeed with their outputs. */
  lemma CommitEffectsOk(v: Version, a: Arena, root: nat, returned: nat -> Option<nat>,
                        cs: seq<CleanupCall>, rs: seq<HookCommit>)
    requires Linked(a) && root < |a|
    requires Visit(a, Some(root), CleanupsOf(a)) == Ok(cs)
    requires Visit(a, Some(root), RunsOf(v, a, returned)) == Ok(rs)
    ensures CommitEffects(v, a, root, returned) == Ok(EffectPass(cs, rs))
  {
  }

  /**
   What a first mount of fiber `i` records: every effect hook it holds,
   in order, run, keeping what its callback returned as cleanup.
   */
  function MountRecords(a: Arena, i: nat, returned: nat -> Option<nat>): (rs: seq<HookCommit>)
    requires i < |a|
  {
    var hooks := a[i].effectHooks.GetOr([]);
    seq(|hooks|, j requires 0 <= j < |hooks| =>
      HookCommit(i, j, true, hooks[j].(cleanup := returned(hooks[j].callback))))
  }

  function MountRecordsOf(a: Arena, returned: nat -> Option<nat>): nat -> seq<HookCommit> {
    (i: nat) => if i < |a| then MountRecords(a, i, returned) else []
  }

  /** On first mount `run` on one fiber records exactly its mount records. */
  lemma FiberMountRecords(v: Version, a: Arena, i: nat, returned: nat -> Option<nat>)
    requires Linked(a) && i < |a| && a[i].alternate.None?
    ensures FiberRuns(v, a, i, returned) == Ok(MountRecords(a, i, returned))
  {
    if a[i].effectHooks.Some? {
      var news := a[i].effectHooks.value;
      RunsFromExact(v, i, None, news, 0, returned);
      forall j | 0 <= j < |news|
        ensures RunHook(v, None, j, news[j], returned) == Ok((true, news[j].(cleanup := returned(news[j].callback))))
      {
        RunHookMount(v, j, news[j], returned);
      }
      assert RunsFrom(v, i, None, news, 0, returned).Ok?;
      var rs := RunsFrom(v, i, None, news, 0, returned).value;
      var ms := MountRecords(a, i, returned);
      forall m | 0 <= m < |rs|
        ensures rs[m] == ms[m]
      {
        assert Ok((rs[m].ran, rs[m].hook)) == RunHook(v, None, m, news[m], returned);
      }
      assert rs == ms;
    } else {
      assert MountRecords(a, i, returned) == [];
    }
  }

  /** The run pass of a first mount yields the mount records of the walked fibers, in walk order. */
  lemma MountRecordsExact(v: Version, a: Arena, root: nat, returned: nat -> Option<nat>)
    requires Linked(a) && root < |a|
    requires FirstMount(a, Walk(a, Some(root)))
    ensures Visit(a, Some(root), RunsOf(v, a, returned)) == Ok(Flatten(Walk(a, Some(root)), MountRecordsOf(a, returned)))
  {
    var ws := Walk(a, Some(root));
    var fr := RunsOf(v, a, returned);
    var g := MountRecordsOf(a, returned);
    VisitFollowsWalk(a, Some(root), fr);
    forall k | 0 <= k < |ws|
      ensures fr(ws[k]) == Ok(g(ws[k]))
    {
      FiberMountRecords(v, a, ws[k], returned);
    }
    EachExact(ws, fr, g);
  }

  lemma MountCleansNothing(a: Arena, root: nat)
    requires Linked(a) && root < |a|
    requires FirstMount(a, Walk(a, Some(root)))
    ensures Visit(a, Some(root), CleanupsOf(a)) == Ok([])
  {
    var ws := Walk(a, Some(root));
    var fc := CleanupsOf(a);
    VisitFollowsWalk(a, Some(root), fc);
    forall k | 0 <= k < |ws|
      ensures fc(ws[k]) == Ok([])
    {
      FiberMountFacts(Intended, a, ws[k], n => None);
    }
    EachEmpty(ws, fc);
  }

  lemma MountRunsAll(v: Version, a: Arena, root: nat, returned: nat -> Option<nat>)
    requires Linked(a) && root < |a|
    requires FirstMount(a, Walk(a, Some(root)))
    ensures var r := Visit(a, Some(root), RunsOf(v, a, returned));
            r.Ok? && forall c :: c in r.value ==> c.ran && c.hook.cleanup == returned(c.hook.callback)
  {
    var ws := Walk(a, Some(root));
    var fr := RunsOf(v, a, returned);
    VisitFollowsWalk(a, Some(root), fr);
    var P := (c: HookCommit) => c.ran && c.hook.cleanup == returned(c.hook.callback);
    forall k | 0 <= k < |ws|
      ensures fr(ws[k]).Ok? && forall c :: c in fr(ws[k]).value ==> P(c)
    {
      FiberMountFacts(v, a, ws[k], returned);
    }
    EachAll(ws, fr, P);
  }
}
