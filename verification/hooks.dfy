/**
 The hook store: state hooks bound to call order within one evaluation of
 a function component, their update queues, and effect hook records.

 Function updaters are opaque: `eval(f, s)` stands for calling the
 function with id `f` on state `s`.
 */
module Hooks {
  import opened Values

  /** A queued update as `setState` stores it. */
  datatype Updater =
    | Call(fnId: nat)  // a function passed to `setState`
    | Const(v: Value)  // `() => action` wrapped around a non-function `action`

  type Eval = (nat, Value) -> Value

  /** `action(state)` for a queued updater. */
  function Apply(u: Updater, s: Value, eval: Eval): Value {
    match u
    case Call(f) => eval(f, s)
    case Const(v) => v
  }

  datatype StateHook = StateHook(state: Value, queue: seq<Updater>)

  /** `{ callback, deps, cleanup }`; `deps` is `None` when no dependency list was given. */
  datatype EffectHook = EffectHook(callback: nat, deps: Option<seq<Value>>, cleanup: Option<nat>)

  /** `queue.forEach(action => state = action(state))`: a left fold in queue order. */
  function Settle(queue: seq<Updater>, s: Value, eval: Eval): Value
    decreases |queue|
  {
    if queue == [] then s else Settle(queue[1..], Apply(queue[0], s, eval), eval)
  }

  /** Settling a queue in two parts is settling the first, then the second. */
  lemma {:induction false} SettleAppend(q1: seq<Updater>, q2: seq<Updater>, s: Value, eval: Eval)
    ensures Settle(q1 + q2, s, eval) == Settle(q2, Settle(q1, s, eval), eval)
    decreases |q1|
  {
    if q1 != [] {
      assert (q1 + q2)[0] == q1[0];
      assert (q1 + q2)[1..] == q1[1..] + q2;
      SettleAppend(q1[1..], q2, Apply(q1[0], s, eval), eval);
    } else {
      assert q1 + q2 == q2;
    }
  }

  /** The updater `setState(action)` enqueues. */
  function Wrap(action: Value): (u: Updater)
    ensures IsFunction(action) ==> u == Call(action.fnId)
    ensures !IsFunction(action) ==> forall s, eval :: Apply(u, s, eval) == action
  {
    if IsFunction(action) then Call(action.fnId) else Const(action)
  }

  /**
   The hook bookkeeping of one evaluation of a function component: the
   previous generation's state hooks (`wipFiber.alternate?.stateHooks`),
   the hooks published so far, the cursor `stateHookIndex`, and the effect
   hooks published so far.
   */
  datatype Frame = Frame(
    alternate: Option<seq<StateHook>>,
    stateHooks: seq<StateHook>,
    cursor: nat,
    effectHooks: seq<EffectHook>)

  /** The reset `updateFunctionComponent` performs before calling the component. */
  function BeginFrame(alternate: Option<seq<StateHook>>): (f: Frame)
    ensures f.alternate == alternate
    ensures f.stateHooks == [] && f.effectHooks == [] && f.cursor == 0
  {
    Frame(alternate, [], 0, [])
  }

  /** `wipFiber.alternate?.stateHooks[stateHookIndex]`, absent past the end. */
  function OldHook(f: Frame): Option<StateHook> {
    match f.alternate
    case Some(hs) => if f.cursor < |hs| then Some(hs[f.cursor]) else None
    case None => None
  }

  /**
   `useState(initialState)`: returns the settled state, publishing the
   settled hook with an empty queue at the cursor and advancing it.
   */
  function UseState(f: Frame, initial: Value, eval: Eval): (r: (Value, Frame))
    ensures OldHook(f).None? ==> r.0 == initial
    ensures OldHook(f).Some? ==> r.0 == Settle(OldHook(f).value.queue, OldHook(f).value.state, eval)
    ensures r.1.stateHooks == f.stateHooks + [StateHook(r.0, [])]
    ensures r.1.cursor == f.cursor + 1
    ensures r.1.alternate == f.alternate && r.1.effectHooks == f.effectHooks
  {
    var s := match OldHook(f)
      case Some(h) => Settle(h.queue, h.state, eval)
      case None => initial;
    (s, f.(stateHooks := f.stateHooks + [StateHook(s, [])], cursor := f.cursor + 1))
  }

  /** The cursor always equals the number of state hooks published in this evaluation. */
  lemma UseStateKeepsCursor(f: Frame, initial: Value, eval: Eval)
    requires f.cursor == |f.stateHooks|
    ensures UseState(f, initial, eval).1.cursor == |UseState(f, initial, eval).1.stateHooks|
  {
  }

  /**
   `setState(action)` on the hook at position `i` of a fiber's state
   hooks: the wrapped action joins the tail of that hook's queue; the
   state it holds, and every other hook, stay as they are.
   */
  function SetState(hooks: seq<StateHook>, i: nat, action: Value): (r: seq<StateHook>)
    requires i < |hooks|
    ensures |r| == |hooks|
    ensures r[i].state == hooks[i].state
    ensures r[i].queue == hooks[i].queue + [Wrap(action)]
    ensures forall j :: 0 <= j < |hooks| && j != i ==> r[j] == hooks[j]
  {
    hooks[i := hooks[i].(queue := hooks[i].queue + [Wrap(action)])]
  }

  /** Several setter calls in a row, in call order. */
  function SetStates(hooks: seq<StateHook>, i: nat, actions: seq<Value>): (r: seq<StateHook>)
    requires i < |hooks|
    ensures |r| == |hooks|
    decreases |actions|
  {
    if actions == [] then hooks
    else SetStates(SetState(hooks, i, actions[0]), i, actions[1..])
  }

  function WrapAll(actions: seq<Value>): (us: seq<Updater>)
    ensures |us| == |actions|
    ensures forall j :: 0 <= j < |actions| ==> us[j] == Wrap(actions[j])
  {
    if actions == [] then [] else [Wrap(actions[0])] + WrapAll(actions[1..])
  }

  lemma {:induction false} SetStatesQueue(hooks: seq<StateHook>, i: nat, actions: seq<Value>)
    requires i < |hooks|
    ensures SetStates(hooks, i, actions)[i] == hooks[i].(queue := hooks[i].queue + WrapAll(actions))
    decreases |actions|
  {
    if actions != [] {
      var h1 := SetState(hooks, i, actions[0]);
      var q, u, rest := hooks[i].queue, Wrap(actions[0]), WrapAll(actions[1..]);
      calc {
        SetStates(hooks, i, actions)[i];
        SetStates(h1, i, actions[1..])[i];
        { SetStatesQueue(h1, i, actions[1..]); }
        h1[i].(queue := h1[i].queue + rest);
        hooks[i].(queue := (q + [u]) + rest);
        { assert (q + [u]) + rest == q + ([u] + rest); }
        hooks[i].(queue := q + ([u] + rest));
        hooks[i].(queue := q + WrapAll(actions));
      }
    }
  }

  /** The left fold of setter arguments: functions are applied, other values replace the state. */
  function FoldActions(actions: seq<Value>, s: Value, eval: Eval): Value
    decreases |actions|
  {
    if actions == [] then s
    else
      var s' := if IsFunction(actions[0]) then eval(actions[0].fnId, s) else actions[0];
      FoldActions(actions[1..], s', eval)
  }

  lemma {:induction false} SettleWrapAll(actions: seq<Value>, s: Value, eval: Eval)
    ensures Settle(WrapAll(actions), s, eval) == FoldActions(actions, s, eval)
    decreases |actions|
  {
    if actions != [] {
      assert WrapAll(actions)[1..] == WrapAll(actions[1..]);
      SettleWrapAll(actions[1..], Apply(Wrap(actions[0]), s, eval), eval);
    }
  }

  /**
   Setter calls made between two renders are all honoured, in call order:
   when the component is next evaluated, the hook at the same position
   settles to the left fold of every setter argument over the state it
   held, after any updates already queued.
   */
  lemma SetterCallsSettleInOrder(hooks: seq<StateHook>, i: nat, actions: seq<Value>,
                                 initial: Value, eval: Eval, f: Frame)
    requires i < |hooks|
    requires f.alternate == Some(SetStates(hooks, i, actions)) && f.cursor == i
    ensures UseState(f, initial, eval).0 ==
              FoldActions(actions, Settle(hooks[i].queue, hooks[i].state, eval), eval)
  {
    SetStatesQueue(hooks, i, actions);
    SettleAppend(hooks[i].queue, WrapAll(actions), hooks[i].state, eval);
    SettleWrapAll(actions, Settle(hooks[i].queue, hooks[i].state, eval), eval);
  }

  /** Calling the setter does not change the state the component already received. */
  lemma SetterDoesNotChangeReturnedState(f: Frame, initial: Value, eval: Eval, action: Value)
    ensures var (s, f') := UseState(f, initial, eval);
            SetState(f'.stateHooks, |f.stateHooks|, action)[|f.stateHooks|].state == s
  {
  }

  /** An increment updater: `x => x + 1` on numbers. */
  function Increment(f: nat, s: Value): Value {
    if s.Num? then Num(s.n + 1) else s
  }

  /**
   `useState(0)` on mount, then `setCount(x => x + 1)` three times before
   the next render: the next render reads 3, not 1.
   */
  lemma ThreeIncrementsSettleToThree()
    ensures var (_, mounted) := UseState(BeginFrame(None), Num(0), Increment);
            var queued := SetStates(mounted.stateHooks, 0, [Fn(1), Fn(1), Fn(1)]);
            UseState(BeginFrame(Some(queued)), Num(0), Increment).0 == Num(3)
  {
    var (s0, mounted) := UseState(BeginFrame(None), Num(0), Increment);
    SetterCallsSettleInOrder(mounted.stateHooks, 0, [Fn(1), Fn(1), Fn(1)], Num(0), Increment,
                             BeginFrame(Some(SetStates(mounted.stateHooks, 0, [Fn(1), Fn(1), Fn(1)]))));
  }

  /** `useEffect(callback, deps)`: appends a record with no cleanup yet; runs nothing. */
  function UseEffect(f: Frame, callback: nat, deps: Option<seq<Value>>): (r: Frame)
    ensures r.effectHooks == f.effectHooks + [EffectHook(callback, deps, None)]
    ensures r.stateHooks == f.stateHooks && r.cursor == f.cursor && r.alternate == f.alternate
  {
    f.(effectHooks := f.effectHooks + [EffectHook(callback, deps, None)])
  }
}
