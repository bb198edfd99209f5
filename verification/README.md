# A model of mini-create, a small React-like reconciler

`src/mini-create.js` turns JSX calls into element trees. It renders them through a tree of
*fibers*. The work happens in two phases:

- the render phase walks the work-in-progress tree one fiber at a time. It reconciles each
  fiber's children against the fiber's alternate from the previous commit and tags every fiber
  `PLACEMENT`, `UPDATE` or `DELETION`;
- the commit phase replays those tags as host (DOM) operations, then runs the cleanups and
  callbacks of `useEffect` hooks.

This project models the pure core of both phases and proves properties of it:

- element creation;
- the traversal order;
- the property diff `updateDom`;
- `reconcileChildren`;
- `useState` and its setter;
- the dependency comparison;
- `commitWork`, `commitDeletion` and `commitRoot`;
- the two passes of `commitEffectHooks`.

Modelling choices:

- JavaScript values are `Values.Value`. Strict equality is Dafny equality. Objects and functions
  are compared by identity number.
- A props object is an association list in key order.
- Fibers live in an arena (`Fibers.Arena`) whose `return`, `child`, `sibling` and `alternate`
  links are indices.
- Host nodes are identifiers. The commit phase yields the list of host operations it would
  perform.
- A JavaScript `TypeError` is an `Err` carrying a `Values.Fault`.
- Effect callbacks are identifiers. What a callback returns is a parameter `returned`.

Two facts about the code shape the model. The cleanups of unmounted fibers never run.
`commitDeletion` reaches past a fiber without a host node to its child, and throws when that
fiber has no child.

## Model

| member | source | states |
|---|---|---|
| Elements.CreateTextNode | src/mini-create.js:23-31 | A text element has type `TEXT_ELEMENT`, no children, and `nodeValue` as its only property, holding the given value. |
| Elements.CreateElement | src/mini-create.js:7-19 | The element keeps its type. It has exactly the given props apart from `children`, with the same values; null props give none. It has one child per argument, in order. Each string or number becomes a childless text element holding that value. |
| Traversal.NextUnitNearest | src/mini-create.js:187-198 | After a fiber, the next unit of work is its child if it has one. Otherwise it is the sibling of the nearest fiber on its return path that has one. There is none exactly when no fiber on that path has a sibling. |
| Traversal.PassIsPreorder | src/mini-create.js:187-198 | From a root, the successive units of work visit the whole tree in child-first, then sibling, preorder, then stop. |
| Traversal.VisitFollowsWalk | src/mini-create.js:473-474 | A recursion that handles a fiber, then its child, then its sibling, stopping at the first throw, does the same as handling the fibers of the preorder walk in sequence. |
| DomDiff.UpdateDomShape | src/mini-create.js:262-299 | All listener removals come first, then property clears, then property sets, then listener additions. Clears and sets name only plain properties, never `children` or an `on…` key. Listener operations name the lower-cased event of an `on…` key. |
| DomDiff.UpdateDomClears | src/mini-create.js:275-281 | A property is cleared if and only if it is a plain property of the old props that is absent from the new ones. |
| DomDiff.UpdateDomSets | src/mini-create.js:283-289 | A property is set to a value if and only if it is a plain property of the new props whose value differs from the old one, and the value is the new one. |
| DomDiff.UpdateDomRemovesListeners | src/mini-create.js:263-273 | A listener is removed if and only if it is the old handler of an `on…` key that was removed or changed. |
| DomDiff.UpdateDomAddsListeners | src/mini-create.js:291-298 | A listener is added if and only if it is the new handler of an `on…` key whose value changed. |
| DomDiff.UpdateDomUnchanged | src/mini-create.js:262-299 | Equal old and new props produce no operation. |
| DomDiff.UpdateDomIgnoresChildren | src/mini-create.js:253 | Removing the `children` key from both prop sets leaves the operations unchanged. |
| DomDiff.UpdateDomReachesNext | src/mini-create.js:262-299 | Start from a node whose properties match the old props. After the operations, every plain property reads as in the new props, or as the empty string if it was removed. Nothing else is touched. |
| Reconcile.ReconcileChildren | src/mini-create.js:303-364 | The loop throws if and only if some position crashes. A crash is an empty child where no old fiber is left, or an element right after an empty child. Otherwise it runs max(elements, old children) times. It creates one fiber per leading element and points the parent at the first of them. Unmatched old fibers are tagged for deletion and pushed in chain order. Every other fiber is unchanged. |
| ReconcileFacts.UpdateFiber | src/mini-create.js:315-327 | When the element's type equals the old fiber's, the new fiber is an `UPDATE`. It takes the old type and host node, the new props, the old fiber as alternate and the parent as `return`. |
| ReconcileFacts.PlacementFiber | src/mini-create.js:329-338 | Otherwise an element gets a `PLACEMENT` fiber with its own type and props, no host node and no alternate. |
| ReconcileFacts.NewChain | src/mini-create.js:350-360 | The new fibers form one sibling chain in element order, starting at the parent's `child`. |
| ReconcileFacts.DeletedExactly | src/mini-create.js:339-348 | The pushed deletions are exactly the old children with no element of the same type at their position, in chain order. These and no others become tagged `DELETION`. Earlier deletions are kept. |
| ReconcileFacts.SafeExactly | src/mini-create.js:310-360 | Reconciliation is safe if and only if every empty child stands where an old fiber still is, and no element follows an empty child. |
| Hooks.UseState | src/mini-create.js:368-388 | The state returned is the initial value on first render. Otherwise it is the old state after the old queue's actions are applied in order. The frame gains that hook with an empty queue, and the hook cursor advances by one. |
| Hooks.SetState | src/mini-create.js:390-394 | The setter appends one updater to its own hook's queue. A function is queued as is; any other value is queued as a constant updater. No other hook changes and the state is not touched. |
| Hooks.Wrap | src/mini-create.js:391-393 | A function action is its own updater. Any other action yields that value whatever the state. |
| Hooks.SetterCallsSettleInOrder | src/mini-create.js:368-394 | After setter calls with actions a1…an, the next render returns the old settled state folded through a1…an in call order. |
| Hooks.SetterDoesNotChangeReturnedState | src/mini-create.js:390-403 | Calling the setter does not change the state stored in the hook, which is what the render returned. |
| Hooks.ThreeIncrementsSettleToThree | src/mini-create.js:368-404 | Three `setState(c => c + 1)` calls after mounting with 0 make the next render return 3. |
| Hooks.UseEffect | src/mini-create.js:415-422 | `useEffect` appends one hook with the callback, the dependencies and no cleanup, and changes nothing else. |
| Effects.IsDepsEqualEvery | src/mini-create.js:408-411 | The `every` form of the comparison holds if and only if both lists have the same length and are strictly equal position by position. |
| Effects.DepsEqualReflexive | src/mini-create.js:408-411 | A dependency list compares equal to itself (values here include no NaN). |
| Effects.DepsEqualSymmetric | src/mini-create.js:408-411 | The comparison gives the same answer whichever list is passed first. |
| Effects.IsDepsEqual | src/mini-create.js:549-560 | The loop form of the comparison, the declaration that takes effect, decides the same relation. It agrees with the `every` form on all inputs. |
| Effects.CleanupDue | src/mini-create.js:496-502 | The old cleanup is due when the old hook had no dependency list. It is also due when the two lists differ. Comparing against a new hook without a list throws. |
| Effects.RunRuleAsWritten | src/mini-create.js:514-533 | As written: on mount the callback runs. A re-render without dependencies runs the callback and then throws. An empty list skips. |
| Effects.RunRule | src/mini-create.js:514-533 | Corrected: a re-render without dependencies runs the callback and does not throw. Every other case is decided as written. |
| Effects.RunRuleDecides | src/mini-create.js:514-533 | With a non-empty list and an old list to compare, the callback runs if and only if the two lists differ. Otherwise it skips. |
| Effects.Mount | src/mini-create.js:516-518 | On first render every callback runs, no cleanup is invoked, and the hook keeps what the callback returned. |
| Effects.RerenderAsWritten | src/mini-create.js:514-533 | As written, a hook that did not run keeps the undefined cleanup `useEffect` gave it. |
| Effects.Rerender | src/mini-create.js:492-534 | One hook across one commit, corrected. It succeeds if and only if neither pass throws. A run invokes the old cleanup and keeps the new one. A skip keeps the old cleanup when it was not invoked, and drops it when it was. |
| Effects.CleanupsConserved | src/mini-create.js:492-534 | Over any sequence of renders of one hook, with the correction, every cleanup produced is invoked exactly once, except the one still held by the last render. |
| Effects.AsWrittenLosesCleanup | src/mini-create.js:514-533 | A concrete lifecycle (run, skip, change): as written, the first cleanup is never invoked. |
| Effects.IntendedInvokesCleanup | src/mini-create.js:492-534 | The same lifecycle with the correction invokes the first cleanup. |
| Effects.AsWrittenNoDepsThrows | src/mini-create.js:522-527 | As written, the second render of an effect without dependencies throws. |
| Effects.NoDepsRunsEveryCommit | src/mini-create.js:522-524 | With the correction, an effect without dependencies runs at every commit and invokes the previous cleanup each time. |
| Effects.EmptyDepsOnlyOnMount | src/mini-create.js:514-533 | An effect with an empty dependency list runs on mount only. No later commit runs it or invokes a cleanup. |
| Commit.HostAbove | src/mini-create.js:454-458 | The host parent is the host node of the nearest fiber on the return path that has one. Finding none throws. |
| Commit.HostBelow | src/mini-create.js:479-487 | `commitDeletion` removes the host node of the nearest fiber on the first-child line below the deleted fiber. Finding none throws. |
| Commit.CommitFiberCases | src/mini-create.js:452-470 | A placement with a host node appends it under the host parent. An update with a host node patches it with `updateDom` of the alternate's and its own props, and throws without an alternate. A deletion removes the nearest host node below it. Anything else does nothing. |
| Commit.CommitRootOrder | src/mini-create.js:426-431 | The corrected commit handles the deleted fibers, then the new tree in preorder. |
| Commit.DeletionsAsWrittenWalk | src/mini-create.js:428 | As written, each deletion is committed through `commitWork`, which also walks the deleted fiber's child and sibling. |
| Commit.DeletionsRemoveEach | src/mini-create.js:479-487 | Committing only the deleted fibers succeeds if and only if each has a host parent and a host node below. It then yields exactly one removal per deletion, in order. |
| Commit.DeletionsRemoveOnce | src/mini-create.js:479-487 | When deleted fibers reach distinct host nodes, no node is removed twice. |
| Commit.AsWrittenRemovesTwice | src/mini-create.js:426-475 | As written, deleting two adjacent old siblings issues two removals of the second host node; the DOM rejects the second, so the commit aborts there. |
| Commit.CorrectedRemovesOnce | src/mini-create.js:426-431 | The corrected commit removes each of the two nodes once. |
| EffectCommit.CleanupsFromOk | src/mini-create.js:496-503 | The cleanup pass over one fiber succeeds if and only if every old hook has a new counterpart whose comparison does not throw. |
| EffectCommit.CleanupsFromSound | src/mini-create.js:496-503 | Every cleanup invoked belongs to an old hook whose cleanup is due, and is that hook's cleanup. |
| EffectCommit.CleanupsFromComplete | src/mini-create.js:496-503 | Every due cleanup that exists is invoked. |
| EffectCommit.CleanupsFromOrdered | src/mini-create.js:496-503 | Cleanups are invoked in hook order. |
| EffectCommit.RunsFromExact | src/mini-create.js:514-534 | The run pass over one fiber succeeds if and only if no hook throws. It then yields one record per new hook, in order, each as the rule for that hook decides. |
| EffectCommit.RunHookMount | src/mini-create.js:516-518 | Without an alternate, each hook is handled as on mount. |
| EffectCommit.PassesAgreeWithSlot | src/mini-create.js:492-534 | The tree-level passes agree, hook by hook, with the single-hook lifecycle step. |
| EffectCommit.FirstMountRunsAll | src/mini-create.js:490-543 | On a first mount the effect commit succeeds and invokes no cleanup. Its run records are exactly one per effect hook of every fiber in the tree, in walk order and hook order: each callback runs and the hook keeps what the callback returned. |

## Left out

- The scheduler is not part of this model: the `requestIdleCallback` polyfill, `workLoop` and its deadline. These are timing only.
- `createDom` and every real DOM call are left out. Host operations are recorded as values instead.
- `updateFunctionComponent` (lines 212-221) is left out because it calls user code: it resets the hook arrays and cursor and evaluates `fiber.type(fiber.props)`. The model takes its effect in place: `Hooks.BeginFrame` starts the hook bookkeeping, the component's hook calls are `Hooks.UseState` and `Hooks.UseEffect`, and the element it returns is passed to `Reconcile.ReconcileChildren`.
- `updateHostComponent` (lines 227-234) is left out. It calls no user code: it creates a missing host node through `createDom` and reconciles `fiber.props.children`. The model takes the host nodes as already present in the arena, and takes the element list passed to `Reconcile.ReconcileChildren`.
- `render` (lines 70-82) is left out. It calls no user code: it builds the root fiber with the container as its host node, `[element]` as its children and the current root as its alternate, resets `deletions` to empty and sets `nextUnitOfWork` to that root. The model takes that root as an arena index: it is the parent passed to `Reconcile.ReconcileChildren`, and the root passed to `Commit.CommitRoot` and `EffectCommit.CommitEffects`.
- The global variables are left out: `nextUnitOfWork`, `wipRoot`, `currentRoot`, `deletions`, `wipFiber` and the hook cursors. They are parameters and results instead.
- The re-render that `setState` schedules is left out. Only the queued updater is modelled.
- The `window` export and the demo application are left out.
- `DomDiff.Lower` lower-cases ASCII letters only. This matches JavaScript for the ASCII event names used here.
- Props are kept in insertion order. JavaScript's rule that integer-like keys come first is not modelled.
- Numbers are integers. NaN and floating point are not modelled, so `!==` is plain inequality.
- `Reconcile.SameType` compares types with Dafny equality. The source uses loose `==`, and the two agree on the string and function types elements carry.
- `true` and other non-element objects as children are not modelled. Empty children are `null`, `undefined` or `false`.
- Strings and numbers that a function component returns directly are not modelled as children. `updateFunctionComponent` passes `[fiber.type(fiber.props)]` to `reconcileChildren` without the normalisation `createElement` applies, so such a child has an undefined `type`: with no old fiber the pass throws at `oldFiber.type`, and with an old fiber it gets a `PLACEMENT` fiber with an undefined type. `Elements.Child` has no case for a raw primitive.
- DomDiff.UpdateDomClears: props are read through own keys only. The source's `key in next` and `prev[key]` also see names inherited from `Object.prototype`, such as `toString` or `constructor`. A removed own prop with such a name is therefore never cleared by the code, while the model clears it. `DomDiff.UpdateDomReachesNext` inherits the same gap.
- EffectCommit.CleanupsFrom: an effect callback's return is modelled as a cleanup function or nothing (`returned: nat -> Option<nat>`). A callback that returns another non-nullish value, such as the Promise of an async effect or `false` or `0` from `() => cond && f()`, makes `hook.cleanup?.()` throw a `TypeError` in the cleanup pass. That error path is not modelled, and neither `Effects.Mount` nor the cleanup pass can produce it.
- The code never runs the cleanup of a fiber that is unmounted, and neither does the model.
- A commit that throws part way is a plain `Err`. The host operations performed before the throw are not recorded.
- `EffectCommit.CommitEffects` runs the second pass over the arena as it was before the first pass. The first pass writes nothing that the second pass reads.
- Reconcile.ReconcileChildren: requires that the fiber is not in its own old chain. The arena's link discipline makes this hold for the trees the render phase builds.
- Setters called from a render older than the latest are not modelled. Such a setter pushes onto the hook of its own render and schedules a render whose alternate is that render's fiber. The next render therefore starts again from that old hook's state and replays its queue. `useState` only rebinds the new hook's queue, so the old hook's array still holds every action ever pushed onto it. For example, with state 0, calling the first setter with `c => c + 1` gives 1; the second render's setter with `c => c * 10` gives 10; the first setter with `c => c + 1` again gives 2, and the `* 10` is lost. The model addresses hooks by position in the latest frame, so it cannot represent this roll-back.

## Findings

| source | as written | input that shows it | evidently intended | confidence | as-written member | corrected member |
|---|---|---|---|---|---|---|
| src/mini-create.js:522-527 | An effect with no dependency list runs at every re-render, then `newHook.deps.length` is read on `undefined` and throws. | `useEffect(cb)` with no second argument, rendered twice | Run the callback and return from that hook, as for the mount case | not executed | Effects.AsWrittenNoDepsThrows | Effects.NoDepsRunsEveryCommit |
| src/mini-create.js:514-533 | A hook whose callback is skipped keeps the `undefined` cleanup `useEffect` gave it. The cleanup the previous run returned is never invoked. | Dependencies `[1]`, then `[1]`, then `[2]`: the first cleanup is lost | A skipped hook inherits the previous hook's cleanup | not executed | Effects.AsWrittenLosesCleanup | Effects.CleanupsConserved |
| src/mini-create.js:428 | `deletions.forEach(commitWork)` also walks a deleted fiber's child and sibling. When the sibling is itself deleted, `removeChild` is called twice on its node. The second call throws a `NotFoundError` in a real DOM, which aborts the rest of `commitRoot`: the new tree, the effects and `currentRoot` are never committed. | `<ul><li/><li/></ul>` re-rendered as `<ul/>`: both `li` fibers are deleted | Remove each deleted fiber's host node once, without walking its siblings | not executed | Commit.AsWrittenRemovesTwice | Commit.CorrectedRemovesOnce |
