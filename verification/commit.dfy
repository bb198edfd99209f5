/**
 The commit phase: `commitRoot`, `commitWork` and `commitDeletion` turn a
 finished work-in-progress tree into host operations.  Host nodes are
 identifiers; an operation records the DOM call that would be made.
 A thrown TypeError ends the commit with `Err`.
 */
module Commit {
  import opened Values
  import opened Props
  import opened Fibers
  import opened DomDiff
  import opened Traversal

  datatype HostOp =
    | Append(parent: nat, node: nat)    // parent.appendChild(node)
    | RemoveNode(parent: nat, node: nat) // parent.removeChild(node)
    | Patch(node: nat, op: PropOp)      // one step of updateDom(node, …)

  /** The first host node of fibers `p`, in order. */
  function FirstDom(a: Arena, p: seq<nat>): Option<nat>
    requires forall k :: 0 <= k < |p| ==> p[k] < |a|
    decreases |p|
  {
    if p == [] then None
    else if a[p[0]].dom.Some? then a[p[0]].dom
    else FirstDom(a, p[1..])
  }

  /** `FirstDom` finds the earliest fiber with a host node, and finds none only when there is none. */
  lemma {:induction false} FirstDomSpec(a: Arena, p: seq<nat>)
    requires forall k :: 0 <= k < |p| ==> p[k] < |a|
    ensures FirstDom(a, p).None? <==> forall k :: 0 <= k < |p| ==> a[p[k]].dom.None?
    ensures FirstDom(a, p).Some? ==>
              exists k :: 0 <= k < |p| && a[p[k]].dom == FirstDom(a, p) &&
                          forall m :: 0 <= m < k ==> a[p[m]].dom.None?
    decreases |p|
  {
    if p != [] && a[p[0]].dom.None? {
      var rest := p[1..];
      FirstDomSpec(a, rest);
      if FirstDom(a, rest).Some? {
        var k :| 0 <= k < |rest| && a[rest[k]].dom == FirstDom(a, rest) &&
                 forall m :: 0 <= m < k ==> a[rest[m]].dom.None?;
        assert p[k + 1] == rest[k];
        forall m | 0 <= m < k + 1
          ensures a[p[m]].dom.None?
        {
          if m > 0 {
            assert p[m] == rest[m - 1];
          }
        }
      } else {
        forall k | 0 <= k < |p|
          ensures a[p[k]].dom.None?
        {
          if k > 0 {
            assert p[k] == rest[k - 1];
          }
        }
      }
    } else if p != [] {
      assert a[p[0]].dom == FirstDom(a, p);
    }
  }

  /**
   The `while (!domParentFiber.dom)` loop of `commitWork`, started at
   `o = fiber.return`: the host node of the nearest fiber upwards that has
   one; reading `.dom` past the root throws.
   */
  function HostAbove(a: Arena, o: Option<nat>): (r: Result<nat>)
    requires Linked(a) && (o.Some? ==> o.value < |a|)
    ensures r.Ok? <==> FirstDom(a, Path(a, o)).Some?
    ensures r.Ok? ==> FirstDom(a, Path(a, o)) == Some(r.value)
    ensures r.Err? ==> r.fault == NoHostAncestor
    decreases if o.Some? then o.value + 1 else 0
  {
    match o
    case None => Err(NoHostAncestor)
    case Some(j) =>
      assert Path(a, o)[1..] == Path(a, a[j].parent);
      if a[j].dom.Some? then Ok(a[j].dom.value) else HostAbove(a, a[j].parent)
  }

  /** The fibers reached from `o` through `child` links only. */
  function Descent(a: Arena, o: Option<nat>): (p: seq<nat>)
    requires Linked(a) && (o.Some? ==> o.value < |a|)
    ensures forall k :: 0 <= k < |p| ==> p[k] < |a|
    ensures o.None? <==> p == []
    ensures o.Some? ==> p[0] == o.value
    decreases if o.Some? then |a| - o.value else 0
  {
    match o
    case None => []
    case Some(j) => [j] + Descent(a, a[j].child)
  }

  /**
   The node `commitDeletion` removes: its own host node, else that of its
   first child, and so on; reaching an absent child throws.
   */
  function HostBelow(a: Arena, o: Option<nat>): (r: Result<nat>)
    requires Linked(a) && (o.Some? ==> o.value < |a|)
    ensures r.Ok? <==> FirstDom(a, Descent(a, o)).Some?
    ensures r.Ok? ==> FirstDom(a, Descent(a, o)) == Some(r.value)
    ensures r.Err? ==> r.fault == NoHostDescendant
    decreases if o.Some? then |a| - o.value else 0
  {
    match o
    case None => Err(NoHostDescendant)
    case Some(j) =>
      assert Descent(a, o)[1..] == Descent(a, a[j].child);
      if a[j].dom.Some? then Ok(a[j].dom.value) else HostBelow(a, a[j].child)
  }

  function Patches(node: nat, ops: seq<PropOp>): (r: seq<HostOp>)
    ensures |r| == |ops|
    ensures forall k :: 0 <= k < |ops| ==> r[k] == Patch(node, ops[k])
  {
    if ops == [] then [] else [Patch(node, ops[0])] + Patches(node, ops[1..])
  }

  /** The DOM work `commitWork` does for fiber `i` itself, before visiting its child and sibling. */
  function CommitFiber(a: Arena, i: nat): Result<seq<HostOp>>
    requires Linked(a) && i < |a|
  {
    var domParent :- HostAbove(a, a[i].parent);
    if a[i].tag == Placement && a[i].dom.Some? then
      Ok([Append(domParent, a[i].dom.value)])
    else if a[i].tag == Update && a[i].dom.Some? then
      match a[i].alternate
      case None => Err(MissingAlternate)
      case Some(alt) => Ok(Patches(a[i].dom.value, UpdateDom(a[alt].props, a[i].props)))
    else if a[i].tag == Deletion then
      var node :- HostBelow(a, Some(i));
      Ok([RemoveNode(domParent, node)])
    else
      Ok([])
  }

  /** What each tag commits, and what makes the commit of one fiber throw. */
  lemma CommitFiberCases(a: Arena, i: nat)
    requires Linked(a) && i < |a|
    ensures HostAbove(a, a[i].parent).Err? ==> CommitFiber(a, i) == Err(NoHostAncestor)
    ensures HostAbove(a, a[i].parent).Ok? ==>
              var domParent := HostAbove(a, a[i].parent).value;
              (a[i].tag == Placement && a[i].dom.Some? ==>
                 CommitFiber(a, i) == Ok([Append(domParent, a[i].dom.value)])) &&
              (a[i].tag == Update && a[i].dom.Some? ==>
                 (CommitFiber(a, i).Ok? <==> a[i].alternate.Some?) &&
                 (CommitFiber(a, i).Ok? ==>
                    |CommitFiber(a, i).value| == |UpdateDom(a[a[i].alternate.value].props, a[i].props)| &&
                    forall k :: 0 <= k < |CommitFiber(a, i).value| ==>
                      CommitFiber(a, i).value[k] ==
                        Patch(a[i].dom.value, UpdateDom(a[a[i].alternate.value].props, a[i].props)[k]))) &&
              (a[i].tag == Deletion ==>
                 (CommitFiber(a, i).Ok? <==> HostBelow(a, Some(i)).Ok?) &&
                 (CommitFiber(a, i).Ok? ==>
                    CommitFiber(a, i) == Ok([RemoveNode(domParent, HostBelow(a, Some(i)).value)]))) &&
              ((a[i].tag == Untagged || a[i].dom.None?) && a[i].tag != Deletion ==>
                 CommitFiber(a, i) == Ok([]))
  {
  }

  /** `CommitFiber` as the per-fiber step of a visit. */
  function FiberOps(a: Arena): nat -> Result<seq<HostOp>>
    requires Linked(a)
  {
    (i: nat) => if i < |a| then CommitFiber(a, i) else Ok([])
  }

  /** `commitWork(fiber)`: the fiber itself, then its child's subtree, then its later siblings. */
  function CommitWork(a: Arena, o: Option<nat>): Result<seq<HostOp>>
    requires Linked(a) && (o.Some? ==> o.value < |a|)
  {
    Visit(a, o, FiberOps(a))
  }

  /** Commit the fibers `ws`, one after another, stopping at the first failure. */
  function CommitAll(a: Arena, ws: seq<nat>): Result<seq<HostOp>>
    requires Linked(a)
  {
    Each(ws, FiberOps(a))
  }

  /** `deletions.forEach(commitWork)`: every deleted fiber together with its child and sibling subtrees. */
  function DeletionsAsWritten(a: Arena, ds: seq<nat>): Result<seq<HostOp>>
    requires Linked(a) && forall k :: 0 <= k < |ds| ==> ds[k] < |a|
    decreases |ds|
  {
    if ds == [] then Ok([]) else Then(CommitWork(a, Some(ds[0])), DeletionsAsWritten(a, ds[1..]))
  }

  function WalksOf(a: Arena, ds: seq<nat>): (w: seq<nat>)
    requires Linked(a) && forall k :: 0 <= k < |ds| ==> ds[k] < |a|
    ensures forall k :: 0 <= k < |w| ==> w[k] < |a|
    decreases |ds|
  {
    if ds == [] then [] else Walk(a, Some(ds[0])) + WalksOf(a, ds[1..])
  }

  /**
   As written, the deletion pass commits each deleted fiber's whole walk:
   its old children and the old siblings after it, with whatever tags
   they kept from the commit that created them.
   */
  lemma {:induction false} DeletionsAsWrittenWalk(a: Arena, ds: seq<nat>)
    requires Linked(a) && forall k :: 0 <= k < |ds| ==> ds[k] < |a|
    ensures DeletionsAsWritten(a, ds) == CommitAll(a, WalksOf(a, ds))
    decreases |ds|
  {
    if ds != [] {
      DeletionsAsWrittenWalk(a, ds[1..]);
      VisitFollowsWalk(a, Some(ds[0]), FiberOps(a));
      EachAppend(Walk(a, Some(ds[0])), WalksOf(a, ds[1..]), FiberOps(a));
    }
  }

  /** `commitRoot` as written: deletions through `commitWork`, then the new tree below the root. */
  function CommitRootAsWritten(a: Arena, root: nat, ds: seq<nat>): Result<seq<HostOp>>
    requires Linked(a) && root < |a| && forall k :: 0 <= k < |ds| ==> ds[k] < |a|
  {
    Then(DeletionsAsWritten(a, ds), CommitWork(a, a[root].child))
  }

  /** `commitRoot` with each deletion committed on its own, without its child and sibling subtrees. */
  function CommitRoot(a: Arena, root: nat, ds: seq<nat>): Result<seq<HostOp>>
    requires Linked(a) && root < |a| && forall k :: 0 <= k < |ds| ==> ds[k] < |a|
  {
    Then(CommitAll(a, ds), CommitWork(a, a[root].child))
  }

  /** The corrected commit: the deleted fibers in order, then the new tree in preorder. */
  lemma CommitRootOrder(a: Arena, root: nat, ds: seq<nat>)
    requires Linked(a) && root < |a| && forall k :: 0 <= k < |ds| ==> ds[k] < |a|
    ensures CommitRoot(a, root, ds) == CommitAll(a, ds + Walk(a, a[root].child))
  {
    VisitFollowsWalk(a, a[root].child, FiberOps(a));
    EachAppend(ds, Walk(a, a[root].child), FiberOps(a));
  }

  /** No host node is the target of two removals. */
  predicate RemovesOnce(ops: seq<HostOp>) {
    forall i, j :: 0 <= i < j < |ops| && ops[i].RemoveNode? && ops[j].RemoveNode? ==>
      ops[i].node != ops[j].node
  }

  /** A deleted fiber has a host parent above it and a host node below it. */
  predicate Removable(a: Arena, i: nat)
    requires Linked(a) && i < |a|
  {
    HostAbove(a, a[i].parent).Ok? && HostBelow(a, Some(i)).Ok?
  }

  /** The removal `commitDeletion` performs for a removable deleted fiber. */
  function Removal(a: Arena, i: nat): HostOp
    requires Linked(a) && i < |a| && Removable(a, i)
  {
    RemoveNode(HostAbove(a, a[i].parent).value, HostBelow(a, Some(i)).value)
  }

  /** What committing a deleted fiber does: remove its host node from its host parent. */
  lemma DeletionStep(a: Arena, i: nat)
    requires Linked(a) && i < |a| && a[i].tag == Deletion
    ensures FiberOps(a)(i).Ok? <==> Removable(a, i)
    ensures Removable(a, i) ==> FiberOps(a)(i) == Ok([Removal(a, i)])
  {
    CommitFiberCases(a, i);
  }

  /**
   Committing deletion-tagged fibers one by one removes, for each in turn,
   the node `commitDeletion` finds below it from the host parent found
   above it; it fails exactly when one of those searches fails.
   */
  lemma {:induction false} DeletionsRemoveEach(a: Arena, ds: seq<nat>)
    requires Linked(a) && forall k :: 0 <= k < |ds| ==> ds[k] < |a|
    requires forall k :: 0 <= k < |ds| ==> a[ds[k]].tag == Deletion
    ensures CommitAll(a, ds).Ok? <==> forall k :: 0 <= k < |ds| ==> Removable(a, ds[k])
    ensures CommitAll(a, ds).Ok? ==>
              |CommitAll(a, ds).value| == |ds| &&
              forall k :: 0 <= k < |ds| ==> CommitAll(a, ds).value[k] == Removal(a, ds[k])
    decreases |ds|
  {
    if ds != [] {
      var rest := ds[1..];
      DeletionsRemoveEach(a, rest);
      DeletionStep(a, ds[0]);
      assert CommitAll(a, ds) == Then(FiberOps(a)(ds[0]), CommitAll(a, rest));
      assert forall k :: 0 <= k < |rest| ==> rest[k] == ds[k + 1];
      if CommitAll(a, ds).Ok? {
        var ops := CommitAll(a, ds).value;
        assert ops == FiberOps(a)(ds[0]).value + CommitAll(a, rest).value;
        forall k | 0 <= k < |ds|
          ensures ops[k] == Removal(a, ds[k])
        {
          if k > 0 {
            assert ds[k] == rest[k - 1];
          }
        }
      }
      if forall k :: 0 <= k < |ds| ==> Removable(a, ds[k]) {
        assert Removable(a, ds[0]);
      }
    }
  }

  /**
   When the deleted fibers lead to distinct host nodes, the corrected
   deletion pass removes each of them exactly once.
   */
  lemma {:induction false} DeletionsRemoveOnce(a: Arena, ds: seq<nat>)
    requires Linked(a) && forall k :: 0 <= k < |ds| ==> ds[k] < |a|
    requires forall k :: 0 <= k < |ds| ==> a[ds[k]].tag == Deletion
    requires forall k, m :: 0 <= k < m < |ds| ==> HostBelow(a, Some(ds[k])) != HostBelow(a, Some(ds[m]))
    ensures CommitAll(a, ds).Ok? ==> RemovesOnce(CommitAll(a, ds).value)
  {
    DeletionsRemoveEach(a, ds);
  }

  /**
   `<ul><li/><li/></ul>` re-rendered as `<ul/>`: both old `li` children
   are deleted.  The old `ul` (0) with host node 100 has children 1 and 2
   with host nodes 101 and 102; the new `ul` (3) is its update, keeps node
   100 and has no children.  The fibers above the `ul` are not shown, and
   the commit is taken at the new `ul`, whose subtree below it is empty.
   */
  function TwoDeletedSiblings(): Arena {
    [ Fiber(Some(Elements.Host("ul")), [], [], Some(100), None, Some(1), None, None, Untagged, None),
      Fiber(Some(Elements.Host("li")), [], [], Some(101), Some(0), None, Some(2), None, Deletion, None),
      Fiber(Some(Elements.Host("li")), [], [], Some(102), Some(0), None, None, None, Deletion, None),
      Fiber(Some(Elements.Host("ul")), [], [], Some(100), None, None, None, Some(0), Update, None) ]
  }

  lemma TwoDeletedSiblingsFacts()
    ensures Linked(TwoDeletedSiblings())
    ensures FiberOps(TwoDeletedSiblings())(1) == Ok([RemoveNode(100, 101)])
    ensures FiberOps(TwoDeletedSiblings())(2) == Ok([RemoveNode(100, 102)])
    ensures WalksOf(TwoDeletedSiblings(), [1, 2]) == [1, 2, 2]
    ensures TwoDeletedSiblings()[3].child.None?
  {
    var a := TwoDeletedSiblings();
    assert Linked(a) by {
      forall i | 0 <= i < |a|
        ensures Before(a[i].parent, i) && Within(a[i].child, i, |a|) && Within(a[i].sibling, i, |a|) &&
                Before(a[i].alternate, i) && IsChildFiber(a, a[i].child) && IsChildFiber(a, a[i].sibling)
      {
      }
    }
    assert HostAbove(a, Some(0)) == Ok(100);
    assert CommitFiber(a, 1) == Ok([RemoveNode(100, 101)]);
    assert CommitFiber(a, 2) == Ok([RemoveNode(100, 102)]);
    assert Walk(a, Some(2)) == [2] + [] + [];
    assert Walk(a, Some(1)) == [1] + [] + [2];
    assert WalksOf(a, [2]) == [2] + [];
    assert [1, 2][1..] == [2];
  }

  /**
   As written, deleting both children removes node 102 twice: once while
   `commitWork` on the first deletion follows its sibling link, once for
   the second deletion itself.  The DOM rejects the second removal with a
   `NotFoundError`, so the rest of `commitRoot` never runs.
   */
  lemma AsWrittenRemovesTwice()
    ensures Linked(TwoDeletedSiblings())
    ensures CommitRootAsWritten(TwoDeletedSiblings(), 3, [1, 2]) ==
              Ok([RemoveNode(100, 101), RemoveNode(100, 102), RemoveNode(100, 102)])
    ensures !RemovesOnce(CommitRootAsWritten(TwoDeletedSiblings(), 3, [1, 2]).value)
  {
    TwoDeletedSiblingsFacts();
    AsWrittenPair(TwoDeletedSiblings(), 3, 1, 2, RemoveNode(100, 101), RemoveNode(100, 102));
  }

  /** Two deleted fibers whose walks are `[x, y]` and `[y]`, below a new root without children. */
  lemma AsWrittenPair(a: Arena, root: nat, x: nat, y: nat, r1: HostOp, r2: HostOp)
    requires Linked(a) && root < |a| && x < |a| && y < |a| && a[root].child.None?
    requires WalksOf(a, [x, y]) == [x, y, y]
    requires FiberOps(a)(x) == Ok([r1]) && FiberOps(a)(y) == Ok([r2])
    requires r2.RemoveNode?
    ensures CommitRootAsWritten(a, root, [x, y]) == Ok([r1, r2, r2])
    ensures !RemovesOnce(CommitRootAsWritten(a, root, [x, y]).value)
  {
    var f := FiberOps(a);
    DeletionsAsWrittenWalk(a, [x, y]);
    assert [x, y, y][1..] == [y, y];
    EachPair(f, y, y, r2, r2);
    assert [r1] + [r2, r2] == [r1, r2, r2];
    ThenUnit(DeletionsAsWritten(a, [x, y]));
    var ops := CommitRootAsWritten(a, root, [x, y]).value;
    assert ops[1].node == ops[2].node;
  }

  /** The corrected commit of the same trees removes each child once. */
  lemma CorrectedRemovesOnce()
    ensures Linked(TwoDeletedSiblings())
    ensures CommitRoot(TwoDeletedSiblings(), 3, [1, 2]) == Ok([RemoveNode(100, 101), RemoveNode(100, 102)])
    ensures RemovesOnce(CommitRoot(TwoDeletedSiblings(), 3, [1, 2]).value)
  {
    TwoDeletedSiblingsFacts();
    CorrectedPair(TwoDeletedSiblings(), 3, 1, 2, RemoveNode(100, 101), RemoveNode(100, 102));
  }

  /** Two deleted fibers that each remove one node, below a new root without children. */
  lemma CorrectedPair(a: Arena, root: nat, x: nat, y: nat, r1: HostOp, r2: HostOp)
    requires Linked(a) && root < |a| && x < |a| && y < |a| && a[root].child.None?
    requires FiberOps(a)(x) == Ok([r1]) && FiberOps(a)(y) == Ok([r2])
    requires r1.RemoveNode? && r2.RemoveNode? && r1.node != r2.node
    ensures CommitRoot(a, root, [x, y]) == Ok([r1, r2])
    ensures RemovesOnce(CommitRoot(a, root, [x, y]).value)
  {
    EachPair(FiberOps(a), x, y, r1, r2);
    ThenUnit(CommitAll(a, [x, y]));
  }

  /** Two steps that each produce one operation produce both, in order. */
  lemma EachPair<T>(f: nat -> Result<seq<T>>, x: nat, y: nat, r1: T, r2: T)
    requires f(x) == Ok([r1]) && f(y) == Ok([r2])
    ensures Each([x, y], f) == Ok([r1, r2])
  {
    assert [x, y][1..] == [y];
    EachSingle(y, f);
    assert [r1] + [r2] == [r1, r2];
  }
}
