/**
 Positional child reconciliation: the new child elements of a
 work-in-progress fiber are matched index by index against the child
 chain of its alternate.
 */
module Reconcile {
  import opened Values
  import opened Elements
  import opened Fibers

  function Max(x: nat, y: nat): nat {
    if x < y then y else x
  }

  /** The fibers reachable from `first` through `sibling` links, in order. */
  function Chain(a: Arena, first: Option<nat>): (c: seq<nat>)
    requires Linked(a)
    requires IsChildFiber(a, first)
    ensures forall k :: 0 <= k < |c| ==> c[k] < |a| && a[c[k]].fiberType.Some?
    ensures first.None? <==> c == []
    ensures c != [] ==> c[0] == first.value && a[c[|c| - 1]].sibling.None?
    ensures forall k :: 0 <= k < |c| - 1 ==> a[c[k]].sibling == Some(c[k + 1])
    ensures forall k, l :: 0 <= k < l < |c| ==> c[k] < c[l]
    decreases if first.Some? then |a| - first.value else 0
  {
    match first
    case None => []
    case Some(i) =>
      assert KidsTyped(a, i);
      var rest := Chain(a, a[i].sibling);
      assert rest != [] ==> i < rest[0];
      [i] + rest
  }

  /** `wipFiber.alternate?.child` */
  function OldFirst(a: Arena, w: nat): (o: Option<nat>)
    requires Linked(a) && w < |a|
    ensures IsChildFiber(a, o)
  {
    match a[w].alternate
    case None => None
    case Some(alt) => assert KidsTyped(a, alt); a[alt].child
  }

  /** The old child chain the new elements are compared with. */
  function OldChain(a: Arena, w: nat): seq<nat>
    requires Linked(a) && w < |a|
  {
    Chain(a, OldFirst(a, w))
  }

  predicate InArena(a: Arena, c: seq<nat>) {
    forall k :: 0 <= k < |c| ==> c[k] < |a|
  }

  /** `elements[index]` when it is an element; JSX's empty children and reads past the end give nothing. */
  function ElemAt(es: seq<Child>, k: nat): Option<Element> {
    if k < |es| && es[k].Node? then Some(es[k].elem) else None
  }

  /** `element?.type == oldFiber?.type` at position `k`; two absent types compare equal. */
  predicate SameType(a: Arena, es: seq<Child>, c: seq<nat>, k: nat)
    requires InArena(a, c)
  {
    (if ElemAt(es, k).Some? then Some(ElemAt(es, k).value.elemType) else None) ==
    (if k < |c| then a[c[k]].fiberType else None)
  }

  /** The old fiber at position `k` is tagged for deletion. */
  predicate Deleted(a: Arena, es: seq<Child>, c: seq<nat>, k: nat)
    requires InArena(a, c)
  {
    k < |c| && !SameType(a, es, c, k)
  }

  /**
   Position `k` throws: an empty child where no old fiber is left makes
   the types "equal" and the update branch reads a field of the missing
   old fiber; an element right after an empty child reads `sibling` of a
   null previous fiber.
   */
  predicate Crashes(a: Arena, es: seq<Child>, c: seq<nat>, k: nat)
    requires InArena(a, c)
  {
    (SameType(a, es, c, k) && k >= |c|) || (0 < k < |es| && es[k].Node? && es[k - 1].Empty?)
  }

  predicate Safe(a: Arena, es: seq<Child>, c: seq<nat>)
    requires InArena(a, c)
  {
    forall k :: 0 <= k < Max(|es|, |c|) ==> !Crashes(a, es, c, k)
  }

  /** The old fibers tagged for deletion at positions below `k`, in chain order. */
  function DeletedUpTo(a: Arena, es: seq<Child>, c: seq<nat>, k: nat): seq<nat>
    requires InArena(a, c)
  {
    if k == 0 then []
    else DeletedUpTo(a, es, c, k - 1) + (if Deleted(a, es, c, k - 1) then [c[k - 1]] else [])
  }

  /** The fiber created for the element at position `k`, before it is linked to a sibling. */
  function Fresh(a: Arena, w: nat, es: seq<Child>, c: seq<nat>, k: nat): Fiber
    requires InArena(a, c)
    requires k < |es| && es[k].Node?
  {
    var e := es[k].elem;
    if SameType(a, es, c, k) then
      var prior := a[c[k]];
      Fiber(prior.fiberType, e.props, e.children, prior.dom, Some(w), None, None, Some(c[k]), Update, None)
    else
      Fiber(Some(e.elemType), e.props, e.children, None, Some(w), None, None, None, Placement, None)
  }

  /** The `j`-th created fiber of an arena that grew from `n0` to `|arena|` fibers, linked to the next. */
  function LinkedFresh(a: Arena, w: nat, es: seq<Child>, c: seq<nat>, j: nat, n0: nat, n: nat): Fiber
    requires InArena(a, c)
    requires j < |es| && es[j].Node?
  {
    Fresh(a, w, es, c, j).(sibling := if n0 + j + 1 < n then Some(n0 + j + 1) else None)
  }

  /** The loop variables of `reconcileChildren` besides `index`. */
  datatype Pass = Pass(arena: Arena, dels: seq<nat>, oldFiber: Option<nat>, prevSibling: Option<nat>)

  predicate Points(p: Pass) {
    (p.oldFiber.Some? ==> p.oldFiber.value < |p.arena| && p.arena[p.oldFiber.value].fiberType.Some?) &&
    (p.prevSibling.Some? ==> p.prevSibling.value < |p.arena|)
  }

  /** `element?.type == oldFiber?.type` for the loop variables. */
  predicate SameTypeNow(elements: seq<Child>, index: nat, p: Pass)
    requires Points(p)
  {
    (if ElemAt(elements, index).Some? then Some(ElemAt(elements, index).value.elemType) else None) ==
    (if p.oldFiber.Some? then p.arena[p.oldFiber.value].fiberType else None)
  }

  /**
   The first half of an iteration: create the new fiber (appended to the
   arena), tag the old one, advance the old cursor.  The result's
   `prevSibling` slot holds `newFiber`.
   */
  function Grow(w: nat, elements: seq<Child>, index: nat, p: Pass): Pass
    requires Points(p)
    requires !(SameTypeNow(elements, index, p) && p.oldFiber.None?)
  {
    var element := ElemAt(elements, index);
    var sameType := SameTypeNow(elements, index, p);
    var created :=
      if sameType then
        var prior := p.arena[p.oldFiber.value];
        Some(Fiber(prior.fiberType, element.value.props, element.value.children, prior.dom,
                   Some(w), None, None, p.oldFiber, Update, None))
      else if element.Some? then
        Some(Fiber(Some(element.value.elemType), element.value.props, element.value.children,
                   None, Some(w), None, None, None, Placement, None))
      else None;
    var arena1 := if created.Some? then p.arena + [created.value] else p.arena;
    var newFiber := if created.Some? then Some(|p.arena|) else None;
    var deleting := p.oldFiber.Some? && !sameType;
    var arena2 := if deleting then arena1[p.oldFiber.value := arena1[p.oldFiber.value].(tag := Deletion)] else arena1;
    var dels := if deleting then p.dels + [p.oldFiber.value] else p.dels;
    var oldFiber := if p.oldFiber.Some? then arena2[p.oldFiber.value].sibling else None;
    Pass(arena2, dels, oldFiber, newFiber)
  }

  /** The second half: link `newFiber` (in `g.prevSibling`) to the parent or to the previous fiber. */
  function Link(w: nat, elements: seq<Child>, index: nat, prevSibling: Option<nat>, g: Pass): Result<Pass>
    requires w < |g.arena|
    requires prevSibling.Some? ==> prevSibling.value < |g.arena|
  {
    if index == 0 then
      Ok(g.(arena := g.arena[w := g.arena[w].(child := g.prevSibling)]))
    else if ElemAt(elements, index).Some? then
      if prevSibling.None? then Err(ReadOfNullPrevSibling)
      else Ok(g.(arena := g.arena[prevSibling.value := g.arena[prevSibling.value].(sibling := g.prevSibling)]))
    else Ok(g)
  }

  /** One iteration of the loop of `reconcileChildren`, at position `index`. */
  function Iteration(w: nat, elements: seq<Child>, index: nat, p: Pass): Result<Pass>
    requires w < |p.arena| && Points(p)
  {
    if SameTypeNow(elements, index, p) && p.oldFiber.None? then Err(ReadOfMissingOldFiber)
    else
      var g := Grow(w, elements, index, p);
      assert |g.arena| >= |p.arena|;
      Link(w, elements, index, p.prevSibling, g)
  }

  // What holds before the iteration at position `index`, in parts.

  /** The new fibers so far stand for the leading elements; the children after them are empty. */
  predicate InvShape(a: Arena, elements: seq<Child>, index: nat, p: Pass) {
    |a| <= |p.arena| <= |a| + index &&
    (forall j :: 0 <= j < |p.arena| - |a| ==> ElemAt(elements, j).Some?) &&
    (forall j :: |p.arena| - |a| <= j < index && j < |elements| ==> elements[j].Empty?) &&
    (p.prevSibling == if index > 0 && index - 1 < |elements| && elements[index - 1].Node?
                      then Some(|p.arena| - 1) else None) &&
    (index > 0 && index - 1 < |elements| && elements[index - 1].Node? ==> |p.arena| - |a| == index)
  }

  predicate InvCursor(c: seq<nat>, index: nat, p: Pass) {
    p.oldFiber == if index < |c| then Some(c[index]) else None
  }

  predicate InvSafe(a: Arena, elements: seq<Child>, c: seq<nat>, index: nat)
    requires InArena(a, c)
  {
    forall j :: 0 <= j < index ==> !Crashes(a, elements, c, j)
  }

  predicate InvFresh(a: Arena, w: nat, elements: seq<Child>, c: seq<nat>, p: Pass)
    requires InArena(a, c)
  {
    forall j :: 0 <= j && |a| + j < |p.arena| && j < |elements| && elements[j].Node? ==>
      p.arena[|a| + j] == LinkedFresh(a, w, elements, c, j, |a|, |p.arena|)
  }

  predicate InvParent(a: Arena, w: nat, index: nat, p: Pass)
    requires w < |a| <= |p.arena|
  {
    p.arena[w] == if index == 0 then a[w] else a[w].(child := if |p.arena| > |a| then Some(|a|) else None)
  }

  predicate InvOld(a: Arena, w: nat, elements: seq<Child>, c: seq<nat>, index: nat, p: Pass)
    requires InArena(a, c) && |a| <= |p.arena|
  {
    (forall i :: 0 <= i < |a| && i != w && i !in c ==> p.arena[i] == a[i]) &&
    (forall j :: 0 <= j < |c| ==>
       p.arena[c[j]] == if j < index && Deleted(a, elements, c, j) then a[c[j]].(tag := Deletion) else a[c[j]])
  }

  predicate InvDels(a: Arena, elements: seq<Child>, c: seq<nat>, deletions: seq<nat>, index: nat, p: Pass)
    requires InArena(a, c)
  {
    p.dels == deletions + DeletedUpTo(a, elements, c, index)
  }

  predicate Inv(a: Arena, w: nat, elements: seq<Child>, c: seq<nat>, deletions: seq<nat>, index: nat, p: Pass)
    requires InArena(a, c)
  {
    w < |a| && InvShape(a, elements, index, p) && InvCursor(c, index, p) && InvSafe(a, elements, c, index) &&
    InvFresh(a, w, elements, c, p) && InvParent(a, w, index, p) && InvOld(a, w, elements, c, index, p) &&
    InvDels(a, elements, c, deletions, index, p)
  }

  lemma InvPoints(a: Arena, w: nat, elements: seq<Child>, deletions: seq<nat>, index: nat, p: Pass)
    requires Linked(a) && w < |a|
    requires InvShape(a, elements, index, p) && InvCursor(OldChain(a, w), index, p) &&
             InvOld(a, w, elements, OldChain(a, w), index, p)
    ensures w < |p.arena| && Points(p)
  {
    var c := OldChain(a, w);
    if p.oldFiber.Some? {
      assert p.arena[c[index]].fiberType == a[c[index]].fiberType;
    }
  }

  /** What the first half of the iteration at `index` does, in terms of the positions. */
  predicate GrowSpec(a: Arena, w: nat, elements: seq<Child>, c: seq<nat>, index: nat, p: Pass, g: Pass)
    requires InArena(a, c)
  {
    var made := ElemAt(elements, index).Some?;
    g.oldFiber == (if index + 1 < |c| then Some(c[index + 1]) else None) &&
    |g.arena| == |p.arena| + (if made then 1 else 0) &&
    (made ==> g.arena[|p.arena|] == Fresh(a, w, elements, c, index)) &&
    g.prevSibling == (if made then Some(|p.arena|) else None) &&
    (forall i :: 0 <= i < |p.arena| ==>
       g.arena[i] == if Deleted(a, elements, c, index) && i == c[index]
                     then p.arena[i].(tag := Deletion) else p.arena[i]) &&
    g.dels == p.dels + (if Deleted(a, elements, c, index) then [c[index]] else [])
  }

  lemma GrowFacts(a: Arena, w: nat, elements: seq<Child>, deletions: seq<nat>, index: nat, p: Pass)
    requires Linked(a) && w < |a| && |a| <= |p.arena| && Points(p)
    requires InvCursor(OldChain(a, w), index, p) && InvOld(a, w, elements, OldChain(a, w), index, p)
    requires SameTypeNow(elements, index, p) == SameType(a, elements, OldChain(a, w), index)
    requires !(SameTypeNow(elements, index, p) && p.oldFiber.None?)
    ensures GrowSpec(a, w, elements, OldChain(a, w), index, p, Grow(w, elements, index, p))
  {
    var c := OldChain(a, w);
    if index < |c| {
      assert p.arena[c[index]] == a[c[index]];
    }
    GrowExact(a, w, elements, c, index, p);
  }

  /** `GrowFacts` from only the loop facts it needs. */
  lemma GrowExact(a: Arena, w: nat, elements: seq<Child>, c: seq<nat>, index: nat, p: Pass)
    requires InArena(a, c) && |a| <= |p.arena| && Points(p)
    requires forall k :: 0 <= k < |c| - 1 ==> a[c[k]].sibling == Some(c[k + 1])
    requires c != [] ==> a[c[|c| - 1]].sibling.None?
    requires InvCursor(c, index, p)
    requires index < |c| ==> p.arena[c[index]] == a[c[index]]
    requires SameTypeNow(elements, index, p) == SameType(a, elements, c, index)
    requires !(SameTypeNow(elements, index, p) && p.oldFiber.None?)
    ensures GrowSpec(a, w, elements, c, index, p, Grow(w, elements, index, p))
  {
  }

  lemma SameTypeNowAgrees(a: Arena, w: nat, elements: seq<Child>, deletions: seq<nat>, index: nat, p: Pass)
    requires Linked(a) && w < |a|
    requires InvShape(a, elements, index, p) && InvCursor(OldChain(a, w), index, p) &&
             InvOld(a, w, elements, OldChain(a, w), index, p)
    requires Points(p)
    ensures SameTypeNow(elements, index, p) == SameType(a, elements, OldChain(a, w), index)
  {
    var c := OldChain(a, w);
    if p.oldFiber.Some? {
      assert p.arena[c[index]].fiberType == a[c[index]].fiberType;
    }
  }

  /** What the second half does: one link written, everything else as the first half left it. */
  predicate LinkSpec(w: nat, elements: seq<Child>, index: nat, prevSibling: Option<nat>, g: Pass, r: Pass) {
    w < |g.arena| &&
    r.dels == g.dels && r.oldFiber == g.oldFiber && r.prevSibling == g.prevSibling && |r.arena| == |g.arena| &&
    (index == 0 ==> r.arena == g.arena[w := g.arena[w].(child := g.prevSibling)]) &&
    (index > 0 && ElemAt(elements, index).Some? ==>
       prevSibling.Some? && prevSibling.value < |g.arena| &&
       r.arena == g.arena[prevSibling.value := g.arena[prevSibling.value].(sibling := g.prevSibling)]) &&
    (index > 0 && ElemAt(elements, index).None? ==> r.arena == g.arena)
  }

  lemma LinkFacts(w: nat, elements: seq<Child>, index: nat, prevSibling: Option<nat>, g: Pass)
    requires w < |g.arena|
    requires prevSibling.Some? ==> prevSibling.value < |g.arena|
    ensures Link(w, elements, index, prevSibling, g).Err? <==>
              index > 0 && ElemAt(elements, index).Some? && prevSibling.None?
    ensures Link(w, elements, index, prevSibling, g).Ok? ==>
              LinkSpec(w, elements, index, prevSibling, g, Link(w, elements, index, prevSibling, g).value)
  {
  }

  lemma ShapeNode(a: Arena, elements: seq<Child>, index: nat, p: Pass, j: nat)
    requires InvShape(a, elements, index, p) && j < |p.arena| - |a|
    ensures j < |elements| && elements[j].Node?
  {
    assert ElemAt(elements, j).Some?;
  }

  lemma KeepShape(a: Arena, elements: seq<Child>, c: seq<nat>, index: nat, p: Pass, r: Pass)
    requires InArena(a, c)
    requires InvShape(a, elements, index, p) && InvSafe(a, elements, c, index)
    requires |r.arena| == |p.arena| + (if ElemAt(elements, index).Some? then 1 else 0)
    requires r.prevSibling == (if ElemAt(elements, index).Some? then Some(|p.arena|) else None)
    requires !Crashes(a, elements, c, index)
    ensures InvShape(a, elements, index + 1, r) && InvSafe(a, elements, c, index + 1)
  {
    var made := ElemAt(elements, index).Some?;
    if made {
      // no element follows an empty child, so the earlier positions all made fibers
      assert index > 0 ==> elements[index - 1].Node?;
      assert |p.arena| - |a| == index;
    }
    forall j | 0 <= j < |r.arena| - |a|
      ensures ElemAt(elements, j).Some?
    {
      if j < |p.arena| - |a| {
        ShapeNode(a, elements, index, p, j);
      }
    }
    forall j | |r.arena| - |a| <= j < index + 1 && j < |elements|
      ensures elements[j].Empty?
    {
      if j < index {
        ShapeEmpty(a, elements, index, p, j);
      } else {
        assert ElemAt(elements, index).None?;
      }
    }
    forall j | 0 <= j < index + 1
      ensures !Crashes(a, elements, c, j)
    {
      if j < index {
        assert InvSafe(a, elements, c, index);
      }
    }
  }

  lemma ShapeEmpty(a: Arena, elements: seq<Child>, index: nat, p: Pass, j: nat)
    requires InvShape(a, elements, index, p) && |p.arena| - |a| <= j < index && j < |elements|
    ensures elements[j].Empty?
  {
  }

  lemma KeepFresh(a: Arena, w: nat, elements: seq<Child>, c: seq<nat>, deletions: seq<nat>, index: nat,
                  p: Pass, g: Pass, r: Pass)
    requires InArena(a, c) && w < |a|
    requires InvShape(a, elements, index, p) && InvFresh(a, w, elements, c, p)
    requires GrowSpec(a, w, elements, c, index, p, g)
    requires LinkSpec(w, elements, index, p.prevSibling, g, r)
    requires !Crashes(a, elements, c, index)
    requires w !in c
    ensures InvFresh(a, w, elements, c, r)
  {
    forall j | 0 <= j && |a| + j < |r.arena| && j < |elements| && elements[j].Node?
      ensures r.arena[|a| + j] == LinkedFresh(a, w, elements, c, j, |a|, |r.arena|)
    {
      if |a| + j < |p.arena| {
        assert |a| + j != w;
        assert |a| + j !in c;
        assert g.arena[|a| + j] == p.arena[|a| + j];
      }
    }
  }

  lemma KeepParent(a: Arena, w: nat, elements: seq<Child>, c: seq<nat>, deletions: seq<nat>, index: nat,
                   p: Pass, g: Pass, r: Pass)
    requires InArena(a, c) && w < |a|
    requires w < |a| <= |p.arena| && InvShape(a, elements, index, p) && InvParent(a, w, index, p)
    requires GrowSpec(a, w, elements, c, index, p, g)
    requires LinkSpec(w, elements, index, p.prevSibling, g, r)
    requires !Crashes(a, elements, c, index)
    requires w !in c
    ensures |a| <= |r.arena| && InvParent(a, w, index + 1, r)
  {
    assert g.arena[w] == p.arena[w];
    if index > 0 && ElemAt(elements, index).Some? {
      assert p.prevSibling.value != w;
    }
  }

  lemma KeepOld(a: Arena, w: nat, elements: seq<Child>, c: seq<nat>, deletions: seq<nat>, index: nat,
                p: Pass, g: Pass, r: Pass)
    requires InArena(a, c) && w < |a|
    requires forall k, l :: 0 <= k < l < |c| ==> c[k] < c[l]
    requires w < |a| <= |p.arena| && InvShape(a, elements, index, p) && InvOld(a, w, elements, c, index, p)
    requires GrowSpec(a, w, elements, c, index, p, g)
    requires LinkSpec(w, elements, index, p.prevSibling, g, r)
    requires !Crashes(a, elements, c, index)
    requires w !in c
    ensures |a| <= |r.arena| && InvOld(a, w, elements, c, index + 1, r)
  {
    forall i | 0 <= i < |a| && i != w && i !in c
      ensures r.arena[i] == a[i]
    {
      assert g.arena[i] == p.arena[i];
      if index > 0 && ElemAt(elements, index).Some? {
        assert p.prevSibling.value != i;
      }
    }
    forall j | 0 <= j < |c|
      ensures r.arena[c[j]] ==
                if j < index + 1 && Deleted(a, elements, c, j) then a[c[j]].(tag := Deletion) else a[c[j]]
    {
      assert c[j] != w;
      if index > 0 && ElemAt(elements, index).Some? {
        assert p.prevSibling.value != c[j];
      }
      if Deleted(a, elements, c, index) && j != index {
        assert c[j] != c[index];
      }
    }
  }

  lemma KeepCursor(a: Arena, w: nat, elements: seq<Child>, c: seq<nat>, deletions: seq<nat>, index: nat,
                   p: Pass, g: Pass, r: Pass)
    requires InArena(a, c) && w < |a|
    requires InvCursor(c, index, p) && InvDels(a, elements, c, deletions, index, p)
    requires GrowSpec(a, w, elements, c, index, p, g)
    requires LinkSpec(w, elements, index, p.prevSibling, g, r)
    ensures InvCursor(c, index + 1, r) && InvDels(a, elements, c, deletions, index + 1, r)
  {
  }

  /** An iteration throws exactly where its position crashes. */
  lemma IterationFails(a: Arena, w: nat, elements: seq<Child>, deletions: seq<nat>, index: nat, p: Pass)
    requires Linked(a) && w < |a|
    requires Inv(a, w, elements, OldChain(a, w), deletions, index, p)
    ensures w < |p.arena| && Points(p)
    ensures Iteration(w, elements, index, p).Err? <==> Crashes(a, elements, OldChain(a, w), index)
  {
    InvPoints(a, w, elements, deletions, index, p);
    SameTypeNowAgrees(a, w, elements, deletions, index, p);
    if !(SameTypeNow(elements, index, p) && p.oldFiber.None?) {
      var g := Grow(w, elements, index, p);
      assert |g.arena| >= |p.arena|;
      LinkFacts(w, elements, index, p.prevSibling, g);
    }
  }

  lemma StepKeeps(a: Arena, w: nat, elements: seq<Child>, c: seq<nat>, deletions: seq<nat>, index: nat,
                  p: Pass, g: Pass, r: Pass)
    requires InArena(a, c) && w < |a|
    requires Inv(a, w, elements, c, deletions, index, p) && GrowSpec(a, w, elements, c, index, p, g)
    requires LinkSpec(w, elements, index, p.prevSibling, g, r)
    requires !Crashes(a, elements, c, index)
    requires w !in c
    requires forall k, l :: 0 <= k < l < |c| ==> c[k] < c[l]
    ensures Inv(a, w, elements, c, deletions, index + 1, r)
  {
    KeepShape(a, elements, c, index, p, r);
    KeepFresh(a, w, elements, c, deletions, index, p, g, r);
    KeepParent(a, w, elements, c, deletions, index, p, g, r);
    KeepOld(a, w, elements, c, deletions, index, p, g, r);
    KeepCursor(a, w, elements, c, deletions, index, p, g, r);
  }

  /** Positions past the old chain delete nothing. */
  lemma DeletedPastChain(a: Arena, es: seq<Child>, c: seq<nat>, k: nat)
    requires InArena(a, c) && k >= |c|
    ensures DeletedUpTo(a, es, c, k) == DeletedUpTo(a, es, c, |c|)
  {
  }

  /**
   The result of reconciling the children of `w` against its old chain:
   one new fiber per leading element, linked in order, the children after
   them all empty; the parent pointing at the first new fiber once the
   loop has run; old fibers tagged for deletion where unmatched and
   otherwise untouched; the deletions pushed in chain order.
   */
  predicate Reconciled(a: Arena, w: nat, elements: seq<Child>, deletions: seq<nat>, a': Arena, dels': seq<nat>)
    requires Linked(a) && w < |a|
  {
    ReconciledOn(a, w, elements, OldChain(a, w), deletions, a', dels')
  }

  /** Position `j` holds an element, and the `j`-th appended fiber is the one made for it. */
  predicate MadeAt(a: Arena, w: nat, elements: seq<Child>, c: seq<nat>, a': Arena, j: nat)
    requires InArena(a, c)
  {
    j < |elements| && elements[j].Node? && |a| + j < |a'| &&
    a'[|a| + j] == LinkedFresh(a, w, elements, c, j, |a|, |a'|)
  }

  predicate ReconciledOn(a: Arena, w: nat, elements: seq<Child>, c: seq<nat>, deletions: seq<nat>, a': Arena, dels': seq<nat>)
    requires InArena(a, c) && w < |a|
  {
    |a'| >= |a| &&
    (forall j :: 0 <= j < |a'| - |a| ==> MadeAt(a, w, elements, c, a', j)) &&
    (forall j :: |a'| - |a| <= j < |elements| ==> elements[j].Empty?) &&
    a'[w] == (if Max(|elements|, |c|) == 0 then a[w] else a[w].(child := if |a'| > |a| then Some(|a|) else None)) &&
    (forall j :: 0 <= j < |c| ==>
       a'[c[j]] == if Deleted(a, elements, c, j) then a[c[j]].(tag := Deletion) else a[c[j]]) &&
    (forall i :: 0 <= i < |a| && i != w && i !in c ==> a'[i] == a[i]) &&
    dels' == deletions + DeletedUpTo(a, elements, c, |c|)
  }

  lemma InitInv(a: Arena, w: nat, elements: seq<Child>, deletions: seq<nat>)
    requires Linked(a) && w < |a|
    ensures Inv(a, w, elements, OldChain(a, w), deletions, 0, Pass(a, deletions, OldFirst(a, w), None))
  {
  }

  /** The loop's exit state, read as the result of the whole pass. */
  lemma ExitFacts(a: Arena, w: nat, elements: seq<Child>, deletions: seq<nat>, index: nat, p: Pass)
    requires Linked(a) && w < |a|
    requires Inv(a, w, elements, OldChain(a, w), deletions, index, p)
    requires index == Max(|elements|, |OldChain(a, w)|)
    ensures Safe(a, elements, OldChain(a, w))
    ensures Reconciled(a, w, elements, deletions, p.arena, p.dels)
  {
    ExitOn(a, w, elements, OldChain(a, w), deletions, index, p);
  }

  lemma ExitOn(a: Arena, w: nat, elements: seq<Child>, c: seq<nat>, deletions: seq<nat>, index: nat, p: Pass)
    requires InArena(a, c) && w < |a| && index == Max(|elements|, |c|)
    requires InvShape(a, elements, index, p) && InvSafe(a, elements, c, index) && InvFresh(a, w, elements, c, p)
    requires InvParent(a, w, index, p) && InvOld(a, w, elements, c, index, p) && InvDels(a, elements, c, deletions, index, p)
    ensures Safe(a, elements, c)
    ensures ReconciledOn(a, w, elements, c, deletions, p.arena, p.dels)
  {
    DeletedPastChain(a, elements, c, index);
    forall j | 0 <= j < |p.arena| - |a|
      ensures MadeAt(a, w, elements, c, p.arena, j)
    {
      ShapeNode(a, elements, index, p, j);
      assert InvFresh(a, w, elements, c, p);
    }
  }

  /** The loop runs while a position below the longer of the two lists is left. */
  lemma GuardFacts(a: Arena, w: nat, elements: seq<Child>, deletions: seq<nat>, index: nat, p: Pass)
    requires Linked(a) && w < |a|
    requires InvCursor(OldChain(a, w), index, p)
    ensures (index < |elements| || p.oldFiber.Some?) <==> index < Max(|elements|, |OldChain(a, w)|)
  {
  }

  /** An iteration at a position that does not crash succeeds and keeps the invariant, one position further. */
  lemma IterationKeeps(a: Arena, w: nat, elements: seq<Child>, deletions: seq<nat>, index: nat, p: Pass)
    requires Linked(a) && w < |a| && w !in OldChain(a, w)
    requires Inv(a, w, elements, OldChain(a, w), deletions, index, p)
    requires index < Max(|elements|, |OldChain(a, w)|)
    requires Points(p) && !Crashes(a, elements, OldChain(a, w), index)
    ensures Iteration(w, elements, index, p).Ok?
    ensures Inv(a, w, elements, OldChain(a, w), deletions, index + 1, Iteration(w, elements, index, p).value)
  {
    SameTypeNowAgrees(a, w, elements, deletions, index, p);
    GrowFacts(a, w, elements, deletions, index, p);
    var g := Grow(w, elements, index, p);
    LinkFacts(w, elements, index, p.prevSibling, g);
    StepKeeps(a, w, elements, OldChain(a, w), deletions, index, p, g, Link(w, elements, index, p.prevSibling, g).value);
  }

  /** One turn of the loop: it throws exactly at a crash, and otherwise keeps the invariant. */
  lemma Advance(a: Arena, w: nat, elements: seq<Child>, deletions: seq<nat>, index: nat, p: Pass)
    requires Linked(a) && w < |a| && w !in OldChain(a, w)
    requires Inv(a, w, elements, OldChain(a, w), deletions, index, p)
    requires index < Max(|elements|, |OldChain(a, w)|)
    ensures w < |p.arena| && Points(p)
    ensures Iteration(w, elements, index, p).Err? <==> Crashes(a, elements, OldChain(a, w), index)
    ensures Iteration(w, elements, index, p).Ok? ==>
              var q := Iteration(w, elements, index, p).value;
              Inv(a, w, elements, OldChain(a, w), deletions, index + 1, q) &&
              ((index + 1 < |elements| || q.oldFiber.Some?) <==> index + 1 < Max(|elements|, |OldChain(a, w)|))
  {
    IterationFails(a, w, elements, deletions, index, p);
    if Iteration(w, elements, index, p).Ok? {
      IterationKeeps(a, w, elements, deletions, index, p);
      GuardFacts(a, w, elements, deletions, index + 1, Iteration(w, elements, index, p).value);
    }
  }

  /**
   `reconcileChildren(wipFiber, elements)` on the fiber at `w`, with the
   `deletions` gathered so far.  New fibers are appended to the arena in
   element order.  Also returns the number of loop iterations.
   */
  method ReconcileChildren(a: Arena, w: nat, elements: seq<Child>, deletions: seq<nat>)
    returns (r: Result<(Arena, seq<nat>)>, iterations: nat)
    requires Linked(a) && w < |a|
    requires w !in OldChain(a, w)
    ensures r.Err? <==> !Safe(a, elements, OldChain(a, w))
    ensures r.Ok? ==> iterations == Max(|elements|, |OldChain(a, w)|)
    ensures r.Ok? ==> Reconciled(a, w, elements, deletions, r.value.0, r.value.1)
  {
    var c := OldChain(a, w);
    ghost var n := Max(|elements|, |c|);
    var p := Pass(a, deletions, OldFirst(a, w), None);
    var index := 0;
    InitInv(a, w, elements, deletions);
    iterations := 0;
    GuardFacts(a, w, elements, deletions, index, p);
    while index < |elements| || p.oldFiber.Some?
      invariant Inv(a, w, elements, c, deletions, index, p)
      invariant index <= n && iterations == index
      invariant (index < |elements| || p.oldFiber.Some?) <==> index < n
      decreases n - index
    {
      Advance(a, w, elements, deletions, index, p);
      var next := Iteration(w, elements, index, p);
      if next.Err? {
        assert !Safe(a, elements, c) by {
          assert Crashes(a, elements, c, index);
        }
        return Err(next.fault), iterations + 1;
      }
      p := next.value;
      index := index + 1;
      iterations := iterations + 1;
    }
    ExitFacts(a, w, elements, deletions, index, p);
    return Ok((p.arena, p.dels)), iterations;
  }
}

/**
 What a reconciliation result means, position by position.
 */
module ReconcileFacts {
  import opened Values
  import opened Elements
  import opened Fibers
  import opened Reconcile

  /**
   Where the element's type equals the old fiber's, the new fiber is an
   update of it: the old type and host node, the new props, the old fiber
   as alternate, the parent as `return`.
   */
  lemma UpdateFiber(a: Arena, w: nat, elements: seq<Child>, deletions: seq<nat>, a': Arena, dels': seq<nat>, j: nat)
    requires Linked(a) && w < |a|
    requires Reconciled(a, w, elements, deletions, a', dels')
    requires |a| + j < |a'| && j < |elements| && elements[j].Node?
    requires j < |OldChain(a, w)| && a[OldChain(a, w)[j]].fiberType == Some(elements[j].elem.elemType)
    ensures var f := a'[|a| + j]; var prior := a[OldChain(a, w)[j]];
            f.tag == Update && f.fiberType == prior.fiberType && f.dom == prior.dom &&
            f.props == elements[j].elem.props && f.children == elements[j].elem.children &&
            f.alternate == Some(OldChain(a, w)[j]) && f.parent == Some(w) && f.child.None?
  {
    FreshAt(a, w, elements, deletions, a', dels', j);
  }

  /**
   Where there is an element but no old fiber of its type, the new fiber
   is a placement: the element's type and props, no host node, no
   alternate.
   */
  lemma PlacementFiber(a: Arena, w: nat, elements: seq<Child>, deletions: seq<nat>, a': Arena, dels': seq<nat>, j: nat)
    requires Linked(a) && w < |a|
    requires Reconciled(a, w, elements, deletions, a', dels')
    requires |a| + j < |a'| && j < |elements| && elements[j].Node?
    requires !(j < |OldChain(a, w)| && a[OldChain(a, w)[j]].fiberType == Some(elements[j].elem.elemType))
    ensures var f := a'[|a| + j];
            f.tag == Placement && f.fiberType == Some(elements[j].elem.elemType) && f.dom.None? &&
            f.props == elements[j].elem.props && f.children == elements[j].elem.children &&
            f.alternate.None? && f.parent == Some(w) && f.child.None?
  {
    FreshAt(a, w, elements, deletions, a', dels', j);
  }

  lemma FreshAt(a: Arena, w: nat, elements: seq<Child>, deletions: seq<nat>, a': Arena, dels': seq<nat>, j: nat)
    requires Linked(a) && w < |a|
    requires Reconciled(a, w, elements, deletions, a', dels')
    requires |a| + j < |a'|
    ensures j < |elements| && elements[j].Node?
    ensures a'[|a| + j] == LinkedFresh(a, w, elements, OldChain(a, w), j, |a|, |a'|)
  {
    assert MadeAt(a, w, elements, OldChain(a, w), a', j);
  }

  /** The new fibers form one sibling chain in element order, hanging from the parent. */
  lemma NewChain(a: Arena, w: nat, elements: seq<Child>, deletions: seq<nat>, a': Arena, dels': seq<nat>)
    requires Linked(a) && w < |a|
    requires Reconciled(a, w, elements, deletions, a', dels')
    requires |a'| > |a|
    ensures a'[w].child == Some(|a|)
    ensures forall i :: |a| <= i < |a'| - 1 ==> a'[i].sibling == Some(i + 1)
    ensures a'[|a'| - 1].sibling.None?
  {
    forall i | |a| <= i < |a'| - 1
      ensures a'[i].sibling == Some(i + 1)
    {
      FreshSibling(a, w, elements, deletions, a', dels', i - |a|);
    }
    FreshSibling(a, w, elements, deletions, a', dels', |a'| - 1 - |a|);
    FreshAt(a, w, elements, deletions, a', dels', 0);
    assert Max(|elements|, |OldChain(a, w)|) > 0;
  }

  lemma FreshSibling(a: Arena, w: nat, elements: seq<Child>, deletions: seq<nat>, a': Arena, dels': seq<nat>, j: nat)
    requires Linked(a) && w < |a|
    requires Reconciled(a, w, elements, deletions, a', dels')
    requires |a| + j < |a'|
    ensures a'[|a| + j].sibling == if |a| + j + 1 < |a'| then Some(|a| + j + 1) else None
  {
    FreshAt(a, w, elements, deletions, a', dels', j);
  }

  /**
   The old fibers pushed onto `deletions` are exactly those at positions
   where no element of the same type stands, in chain order; each of them,
   and only they, is tagged for deletion.
   */
  lemma DeletedExactly(a: Arena, w: nat, elements: seq<Child>, deletions: seq<nat>, a': Arena, dels': seq<nat>)
    requires Linked(a) && w < |a|
    requires Reconciled(a, w, elements, deletions, a', dels')
    ensures var c := OldChain(a, w);
            dels'[..|deletions|] == deletions &&
            (forall k :: 0 <= k < |c| ==>
               (c[k] in dels'[|deletions|..] <==>
                  !(k < |elements| && elements[k].Node? && a[c[k]].fiberType == Some(elements[k].elem.elemType)))) &&
            (forall k :: 0 <= k < |c| ==>
               (a'[c[k]].tag == Deletion <==> c[k] in dels'[|deletions|..] || a[c[k]].tag == Deletion))
    ensures |dels'| >= |deletions| &&
            var pushed := dels'[|deletions|..]; forall x, y :: 0 <= x < y < |pushed| ==> pushed[x] < pushed[y]
  {
    var c := OldChain(a, w);
    var pushed := DeletedUpTo(a, elements, c, |c|);
    assert dels'[|deletions|..] == pushed;
    DeletedUpToMembers(a, elements, c, |c|);
    DeletedUpToSorted(a, elements, c, |c|);
    forall k | 0 <= k < |c|
      ensures Deleted(a, elements, c, k) <==>
                !(k < |elements| && elements[k].Node? && a[c[k]].fiberType == Some(elements[k].elem.elemType))
    {
    }
  }

  /** Each fiber pushed before position `n` is the old fiber at some earlier position. */
  lemma {:induction false} DeletedUpToFrom(a: Arena, es: seq<Child>, c: seq<nat>, n: nat)
    requires InArena(a, c) && n <= |c|
    ensures forall x :: x in DeletedUpTo(a, es, c, n) ==> exists k :: 0 <= k < n && c[k] == x
  {
    if n > 0 {
      DeletedUpToFrom(a, es, c, n - 1);
    }
  }

  lemma {:induction false} DeletedUpToSorted(a: Arena, es: seq<Child>, c: seq<nat>, n: nat)
    requires InArena(a, c) && n <= |c|
    requires forall k, l :: 0 <= k < l < |c| ==> c[k] < c[l]
    ensures forall x, y :: 0 <= x < y < |DeletedUpTo(a, es, c, n)| ==>
              DeletedUpTo(a, es, c, n)[x] < DeletedUpTo(a, es, c, n)[y]
  {
    if n > 0 && Deleted(a, es, c, n - 1) {
      var d := DeletedUpTo(a, es, c, n - 1);
      DeletedUpToSorted(a, es, c, n - 1);
      DeletedUpToFrom(a, es, c, n - 1);
      assert forall x :: 0 <= x < |d| ==> d[x] < c[n - 1] by {
        forall x | 0 <= x < |d| ensures d[x] < c[n - 1] {
          assert d[x] in d;
        }
      }
      assert DeletedUpTo(a, es, c, n) == d + [c[n - 1]];
    } else if n > 0 {
      DeletedUpToSorted(a, es, c, n - 1);
    }
  }

  lemma {:induction false} DeletedUpToMembers(a: Arena, es: seq<Child>, c: seq<nat>, n: nat)
    requires InArena(a, c) && n <= |c|
    requires forall k, l :: 0 <= k < l < |c| ==> c[k] < c[l]
    ensures forall k :: 0 <= k < |c| ==>
              (c[k] in DeletedUpTo(a, es, c, n) <==> k < n && Deleted(a, es, c, k))
  {
    if n > 0 {
      DeletedUpToMembers(a, es, c, n - 1);
    }
  }

  lemma {:induction false} EmptyThenNodeCrashes(a: Arena, es: seq<Child>, c: seq<nat>, k: nat, l: nat)
    requires InArena(a, c)
    requires k < l < |es| && es[k].Empty? && es[l].Node?
    ensures exists m :: k < m <= l && Crashes(a, es, c, m)
    decreases l - k
  {
    if es[l - 1].Empty? {
      assert Crashes(a, es, c, l);
    } else {
      EmptyThenNodeCrashes(a, es, c, k, l - 1);
    }
  }

  /**
   Reconciliation throws unless every empty child stands where an old
   fiber still is, and no element follows an empty child.
   */
  lemma SafeExactly(a: Arena, w: nat, elements: seq<Child>)
    requires Linked(a) && w < |a|
    ensures var c := OldChain(a, w);
            Safe(a, elements, c) <==>
              (forall k :: 0 <= k < |elements| && elements[k].Empty? ==> k < |c|) &&
              (forall k, l :: 0 <= k < l < |elements| && elements[k].Empty? ==> elements[l].Empty?)
  {
    var c := OldChain(a, w);
    if Safe(a, elements, c) {
      forall k | 0 <= k < |elements| && elements[k].Empty?
        ensures k < |c|
      {
        if k >= |c| {
          assert Crashes(a, elements, c, k);
        }
      }
      forall k, l | 0 <= k < l < |elements| && elements[k].Empty?
        ensures elements[l].Empty?
      {
        if elements[l].Node? {
          EmptyThenNodeCrashes(a, elements, c, k, l);
        }
      }
    }
  }
}
