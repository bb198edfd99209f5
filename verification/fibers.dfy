/**
 Fibers: the unit of work and the node of the work-in-progress and
 committed trees.  Fibers live in an arena; each link (`return`, `child`,
 `sibling`, `alternate`) is an index into it, absent when the JavaScript
 field is null or undefined.
 */
module Fibers {
  import opened Values
  import opened Props
  import opened Elements
  import opened Hooks

  /** `effectTag`; `Untagged` for the root, which never receives one. */
  datatype Tag = Untagged | Placement | Update | Deletion

  datatype Fiber = Fiber(
    fiberType: Option<ElemType>,  // `None` only for a root, whose `dom` is the container
    props: Props,
    children: seq<Child>,         // `props.children`
    dom: Option<nat>,             // a host node identifier
    parent: Option<nat>,          // `return`
    child: Option<nat>,
    sibling: Option<nat>,
    alternate: Option<nat>,
    tag: Tag,
    effectHooks: Option<seq<EffectHook>>)  // set only while a function component is evaluated

  type Arena = seq<Fiber>

  predicate Before(o: Option<nat>, i: nat) {
    o.None? || o.value < i
  }

  predicate Within(o: Option<nat>, i: nat, n: nat) {
    o.None? || i < o.value < n
  }

  /** A fiber other than a root. */
  predicate IsChildFiber(a: Arena, o: Option<nat>) {
    o.None? || (o.value < |a| && a[o.value].fiberType.Some?)
  }

  /**
   The arena discipline: a fiber is created after its parent and its
   alternate, and before its child and its next sibling; only roots lack
   a type.
   */
  predicate Linked(a: Arena) {
    (forall i :: 0 <= i < |a| ==>
       Before(a[i].parent, i) && Within(a[i].child, i, |a|) && Within(a[i].sibling, i, |a|) &&
       Before(a[i].alternate, i)) &&
    forall i :: 0 <= i < |a| ==> KidsTyped(a, i)
  }

  /**
   The child and the next sibling of fiber `i` are not roots.  Kept apart
   from the link bounds so that reading one fiber does not unfold its
   whole subtree.
   */
  predicate KidsTyped(a: Arena, i: nat)
    requires i < |a|
  {
    IsChildFiber(a, a[i].child) && IsChildFiber(a, a[i].sibling)
  }

  /**
   The `return` links agree with the child/sibling links: a child's parent
   is the fiber that points to it, and siblings share a parent.
   */
  predicate Consistent(a: Arena)
    requires Linked(a)
  {
    forall i :: 0 <= i < |a| ==>
      (a[i].child.Some? ==> a[a[i].child.value].parent == Some(i)) &&
      (a[i].sibling.Some? ==> a[a[i].sibling.value].parent == a[i].parent)
  }
}
