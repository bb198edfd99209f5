/**
 The order in which units of work are performed: the tail of
 `performUnitOfWork` picks the next fiber after the current one.
 */
module Traversal {
  import opened Values
  import opened Fibers

  /** The fibers from `o` up through `return` links, nearest first. */
  function Path(a: Arena, o: Option<nat>): (p: seq<nat>)
    requires Linked(a) && (o.Some? ==> o.value < |a|)
    ensures forall k :: 0 <= k < |p| ==> p[k] < |a|
    ensures o.None? <==> p == []
    ensures o.Some? ==> p[0] == o.value
    decreases if o.Some? then o.value + 1 else 0
  {
    match o
    case None => []
    case Some(j) => [j] + Path(a, a[j].parent)
  }

  /**
   The climbing loop: the sibling of the first fiber from `o` upwards
   that has one, if any.
   */
  function ClimbFrom(a: Arena, o: Option<nat>): (r: Option<nat>)
    requires Linked(a) && (o.Some? ==> o.value < |a|)
    ensures r.Some? ==> r.value < |a|
    decreases if o.Some? then o.value + 1 else 0
  {
    match o
    case None => None
    case Some(j) => if a[j].sibling.Some? then a[j].sibling else ClimbFrom(a, a[j].parent)
  }

  /** The fiber `performUnitOfWork` returns after working on fiber `i`; `None` ends the pass. */
  function NextUnit(a: Arena, i: nat): (r: Option<nat>)
    requires Linked(a) && i < |a|
    ensures r.Some? ==> r.value < |a|
    ensures a[i].child.Some? ==> r == a[i].child
  {
    if a[i].child.Some? then a[i].child else ClimbFrom(a, Some(i))
  }

  /**
   Climbing yields the sibling of the nearest fiber on the path that has
   one, and nothing when no fiber on the path has a sibling.
   */
  lemma {:induction false} ClimbNearest(a: Arena, o: Option<nat>)
    requires Linked(a) && (o.Some? ==> o.value < |a|)
    ensures var p := Path(a, o);
            (ClimbFrom(a, o).None? <==> forall k :: 0 <= k < |p| ==> a[p[k]].sibling.None?) &&
            (ClimbFrom(a, o).Some? ==>
               exists k :: 0 <= k < |p| && ClimbFrom(a, o) == a[p[k]].sibling &&
                           forall m :: 0 <= m < k ==> a[p[m]].sibling.None?)
    decreases if o.Some? then o.value + 1 else 0
  {
    if o.Some? {
      var j := o.value;
      var p := Path(a, o);
      var rest := Path(a, a[j].parent);
      assert p == [j] + rest;
      if a[j].sibling.None? {
        ClimbNearest(a, a[j].parent);
        if ClimbFrom(a, o).Some? {
          var k :| 0 <= k < |rest| && ClimbFrom(a, o) == a[rest[k]].sibling &&
                   forall m :: 0 <= m < k ==> a[rest[m]].sibling.None?;
          assert p[k + 1] == rest[k];
          forall m | 0 <= m < k + 1
            ensures a[p[m]].sibling.None?
          {
            if m > 0 {
              assert p[m] == rest[m - 1];
            }
          }
        } else {
          assert ClimbFrom(a, a[j].parent).None?;
          assert forall k :: 0 <= k < |rest| ==> a[rest[k]].sibling.None?;
          forall k | 0 <= k < |p|
            ensures a[p[k]].sibling.None?
          {
            if k > 0 {
              assert p[k] == rest[k - 1];
              assert a[rest[k - 1]].sibling.None?;
            } else {
              assert p[k] == j;
            }
          }
        }
      } else {
        assert ClimbFrom(a, o) == a[p[0]].sibling;
      }
    }
  }

  /**
   The next unit is the child when there is one; otherwise the sibling of
   the fiber itself or of its nearest ancestor that has one; otherwise
   none.
   */
  lemma NextUnitNearest(a: Arena, i: nat)
    requires Linked(a) && i < |a|
    ensures a[i].child.Some? ==> NextUnit(a, i) == a[i].child
    ensures a[i].child.None? ==>
              var p := Path(a, Some(i));
              (NextUnit(a, i).None? <==> forall k :: 0 <= k < |p| ==> a[p[k]].sibling.None?) &&
              (NextUnit(a, i).Some? ==>
                 exists k :: 0 <= k < |p| && NextUnit(a, i) == a[p[k]].sibling &&
                             forall m :: 0 <= m < k ==> a[p[m]].sibling.None?)
  {
    ClimbNearest(a, Some(i));
  }

  /** The left-child/right-sibling preorder from `o`: a fiber, its subtree, then its later siblings'. */
  function Walk(a: Arena, o: Option<nat>): (w: seq<nat>)
    requires Linked(a) && (o.Some? ==> o.value < |a|)
    ensures forall k :: 0 <= k < |w| ==> w[k] < |a|
    ensures o.None? <==> w == []
    ensures o.Some? ==> w[0] == o.value
    decreases if o.Some? then |a| - o.value else 0
  {
    match o
    case None => []
    case Some(i) => [i] + Walk(a, a[i].child) + Walk(a, a[i].sibling)
  }

  /** Starting at `w[0]`, `NextUnit` visits `w` in order and then yields `final`. */
  predicate StepsThrough(a: Arena, w: seq<nat>, final: Option<nat>)
    requires Linked(a)
  {
    w != [] && (forall k :: 0 <= k < |w| ==> w[k] < |a|) &&
    (forall k :: 0 <= k < |w| - 1 ==> NextUnit(a, w[k]) == Some(w[k + 1])) &&
    NextUnit(a, w[|w| - 1]) == final
  }

  lemma StepsConcat(a: Arena, w1: seq<nat>, w2: seq<nat>, final: Option<nat>)
    requires Linked(a)
    requires StepsThrough(a, w2, final)
    requires StepsThrough(a, w1, Some(w2[0]))
    ensures StepsThrough(a, w1 + w2, final)
  {
    var w := w1 + w2;
    forall k | 0 <= k < |w| - 1
      ensures NextUnit(a, w[k]) == Some(w[k + 1])
    {
      if k < |w1| - 1 {
        assert w[k] == w1[k] && w[k + 1] == w1[k + 1];
      } else if k == |w1| - 1 {
        assert w[k] == w1[k] && w[k + 1] == w2[0];
      } else {
        assert w[k] == w2[k - |w1|] && w[k + 1] == w2[k - |w1| + 1];
      }
    }
  }

  /** Putting a fiber in front of its subtree's walk and its siblings' walk. */
  lemma Assemble(a: Arena, i: nat, wc: seq<nat>, ws: seq<nat>, up: Option<nat>)
    requires Linked(a) && i < |a|
    requires a[i].child.None? <==> wc == []
    requires a[i].sibling.None? <==> ws == []
    requires wc != [] ==> wc[0] == a[i].child.value &&
                          StepsThrough(a, wc, if ws != [] then Some(ws[0]) else up)
    requires ws != [] ==> ws[0] == a[i].sibling.value && StepsThrough(a, ws, up)
    requires wc == [] ==> NextUnit(a, i) == (if ws != [] then Some(ws[0]) else up)
    ensures StepsThrough(a, [i] + wc + ws, up)
  {
    if wc != [] && ws != [] {
      StepsConcat(a, wc, ws, up);
      StepsConcat(a, [i], wc + ws, up);
      assert [i] + (wc + ws) == [i] + wc + ws;
    } else if wc != [] {
      StepsConcat(a, [i], wc, up);
      assert [i] + wc + ws == [i] + wc;
    } else if ws != [] {
      StepsConcat(a, [i], ws, up);
      assert [i] + wc + ws == [i] + ws;
    } else {
      assert [i] + wc + ws == [i];
    }
  }

  /**
   Working from fiber `i`, the units are performed in the preorder of its
   subtree and later siblings, after which the walk climbs above `i`'s
   parent.
   */
  lemma {:induction false} WalkOrder(a: Arena, i: nat)
    requires Linked(a) && Consistent(a) && i < |a|
    ensures StepsThrough(a, Walk(a, Some(i)), ClimbFrom(a, a[i].parent))
    decreases |a| - i
  {
    var wc := Walk(a, a[i].child);
    var ws := Walk(a, a[i].sibling);
    var up := ClimbFrom(a, a[i].parent);
    assert ClimbFrom(a, Some(i)) == if ws != [] then Some(ws[0]) else up;
    if a[i].child.Some? {
      var c := a[i].child.value;
      WalkOrder(a, c);
      assert a[c].parent == Some(i);
    }
    if a[i].sibling.Some? {
      var s := a[i].sibling.value;
      WalkOrder(a, s);
      assert a[s].parent == a[i].parent;
    }
    Assemble(a, i, wc, ws, up);
  }

  /**
   A pass started at a root performs every fiber of its tree exactly in
   preorder and then stops.
   */
  lemma PassIsPreorder(a: Arena, root: nat)
    requires Linked(a) && Consistent(a) && root < |a|
    requires a[root].parent.None?
    ensures StepsThrough(a, Walk(a, Some(root)), None)
  {
    WalkOrder(a, root);
  }

  /** Run `r1`, then `r2`: the first failure wins, otherwise the outputs concatenate. */
  function Then<T>(r1: Result<seq<T>>, r2: Result<seq<T>>): Result<seq<T>> {
    match r1
    case Err(f) => Err(f)
    case Ok(x) =>
      match r2
      case Err(f) => Err(f)
      case Ok(y) => Ok(x + y)
  }

  lemma ThenAssoc<T>(r1: Result<seq<T>>, r2: Result<seq<T>>, r3: Result<seq<T>>)
    ensures Then(Then(r1, r2), r3) == Then(r1, Then(r2, r3))
  {
    if r1.Ok? && r2.Ok? && r3.Ok? {
      assert r1.value + r2.value + r3.value == r1.value + (r2.value + r3.value);
    }
  }

  lemma ThenUnit<T>(r: Result<seq<T>>)
    ensures Then(r, Ok([])) == r && Then(Ok([]), r) == r
  {
    if r.Ok? {
      assert r.value + [] == r.value && [] + r.value == r.value;
    }
  }

  /**
   The recursion shared by `commitWork`, `runCleanup` and `run`: visit a
   fiber, then its child, then its sibling, stopping at the first throw.
   */
  function Visit<T>(a: Arena, o: Option<nat>, f: nat -> Result<seq<T>>): Result<seq<T>>
    requires Linked(a) && (o.Some? ==> o.value < |a|)
    decreases if o.Some? then |a| - o.value else 0
  {
    match o
    case None => Ok([])
    case Some(i) => Then(f(i), Then(Visit(a, a[i].child, f), Visit(a, a[i].sibling, f)))
  }

  /** A reference order: visit the fibers `ws` one after another, stopping at the first throw. */
  function Each<T>(ws: seq<nat>, f: nat -> Result<seq<T>>): Result<seq<T>>
    decreases |ws|
  {
    if ws == [] then Ok([]) else Then(f(ws[0]), Each(ws[1..], f))
  }

  lemma {:induction false} EachAppend<T>(w1: seq<nat>, w2: seq<nat>, f: nat -> Result<seq<T>>)
    ensures Each(w1 + w2, f) == Then(Each(w1, f), Each(w2, f))
    decreases |w1|
  {
    if w1 == [] {
      assert w1 + w2 == w2;
      ThenUnit(Each(w2, f));
    } else {
      assert (w1 + w2)[0] == w1[0] && (w1 + w2)[1..] == w1[1..] + w2;
      EachAppend(w1[1..], w2, f);
      ThenAssoc(f(w1[0]), Each(w1[1..], f), Each(w2, f));
    }
  }

  lemma EachSingle<T>(i: nat, f: nat -> Result<seq<T>>)
    ensures Each([i], f) == f(i)
  {
    assert [i][1..] == [];
    ThenUnit(f(i));
  }

  /**
   The recursive visit handles exactly the fibers of the preorder walk,
   one after another in that order: the same order in which the render
   pass performed them.
   */
  lemma {:induction false} VisitFollowsWalk<T>(a: Arena, o: Option<nat>, f: nat -> Result<seq<T>>)
    requires Linked(a) && (o.Some? ==> o.value < |a|)
    ensures Visit(a, o, f) == Each(Walk(a, o), f)
    decreases if o.Some? then |a| - o.value else 0
  {
    if o.Some? {
      var i := o.value;
      var wc := Walk(a, a[i].child);
      var ws := Walk(a, a[i].sibling);
      assert Walk(a, o) == [i] + (wc + ws);
      calc {
        Each(Walk(a, o), f);
        { EachAppend([i], wc + ws, f); }
        Then(Each([i], f), Each(wc + ws, f));
        { EachSingle(i, f); EachAppend(wc, ws, f); }
        Then(f(i), Then(Each(wc, f), Each(ws, f)));
        { VisitFollowsWalk(a, a[i].child, f); VisitFollowsWalk(a, a[i].sibling, f); }
        Then(f(i), Then(Visit(a, a[i].child, f), Visit(a, a[i].sibling, f)));
      }
    }
  }

  /** The outputs `g` gives the fibers `ws`, one after another. */
  function Flatten<T>(ws: seq<nat>, g: nat -> seq<T>): seq<T>
    decreases |ws|
  {
    if ws == [] then [] else g(ws[0]) + Flatten(ws[1..], g)
  }

  /** Every visited fiber succeeding with exactly `g`'s output makes the visit yield their concatenation. */
  lemma {:induction false} EachExact<T>(ws: seq<nat>, f: nat -> Result<seq<T>>, g: nat -> seq<T>)
    requires forall k :: 0 <= k < |ws| ==> f(ws[k]) == Ok(g(ws[k]))
    ensures Each(ws, f) == Ok(Flatten(ws, g))
    decreases |ws|
  {
    if ws != [] {
      assert forall k :: 0 <= k < |ws| - 1 ==> ws[1..][k] == ws[k + 1];
      EachExact(ws[1..], f, g);
      assert f(ws[0]) == Ok(g(ws[0]));
    }
  }

  /** Every visited fiber succeeding with outputs that satisfy `P` makes the whole visit do so. */
  lemma {:induction false} EachAll<T>(ws: seq<nat>, f: nat -> Result<seq<T>>, P: T -> bool)
    requires forall k :: 0 <= k < |ws| ==> f(ws[k]).Ok? && forall x :: x in f(ws[k]).value ==> P(x)
    ensures Each(ws, f).Ok? && forall x :: x in Each(ws, f).value ==> P(x)
    decreases |ws|
  {
    if ws != [] {
      assert forall k :: 0 <= k < |ws| - 1 ==> ws[1..][k] == ws[k + 1];
      EachAll(ws[1..], f, P);
    }
  }

  /** Every visited fiber producing nothing makes the whole visit produce nothing. */
  lemma {:induction false} EachEmpty<T>(ws: seq<nat>, f: nat -> Result<seq<T>>)
    requires forall k :: 0 <= k < |ws| ==> f(ws[k]) == Ok([])
    ensures Each(ws, f) == Ok([])
    decreases |ws|
  {
    if ws != [] {
      assert forall k :: 0 <= k < |ws| - 1 ==> ws[1..][k] == ws[k + 1];
      EachEmpty(ws[1..], f);
      ThenUnit<T>(Ok([]));
    }
  }
}
