/**
 Prop diffing (`updateDom`), with the host calls it makes recorded as a
 list of abstract operations instead of being performed on a DOM node.

 Keys are classified as in the source: a key starting with "on" is an
 event binding, every other key except "children" is a plain property,
 and "children" is never forwarded.
 */
module DomDiff {
  import opened Values
  import opened Props

  /** One call `updateDom` makes on its DOM node. */
  datatype PropOp =
    | RemoveListener(event: string, handler: Value)  // dom.removeEventListener(event, handler)
    | ClearProperty(name: string)                   // dom[name] = ""
    | SetProperty(name: string, value: Value)       // dom[name] = value
    | AddListener(event: string, handler: Value)     // dom.addEventListener(event, handler)

  /** `isEvent`: `key.startsWith("on")` */
  predicate IsEvent(k: string) {
    |k| >= 2 && k[0] == 'o' && k[1] == 'n'
  }

  /** `isProperty` */
  predicate IsProperty(k: string) {
    k != "children" && !IsEvent(k)
  }

  /** `isNew(prev, next)(key)`: `prev[key] !== next[key]` */
  predicate IsNew(prev: Props, next: Props, k: string) {
    Get(prev, k) != Get(next, k)
  }

  /** `isGone(prev, next)(key)`: `!(key in next)` */
  predicate IsGone(prev: Props, next: Props, k: string) {
    !Has(next, k)
  }

  /** `toLowerCase` on one character, ASCII letters only. */
  function LowerChar(c: char): char {
    if 'A' <= c <= 'Z' then (c as int + 32) as char else c
  }

  function Lower(s: string): (r: string)
    ensures |r| == |s|
    ensures forall i :: 0 <= i < |s| ==> r[i] == LowerChar(s[i])
  {
    if s == [] then [] else [LowerChar(s[0])] + Lower(s[1..])
  }

  /** `name.toLowerCase().substring(2)` */
  function EventName(k: string): (e: string)
    ensures |k| >= 2 ==> |e| == |k| - 2 && forall i :: 0 <= i < |e| ==> e[i] == LowerChar(k[i + 2])
  {
    var l := Lower(k);
    if |l| >= 2 then l[2..] else []
  }

  /** The operation, if any, each of the four passes emits for one key. */
  function RemoveListenerFor(prev: Props, next: Props, k: string): Option<PropOp> {
    if IsEvent(k) && (!Has(next, k) || IsNew(prev, next, k))
    then Some(RemoveListener(EventName(k), Get(prev, k))) else None
  }

  function ClearFor(prev: Props, next: Props, k: string): Option<PropOp> {
    if IsProperty(k) && IsGone(prev, next, k) then Some(ClearProperty(k)) else None
  }

  function SetFor(prev: Props, next: Props, k: string): Option<PropOp> {
    if IsProperty(k) && IsNew(prev, next, k) then Some(SetProperty(k, Get(next, k))) else None
  }

  function AddFor(prev: Props, next: Props, k: string): Option<PropOp> {
    if IsEvent(k) && IsNew(prev, next, k)
    then Some(AddListener(EventName(k), Get(next, k))) else None
  }

  /** `Object.keys(p).filter(…).forEach(…)`: the operations `f` yields, in key order. */
  function Collect(p: Props, f: string -> Option<PropOp>): (r: seq<PropOp>)
    ensures |r| <= |p|
    ensures forall o :: o in r <==> exists k :: Has(p, k) && f(k) == Some(o)
  {
    if p == [] then []
    else
      var rest := Collect(p[1..], f);
      match f(p[0].0)
      case Some(o) => [o] + rest
      case None => rest
  }

  function Phase(o: PropOp): nat {
    match o
    case RemoveListener(_, _) => 0
    case ClearProperty(_) => 1
    case SetProperty(_, _) => 2
    case AddListener(_, _) => 3
  }

  /**
   `updateDom(dom, prevProps, nextProps)`: stale listeners are removed,
   vanished properties cleared, new or changed properties set, and new or
   changed listeners added, in that order.
   */
  function UpdateDom(prev: Props, next: Props): seq<PropOp> {
    Collect(prev, k => RemoveListenerFor(prev, next, k)) +
    Collect(prev, k => ClearFor(prev, next, k)) +
    Collect(next, k => SetFor(prev, next, k)) +
    Collect(next, k => AddFor(prev, next, k))
  }

  /** The four passes run in order, and property operations never name an event or "children". */
  lemma UpdateDomShape(prev: Props, next: Props)
    ensures forall i, j :: 0 <= i < j < |UpdateDom(prev, next)| ==>
              Phase(UpdateDom(prev, next)[i]) <= Phase(UpdateDom(prev, next)[j])
    ensures forall o :: o in UpdateDom(prev, next) && (o.ClearProperty? || o.SetProperty?) ==>
              IsProperty(o.name)
    ensures forall o :: o in UpdateDom(prev, next) && (o.RemoveListener? || o.AddListener?) ==>
              exists k :: IsEvent(k) && o.event == EventName(k)
  {
    var rl := Collect(prev, k => RemoveListenerFor(prev, next, k));
    var cp := Collect(prev, k => ClearFor(prev, next, k));
    var sp := Collect(next, k => SetFor(prev, next, k));
    var al := Collect(next, k => AddFor(prev, next, k));
    var ops := rl + cp + sp + al;
    RemovalsAreListeners(prev, next);
    ClearsAreProperties(prev, next);
    SetsAreProperties(prev, next);
    AdditionsAreListeners(prev, next);
    assert forall o :: o in ops ==> o in rl || o in cp || o in sp || o in al;
    forall i, j | 0 <= i < j < |ops| ensures Phase(ops[i]) <= Phase(ops[j]) {
      PhaseAt(rl, cp, sp, al, i);
      PhaseAt(rl, cp, sp, al, j);
    }
  }

  lemma RemovalsAreListeners(prev: Props, next: Props)
    ensures forall o :: o in Collect(prev, k => RemoveListenerFor(prev, next, k)) ==>
              o.RemoveListener? && exists k :: IsEvent(k) && o.event == EventName(k)
  {
  }

  lemma ClearsAreProperties(prev: Props, next: Props)
    ensures forall o :: o in Collect(prev, k => ClearFor(prev, next, k)) ==> o.ClearProperty? && IsProperty(o.name)
  {
  }

  lemma SetsAreProperties(prev: Props, next: Props)
    ensures forall o :: o in Collect(next, k => SetFor(prev, next, k)) ==> o.SetProperty? && IsProperty(o.name)
  {
  }

  lemma AdditionsAreListeners(prev: Props, next: Props)
    ensures forall o :: o in Collect(next, k => AddFor(prev, next, k)) ==>
              o.AddListener? && exists k :: IsEvent(k) && o.event == EventName(k)
  {
  }

  lemma PhaseAt(rl: seq<PropOp>, cp: seq<PropOp>, sp: seq<PropOp>, al: seq<PropOp>, i: nat)
    requires forall o :: o in rl ==> o.RemoveListener?
    requires forall o :: o in cp ==> o.ClearProperty?
    requires forall o :: o in sp ==> o.SetProperty?
    requires forall o :: o in al ==> o.AddListener?
    requires i < |rl + cp + sp + al|
    ensures i < |rl| ==> Phase((rl + cp + sp + al)[i]) == 0
    ensures |rl| <= i < |rl| + |cp| ==> Phase((rl + cp + sp + al)[i]) == 1
    ensures |rl| + |cp| <= i < |rl| + |cp| + |sp| ==> Phase((rl + cp + sp + al)[i]) == 2
    ensures |rl| + |cp| + |sp| <= i ==> Phase((rl + cp + sp + al)[i]) == 3
  {
    var ops := rl + cp + sp + al;
    if i < |rl| {
      assert ops[i] == rl[i] && rl[i] in rl;
    } else if i < |rl| + |cp| {
      assert ops[i] == cp[i - |rl|] && cp[i - |rl|] in cp;
    } else if i < |rl| + |cp| + |sp| {
      assert ops[i] == sp[i - |rl| - |cp|] && sp[i - |rl| - |cp|] in sp;
    } else {
      assert ops[i] == al[i - |rl| - |cp| - |sp|] && al[i - |rl| - |cp| - |sp|] in al;
    }
  }

  /** Exactly the vanished properties are cleared. */
  lemma UpdateDomClears(prev: Props, next: Props, k: string)
    ensures ClearProperty(k) in UpdateDom(prev, next) <==>
              Has(prev, k) && IsProperty(k) && !Has(next, k)
  {
    var o := ClearProperty(k);
    var cp := Collect(prev, x => ClearFor(prev, next, x));
    assert o in Collect(prev, x => RemoveListenerFor(prev, next, x)) ==> o.RemoveListener?;
    assert o in Collect(next, x => SetFor(prev, next, x)) ==> o.SetProperty?;
    assert o in Collect(next, x => AddFor(prev, next, x)) ==> o.AddListener?;
    if Has(prev, k) && IsProperty(k) && !Has(next, k) {
      assert ClearFor(prev, next, k) == Some(o);
    }
  }

  /** Exactly the new or changed properties are set, to their new value. */
  lemma UpdateDomSets(prev: Props, next: Props, k: string, v: Value)
    ensures SetProperty(k, v) in UpdateDom(prev, next) <==>
              Has(next, k) && IsProperty(k) && Get(prev, k) != Get(next, k) && v == Get(next, k)
  {
    var o := SetProperty(k, v);
    assert o in Collect(prev, x => RemoveListenerFor(prev, next, x)) ==> o.RemoveListener?;
    assert o in Collect(prev, x => ClearFor(prev, next, x)) ==> o.ClearProperty?;
    assert o in Collect(next, x => AddFor(prev, next, x)) ==> o.AddListener?;
    if Has(next, k) && IsProperty(k) && Get(prev, k) != Get(next, k) && v == Get(next, k) {
      assert SetFor(prev, next, k) == Some(o);
    }
  }

  /**
   A listener is removed for every event key of the old props whose value
   vanished or changed; its event name is the key lower-cased without "on".
   */
  lemma UpdateDomRemovesListeners(prev: Props, next: Props, e: string, h: Value)
    ensures RemoveListener(e, h) in UpdateDom(prev, next) <==>
              exists k :: Has(prev, k) && IsEvent(k) && e == EventName(k) && h == Get(prev, k) &&
                          (!Has(next, k) || Get(prev, k) != Get(next, k))
  {
    var o := RemoveListener(e, h);
    assert o in Collect(prev, x => ClearFor(prev, next, x)) ==> o.ClearProperty?;
    assert o in Collect(next, x => SetFor(prev, next, x)) ==> o.SetProperty?;
    assert o in Collect(next, x => AddFor(prev, next, x)) ==> o.AddListener?;
  }

  /** A listener is added for every event key of the new props whose value is new or changed. */
  lemma UpdateDomAddsListeners(prev: Props, next: Props, e: string, h: Value)
    ensures AddListener(e, h) in UpdateDom(prev, next) <==>
              exists k :: Has(next, k) && IsEvent(k) && e == EventName(k) && h == Get(next, k) &&
                          Get(prev, k) != Get(next, k)
  {
    var o := AddListener(e, h);
    assert o in Collect(prev, x => RemoveListenerFor(prev, next, x)) ==> o.RemoveListener?;
    assert o in Collect(prev, x => ClearFor(prev, next, x)) ==> o.ClearProperty?;
    assert o in Collect(next, x => SetFor(prev, next, x)) ==> o.SetProperty?;
  }

  lemma CollectEmpty(p: Props, f: string -> Option<PropOp>)
    requires forall k :: Has(p, k) ==> f(k) == None
    ensures Collect(p, f) == []
  {
    if Collect(p, f) != [] {
      assert Collect(p, f)[0] in Collect(p, f);
    }
  }

  /** Props with the same keys and the same values produce no host calls at all. */
  lemma UpdateDomUnchanged(prev: Props, next: Props)
    requires forall k :: Has(prev, k) <==> Has(next, k)
    requires forall k :: Has(prev, k) ==> Get(prev, k) == Get(next, k)
    ensures UpdateDom(prev, next) == []
  {
    CollectEmpty(prev, x => RemoveListenerFor(prev, next, x));
    CollectEmpty(prev, x => ClearFor(prev, next, x));
    CollectEmpty(next, x => SetFor(prev, next, x));
    CollectEmpty(next, x => AddFor(prev, next, x));
  }

  lemma {:induction false} CollectRemove(p: Props, c: string, f: string -> Option<PropOp>, g: string -> Option<PropOp>)
    requires f(c) == None
    requires forall k :: k != c ==> f(k) == g(k)
    ensures Collect(Remove(p, c), g) == Collect(p, f)
  {
    if p != [] {
      CollectRemove(p[1..], c, f, g);
      if p[0].0 != c {
        var r := [p[0]] + Remove(p[1..], c);
        assert r[0] == p[0] && r[1..] == Remove(p[1..], c);
      }
    }
  }

  lemma PassesAgreeOffChildren(prev: Props, next: Props, k: string)
    requires k != "children"
    ensures RemoveListenerFor(prev, next, k) == RemoveListenerFor(Remove(prev, "children"), Remove(next, "children"), k)
    ensures ClearFor(prev, next, k) == ClearFor(Remove(prev, "children"), Remove(next, "children"), k)
    ensures SetFor(prev, next, k) == SetFor(Remove(prev, "children"), Remove(next, "children"), k)
    ensures AddFor(prev, next, k) == AddFor(Remove(prev, "children"), Remove(next, "children"), k)
  {
  }

  /**
   The "children" entry of either props object makes no difference to the
   host calls, so props may be diffed with or without it.
   */
  lemma UpdateDomIgnoresChildren(prev: Props, next: Props)
    ensures UpdateDom(Remove(prev, "children"), Remove(next, "children")) == UpdateDom(prev, next)
  {
    ChildrenIgnoredByPasses(prev, next);
  }

  lemma ChildrenIgnoredByPasses(prev: Props, next: Props)
    ensures Collect(Remove(prev, "children"), x => RemoveListenerFor(Remove(prev, "children"), Remove(next, "children"), x))
         == Collect(prev, x => RemoveListenerFor(prev, next, x))
    ensures Collect(Remove(prev, "children"), x => ClearFor(Remove(prev, "children"), Remove(next, "children"), x))
         == Collect(prev, x => ClearFor(prev, next, x))
    ensures Collect(Remove(next, "children"), x => SetFor(Remove(prev, "children"), Remove(next, "children"), x))
         == Collect(next, x => SetFor(prev, next, x))
    ensures Collect(Remove(next, "children"), x => AddFor(Remove(prev, "children"), Remove(next, "children"), x))
         == Collect(next, x => AddFor(prev, next, x))
  {
    var p', n' := Remove(prev, "children"), Remove(next, "children");
    forall k | k != "children"
      ensures RemoveListenerFor(prev, next, k) == RemoveListenerFor(p', n', k)
      ensures ClearFor(prev, next, k) == ClearFor(p', n', k)
      ensures SetFor(prev, next, k) == SetFor(p', n', k)
      ensures AddFor(prev, next, k) == AddFor(p', n', k)
    {
      PassesAgreeOffChildren(prev, next, k);
    }
    CollectRemove(prev, "children", x => RemoveListenerFor(prev, next, x), x => RemoveListenerFor(p', n', x));
    CollectRemove(prev, "children", x => ClearFor(prev, next, x), x => ClearFor(p', n', x));
    CollectRemove(next, "children", x => SetFor(prev, next, x), x => SetFor(p', n', x));
    CollectRemove(next, "children", x => AddFor(prev, next, x), x => AddFor(p', n', x));
  }

  /** The property half of a DOM node: what `dom[name]` reads. */
  type DomProps = map<string, Value>

  function Read(m: DomProps, k: string): Value {
    if k in m then m[k] else Undefined
  }

  predicate IsWrite(o: PropOp, k: string) {
    (o.ClearProperty? || o.SetProperty?) && o.name == k
  }

  function WrittenValue(o: PropOp): Value
    requires o.ClearProperty? || o.SetProperty?
  {
    if o.ClearProperty? then Str("") else o.value
  }

  /** Performs the property assignments of `ops` in order; listener calls leave properties alone. */
  function ApplyProps(m: DomProps, ops: seq<PropOp>): DomProps
    decreases |ops|
  {
    if ops == [] then m
    else
      var m' := match ops[0]
        case ClearProperty(k) => m[k := Str("")]
        case SetProperty(k, v) => m[k := v]
        case _ => m;
      ApplyProps(m', ops[1..])
  }

  lemma {:induction false} ApplyPropsRead(m: DomProps, ops: seq<PropOp>, k: string, w: Value)
    requires forall o :: o in ops && IsWrite(o, k) ==> WrittenValue(o) == w
    ensures Read(ApplyProps(m, ops), k) ==
              if exists o :: o in ops && IsWrite(o, k) then w else Read(m, k)
    decreases |ops|
  {
    if ops != [] {
      var m' := match ops[0]
        case ClearProperty(x) => m[x := Str("")]
        case SetProperty(x, v) => m[x := v]
        case _ => m;
      assert forall o :: o in ops[1..] ==> o in ops;
      ApplyPropsRead(m', ops[1..], k, w);
      if IsWrite(ops[0], k) {
        assert Read(m', k) == w;
      } else {
        assert Read(m', k) == Read(m, k);
      }
      assert forall o :: o in ops ==> o == ops[0] || o in ops[1..];
    }
  }

  lemma UpdateDomWritesUniform(prev: Props, next: Props, k: string)
    ensures forall o :: o in UpdateDom(prev, next) && IsWrite(o, k) ==>
              IsProperty(k) && WrittenValue(o) == (if Has(next, k) then Get(next, k) else Str(""))
  {
    UpdateDomShape(prev, next);
    UpdateDomClears(prev, next, k);
    forall o | o in UpdateDom(prev, next) && IsWrite(o, k) && o.SetProperty?
      ensures WrittenValue(o) == Get(next, k) && Has(next, k)
    {
      UpdateDomSets(prev, next, k, o.value);
    }
  }

  /** The diff writes property `k` exactly when `k` vanished or changed. */
  lemma UpdateDomWritesKey(prev: Props, next: Props, k: string)
    ensures (exists o :: o in UpdateDom(prev, next) && IsWrite(o, k)) <==>
              IsProperty(k) && ((Has(prev, k) && !Has(next, k)) || (Has(next, k) && Get(prev, k) != Get(next, k)))
  {
    var ops := UpdateDom(prev, next);
    UpdateDomClears(prev, next, k);
    UpdateDomSets(prev, next, k, Get(next, k));
    forall o | o in ops && IsWrite(o, k)
      ensures IsProperty(k) && ((Has(prev, k) && !Has(next, k)) || (Has(next, k) && Get(prev, k) != Get(next, k)))
    {
      if o.SetProperty? {
        UpdateDomSets(prev, next, k, o.value);
      }
    }
    if Has(prev, k) && !Has(next, k) && IsProperty(k) {
      assert IsWrite(ClearProperty(k), k);
    } else if Has(next, k) && Get(prev, k) != Get(next, k) && IsProperty(k) {
      assert IsWrite(SetProperty(k, Get(next, k)), k);
    }
  }

  lemma UpdateDomReadsKey(m: DomProps, prev: Props, next: Props, k: string)
    requires IsProperty(k) ==> Read(m, k) == Get(prev, k)
    ensures Read(ApplyProps(m, UpdateDom(prev, next)), k) ==
              if IsProperty(k) then (if Has(prev, k) && !Has(next, k) then Str("") else Get(next, k))
              else Read(m, k)
  {
    var w := if Has(next, k) then Get(next, k) else Str("");
    UpdateDomWritesUniform(prev, next, k);
    ApplyPropsRead(m, UpdateDom(prev, next), k, w);
    UpdateDomWritesKey(prev, next, k);
  }

  /**
   Applying the diff to a node whose properties show `prev` leaves it
   showing `next`: every property of `next` holds its new value, every
   property only `prev` had reads "", and nothing else is touched.
   */
  lemma UpdateDomReachesNext(m: DomProps, prev: Props, next: Props)
    requires forall k :: IsProperty(k) ==> Read(m, k) == Get(prev, k)
    ensures forall k :: IsProperty(k) ==>
              Read(ApplyProps(m, UpdateDom(prev, next)), k) ==
                (if Has(prev, k) && !Has(next, k) then Str("") else Get(next, k))
    ensures forall k :: !IsProperty(k) ==> Read(ApplyProps(m, UpdateDom(prev, next)), k) == Read(m, k)
  {
    forall k ensures Read(ApplyProps(m, UpdateDom(prev, next)), k) ==
                       if IsProperty(k) then (if Has(prev, k) && !Has(next, k) then Str("") else Get(next, k))
                       else Read(m, k)
    {
      UpdateDomReadsKey(m, prev, next, k);
    }
  }
}
