/**
 Node descriptions ("elements") and their construction.

 An element's JavaScript props object is `props` together with one more
 key, `children`, whose value is the `children` array; the model keeps
 that array in its own field and leaves the key out of `props`.
 */
module Elements {
  import opened Values
  import opened Props

  /** A host tag such as "div" (text nodes use `TextTag`), or a component function. */
  datatype ElemType = Host(tag: string) | Component(fnId: nat)

  const TextTag: string := "TEXT_ELEMENT"

  /** The falsy children JSX produces for `{cond && <X/>}` and friends. */
  datatype EmptyKind = NullChild | UndefinedChild | FalseChild

  datatype Element = Element(elemType: ElemType, props: Props, children: seq<Child>)

  datatype Child = Node(elem: Element) | Empty(kind: EmptyKind)

  /** A child argument as a caller passes it to `createElement`. */
  datatype ChildArg =
    | StrArg(s: string)
    | NumArg(n: int)
    | ElemArg(e: Element)
    | EmptyArg(kind: EmptyKind)

  /** `createTextNode(nodeValue)` */
  function CreateTextNode(nodeValue: Value): (e: Element)
    ensures e.elemType == Host(TextTag)
    ensures e.children == []
    ensures Has(e.props, "nodeValue") && Get(e.props, "nodeValue") == nodeValue
    ensures forall k :: Has(e.props, k) ==> k == "nodeValue"
  {
    Element(Host(TextTag), [("nodeValue", nodeValue)], [])
  }

  /** The per-child normalisation inside `createElement`. */
  function NormaliseChild(c: ChildArg): Child {
    match c
    case StrArg(s) => Node(CreateTextNode(Str(s)))
    case NumArg(n) => Node(CreateTextNode(Num(n)))
    case ElemArg(e) => Node(e)
    case EmptyArg(k) => Empty(k)
  }

  /**
   `createElement(type, props, ...children)`; `props` is `None` for a
   null or undefined props argument, which spreads to nothing.
   */
  function CreateElement(elemType: ElemType, props: Option<Props>, args: seq<ChildArg>): (e: Element)
    ensures e.elemType == elemType
    ensures !Has(e.props, "children")
    ensures forall k :: k != "children" ==>
              (Has(e.props, k) <==> props.Some? && Has(props.value, k)) &&
              Get(e.props, k) == Get(props.GetOr([]), k)
    ensures |e.children| == |args|
    ensures forall i :: 0 <= i < |args| && (args[i].StrArg? || args[i].NumArg?) ==>
              e.children[i].Node? &&
              e.children[i].elem.elemType == Host(TextTag) &&
              e.children[i].elem.children == [] &&
              Get(e.children[i].elem.props, "nodeValue") ==
                (if args[i].StrArg? then Str(args[i].s) else Num(args[i].n))
    ensures forall i :: 0 <= i < |args| && args[i].ElemArg? ==> e.children[i] == Node(args[i].e)
    ensures forall i :: 0 <= i < |args| && args[i].EmptyArg? ==> e.children[i] == Empty(args[i].kind)
  {
    Element(elemType, Remove(props.GetOr([]), "children"),
            seq(|args|, i requires 0 <= i < |args| => NormaliseChild(args[i])))
  }
}
