/**
 * The OpenImmo XML document as SimpleXML presents it to the FlowFact code.
 * A missing element reads as `None`; casting it to a string gives "" and
 * asking it for children gives `null`, as SimpleXML does.
 */
module Xml {
  import opened Php
  import PhpArrays

  /**
   * An element: its direct text, its attributes in document order and its
   * child elements, each with its tag name, in document order.
   */
  datatype Node = Node(text: string, attrs: seq<(string, string)>, children: seq<(string, Node)>)

  /** `$e->name`: the first child element with that tag name. */
  function Child(e: Option<Node>, name: string): Option<Node> {
    match e
    case None => None
    case Some(n) => PhpArrays.Get(n.children, name)
  }

  /** `$e->a->b->...` along a path of tag names. */
  function Path(e: Option<Node>, names: seq<string>): Option<Node>
    decreases |names|
  {
    if names == [] then e else Path(Child(e, names[0]), names[1..])
  }

  /** `(string)$e` */
  function Text(e: Option<Node>): string {
    match e
    case None => ""
    case Some(n) => n.text
  }

  /** `(string)$e['name']`: a missing attribute reads as "". */
  function Attr(e: Option<Node>, name: string): string {
    match e
    case None => ""
    case Some(n) => PhpArrays.Get(n.attrs, name).GetOr("")
  }

  /** `((array)$e)['@attributes'] ?? []`: the attributes in document order. */
  function Attributes(e: Option<Node>): seq<(string, string)> {
    match e
    case None => []
    case Some(n) => n.attrs
  }

  /** `$e->children()`: `null` for a missing element. */
  function Children(e: Option<Node>): Option<seq<(string, Node)>> {
    match e
    case None => None
    case Some(n) => Some(n.children)
  }
}
