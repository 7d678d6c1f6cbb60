/**
 * The parsed document as the DomCrawler component exposes it: elements with
 * an ordered attribute list and children, and text nodes. The operations are
 * the element accessors the constraints call (`attr`, `getAttribute`,
 * `textContent`, `html()`), descendant-or-self selection in document order,
 * and the DomCrawler services the model treats as given functions.
 */
module Dom {
  import opened Outcome

  datatype Attribute = Attribute(name: string, value: string)

  datatype Node =
    | Element(tag: string, attributes: seq<Attribute>, children: seq<Node>)
    | Text(content: string)

  /**
   * The DomCrawler services whose workings the model does not describe:
   * evaluation of a CSS selector relative to a node list (None for a
   * selector the CSS component cannot parse),
   * `selectLink` (links by visible text), parsing of a raw body into root
   * nodes, and PHP's `strip_tags`.
   */
  datatype Engine = Engine(
    filter: (seq<Node>, string) -> Option<seq<Node>>,
    selectLink: (seq<Node>, string) -> seq<Node>,
    parse: string -> seq<Node>,
    stripTags: string -> string
  )

  /** `Crawler::filter(selector)` for a selector supplied by the caller. */
  function Filter(eng: Engine, nodes: seq<Node>, selector: string): (r: Result<seq<Node>>)
    ensures r.Err? <==> eng.filter(nodes, selector).None?
    ensures r.Err? ==> r.error == InvalidSelector(selector)
    ensures r.Ok? ==> Some(r.value) == eng.filter(nodes, selector)
  {
    match eng.filter(nodes, selector)
    case Some(found) => Ok(found)
    case None => Err(InvalidSelector(selector))
  }

  /** The value of the first attribute called `name` in a list, if any. */
  function Lookup(attrs: seq<Attribute>, name: string): (r: Option<string>)
    ensures r.Some? <==> exists i :: 0 <= i < |attrs| && attrs[i].name == name
    ensures r.Some? ==> exists i :: 0 <= i < |attrs| && attrs[i] == Attribute(name, r.value)
                                 && forall j :: 0 <= j < i ==> attrs[j].name != name
  {
    if |attrs| == 0 then None
    else if attrs[0].name == name then Some(attrs[0].value)
    else
      var r := Lookup(attrs[1..], name);
      assert forall i :: 0 < i < |attrs| ==> attrs[i] == attrs[1..][i - 1];
      r
  }

  /** `Crawler::attr(name)` on a node: null (None) when the attribute is absent. */
  function Attr(n: Node, name: string): Option<string>
  {
    if n.Element? then Lookup(n.attributes, name) else None
  }

  /** `DOMElement::hasAttribute(name)`. */
  predicate HasAttr(n: Node, name: string)
  {
    Attr(n, name).Some?
  }

  /** `DOMElement::getAttribute(name)`: the empty string when the attribute is absent. */
  function GetAttribute(n: Node, name: string): (r: string)
    ensures HasAttr(n, name) ==> Some(r) == Attr(n, name)
    ensures !HasAttr(n, name) ==> r == ""
  {
    match Attr(n, name)
    case Some(v) => v
    case None => ""
  }

  /**
   * `getAttribute` cannot tell an absent attribute from an empty one:
   * it answers "" for both, and for nothing else.
   */
  lemma AbsentAndEmptyAttributesAgree(n: Node, name: string)
    ensures GetAttribute(n, name) == "" <==> Attr(n, name) == None || Attr(n, name) == Some("")
    ensures GetAttribute(n, name) != "" ==> Attr(n, name) == Some(GetAttribute(n, name))
  {
  }

  /** `DOMNode::textContent`: the text of every descendant text node, in order. */
  function TextContent(n: Node): string
  {
    match n
    case Text(s) => s
    case Element(_, _, kids) => TextContentAll(kids)
  }

  function TextContentAll(ns: seq<Node>): string
  {
    if |ns| == 0 then "" else TextContent(ns[0]) + TextContentAll(ns[1..])
  }

  /** A node followed by its descendants in document order. */
  function Preorder(n: Node): (r: seq<Node>)
    ensures |r| > 0 && r[0] == n
  {
    match n
    case Text(_) => [n]
    case Element(_, _, kids) => [n] + PreorderAll(kids)
  }

  function PreorderAll(ns: seq<Node>): seq<Node>
  {
    if |ns| == 0 then [] else Preorder(ns[0]) + PreorderAll(ns[1..])
  }

  /** The nodes of `ns`, in order, that satisfy `p`. */
  function Where(ns: seq<Node>, p: Node -> bool): (r: seq<Node>)
    ensures forall m :: m in r <==> m in ns && p(m)
  {
    if |ns| == 0 then []
    else
      assert forall m :: m in ns <==> m == ns[0] || m in ns[1..];
      (if p(ns[0]) then [ns[0]] else []) + Where(ns[1..], p)
  }

  /** Position `i` holds the first node of `ns` that satisfies `p`. */
  predicate FirstAt(ns: seq<Node>, i: int, p: Node -> bool)
  {
    0 <= i < |ns| && p(ns[i]) && forall j :: 0 <= j < i ==> !p(ns[j])
  }

  /** A list has at most one first node satisfying `p`. */
  lemma FirstAtUnique(ns: seq<Node>, i: int, j: int, p: Node -> bool)
    requires FirstAt(ns, i, p) && FirstAt(ns, j, p)
    ensures i == j
  {
  }

  /** Some node of `ns` satisfies `p` exactly when a first one does. */
  lemma FirstAtExists(ns: seq<Node>, p: Node -> bool)
    ensures (exists i :: FirstAt(ns, i, p)) <==> exists m :: m in ns && p(m)
  {
    WhereHead(ns, p);
    if exists m :: m in ns && p(m) {
      var m :| m in ns && p(m);
      assert m in Where(ns, p);
    }
    assert forall i :: FirstAt(ns, i, p) ==> ns[i] in ns;
  }

  /**
   * The first node `Where` keeps is the first node of `ns` that satisfies
   * `p`: the node DomCrawler's `nodeName()`, `attr()` and `text()` consult.
   */
  lemma {:induction false} WhereHead(ns: seq<Node>, p: Node -> bool)
    ensures |Where(ns, p)| > 0 ==> exists i :: FirstAt(ns, i, p) && ns[i] == Where(ns, p)[0]
  {
    if |ns| > 0 && !p(ns[0]) {
      WhereHead(ns[1..], p);
      var rest := Where(ns[1..], p);
      if |rest| > 0 {
        var i :| FirstAt(ns[1..], i, p) && ns[1..][i] == rest[0];
        assert ns[i + 1] == rest[0];
        forall j | 0 <= j < i + 1 ensures !p(ns[j]) {
          if j > 0 { assert ns[j] == ns[1..][j - 1]; }
        }
        assert FirstAt(ns, i + 1, p);
      }
    } else if |ns| > 0 {
      assert FirstAt(ns, 0, p);
    }
  }

  /**
   * What DomCrawler's `filter` returns for a selector that matches exactly the
   * nodes satisfying `p`: each context node and its descendants, in document
   * order, context node by context node.
   */
  function Select(view: seq<Node>, p: Node -> bool): seq<Node>
  {
    Where(PreorderAll(view), p)
  }

  // ---------------------------------------------------------------------
  // Serialisation (`Crawler::html()` is the inner HTML of the first node).

  const VoidTags: set<string> :=
    {"area", "base", "br", "col", "embed", "hr", "img", "input", "link", "meta", "param", "source", "track", "wbr"}

  /** Text-node escaping as libxml's HTML serialiser does it. */
  function EscapeTextData(s: string): string
  {
    if |s| == 0 then ""
    else
      (match s[0]
       case '&' => "&amp;"
       case '<' => "&lt;"
       case '>' => "&gt;"
       case _ => [s[0]])
      + EscapeTextData(s[1..])
  }

  /** Attribute-value escaping inside double quotes. */
  function EscapeAttrValue(s: string): string
  {
    if |s| == 0 then ""
    else
      (match s[0]
       case '&' => "&amp;"
       case '"' => "&quot;"
       case _ => [s[0]])
      + EscapeAttrValue(s[1..])
  }

  function SerializeAttributes(attrs: seq<Attribute>): string
  {
    if |attrs| == 0 then ""
    else " " + attrs[0].name + "=\"" + EscapeAttrValue(attrs[0].value) + "\"" + SerializeAttributes(attrs[1..])
  }

  function OuterHtml(n: Node): string
  {
    match n
    case Text(s) => EscapeTextData(s)
    case Element(tag, attrs, kids) =>
      if tag in VoidTags then "<" + tag + SerializeAttributes(attrs) + ">"
      else "<" + tag + SerializeAttributes(attrs) + ">" + OuterHtmlAll(kids) + "</" + tag + ">"
  }

  function OuterHtmlAll(ns: seq<Node>): string
  {
    if |ns| == 0 then "" else OuterHtml(ns[0]) + OuterHtmlAll(ns[1..])
  }

  /** The serialisation of a node's children. */
  function InnerHtml(n: Node): string
  {
    match n
    case Text(_) => ""
    case Element(_, _, kids) => OuterHtmlAll(kids)
  }
}
