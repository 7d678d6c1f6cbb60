/**
 * What a page constraint is evaluated against (`PageConstraint::html`,
 * `text` and `crawler`): either a node list the session holds, or, when the
 * session holds no document, the raw body of the last response.
 */
module Views {
  import opened Outcome
  import opened Dom

  datatype View =
    | Nodes(nodes: seq<Node>) // a DomCrawler object: the document or a scope
    | Raw(body: string)       // the response content as a string

  /** `html($crawler)`: the inner HTML of the first node, or the string itself. */
  function HtmlOf(v: View): (r: Result<string>)
    ensures v.Raw? ==> r == Ok(v.body)
    ensures v.Nodes? && |v.nodes| > 0 ==> r == Ok(InnerHtml(v.nodes[0]))
    ensures r.Err? <==> v == Nodes([])
    ensures r.Err? ==> r.error == EmptyNodeList
  {
    match v
    case Raw(body) => Ok(body)
    case Nodes(ns) => if |ns| == 0 then Err(EmptyNodeList) else Ok(InnerHtml(ns[0]))
  }

  /** `text($crawler)`: the text content of the first node, or the string with its tags stripped. */
  function TextOf(eng: Engine, v: View): (r: Result<string>)
    ensures v.Raw? ==> r == Ok(eng.stripTags(v.body))
    ensures v.Nodes? && |v.nodes| > 0 ==> r == Ok(TextContent(v.nodes[0]))
    ensures r.Err? <==> v == Nodes([])
    ensures r.Err? ==> r.error == EmptyNodeList
  {
    match v
    case Raw(body) => Ok(eng.stripTags(body))
    case Nodes(ns) => if |ns| == 0 then Err(EmptyNodeList) else Ok(TextContent(ns[0]))
  }

  /**
   * Only the first node counts: nodes after it change neither the HTML nor
   * the text a constraint reads.
   */
  lemma FirstNodeDecides(eng: Engine, n: Node, rest: seq<Node>)
    ensures HtmlOf(Nodes([n] + rest)) == HtmlOf(Nodes([n]))
    ensures TextOf(eng, Nodes([n] + rest)) == TextOf(eng, Nodes([n]))
  {
  }

  /**
   * `html` and `text` raise together, on an empty node list and nowhere
   * else; a raw body is always readable, its text being its HTML stripped.
   */
  lemma ViewsFailTogether(eng: Engine, v: View)
    ensures HtmlOf(v).Err? <==> TextOf(eng, v).Err?
    ensures HtmlOf(v).Err? ==> CrawlerOf(eng, v) == []
    ensures v.Raw? ==> TextOf(eng, v) == Ok(eng.stripTags(HtmlOf(v).value))
  {
  }

  /** `crawler($crawler)`: the node list itself, or the string parsed into a document. */
  function CrawlerOf(eng: Engine, v: View): (r: seq<Node>)
    ensures v.Nodes? ==> r == v.nodes
    ensures v.Raw? ==> r == eng.parse(v.body)
  {
    match v
    case Nodes(ns) => ns
    case Raw(body) => eng.parse(body)
  }
}
