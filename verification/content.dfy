/**
 * The page constraints about content: `HasSource`, `HasText`, `HasElement`,
 * `HasInElement` and `HasLink`. Each is a predicate over a view that can
 * fail only where DomCrawler fails: `html()`/`text()` on an empty node list,
 * or a selector the CSS component cannot parse.
 */
module ContentConstraints {
  import opened Outcome
  import opened Strings
  import opened Entities
  import opened Dom
  import opened Patterns
  import opened Views

  /** The text occurs in the subject, as written or entity-escaped, ignoring ASCII case. */
  predicate Mentions(subject: string, text: string)
  {
    ContainsNoCase(subject, text) || ContainsNoCase(subject, Escape(text))
  }

  /** `HasSource::matches`: the view's HTML contains the source. */
  function HasSource(v: View, source: string): (r: Result<bool>)
    ensures r.Err? <==> v == Nodes([])
    ensures r.Err? ==> r.error == EmptyNodeList
    ensures v.Raw? ==> r == Ok(Mentions(v.body, source))
    ensures v.Nodes? && |v.nodes| > 0 ==> r == Ok(Mentions(InnerHtml(v.nodes[0]), source))
  {
    var html :- HtmlOf(v);
    FoundIff(html, source);
    Ok(Found(html, source))
  }

  /** `HasText::matches`: the view's visible text contains the text. */
  function HasText(eng: Engine, v: View, text: string): (r: Result<bool>)
    ensures r.Err? <==> v == Nodes([])
    ensures r.Err? ==> r.error == EmptyNodeList
    ensures v.Raw? ==> r == Ok(Mentions(eng.stripTags(v.body), text))
    ensures v.Nodes? && |v.nodes| > 0 ==> r == Ok(Mentions(TextContent(v.nodes[0]), text))
  {
    var shown :- TextOf(eng, v);
    FoundIff(shown, text);
    Ok(Found(shown, text))
  }

  /**
   * The key of an entry in the attribute array: PHP turns decimal integer
   * string keys into integers, so a list entry has an integer key.
   */
  datatype Key = Position(index: int) | Name(name: string)

  datatype AttrEntry = AttrEntry(key: Key, value: string)

  /** `is_numeric($name)` on the key. */
  predicate IsNumericKey(k: Key)
  {
    k.Position? || IsNumeric(k.name)
  }

  /**
   * One attribute requirement, checked against one element: a numeric key
   * asks for the attribute named by the value to be present, any other key
   * asks for that attribute to be present with exactly that value.
   */
  predicate Satisfies(e: Node, entry: AttrEntry)
  {
    if IsNumericKey(entry.key) then HasAttr(e, entry.value)
    else Attr(e, entry.key.name) == Some(entry.value)
  }

  /** Every entry holds for element `e`. */
  predicate MeetsAll(e: Node, entries: seq<AttrEntry>)
  {
    forall j :: 0 <= j < |entries| ==> Satisfies(e, entries[j])
  }

  /** `hasAttributes($element)`: the entries in order, stopping at the first that fails. */
  function HasAttributes(e: Node, entries: seq<AttrEntry>): (r: bool)
    ensures r <==> MeetsAll(e, entries)
  {
    if |entries| == 0 then true
    else if !Satisfies(e, entries[0]) then false
    else
      assert forall j :: 0 < j < |entries| ==> entries[j] == entries[1..][j - 1];
      HasAttributes(e, entries[1..])
  }

  /** `reduce(hasAttributes)->count() > 0`. */
  function AnyHasAttributes(els: seq<Node>, entries: seq<AttrEntry>): (r: bool)
    ensures r <==> exists i :: 0 <= i < |els| && MeetsAll(els[i], entries)
  {
    if |els| == 0 then false
    else if HasAttributes(els[0], entries) then true
    else
      assert forall i :: 0 < i < |els| ==> els[i] == els[1..][i - 1];
      AnyHasAttributes(els[1..], entries)
  }

  /** `HasElement::matches`: some element the selector finds meets every attribute entry. */
  function HasElement(eng: Engine, v: View, selector: string, entries: seq<AttrEntry>): (r: Result<bool>)
    ensures r.Err? <==> eng.filter(CrawlerOf(eng, v), selector).None?
    ensures r.Err? ==> r.error == InvalidSelector(selector)
    ensures r.Ok? ==> var els := eng.filter(CrawlerOf(eng, v), selector).value;
      r.value <==> exists i :: 0 <= i < |els| && MeetsAll(els[i], entries)
  {
    var els :- Filter(eng, CrawlerOf(eng, v), selector);
    if |els| == 0 then Ok(false)
    else if |entries| == 0 then
      assert MeetsAll(els[0], entries);
      Ok(true)
    else Ok(AnyHasAttributes(els, entries))
  }

  /** Requiring more attributes can only turn a match into a miss, never the reverse. */
  lemma HasElementMonotone(eng: Engine, v: View, selector: string, entries: seq<AttrEntry>, more: seq<AttrEntry>)
    ensures HasElement(eng, v, selector, entries + more) == Ok(true) ==> HasElement(eng, v, selector, entries) == Ok(true)
  {
    if HasElement(eng, v, selector, entries + more) == Ok(true) {
      var els := eng.filter(CrawlerOf(eng, v), selector).value;
      var i :| 0 <= i < |els| && MeetsAll(els[i], entries + more);
      assert forall j :: 0 <= j < |entries| ==> (entries + more)[j] == entries[j];
      assert MeetsAll(els[i], entries);
    }
  }

  /** With no attribute entries the constraint asks only that the selector find something. */
  lemma HasElementNoAttributes(eng: Engine, v: View, selector: string)
    ensures HasElement(eng, v, selector, []).Ok? ==>
      HasElement(eng, v, selector, []).value == (|eng.filter(CrawlerOf(eng, v), selector).value| > 0)
  {
    var r := HasElement(eng, v, selector, []);
    if r.Ok? && |eng.filter(CrawlerOf(eng, v), selector).value| > 0 {
      assert MeetsAll(eng.filter(CrawlerOf(eng, v), selector).value[0], []);
    }
  }

  /** The loop of `HasInElement::matches`: some element's own inner HTML matches. */
  function AnyMentions(els: seq<Node>, text: string): (r: bool)
    ensures r <==> exists i :: 0 <= i < |els| && Mentions(InnerHtml(els[i]), text)
  {
    if |els| == 0 then false
    else
      FoundIff(InnerHtml(els[0]), text);
      if Found(InnerHtml(els[0]), text) then true
      else
        assert forall i :: 0 < i < |els| ==> els[i] == els[1..][i - 1];
        AnyMentions(els[1..], text)
  }

  /** `HasInElement::matches`: the text occurs in the inner HTML of some element the selector finds. */
  function HasInElement(eng: Engine, v: View, element: string, text: string): (r: Result<bool>)
    ensures r.Err? <==> eng.filter(CrawlerOf(eng, v), element).None?
    ensures r.Err? ==> r.error == InvalidSelector(element)
    ensures r.Ok? ==> var els := eng.filter(CrawlerOf(eng, v), element).value;
      r.value <==> exists i :: 0 <= i < |els| && Mentions(InnerHtml(els[i]), text)
  {
    var els :- Filter(eng, CrawlerOf(eng, v), element);
    Ok(AnyMentions(els, text))
  }

  /** The loop of `HasLink::matches`: `getAttribute('href')` of some link is the URL. */
  function AnyHref(links: seq<Node>, url: string): (r: bool)
    ensures r <==> exists i :: 0 <= i < |links| && GetAttribute(links[i], "href") == url
  {
    if |links| == 0 then false
    else if GetAttribute(links[0], "href") == url then true
    else
      assert forall i :: 0 < i < |links| ==> links[i] == links[1..][i - 1];
      AnyHref(links[1..], url)
  }

  /** The link's `href` attribute is the URL, or the URL is empty and the link has no `href`. */
  predicate PointsTo(link: Node, url: string)
  {
    Attr(link, "href") == Some(url) || (url == "" && !HasAttr(link, "href"))
  }

  /**
   * `HasLink::matches`: some link has the text, and, when a URL is given,
   * one of those links has exactly that `href`. A link without `href` reads
   * as the empty string, so it is found for the URL "".
   */
  function HasLink(eng: Engine, v: View, text: string, url: Option<string>): (r: bool)
    ensures var links := eng.selectLink(CrawlerOf(eng, v), text);
      r <==> |links| > 0 && (url.None? || exists i :: 0 <= i < |links| && PointsTo(links[i], url.value))
  {
    var links := eng.selectLink(CrawlerOf(eng, v), text);
    if |links| == 0 then false
    else if url.None? then true
    else AnyHref(links, url.value)
  }
}
