/**
 * The `see*`/`dontSee*` surface of `PageAssertions` (and the `$negate`
 * flag variant of the `Crawler` class): every assertion builds one page
 * constraint and evaluates it, or its negation, against the session's
 * current view, falling back to the body of the last response when the
 * session holds no document.
 */
module PageAssertions {
  import opened Outcome
  import opened Dom
  import opened Views
  import opened ContentConstraints
  import opened FieldConstraints
  import opened PageConstraints
  import Crawler

  /**
   * `$this->crawler() ?: $this->getResponse()->getContent()`: a node list is
   * an object and so always truthy, even when empty; without one the body of
   * the last response is used, and without a response there is nothing to
   * call `getContent` on.
   */
  function PageView(s: Crawler.Session): (r: Result<View>)
    ensures Crawler.Current(s).Some? ==> r == Ok(Nodes(Crawler.Current(s).value))
    ensures Crawler.Current(s).None? && s.response.Some? ==> r == Ok(Raw(s.response.value.content))
    ensures r.Err? <==> Crawler.Current(s).None? && s.response.None?
    ensures r.Err? ==> r.error == NoResponse
  {
    match Crawler.Current(s)
    case Some(nodes) => Ok(Nodes(nodes))
    case None =>
      match s.response
      case Some(resp) => Ok(Raw(resp.content))
      case None => Err(NoResponse)
  }

  /** `assertInPage($constraint)`: the constraint's verdict on the page view. */
  function AssertInPage(env: Crawler.Env, s: Crawler.Session, c: Constraint): (r: Result<bool>)
    ensures PageView(s).Err? ==> r == Err(NoResponse)
    ensures PageView(s).Ok? ==> r == Matches(env.dom, c, PageView(s).value)
  {
    var v :- PageView(s);
    Matches(env.dom, c, v)
  }

  /** `assertNotInPage($constraint)`: `assertInPage` of the negated constraint. */
  function AssertNotInPage(env: Crawler.Env, s: Crawler.Session, c: Constraint): (r: Result<bool>)
    ensures r.Ok? <==> AssertInPage(env, s, c).Ok?
    ensures r.Ok? ==> r.value == !AssertInPage(env, s, c).value
    ensures r.Err? ==> r.error == AssertInPage(env, s, c).error
  {
    match PageView(s)
    case Ok(v) =>
      ReverseComplements(env.dom, c, v);
      AssertInPage(env, s, Reverse(c))
    case Err(_) => AssertInPage(env, s, Reverse(c))
  }

  /** The arguments of one `seeX` call, defaults already applied. */
  datatype Expectation =
    | See(text: string)
    | SeeText(text: string)
    | SeeElement(selector: string, attributes: seq<AttrEntry>)
    | SeeInElement(element: string, text: string)
    | SeeLink(linkText: string, url: Option<string>)
    | SeeInField(field: string, expected: string)
    | SeeIsSelected(choice: string, value: string)
    | SeeIsChecked(checkbox: string)

  /** The constraint `seeX` and `dontSeeX` both build from the same arguments. */
  function ConstraintOf(e: Expectation): (c: Constraint)
    ensures !c.Reverse?
    ensures e.See? ==> c == HasSourceC(e.text)
    ensures e.SeeText? ==> c == HasTextC(e.text)
    ensures e.SeeElement? ==> c == HasElementC(e.selector, e.attributes)
    ensures e.SeeInElement? ==> c == HasInElementC(e.element, e.text)
    ensures e.SeeLink? ==> c == HasLinkC(e.linkText, e.url)
    ensures e.SeeInField? ==> c == HasValueC(e.field, e.expected)
    ensures e.SeeIsSelected? ==> c == IsSelectedC(e.choice, e.value)
    ensures e.SeeIsChecked? ==> c == IsCheckedC(e.checkbox)
  {
    match e
    case See(text) => HasSourceC(text)
    case SeeText(text) => HasTextC(text)
    case SeeElement(selector, attributes) => HasElementC(selector, attributes)
    case SeeInElement(element, text) => HasInElementC(element, text)
    case SeeLink(text, url) => HasLinkC(text, url)
    case SeeInField(field, expected) => HasValueC(field, expected)
    case SeeIsSelected(choice, value) => IsSelectedC(choice, value)
    case SeeIsChecked(checkbox) => IsCheckedC(checkbox)
  }

  /** `seeLink($text)`: the URL defaults to null. */
  function SeeLinkText(text: string): (e: Expectation)
    ensures ConstraintOf(e) == HasLinkC(text, None)
  {
    SeeLink(text, None)
  }

  /** `seeElement($selector)`: the attribute list defaults to empty. */
  function SeeElementOnly(selector: string): (e: Expectation)
    ensures ConstraintOf(e) == HasElementC(selector, [])
  {
    SeeElement(selector, [])
  }

  /** `seeX(...)`. */
  function Sees(env: Crawler.Env, s: Crawler.Session, e: Expectation): (r: Result<bool>)
    ensures PageView(s).Err? ==> r == Err(NoResponse)
    ensures r.Err? ==> r.error == NoResponse || ConstraintFailure(r.error)
    ensures e.SeeLink? && PageView(s).Ok? ==> r.Ok?
  {
    AssertInPage(env, s, ConstraintOf(e))
  }

  /** `dontSeeX(...)`. */
  function DontSees(env: Crawler.Env, s: Crawler.Session, e: Expectation): (r: Result<bool>)
    ensures PageView(s).Err? ==> r == Err(NoResponse)
    ensures r.Err? ==> r.error == NoResponse || ConstraintFailure(r.error)
    ensures e.SeeLink? && PageView(s).Ok? ==> r.Ok?
  {
    AssertNotInPage(env, s, ConstraintOf(e))
  }

  /**
   * On a page, `see` searches the HTML source of the view and `seeText` its
   * visible text.
   */
  lemma SeeAndSeeTextOnPage(env: Crawler.Env, s: Crawler.Session, text: string)
    requires PageView(s).Ok?
    ensures Sees(env, s, See(text)) == HasSource(PageView(s).value, text)
    ensures Sees(env, s, SeeText(text)) == HasText(env.dom, PageView(s).value, text)
  {
    SeesIsMatchesBase(env, s, See(text), HasSourceC(text));
    SeesIsMatchesBase(env, s, SeeText(text), HasTextC(text));
  }

  /**
   * On a page, `seeElement` and `seeInElement` run the selector over the
   * view, and `seeLink` looks the link up by its text.
   */
  lemma SeeElementsOnPage(env: Crawler.Env, s: Crawler.Session, selector: string, attributes: seq<AttrEntry>,
                          text: string, url: Option<string>)
    requires PageView(s).Ok?
    ensures Sees(env, s, SeeElement(selector, attributes)) == HasElement(env.dom, PageView(s).value, selector, attributes)
    ensures Sees(env, s, SeeInElement(selector, text)) == HasInElement(env.dom, PageView(s).value, selector, text)
    ensures Sees(env, s, SeeLink(text, url)) == Ok(HasLink(env.dom, PageView(s).value, text, url))
  {
    SeesIsMatchesBase(env, s, SeeElement(selector, attributes), HasElementC(selector, attributes));
    SeesIsMatchesBase(env, s, SeeInElement(selector, text), HasInElementC(selector, text));
    SeesIsMatchesBase(env, s, SeeLink(text, url), HasLinkC(text, url));
  }

  /** On a page, `seeInField` compares the value of the field. */
  lemma SeeInFieldOnPage(env: Crawler.Env, s: Crawler.Session, field: string, value: string)
    requires PageView(s).Ok?
    ensures Sees(env, s, SeeInField(field, value)) == HasValue(env.dom, PageView(s).value, field, value)
  {
    SeesIsMatchesBase(env, s, SeeInField(field, value), HasValueC(field, value));
  }

  /** On a page, `seeIsSelected` looks for the value among the selected ones. */
  lemma SeeIsSelectedOnPage(env: Crawler.Env, s: Crawler.Session, choice: string, value: string)
    requires PageView(s).Ok?
    ensures Sees(env, s, SeeIsSelected(choice, value)) == IsSelected(env.dom, PageView(s).value, choice, value)
  {
    SeesIsMatchesBase(env, s, SeeIsSelected(choice, value), IsSelectedC(choice, value));
  }

  /** On a page, `seeIsChecked` reads the checkbox. */
  lemma SeeIsCheckedOnPage(env: Crawler.Env, s: Crawler.Session, checkbox: string)
    requires PageView(s).Ok?
    ensures Sees(env, s, SeeIsChecked(checkbox)) == IsChecked(env.dom, PageView(s).value, checkbox)
  {
    SeesIsMatchesBase(env, s, SeeIsChecked(checkbox), IsCheckedC(checkbox));
  }

  /** On a page, `seeX` is the base constraint it builds, judged on the page view. */
  lemma SeesIsMatchesBase(env: Crawler.Env, s: Crawler.Session, e: Expectation, c: Constraint)
    requires PageView(s).Ok? && ConstraintOf(e) == c
    ensures Sees(env, s, e) == MatchesBase(env.dom, c, PageView(s).value)
  {
  }

  /**
   * Every `dontSeeX` is the negation of `seeX` with the same arguments: they
   * return together, with opposite answers, and raise together, alike.
   */
  lemma {:induction false} DontSeeComplementsSee(env: Crawler.Env, s: Crawler.Session, e: Expectation)
    ensures DontSees(env, s, e).Ok? <==> Sees(env, s, e).Ok?
    ensures Sees(env, s, e).Ok? ==> DontSees(env, s, e).value == !Sees(env, s, e).value
    ensures Sees(env, s, e).Err? ==> DontSees(env, s, e).error == Sees(env, s, e).error
  {
  }

  /** When both return, exactly one of `seeX` and `dontSeeX` holds. */
  lemma ExactlyOneHolds(env: Crawler.Env, s: Crawler.Session, e: Expectation)
    requires Sees(env, s, e).Ok?
    ensures Sees(env, s, e) == Ok(true) <==> DontSees(env, s, e) == Ok(false)
    ensures Sees(env, s, e) == Ok(false) <==> DontSees(env, s, e) == Ok(true)
  {
    DontSeeComplementsSee(env, s, e);
  }

  /**
   * `seeLink($text)` holds exactly when some link is selected by the text;
   * it never raises once there is a page to look at.
   */
  lemma SeeLinkWithoutUrl(env: Crawler.Env, s: Crawler.Session, text: string)
    requires PageView(s).Ok?
    ensures Sees(env, s, SeeLinkText(text))
      == Ok(|env.dom.selectLink(CrawlerOf(env.dom, PageView(s).value), text)| > 0)
  {
  }

  /** `seeElement($selector)` holds exactly when the selector finds some element. */
  lemma SeeElementWithoutAttributes(env: Crawler.Env, s: Crawler.Session, selector: string)
    requires PageView(s).Ok?
    requires env.dom.filter(CrawlerOf(env.dom, PageView(s).value), selector).Some?
    ensures Sees(env, s, SeeElementOnly(selector))
      == Ok(|env.dom.filter(CrawlerOf(env.dom, PageView(s).value), selector).value| > 0)
  {
    HasElementNoAttributes(env.dom, PageView(s).value, selector);
  }

  /** A missing form field makes `seeInField` and `dontSeeInField` raise rather than answer. */
  lemma MissingFieldRaises(env: Crawler.Env, s: Crawler.Session, field: string, expected: string)
    requires PageView(s).Ok?
    requires Field(env.dom, CrawlerOf(env.dom, PageView(s).value), field, ValueKinds).Err?
    ensures Sees(env, s, SeeInField(field, expected)).Err?
    ensures DontSees(env, s, SeeInField(field, expected)).Err?
  {
    DontSeeComplementsSee(env, s, SeeInField(field, expected));
  }

  /**
   * `$crawler->see($text, $negate)` and its siblings in the `Crawler` class:
   * the flag wraps the constraint in the negation.
   */
  function CrawlerAssertInPage(env: Crawler.Env, s: Crawler.Session, c: Constraint, negate: bool): (r: Result<bool>)
    ensures !negate ==> r == AssertInPage(env, s, c)
    ensures negate ==> r == AssertNotInPage(env, s, c)
  {
    AssertInPage(env, s, if negate then Reverse(c) else c)
  }

  /**
   * The class and the trait agree: `see($text, true)` is `dontSee($text)`
   * and both complement `see($text)`.
   */
  lemma CrawlerNegateFlag(env: Crawler.Env, s: Crawler.Session, e: Expectation)
    requires e.See? || e.SeeText? || e.SeeElement?
    ensures CrawlerAssertInPage(env, s, ConstraintOf(e), false) == Sees(env, s, e)
    ensures CrawlerAssertInPage(env, s, ConstraintOf(e), true) == DontSees(env, s, e)
    ensures CrawlerAssertInPage(env, s, ConstraintOf(e), false).Ok? ==>
      CrawlerAssertInPage(env, s, ConstraintOf(e), true).value == !CrawlerAssertInPage(env, s, ConstraintOf(e), false).value
  {
  }

  /**
   * The page view follows the session's page, scopes and last response
   * only: staged inputs and the requests sent so far play no part, and
   * inside `within` it is the pushed scope.
   */
  lemma PageViewFollowsSession(s: Crawler.Session, inputs: map<string, string>, sent: seq<Crawler.Request>, scope: seq<Node>)
    ensures PageView(s.(inputs := inputs, sent := sent)) == PageView(s)
    ensures PageView(Crawler.Pushed(s, scope)) == Ok(Nodes(scope))
  {
  }

  /**
   * After a request that got a response, every assertion reads the fetched
   * document, and so answers as the constraint does on those nodes.
   */
  lemma AssertInPageAfterRequest(env: Crawler.Env, s: Crawler.Session, req: Crawler.Request, c: Constraint)
    requires env.fetch(req).Some?
    ensures var t := Crawler.MakeRequest(env, s, req).session;
      AssertInPage(env, t, c) == Matches(env.dom, c, Nodes(env.fetch(req).value.nodes))
  {
  }

  /**
   * A session whose last request failed holds no document: its assertions
   * read the body of the response before it, if there was one.
   */
  lemma FailedRequestFallsBack(env: Crawler.Env, s: Crawler.Session, req: Crawler.Request)
    requires env.fetch(req).None?
    ensures var t := Crawler.MakeRequest(env, s, req).session;
      PageView(t) == (if s.response.Some? then Ok(Raw(s.response.value.content)) else Err(NoResponse))
  {
  }
}
