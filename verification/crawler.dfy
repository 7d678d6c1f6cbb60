/**
 * The session of the fluent `Crawler` class (and its `InteractsWithPage`
 * trait copy): the document of the last page, the stack of scopes `within`
 * pushes (`subCrawlers`), the staged form inputs, the last response and the
 * requests sent so far.
 *
 * Every operation returns the session it leaves behind together with the
 * failure it raised, if any: a PHP exception leaves behind whatever the
 * method had already changed.
 */
module Crawler {
  import opened Outcome
  import opened Strings
  import opened Dom
  import opened Selectors
  import opened Responses

  /** A form as `Crawler::form()` builds it: the form element and the button it was found by. */
  datatype Form = Form(element: Node, button: Option<Node>)

  /**
   * What `selectButton($label)->form()` does: build a form, raise
   * `InvalidArgumentException` because nothing was selected, or raise
   * `LogicException` because the node selected cannot anchor a form.
   */
  datatype ButtonForm = FormOf(form: Form) | NoSuchButton | NodeRejected(message: string)

  datatype Request = Request(verb: string, uri: string, parameters: map<string, string>)

  /** What the client hands back for a request: the parsed document and the response. */
  datatype Page = Page(nodes: seq<Node>, response: Response)

  /**
   * The collaborators of the session: DomCrawler, `selectButton($label)->form()`,
   * `link()->getUri()` of a
   * link node, `setValues` followed by the method, URI and parameters of the
   * form (None when `setValues` refuses the values), and the HTTP client
   * (None when the transport fails).
   */
  datatype Env = Env(
    dom: Engine,
    selectButton: (seq<Node>, string) -> ButtonForm,
    linkUri: Node -> string,
    submit: (Form, map<string, string>) -> Option<Request>,
    fetch: Request -> Option<Page>
  )

  datatype Session = Session(
    page: Option<seq<Node>>,
    scopes: seq<seq<Node>>,
    inputs: map<string, string>,
    response: Option<Response>,
    sent: seq<Request>
  )

  /** The session after an operation, and the failure the operation raised, if any. */
  datatype Step = Step(session: Session, error: Option<Error>)

  /** A newly constructed crawler: no document, no scope, no input, no response. */
  const Start: Session := Session(None, [], map[], None, [])

  /** `crawler()`: the innermost scope when there is one, else the document (if any). */
  function Current(s: Session): (view: Option<seq<Node>>)
    ensures |s.scopes| > 0 ==> view == Some(s.scopes[|s.scopes| - 1])
    ensures |s.scopes| == 0 ==> view == s.page
  {
    if |s.scopes| > 0 then Some(s.scopes[|s.scopes| - 1]) else s.page
  }

  /**
   * `makeRequest`: the page context is reset before the request goes out;
   * the inputs are cleared only once a response has arrived.
   */
  function MakeRequest(env: Env, s: Session, req: Request): (r: Step)
    ensures r.session.scopes == [] && r.session.sent == s.sent + [req]
    ensures r.error.None? <==> env.fetch(req).Some?
    ensures r.error.None? ==> (r.session.inputs == map[]
      && r.session.page == Some(env.fetch(req).value.nodes)
      && r.session.response == Some(env.fetch(req).value.response))
    ensures r.error.Some? ==> (r.error == Some(RequestFailed)
      && r.session.inputs == s.inputs && r.session.page.None? && r.session.response == s.response)
  {
    var reset := s.(page := None, scopes := [], sent := s.sent + [req]);
    match env.fetch(req)
    case None => Step(reset, Some(RequestFailed))
    case Some(p) => Step(reset.(page := Some(p.nodes), response := Some(p.response), inputs := map[]), None)
  }

  /** `visit($uri)`: a GET request without parameters. */
  function Visit(env: Env, s: Session, uri: string): (r: Step)
    ensures r.session.sent == s.sent + [Request("GET", uri, map[])] && r.session.scopes == []
    ensures r.error.None? <==> env.fetch(Request("GET", uri, map[])).Some?
    ensures r.error.None? ==> r.session.page == Some(env.fetch(Request("GET", uri, map[])).value.nodes)
  {
    MakeRequest(env, s, Request("GET", uri, map[]))
  }

  /** `filterByNameOrId($name, $elements)` on the current view. */
  function FilterByNameOrId(env: Env, s: Session, token: string, kinds: seq<Kind>): (r: Result<seq<Node>>)
    ensures Current(s).None? ==> r == Err(NoDocument)
    ensures Current(s).Some? && IsPlainName(FieldName(token)) ==> (r.Ok? &&
      forall m :: m in r.value <==> m in PreorderAll(Current(s).value) && MatchesNameOrId(m, FieldName(token), kinds))
  {
    match Current(s)
    case None => Err(NoDocument)
    case Some(nodes) => SelectNameOrId(env.dom, nodes, token, kinds)
  }

  /** `str_replace(['#', '[]'], '', $element)`: every `#` goes, then every `[]` of what is left. */
  function NormaliseKey(token: string): (key: string)
    ensures '#' !in key
    ensures |key| <= |token|
  {
    RemoveAll(RemoveChar(token, '#'), "[]")
  }

  /**
   * `storeInput`: the field must exist in the current view (any element
   * kind), then the value is staged under the normalised key, replacing any
   * earlier value for that key. A failure leaves the session as it was.
   */
  function StoreInput(env: Env, s: Session, token: string, text: string): (r: Step)
    ensures r.error.Some? ==> r.session == s
    ensures r.error.None? <==> FilterByNameOrId(env, s, token, [AnyElement]).Ok? && |FilterByNameOrId(env, s, token, [AnyElement]).value| > 0
    ensures r.error.None? ==> r.session == s.(inputs := s.inputs[NormaliseKey(token) := text])
    ensures FilterByNameOrId(env, s, token, [AnyElement]) == Ok([]) ==> r.error == Some(NothingMatched(token))
  {
    match FilterByNameOrId(env, s, token, [AnyElement])
    case Err(e) => Step(s, Some(e))
    case Ok(found) =>
      if |found| == 0 then Step(s, Some(NothingMatched(token)))
      else Step(s.(inputs := s.inputs[NormaliseKey(token) := text]), None)
  }

  /** `type($text, $element)`: stage the text under the field's key. */
  function Type(env: Env, s: Session, text: string, element: string): (r: Step)
    ensures r.error.None? <==> Staged(env, s, element)
    ensures r.error.None? ==> NormaliseKey(element) in r.session.inputs && r.session.inputs[NormaliseKey(element)] == text
  {
    StoreInput(env, s, element, text)
  }

  /** `check($element)`: `true` reaches the `string` parameter as "1". */
  function Check(env: Env, s: Session, element: string): (r: Step)
    ensures r.error.None? <==> Staged(env, s, element)
    ensures r.error.None? ==> NormaliseKey(element) in r.session.inputs && r.session.inputs[NormaliseKey(element)] == "1"
  {
    StoreInput(env, s, element, "1")
  }

  /** `uncheck($element)`: `false` reaches the `string` parameter as "". */
  function Uncheck(env: Env, s: Session, element: string): (r: Step)
    ensures r.error.None? <==> Staged(env, s, element)
    ensures r.error.None? ==> NormaliseKey(element) in r.session.inputs && r.session.inputs[NormaliseKey(element)] == ""
  {
    StoreInput(env, s, element, "")
  }

  /** `select($option, $element)`: stage the option under the field's key. */
  function SelectOption(env: Env, s: Session, option: string, element: string): (r: Step)
    ensures r.error.None? <==> Staged(env, s, element)
    ensures r.error.None? ==> NormaliseKey(element) in r.session.inputs && r.session.inputs[NormaliseKey(element)] == option
  {
    StoreInput(env, s, element, option)
  }

  /** `assertFilterProducesResults`: some element of the current view has the token as id or name. */
  predicate Staged(env: Env, s: Session, token: string)
  {
    var found := FilterByNameOrId(env, s, token, [AnyElement]);
    found.Ok? && |found.value| > 0
  }

  /**
   * For a plain name, a field is staged exactly when there is a current
   * view and some element in it carries the name as its id or name.
   */
  lemma StagedMeans(env: Env, s: Session, token: string)
    requires IsPlainName(FieldName(token))
    ensures Staged(env, s, token) <==>
      Current(s).Some? && exists m :: m in PreorderAll(Current(s).value) && MatchesNameOrId(m, FieldName(token), [AnyElement])
  {
    var found := FilterByNameOrId(env, s, token, [AnyElement]);
    if found.Ok? && |found.value| > 0 {
      assert found.value[0] in found.value;
    }
  }

  /** Staging touches the inputs only: the lookups of a later operation see the same view. */
  lemma StagingKeepsView(env: Env, s: Session, token: string, text: string)
    ensures Current(StoreInput(env, s, token, text).session) == Current(s)
    ensures forall t :: Staged(env, StoreInput(env, s, token, text).session, t) <==> Staged(env, s, t)
  {
  }

  /**
   * The last write to a key wins, whichever of the tokens sharing that key
   * was used, and every other key keeps what it held.
   */
  lemma LastWriteWins(env: Env, s: Session, first: string, second: string, a: string, b: string)
    requires Staged(env, s, first) && Staged(env, s, second)
    ensures var r := StoreInput(env, StoreInput(env, s, first, a).session, second, b);
      r.error.None? && r.session.inputs[NormaliseKey(second)] == b
      && (NormaliseKey(first) == NormaliseKey(second) ==> r.session.inputs == s.inputs[NormaliseKey(second) := b])
      && (forall k :: k != NormaliseKey(first) && k != NormaliseKey(second) ==>
            (k in r.session.inputs <==> k in s.inputs) && (k in s.inputs ==> r.session.inputs[k] == s.inputs[k]))
  {
    StoreTwice(env, s, first, second, a, b);
    TwoWrites(s.inputs, NormaliseKey(first), NormaliseKey(second), a, b);
  }

  /** Of two writes to a map, the later wins on its key, and keys written by neither keep their entries. */
  lemma TwoWrites(m: map<string, string>, k1: string, k2: string, a: string, b: string)
    ensures var w := m[k1 := a][k2 := b];
      k2 in w && w[k2] == b
      && (k1 == k2 ==> w == m[k2 := b])
      && (forall k :: k != k1 && k != k2 ==> (k in w <==> k in m) && (k in m ==> w[k] == m[k]))
  {
  }

  /** Two successful stagings, one after the other, write their two keys in that order. */
  lemma StoreTwice(env: Env, s: Session, first: string, second: string, a: string, b: string)
    requires Staged(env, s, first) && Staged(env, s, second)
    ensures StoreInput(env, StoreInput(env, s, first, a).session, second, b)
      == Step(s.(inputs := s.inputs[NormaliseKey(first) := a][NormaliseKey(second) := b]), None)
  {
    StagingKeepsView(env, s, first, a);
  }

  /** `check` then `uncheck` of the same box leaves "" staged for it: the later call wins. */
  lemma CheckThenUncheck(env: Env, s: Session, element: string)
    requires Staged(env, s, element)
    ensures var r := Uncheck(env, Check(env, s, element).session, element);
      r.error.None? && r.session.inputs == s.inputs[NormaliseKey(element) := ""]
  {
    StagingKeepsView(env, s, element, "1");
  }

  /** Removing every `[]` from a text that has none, followed by one `[]`, gives back the text. */
  lemma {:induction false} RemoveAllArraySuffix(base: string)
    requires !Occurs("[]", base)
    ensures RemoveAll(base + "[]", "[]") == base
    decreases |base|
  {
    var s := base + "[]";
    if |base| == 0 {
      assert s[2..] == "";
    } else {
      assert s[0] == base[0];
      if |base| >= 2 {
        assert s[..2] == base[..2];
        assert !OccursAt("[]", base, 0);
      } else {
        assert s[1] == '[';
      }
      assert s[..2] != "[]";
      assert s[1..] == base[1..] + "[]";
      OccursInTail("[]", base);
      RemoveAllArraySuffix(base[1..]);
      assert base == [base[0]] + base[1..];
    }
  }

  /**
   * `tags[]`, `#tags` and `tags` are staged under the same key `tags`, for
   * every name without `#` and without `[]` of its own.
   */
  lemma SharedKeys(base: string)
    requires '#' !in base && !Occurs("[]", base)
    ensures NormaliseKey(base) == base
    ensures NormaliseKey(base + "[]") == base
    ensures NormaliseKey("#" + base) == base
  {
    assert '#' !in base + "[]";
    RemoveAllArraySuffix(base);
    assert RemoveChar("#" + base, '#') == RemoveChar(base, '#') by {
      assert ("#" + base)[1..] == base;
    }
  }

  /** Normalising twice is not normalising once: `[[]]` becomes `[]`, which becomes the empty key. */
  lemma NormaliseKeyNotIdempotent(token: string)
    requires token == "[[]]"
    ensures NormaliseKey(token) == "[]"
    ensures NormaliseKey(NormaliseKey(token)) == ""
    ensures NormaliseKey(NormaliseKey(token)) != NormaliseKey(token)
  {
    assert RemoveChar(token, '#') == token;
    assert token[..2] != "[]";
    assert token[1..][..2] == "[]";
    assert token[1..][2..] == "]";
    assert RemoveAll(token[1..], "[]") == "]";
    assert RemoveAll(token, "[]") == "[]";
    var once := NormaliseKey(token);
    assert RemoveChar(once, '#') == once;
    assert RemoveAll(once, "[]") == RemoveAll(once[2..], "[]");
  }

  /** The session the `within` callback runs in: one more scope on the stack. */
  function Pushed(s: Session, scope: seq<Node>): (p: Session)
    ensures Current(p) == Some(scope)
    ensures p.page == s.page && p.inputs == s.inputs
  {
    s.(scopes := s.scopes + [scope])
  }

  /** `array_pop`: the stack without its last entry; an empty stack stays empty. */
  function PopLast<T>(xs: seq<T>): (r: seq<T>)
    ensures |xs| > 0 ==> xs == r + [xs[|xs| - 1]]
    ensures |xs| == 0 ==> r == []
  {
    if |xs| == 0 then [] else xs[..|xs| - 1]
  }

  /**
   * Pushing a scope and popping it again gives back the stack, and with it
   * the view, that was current before; while pushed, the scope is the view.
   */
  lemma PushPopRestoresView(s: Session, scope: seq<Node>)
    ensures Current(Pushed(s, scope)) == Some(scope)
    ensures PopLast(Pushed(s, scope).scopes) == s.scopes
    ensures Current(s.(scopes := PopLast(Pushed(s, scope).scopes))) == Current(s)
  {
    assert Pushed(s, scope).scopes == s.scopes + [scope];
  }

  /**
   * `within($selector, $callback)`: push the filtered current view, run the
   * callback, pop. There is no `finally`: when the callback raises, nothing
   * is popped.
   */
  function Within(env: Env, s: Session, selector: string, callback: Session -> Step): (r: Step)
    ensures Current(s).None? ==> r == Step(s, Some(NoDocument))
    ensures Current(s).Some? && env.dom.filter(Current(s).value, selector).None? ==>
      r == Step(s, Some(InvalidSelector(selector)))
    ensures Current(s).Some? && env.dom.filter(Current(s).value, selector).Some? ==>
      var inner := callback(Pushed(s, env.dom.filter(Current(s).value, selector).value));
      if inner.error.Some? then r == inner
      else r == Step(inner.session.(scopes := PopLast(inner.session.scopes)), None)
  {
    match Current(s)
    case None => Step(s, Some(NoDocument))
    case Some(nodes) =>
      match Filter(env.dom, nodes, selector)
      case Err(e) => Step(s, Some(e))
      case Ok(scope) =>
        var inner := callback(Pushed(s, scope));
        if inner.error.Some? then inner
        else Step(inner.session.(scopes := PopLast(inner.session.scopes)), None)
  }

  /**
   * When the callback returns normally and leaves the stack as it found it,
   * `within` leaves the stack as it found it.
   */
  lemma WithinRestoresScopes(env: Env, s: Session, selector: string, callback: Session -> Step, scope: seq<Node>)
    requires Current(s).Some? && env.dom.filter(Current(s).value, selector) == Some(scope)
    requires callback(Pushed(s, scope)).error.None?
    requires callback(Pushed(s, scope)).session.scopes == Pushed(s, scope).scopes
    ensures Within(env, s, selector, callback).error.None?
    ensures Within(env, s, selector, callback).session.scopes == s.scopes
  {
    assert Pushed(s, scope).scopes == s.scopes + [scope];
  }

  /**
   * When the callback raises without touching the stack, the scope it ran in
   * stays pushed and remains the current view.
   */
  lemma WithinLeaksScopeOnFailure(env: Env, s: Session, selector: string, callback: Session -> Step, scope: seq<Node>)
    requires Current(s).Some? && env.dom.filter(Current(s).value, selector) == Some(scope)
    requires callback(Pushed(s, scope)).error.Some?
    requires callback(Pushed(s, scope)).session.scopes == Pushed(s, scope).scopes
    ensures Within(env, s, selector, callback).error == callback(Pushed(s, scope)).error
    ensures Within(env, s, selector, callback).session.scopes == s.scopes + [scope]
    ensures Current(Within(env, s, selector, callback).session) == Some(scope)
  {
  }

  /**
   * Typing into a field that exists inside the scope, within `within`,
   * keeps the staged text after `within` returns, and the stack is as it was.
   */
  lemma TypeWithinKeepsInput(env: Env, s: Session, selector: string, element: string, text: string, scope: seq<Node>)
    requires Current(s).Some? && env.dom.filter(Current(s).value, selector) == Some(scope)
    requires Staged(env, Pushed(s, scope), element)
    ensures var r := Within(env, s, selector, (t: Session) => Type(env, t, text, element));
      r.error.None? && r.session.scopes == s.scopes && r.session.page == s.page
      && NormaliseKey(element) in r.session.inputs && r.session.inputs[NormaliseKey(element)] == text
  {
    assert Pushed(s, scope).scopes == s.scopes + [scope];
  }

  /** A sequence with no members is empty. */
  lemma NoMembersMeansEmpty<T>(xs: seq<T>)
    ensures (forall x :: x !in xs) <==> xs == []
  {
    if xs != [] {
      assert xs[0] in xs;
    }
  }

  /**
   * Staging a field inside `within` a selector that matches nothing fails:
   * the lookup runs in the pushed, empty scope. The scope then stays pushed.
   */
  lemma StagingInEmptyScopeFails(env: Env, s: Session, selector: string, token: string, text: string)
    requires Current(s).Some? && env.dom.filter(Current(s).value, selector) == Some([])
    requires IsPlainName(FieldName(token))
    ensures var r := Within(env, s, selector, (t: Session) => StoreInput(env, t, token, text));
      r.error == Some(NothingMatched(token)) && r.session.scopes == s.scopes + [[]]
  {
    var p := Pushed(s, []);
    var found := FilterByNameOrId(env, p, token, [AnyElement]);
    assert PreorderAll([]) == [];
    assert found == Ok([]) by {
      NoMembersMeansEmpty(found.value);
    }
  }

  predicate IsFormElement(n: Node)
  {
    n.Element? && n.tag == "form"
  }

  /**
   * `getForm($label)`: a truthy label selects the form of that button;
   * otherwise the first `form` element of the current view is used. An
   * `InvalidArgumentException` from the lookup is reported as a missing form,
   * naming the label only when it is truthy; a `LogicException` is not caught.
   */
  function GetForm(env: Env, s: Session, buttonText: Option<string>): (r: Result<Form>)
    ensures Current(s).None? ==> r == Err(NoDocument)
    ensures Current(s).Some? && buttonText.Some? && Truthy(buttonText.value) ==>
      match env.selectButton(Current(s).value, buttonText.value)
      case FormOf(f) => r == Ok(f)
      case NoSuchButton => r == Err(FormNotFound(buttonText))
      case NodeRejected(m) => r == Err(NotAFormButton(m))
    ensures Current(s).Some? && !(buttonText.Some? && Truthy(buttonText.value)) ==>
      (r.Ok? <==> exists m :: m in PreorderAll(Current(s).value) && IsFormElement(m))
      && (r.Err? ==> r.error == FormNotFound(None))
      && (r.Ok? ==> r.value.button.None? && IsFormElement(r.value.element)
                    && r.value.element in PreorderAll(Current(s).value))
    ensures Current(s).Some? && !(buttonText.Some? && Truthy(buttonText.value)) && r.Ok? ==>
      exists i :: FirstAt(PreorderAll(Current(s).value), i, IsFormElement)
        && r.value.element == PreorderAll(Current(s).value)[i]
  {
    match Current(s)
    case None => Err(NoDocument)
    case Some(nodes) =>
      if buttonText.Some? && Truthy(buttonText.value) then
        match env.selectButton(nodes, buttonText.value)
        case FormOf(f) => Ok(f)
        case NoSuchButton => Err(FormNotFound(buttonText))
        case NodeRejected(m) => Err(NotAFormButton(m))
      else
        var forms := Select(nodes, IsFormElement);
        WhereHead(PreorderAll(nodes), IsFormElement);
        if |forms| == 0 then Err(FormNotFound(None))
        else
          assert forms[0] in forms;
          Ok(Form(forms[0], None))
  }

  /**
   * Only a lookup that selected nothing is rewrapped as the missing-form
   * `InvalidArgumentException`; a button outside any form escapes as it is.
   */
  lemma OnlyMissingButtonIsRewrapped(env: Env, s: Session, buttonText: string)
    requires Current(s).Some? && Truthy(buttonText)
    ensures var r := GetForm(env, s, Some(buttonText));
      (r.Err? && IsInvalidArgument(r.error) <==> env.selectButton(Current(s).value, buttonText).NoSuchButton?)
      && (r.Err? && !IsInvalidArgument(r.error) <==> env.selectButton(Current(s).value, buttonText).NodeRejected?)
  {
  }

  /** A falsy label ("" or "0") behaves exactly like no label at all. */
  lemma FalsyLabelMeansFirstForm(env: Env, s: Session, buttonText: string)
    requires !Truthy(buttonText)
    ensures GetForm(env, s, Some(buttonText)) == GetForm(env, s, None)
  {
  }

  /** The first argument of `submitForm`: a button label, or anything else (an array of inputs when `values` is present). */
  datatype FormArg = Label(text: string) | NotAString(values: Option<map<string, string>>)

  /** The label `getForm` receives: only a string first argument is one. */
  function LabelOf(arg: FormArg): Option<string>
  {
    if arg.Label? then Some(arg.text) else None
  }

  /** The values given to `setValues`: the second argument, or the first when it is not a string. */
  function ValuesOf(arg: FormArg, inputs: Option<map<string, string>>): Option<map<string, string>>
  {
    if arg.Label? then inputs else arg.values
  }

  /**
   * `fillForm($buttonText, $inputs)`: a first argument that is not a string
   * becomes the inputs and the second argument is dropped; then the form is
   * located and the inputs are set on it. Inputs that are not an array are
   * refused by `setValues`.
   */
  function FillForm(env: Env, s: Session, arg: FormArg, inputs: Option<map<string, string>>): (r: Result<Request>)
    ensures GetForm(env, s, LabelOf(arg)).Err? ==> r == Err(GetForm(env, s, LabelOf(arg)).error)
    ensures GetForm(env, s, LabelOf(arg)).Ok? && ValuesOf(arg, inputs).None? ==> r == Err(InputsNotArray)
    ensures r.Ok? ==> (ValuesOf(arg, inputs).Some? && GetForm(env, s, LabelOf(arg)).Ok?
      && env.submit(GetForm(env, s, LabelOf(arg)).value, ValuesOf(arg, inputs).value) == Some(r.value))
    ensures r == Err(FormRejectsValues) <==> (GetForm(env, s, LabelOf(arg)).Ok? && ValuesOf(arg, inputs).Some?
      && env.submit(GetForm(env, s, LabelOf(arg)).value, ValuesOf(arg, inputs).value).None?)
  {
    var form :- GetForm(env, s, LabelOf(arg));
    match ValuesOf(arg, inputs)
    case None => Err(InputsNotArray)
    case Some(m) =>
      match env.submit(form, m)
      case None => Err(FormRejectsValues)
      case Some(req) => Ok(req)
  }

  /** With a non-string first argument, whatever is passed second plays no part. */
  lemma SecondArgumentDropped(env: Env, s: Session, values: Option<map<string, string>>, a: Option<map<string, string>>, b: Option<map<string, string>>)
    ensures FillForm(env, s, NotAString(values), a) == FillForm(env, s, NotAString(values), b)
  {
  }

  /** `submitForm($buttonText, $inputs)`: fill the form, then send its request. */
  function SubmitForm(env: Env, s: Session, arg: FormArg, inputs: Option<map<string, string>>): (r: Step)
    ensures FillForm(env, s, arg, inputs).Err? ==> r == Step(s, Some(FillForm(env, s, arg, inputs).error))
    ensures FillForm(env, s, arg, inputs).Ok? ==> r == MakeRequest(env, s, FillForm(env, s, arg, inputs).value)
    ensures r.session.sent == s.sent <==> FillForm(env, s, arg, inputs).Err?
    ensures FillForm(env, s, arg, inputs).Err? ==> r.session == s && r.error.Some?
    ensures FillForm(env, s, arg, inputs).Ok? ==>
      r.session.sent == s.sent + [FillForm(env, s, arg, inputs).value] && r.session.scopes == []
    ensures r.error.None? ==> r.session.inputs == map[] && r.session.response.Some?
  {
    match FillForm(env, s, arg, inputs)
    case Err(e) => Step(s, Some(e))
    case Ok(req) => MakeRequest(env, s, req)
  }

  /**
   * The staged inputs play no part in an explicit `submitForm`: two sessions
   * that differ only in their staged inputs send the same request, see the
   * same page and fail alike.
   */
  lemma SubmitIgnoresStagedInputs(env: Env, s: Session, other: map<string, string>, arg: FormArg, inputs: Option<map<string, string>>)
    ensures var r1 := SubmitForm(env, s, arg, inputs);
      var r2 := SubmitForm(env, s.(inputs := other), arg, inputs);
      r1.error == r2.error && r1.session.sent == r2.session.sent && r1.session.page == r2.session.page
  {
    assert Current(s.(inputs := other)) == Current(s);
    assert GetForm(env, s.(inputs := other), None) == GetForm(env, s, None);
    assert forall l :: GetForm(env, s.(inputs := other), Some(l)) == GetForm(env, s, Some(l));
  }

  /** `press($label)`: submit the form of that button with exactly the staged inputs. */
  function Press(env: Env, s: Session, buttonText: string): (r: Step)
    ensures var f := GetForm(env, s, Some(buttonText));
      f.Ok? && env.submit(f.value, s.inputs).Some? ==>
        (r.error.None? <==> env.fetch(env.submit(f.value, s.inputs).value).Some?)
    ensures var f := GetForm(env, s, Some(buttonText));
      f.Ok? && env.submit(f.value, s.inputs).Some? ==>
        r.session.sent == s.sent + [env.submit(f.value, s.inputs).value]
    ensures r.error.None? ==> r.session.inputs == map[]
    ensures GetForm(env, s, Some(buttonText)).Err? ==> r == Step(s, Some(GetForm(env, s, Some(buttonText)).error))
    ensures var f := GetForm(env, s, Some(buttonText));
      f.Ok? && env.submit(f.value, s.inputs).None? ==> r == Step(s, Some(FormRejectsValues))
  {
    SubmitForm(env, s, Label(buttonText), Some(s.inputs))
  }

  /**
   * `click($name)`: links found by their text come first; only when there are
   * none are `a` elements looked up by name or id. With neither, the click
   * fails and nothing is requested.
   */
  function Click(env: Env, s: Session, name: string): (r: Step)
    ensures Current(s).None? ==> r == Step(s, Some(NoDocument))
    ensures Current(s).Some? && |env.dom.selectLink(Current(s).value, name)| > 0 ==>
      r == Visit(env, s, env.linkUri(env.dom.selectLink(Current(s).value, name)[0]))
    ensures r.error == Some(LinkNotFound(name)) ==> r.session == s
    ensures Current(s).Some? && |env.dom.selectLink(Current(s).value, name)| == 0 && IsPlainName(FieldName(name)) ==>
      (r.error == Some(LinkNotFound(name)) <==>
        !exists m :: m in PreorderAll(Current(s).value) && MatchesNameOrId(m, FieldName(name), [Tag("a")]))
    ensures Current(s).Some? && |env.dom.selectLink(Current(s).value, name)| == 0 ==>
      match SelectNameOrId(env.dom, Current(s).value, name, [Tag("a")])
      case Err(e) => r == Step(s, Some(e))
      case Ok(byName) =>
        (|byName| == 0 ==> r == Step(s, Some(LinkNotFound(name))))
        && (|byName| > 0 ==> r == Visit(env, s, env.linkUri(byName[0])))
    ensures (Current(s).Some? && |env.dom.selectLink(Current(s).value, name)| == 0 && IsPlainName(FieldName(name))
             && r.error != Some(LinkNotFound(name))) ==>
      exists i :: FirstAt(PreorderAll(Current(s).value), i, NamedTest(FieldName(name), [Tag("a")]))
        && r == Visit(env, s, env.linkUri(PreorderAll(Current(s).value)[i]))
  {
    match Current(s)
    case None => Step(s, Some(NoDocument))
    case Some(nodes) =>
      var byText := env.dom.selectLink(nodes, name);
      if |byText| > 0 then Visit(env, s, env.linkUri(byText[0]))
      else
        match SelectNameOrId(env.dom, nodes, name, [Tag("a")])
        case Err(e) => Step(s, Some(e))
        case Ok(byName) =>
          if |byName| == 0 then Step(s, Some(LinkNotFound(name)))
          else
            assert byName[0] in byName;
            Visit(env, s, env.linkUri(byName[0]))
  }
}
