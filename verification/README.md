# fluent-crawler, modelled in Dafny

This project models the core of **fluent-crawler**, a PHP library that wraps
Symfony's DomCrawler and a Goutte HTTP client in a fluent, Laravel-style
testing interface. It covers four parts:

- **Session.** The `Crawler` class and its `InteractsWithPage` trait copy hold
  three things: the document of the last page, a stack of scopes that `within`
  pushes, and a map of form inputs staged by `type`, `check`, `uncheck` and
  `select`. `press`, `submitForm`, `click` and `visit` send requests.
- **Name-or-id selector.** `filterByNameOrId` and `getElements` build a CSS
  selector group from a field token. Each element kind contributes
  `{kind}#{id}, {kind}[name='{name}']`, using ID selectors (section 6.5 of
  Selectors Level 3), attribute selectors (section 6.3) and selector groups
  (section 5).
- **Page constraints.** `HasSource`, `HasText`, `HasElement`, `HasInElement`,
  `HasLink`, `HasValue`, `IsChecked` and `IsSelected` are predicates over a
  view. `ReversePageConstraint` is the single negation. The `see*`/`dontSee*`
  assertions are built from these.
- **Response predicates.** `isOk`, `isStatusCode`, `hasHeader` and `hasCookie`.

Each operation is a pure function.

- The session is an immutable record.
- Every session operation returns the session it leaves behind together with
  the failure it raised, if any. So the partial changes a PHP exception leaves
  behind are visible. For example, the scope `within` pushed stays pushed when
  the callback throws.
- Failures that PHP throws are `Outcome.Error` values. These cover
  `InvalidArgumentException`, a CSS parse error, the TypeError of a `: string`
  function returning null, a method call on a missing document, and the
  `LogicException` of a form built from a button outside any form.
- DomCrawler's general CSS engine, `selectLink`, `selectButton()->form()` (which builds a form, selects nothing, or finds a node that cannot anchor a form),
  `Form::setValues` with method/URI/parameter extraction, link URI
  resolution, HTML parsing, `strip_tags` and the HTTP client are collaborators.
  They are passed in as function-typed fields of `Dom.Engine` and
  `Crawler.Env`.
- The selectors the library builds itself are evaluated concretely. This
  covers the name-or-id group for plain names and `form`, as a
  descendant-or-self search in document order over a small DOM datatype.

Where the code and its documentation disagree, the model follows the code:

- `press` submits exactly the staged inputs, and `submitForm` submits exactly
  its explicit inputs. Nothing is merged.
- `within` has no `finally`. When the callback throws, nothing is popped.
- A response body handed to a constraint as a string is parsed for the
  element-level constraints. It is not refused.
- The input key loses every `#` and every `[]`, not only a leading `#` and a
  trailing `[]`.

Modules:

| file | module | contents |
|---|---|---|
| `outcome.dfy` | `Outcome` | `Option`, `Result`, the failures |
| `strings.dfy` | `Strings` | `str_replace`, `implode`, ASCII case folding, truthiness, `is_numeric` |
| `entities.dfy` | `Entities` | `htmlspecialchars(ENT_QUOTES, double_encode: false)` |
| `patterns.dfy` | `Patterns` | `preg_quote` with the `/` delimiter, `getEscapedPattern` |
| `dom.dfy` | `Dom` | nodes, attributes, document order, `html()`, collaborators |
| `selectors.dfy` | `Selectors` | the name-or-id selector group |
| `views.dfy` | `Views` | `PageConstraint::html`/`text`/`crawler` |
| `content.dfy` | `ContentConstraints` | `HasSource`, `HasText`, `HasElement`, `HasInElement`, `HasLink` |
| `fields.dfy` | `FieldConstraints` | `FormFieldConstraint`, `HasValue`, `IsChecked`, `IsSelected` |
| `constraint.dfy` | `PageConstraints` | the constraint family and `ReversePageConstraint` |
| `responses.dfy` | `Responses` | the response predicates over one response |
| `crawler.dfy` | `Crawler` | the session: `Crawler.php` and `InteractsWithPage` |
| `response_assertions.dfy` | `ResponseAssertions` | `ResponseAssertions` over the session |
| `assertions.dfy` | `PageAssertions` | `see*`/`dontSee*`, `assertInPage`, `assertNotInPage` |

## Model

| member | source | states |
|---|---|---|
| Selectors.FieldName | src/Crawler.php:343 | the name has no `#` and keeps every other character of the token, with its multiplicity; Strings.RemoveCharAppend states that their order is kept |
| Selectors.Identifier | src/Crawler.php:344 | every `[` and `]` gets a backslash and nothing else changes; the id reads back, under CSS backslash-unescaping, as the name |
| Selectors.TwoPassesEscapeBrackets | src/Constraints/FormFieldConstraint.php:40 | replacing `[` everywhere, then `]` everywhere, equals escaping each bracket in one left-to-right pass |
| Selectors.UnescapeEscapeBrackets | src/Constraints/FormFieldConstraint.php:40 | CSS unescaping inverts bracket escaping on any text without a backslash |
| Selectors.Alternatives | src/Constraints/FormFieldConstraint.php:42-47 | one alternative per element kind, in the order of the kinds |
| Selectors.SelectNameOrId | src/Crawler.php:341-352 | for a plain name, the filter returns exactly the elements of the view, descendants included, whose kind is listed and whose id or name is the name, headed by the first of them in document order |
| Selectors.SelectorIgnoresHashes | src/Crawler.php:343-348 | `#name` and `name` build the same selector group |
| Selectors.PlainTokenSelector | src/Constraints/FormFieldConstraint.php:44 | a token without `#` or brackets appears verbatim in both the id and the name half of every alternative |
| Selectors.EscapeBracketsAppend | src/Crawler.php:344 | escaping brackets distributes over concatenation |
| Selectors.ArrayIdentifier | src/Crawler.php:344 | the id of `base[]` is `base\[\]` |
| Selectors.ArrayTokenSelector | src/Crawler.php:348 | for `base[]` the id half escapes both brackets and the name half keeps them |
| Strings.RemoveChar | src/Crawler.php:318 | removing a character leaves none of it, keeps every other character with its multiplicity, and changes nothing when the character is absent |
| Strings.RemoveAll | src/Crawler.php:318 | the one-pass `[]` removal never lengthens, never introduces characters, and changes nothing when `[]` does not occur |
| Strings.RemoveCharAppend | src/Crawler.php:318 | removing a character distributes over concatenation, so the kept characters stay in their order |
| Strings.RemoveCharOne | src/Crawler.php:318 | a single character is dropped when it is the one removed and kept otherwise |
| Strings.RemoveAllPatternFirst | src/Crawler.php:318 | an occurrence of the pattern at the front is removed and the scan resumes after it |
| Strings.RemoveAllKeepsPrefix | src/Crawler.php:318 | a prefix where no occurrence starts is kept as it is, in front of the removal applied to the rest |
| Strings.Lower | src/Constraints/HasSource.php:22 | the `/i` flag folds ASCII case character by character |
| Strings.Run | src/Constraints/HasElement.php:45 | the digit/space scanner behind `is_numeric` stops at the first character outside its class |
| Strings.RunIs | src/Constraints/HasElement.php:45 | the scanner's length is determined by the first character outside its class |
| Strings.RunAll | src/Constraints/HasElement.php:45 | the scanner covers a string whose every character is in its class |
| Strings.DigitsAreNumeric | src/Constraints/HasElement.php:45 | a non-empty string of digits is numeric, so a list entry with key "0" asks only for presence |
| Strings.LetterIsNotNumeric | src/Constraints/HasElement.php:45 | a key starting with a letter is not numeric, so it asks for an exact value |
| Strings.DigitsThenSpaceNotNumeric | src/Constraints/HasElement.php:45 | `is_numeric` as of PHP 7 allows leading whitespace only: digits followed by a space are not numeric |
| Entities.EntityLength | src/Constraints/PageConstraint.php:34-37 | a recognised entity starts with `&`, ends with `;`, and contains no other `&` and no character that must be escaped |
| Entities.EntityStable | src/Constraints/PageConstraint.php:36 | an entity is recognised whatever follows it |
| Entities.Escape | src/Constraints/PageConstraint.php:34-37 | the escaped text contains none of `< > " '` |
| Entities.DecodeEscape | src/Constraints/PageConstraint.php:34-37 | decoding the five entities after escaping gives what decoding gives before: each of `& " ' < >` becomes the entity that stands for it, and existing entities are kept |
| Entities.DecodeEscapePlain | src/Constraints/PageConstraint.php:34-37 | a text without `&` is given back exactly by decoding its escaped form |
| Entities.NoEscapingIsFixed | src/Constraints/PageConstraint.php:31 | a text that needs no escaping is left unchanged by escaping |
| Entities.EscapeIdempotent | src/Constraints/PageConstraint.php:36 | without double encoding, escaping twice equals escaping once |
| Entities.EscapeLength | src/Constraints/PageConstraint.php:36 | escaping never shortens, and keeps the length only when nothing needs escaping |
| Entities.EscapeFixpoint | src/Constraints/PageConstraint.php:31 | a text equals its escaped form exactly when it needs no escaping |
| Entities.EscapeEntityPrefix | src/Constraints/PageConstraint.php:36 | an existing entity is copied through unchanged |
| Entities.NeedsNoEscapingSuffix | src/Constraints/PageConstraint.php:31 | every suffix of a text that needs no escaping needs none either |
| Patterns.PregQuote | src/Constraints/PageConstraint.php:28 | quoting never shortens, and keeps the text as it is exactly when it holds no metacharacter, `/` or NUL |
| Patterns.ReadLiteral | src/Constraints/PageConstraint.php:28-29 | a pattern starting with an unescaped operator is not literal text, and a literal reading is never longer than the pattern |
| Patterns.ReadPregQuote | src/Constraints/PageConstraint.php:28-29 | a quoted pattern is literal text under PCRE's escape rules, with no operator left unescaped, and it reads back as the text itself |
| Patterns.UnquotedOperatorIsNotLiteral | src/Constraints/PageConstraint.php:28-29 | an operator left unescaped makes a pattern non-literal, which is why every operator must be quoted |
| Patterns.PregQuoteInjective | src/Constraints/PageConstraint.php:31 | quoted patterns are equal only when the texts are equal |
| Patterns.EscapedPattern | src/Constraints/PageConstraint.php:26-32 | the pattern is the quoted text alone when it equals its escaped form, otherwise the alternation of both quoted forms |
| Patterns.Alternatives | src/Constraints/PageConstraint.php:31 | the pattern accepts the text and its escaped form, nothing else, and one alternative only when they coincide |
| Patterns.FoundIff | src/Constraints/HasSource.php:20-22 | a search succeeds exactly when the subject contains the text or its escaped form, ignoring ASCII case |
| Patterns.FoundPlain | src/Constraints/HasText.php:20-22 | for text that needs no escaping, the search is a plain case-insensitive containment |
| Dom.Lookup | src/Constraints/HasElement.php:46-49 | an attribute is found exactly when the element carries one of that name, and the value found is that of the first attribute of that name |
| Dom.AbsentAndEmptyAttributesAgree | src/Constraints/HasLink.php:41 | `getAttribute` cannot tell an absent attribute from an empty one, and a non-empty result is the attribute's own value |
| Dom.Where | src/Constraints/HasElement.php:35-37 | a filtered node list holds exactly the nodes that pass |
| Dom.WhereHead | src/Crawler.php:299 | the first node that passes heads the filtered list |
| Dom.FirstAtUnique | src/Crawler.php:299 | there is at most one first node that passes |
| Dom.FirstAtExists | src/Crawler.php:299 | a first passing node exists exactly when some node passes |
| Views.FirstNodeDecides | src/Constraints/PageConstraint.php:11-19 | `html` and `text` read the first node only: the nodes after it change neither |
| Views.ViewsFailTogether | src/Constraints/PageConstraint.php:11-19 | `html` and `text` fail together, on an empty node list only, and the text of a raw body is its HTML stripped |
| ContentConstraints.HasSource | src/Constraints/HasSource.php:18-23 | true exactly when the view's HTML contains the source or its escaped form, ignoring ASCII case; fails only on an empty node list |
| ContentConstraints.HasText | src/Constraints/HasText.php:18-23 | true exactly when the view's text contains the text or its escaped form, ignoring ASCII case; fails only on an empty node list |
| ContentConstraints.HasAttributes | src/Constraints/HasElement.php:42-55 | the entry-by-entry scan holds exactly when every entry holds; a numeric key asks for presence, any other key for the exact value |
| ContentConstraints.AnyHasAttributes | src/Constraints/HasElement.php:35-39 | the reduction is non-empty exactly when some element meets every entry |
| ContentConstraints.HasElement | src/Constraints/HasElement.php:23-40 | fails exactly when the selector cannot be parsed; otherwise true exactly when some selected element meets every entry |
| ContentConstraints.HasElementMonotone | src/Constraints/HasElement.php:44-54 | adding attribute entries can turn a match into a miss, never the reverse |
| ContentConstraints.HasElementNoAttributes | src/Constraints/HasElement.php:27-33 | with no entries the answer is whether the selector found anything |
| ContentConstraints.AnyMentions | src/Constraints/HasInElement.php:29-37 | the loop succeeds exactly when some element's own inner HTML contains the text or its escaped form |
| ContentConstraints.HasInElement | src/Constraints/HasInElement.php:23-38 | fails exactly when the selector cannot be parsed; otherwise true exactly when some selected element's inner HTML mentions the text |
| ContentConstraints.AnyHref | src/Constraints/HasLink.php:40-48 | the loop succeeds exactly when some link's `getAttribute('href')` is the URL verbatim |
| ContentConstraints.HasLink | src/Constraints/HasLink.php:25-49 | true exactly when some link has the text and, for a given URL, one of those links has exactly that href; a link without href matches the URL "" |
| FieldConstraints.KindTexts | src/Constraints/FormFieldConstraint.php:32 | one text per element kind, in order, for the error message |
| FieldConstraints.Field | src/Constraints/FormFieldConstraint.php:22-35 | the lookup returns a non-empty list or fails naming the kinds and the selector; for plain names it succeeds exactly when a matching field exists, returns exactly the matching fields, and is headed by the first of them in document order |
| FieldConstraints.InputOrTextAreaValue | src/Constraints/HasValue.php:20-25 | an input gives its `value` attribute and fails when it has none; anything else gives its text |
| FieldConstraints.HasValue | src/Constraints/HasValue.php:13-30 | only inputs and textareas are looked up; a missing field fails; a found field fails only when it is an input without `value`, and otherwise answers: an input compares its value attribute, a textarea its text, exactly |
| FieldConstraints.HasValueFirstField | src/Constraints/HasValue.php:13-30 | for a plain name, true exactly when the first matching input or textarea in document order has the expected value, and a failure exactly when there is none or it is an input without `value` |
| FieldConstraints.IsCheckedFirstCheckbox | src/Constraints/IsChecked.php:16-26 | for a plain name, the answer is whether the first checkbox in document order with that name or id carries `checked`, and it fails exactly when there is none |
| FieldConstraints.SelectedOptions | src/Constraints/IsSelected.php:38-55 | an option is selected exactly when some child of the select contributes it: a chosen child itself, or a chosen child of an optgroup |
| FieldConstraints.OptionValue | src/Constraints/IsSelected.php:57-64 | an option with a `value` attribute, even an empty one, is selected by that value; one without is selected by its text |
| FieldConstraints.FirstTickedShift | src/Constraints/IsSelected.php:68-72 | past an unticked head, the first ticked radio of the rest is the first ticked radio of the group |
| FieldConstraints.CheckedValue | src/Constraints/IsSelected.php:66-75 | none exactly when no radio is checked; otherwise the value of the first checked radio |
| FieldConstraints.SelectedValue | src/Constraints/IsSelected.php:21-28 | a select gives the values of its selected options; anything else gives the radio group's checked value |
| FieldConstraints.IsSelected | src/Constraints/IsSelected.php:14-19 | fails exactly when no select or radio has the name or id; otherwise strict membership of the value among the selected values |
| FieldConstraints.NoneCheckedSelectsNothing | src/Constraints/IsSelected.php:18 | a radio group with nothing checked selects no value at all |
| PageConstraints.MatchesBase | src/Constraints/HasLink.php:25-49 | `HasLink` never fails, and every other constraint fails only for a reason of its own: an empty node list, a refused selector, a missing field or an input without a value |
| PageConstraints.RawBodyIsParsed | src/Constraints/PageConstraint.php:21-24 | the element-level constraints answer on a response body given as a string exactly as on the document parsed from it |
| PageConstraints.Matches | src/Constraints/ReversePageConstraint.php:15-18 | matching, negations included, never fails for a reason outside the constraints themselves |
| PageConstraints.ReverseComplements | src/Constraints/ReversePageConstraint.php:15-18 | the negation returns exactly when the constraint returns, with the opposite answer, and fails exactly as it fails |
| PageConstraints.DoubleNegation | src/Constraints/ReversePageConstraint.php:17 | negating twice gives the constraint's own outcome on every view |
| Responses.StatusCodeDetermined | src/Concerns/ResponseAssertions.php:23-26 | `isStatusCode` holds for the response's own status and for no other code |
| Responses.IsOkMeans200 | src/Concerns/ResponseAssertions.php:12-26 | `isOk` is strict equality of the status with 200 |
| Responses.FalsyHeaderUnseen | src/Concerns/ResponseAssertions.php:40-46 | an absent, empty or "0" header is never seen, whatever value is asked for |
| Responses.HeaderZeroNeverMatches | src/Concerns/ResponseAssertions.php:42-43 | asking for the value "0" or "" never succeeds |
| Responses.HeaderPresence | src/Concerns/ResponseAssertions.php:42-43 | a header is seen without a value exactly when it is seen with some value, and that value is its own |
| Responses.EmptyCookieSeen | src/Concerns/ResponseAssertions.php:65-66 | unlike a header, a cookie with an empty or "0" value is seen |
| Responses.CookiePresence | src/Concerns/ResponseAssertions.php:56-70 | a cookie is seen exactly when present, and with a value exactly when that is its value |
| Responses.ETagCases | tests/Concerns/ResponseAssertionsTest.php:38-60 | with an E-Tag header only, the E-Tag is seen with its value, not with another, and Cache-Control is not seen |
| Responses.FooBarCookieCases | tests/Concerns/ResponseAssertionsTest.php:38-185 | with only cookie foo=bar, foo is seen with bar and not with another value, and baz is not seen |
| ResponseAssertions.IsStatusCode | src/Concerns/ResponseAssertions.php:23-26 | raises before any response has arrived; otherwise compares the last response's status |
| ResponseAssertions.IsOk | src/Concerns/ResponseAssertions.php:12-15 | `isOk()` is `isStatusCode(200)`, raising alike |
| ResponseAssertions.HasHeader | src/Concerns/ResponseAssertions.php:35-47 | raises before any response has arrived; otherwise the header test on the last response |
| ResponseAssertions.HasCookie | src/Concerns/ResponseAssertions.php:56-70 | raises before any request has been sent; otherwise the cookie test on the last response, false when no response ever arrived |
| ResponseAssertions.NothingBeforeFirstRequest | src/Concerns/ResponseAssertions.php:25-61 | on a newly constructed crawler every response assertion raises |
| ResponseAssertions.AnswersFollowLastResponse | src/Crawler.php:257-266 | after a request that got a response, every response assertion answers on that response |
| ResponseAssertions.FailedRequestKeepsResponse | src/Crawler.php:257-266 | a failed request leaves status and header assertions answering as before it |
| Crawler.PushPopRestoresView | src/Crawler.php:155-164 | pushing a scope makes it the view; popping it gives back the stack, and the view, current before |
| Crawler.MakeRequest | src/Crawler.php:257-266 | the scope stack is emptied and the request sent; the inputs are emptied and the page set only when a response arrives; a failed request keeps the inputs and leaves no document |
| Crawler.Visit | src/Crawler.php:47-50 | a visit sends one GET request without parameters, empties the scope stack, and holds the fetched page exactly when the request succeeds |
| Crawler.FilterByNameOrId | src/Crawler.php:341-352 | without a document the lookup fails; for plain names it returns exactly the matching elements of the current view |
| Crawler.NormaliseKey | src/Crawler.php:318 | the key has no `#` and is never longer than the token; which `[]` go is stated by Strings.RemoveAllPatternFirst and Strings.RemoveAllKeepsPrefix |
| Crawler.StoreInput | src/Crawler.php:314-323 | staging succeeds exactly when the lookup finds a field, then writes the text under the normalised key; a failure leaves the session unchanged |
| Crawler.StagedMeans | src/Crawler.php:332-339 | for a plain name, the filter produces results exactly when there is a view and some element in it has the name as id or name |
| Crawler.Type | src/Concerns/InteractsWithPage.php:74-77 | staging succeeds exactly when the field exists, and stages the text under its key |
| Crawler.Check | src/Concerns/InteractsWithPage.php:85-88 | stages "1", the string `true` becomes, under the field's key |
| Crawler.Uncheck | src/Concerns/InteractsWithPage.php:96-99 | stages "", the string `false` becomes, under the field's key |
| Crawler.SelectOption | src/Concerns/InteractsWithPage.php:108-111 | stages the option under the field's key |
| Crawler.StagingKeepsView | src/Crawler.php:314-323 | staging changes nothing a later lookup sees |
| Crawler.LastWriteWins | src/Crawler.php:318-320 | the later of two writes to one key wins, and every other key keeps its value |
| Crawler.CheckThenUncheck | src/Concerns/InteractsWithPage.php:85-99 | check followed by uncheck leaves "" staged for the box |
| Crawler.RemoveAllArraySuffix | src/Crawler.php:318 | a trailing `[]` is removed from a name that has none of its own |
| Crawler.SharedKeys | src/Crawler.php:318 | `tags[]`, `#tags` and `tags` share the key `tags` |
| Crawler.NormaliseKeyNotIdempotent | src/Crawler.php:318 | normalising `[[]]` gives `[]`, and normalising again gives the empty key |
| Crawler.Pushed | src/Crawler.php:157 | the pushed scope becomes the current view; the document and the inputs are untouched |
| Crawler.PopLast | src/Crawler.php:161 | `array_pop` removes exactly the last scope |
| Crawler.Within | src/Crawler.php:155-164 | without a document, or with a selector the CSS component refuses, `within` fails and changes nothing; a raising callback's outcome is passed on as it is; after a normal return everything the callback did stays and only the last scope is popped |
| Crawler.TypeWithinKeepsInput | tests/Concerns/InteractsWithPageTest.php:272-284 | a field typed into inside `within` stays staged after it returns, with the stack and the document as before |
| Crawler.WithinRestoresScopes | src/Concerns/InteractsWithPage.php:17-26 | a balanced callback that returns normally leaves the stack as it was |
| Crawler.WithinLeaksScopeOnFailure | src/Crawler.php:155-164 | a callback that throws leaves its scope pushed and current |
| Crawler.StagingInEmptyScopeFails | tests/Concerns/InteractsWithPageTest.php:287-299 | staging inside a scope that matched nothing fails, and the scope stays pushed |
| Crawler.GetForm | src/Crawler.php:292-305 | a truthy label selects the form of its button; otherwise the first form of the view in document order, found or reported missing, with the label named only when truthy; a button outside any form escapes un-rewrapped |
| Crawler.OnlyMissingButtonIsRewrapped | src/Crawler.php:300-304 | with a truthy label, `getForm` raises an `InvalidArgumentException` exactly when the button lookup selected nothing, and another failure exactly when the node found cannot anchor a form |
| Crawler.FalsyLabelMeansFirstForm | src/Crawler.php:295 | the labels "" and "0" behave as no label |
| Crawler.FillForm | src/Crawler.php:282-290 | a non-string first argument becomes the values; a missing form fails; values that are not an array fail; otherwise the form's own request |
| Crawler.SecondArgumentDropped | src/Crawler.php:284-287 | with a non-string first argument the second plays no part |
| Crawler.SubmitForm | src/Crawler.php:60-63 | a request is sent exactly when the form can be filled, and then it is the filled request, with the scopes reset; a failed fill leaves the session untouched; success clears the inputs and holds a response |
| Crawler.SubmitIgnoresStagedInputs | src/Crawler.php:60-63 | the staged inputs do not affect an explicit submission |
| Crawler.Press | src/Crawler.php:143-146 | press sends the form's request built from exactly the staged inputs, and a response clears them; a missing button or refused values raise with the session unchanged |
| Crawler.Click | src/Crawler.php:72-89 | link text first; only when no link text matches, the first `a` element in document order with the name or id is visited; neither gives a failure with the session unchanged |
| PageAssertions.PageViewFollowsSession | src/Concerns/PageAssertions.php:204-207 | the page view ignores the staged inputs and the requests sent, and inside `within` it is the pushed scope |
| PageAssertions.AssertInPageAfterRequest | src/Concerns/PageAssertions.php:204-207 | after a request that got a response, an assertion answers as its constraint does on the fetched document |
| PageAssertions.AssertNotInPage | src/Concerns/PageAssertions.php:209-212 | returns exactly when `assertInPage` does, with the opposite answer, and fails alike |
| PageAssertions.ConstraintOf | src/Concerns/PageAssertions.php:24-202 | every `seeX` builds one non-negated constraint from its arguments, each kind of expectation its own kind of constraint |
| PageAssertions.SeeLinkText | src/Concerns/PageAssertions.php:117-120 | `seeLink` without a URL builds `HasLink` with no URL |
| PageAssertions.SeeElementOnly | src/Concerns/PageAssertions.php:69-72 | `seeElement` without attributes builds `HasElement` with none |
| PageAssertions.Sees | src/Concerns/PageAssertions.php:24-202 | without a page or a response `seeX` fails for want of a response; otherwise it fails only as its constraint can; `seeLink` never fails once there is a page |
| PageAssertions.SeesIsMatchesBase | src/Concerns/PageAssertions.php:24-202 | on a page, `seeX` is the constraint it builds, judged on the page view |
| PageAssertions.SeeAndSeeTextOnPage | src/Concerns/PageAssertions.php:24-55 | on a page, `see` searches the HTML source and `seeText` the visible text |
| PageAssertions.SeeElementsOnPage | src/Concerns/PageAssertions.php:69-128 | on a page, `seeElement` and `seeInElement` run the selector over the view, and `seeLink` looks links up by text, with the URL when given |
| PageAssertions.SeeInFieldOnPage | src/Concerns/PageAssertions.php:141-152 | on a page, `seeInField` is the field value comparison |
| PageAssertions.SeeIsSelectedOnPage | src/Concerns/PageAssertions.php:165-176 | on a page, `seeIsSelected` is membership among the selected values |
| PageAssertions.SeeIsCheckedOnPage | src/Concerns/PageAssertions.php:188-198 | on a page, `seeIsChecked` reads the checkbox's `checked` attribute |
| PageAssertions.DontSees | src/Concerns/PageAssertions.php:35-212 | `dontSeeX` fails in the same circumstances as `seeX`, and `dontSeeLink` never fails once there is a page |
| PageAssertions.DontSeeComplementsSee | src/Concerns/PageAssertions.php:209-212 | every `dontSeeX` returns exactly when `seeX` does, with the opposite answer, and fails alike |
| PageAssertions.ExactlyOneHolds | tests/Concerns/PageAssertionsTest.php:11-462 | when `seeX` returns, exactly one of `seeX` and `dontSeeX` is true |
| PageAssertions.SeeLinkWithoutUrl | src/Constraints/HasLink.php:36-38 | `seeLink(text)` holds exactly when a link is selected by the text |
| PageAssertions.SeeElementWithoutAttributes | src/Constraints/HasElement.php:31-33 | `seeElement(selector)` holds exactly when the selector finds an element |
| PageAssertions.MissingFieldRaises | tests/Concerns/PageAssertionsTest.php:465-475 | a missing field makes `seeInField` and `dontSeeInField` fail rather than answer |
| PageAssertions.CrawlerAssertInPage | src/Crawler.php:369-376 | the `$negate` flag of the class wraps the constraint in the negation |
| PageAssertions.CrawlerNegateFlag | src/Crawler.php:173-235 | `see(x, true)` is `dontSee(x)` and complements `see(x)` |
| PageAssertions.FailedRequestFallsBack | src/Crawler.php:257-266 | after a failed request, assertions read the body of the previous response, or fail without one |

## Left out

- HTTP transport: Goutte/Guzzle requests, redirects and BrowserKit's request history are the `fetch` collaborator. Cookies and headers are plain maps of the last response. The cookie jar's per-URI selection and BrowserKit's header-name normalisation are not modelled.
- Symfony DomCrawler internals are collaborators with no contract of their own: general CSS evaluation, `selectLink`, `selectButton()->form()`, `Form::setValues`/`getMethod`/`getUri`, link URI resolution, HTML parsing and `strip_tags`. Selectors the library builds are evaluated concretely only for plain names; other names go to the CSS collaborator as the rendered string.
- `extractParametersFromForm` (src/Crawler.php:307-312) is an `http_build_query`/`parse_str` round trip. It is part of the `submit` collaborator.
- src/Concerns/MakesHttpRequests.php is stubs that return `$this`, and src/Concerns/InteractsWithResponse.php is thin getters. Neither has behaviour to model.
- `filter`/`extract` are called by tests, but their implementation is not part of this model.
- The commented-out block in src/Crawler.php:378-499 and the test-suite support classes (mocked clients and custom assertions) are left out.
- PCRE is modelled as ASCII case-insensitive literal containment over characters, not bytes. UTF-8 validation and multi-byte case folding are left out.
- Entities.EntityLength: existing entities are recognised by shape (`&name;`, `&#digits;`, `&#xhex;`). A numeric entity above U+10FFFF, such as `&#1114112;`, counts as an entity, whereas PHP's `htmlspecialchars` refuses it and re-encodes its `&`. Named entities are not checked against PHP's entity table. Invalid UTF-8 handling is left out.
- Strings.IsNumeric: follows `is_numeric` as of PHP 7, the version the test suite's PHPUnit targets, which allows leading whitespace only. PHP 8 also accepts trailing whitespace.
- Dom.PreorderAll: when one node of a view lies inside another node of the same view, its subtree is listed twice, whereas DomCrawler's `filter` removes duplicates. Only whether something matched and which node matched first are used, and neither depends on the duplicates.
- `html()` serialises with a simple serializer (void elements, text and attribute escaping). libxml's exact output is left out. `text()` is the text content without whitespace normalisation.
- Staged inputs are a map from string keys to strings. PHP's integer-like array keys, nested arrays and non-string values in an explicit `submitForm` array are left out.
- ResponseAssertions.HasCookie: after requests none of which got a response, it answers false. The cookie jar is not modelled, so cookies it would hold from elsewhere are not seen.
- Attribute requirements of `HasElement` carry string values. Non-string values, which `!==` would never match, are left out.
- FieldConstraints.HasValue: an input without a `value` attribute is modelled as a failure (a null returned from a `string` function). The message is not modelled.
- The concrete fixture pages of the test suite (welcome.html, form.html) are not reproduced. Their see/dontSee pairs are covered by PageAssertions.ExactlyOneHolds for every page.
