/**
 * The page-constraint family as one datatype, with `ReversePageConstraint`
 * as its only combinator, and `matches` as one function over it.
 */
module PageConstraints {
  import opened Outcome
  import opened Dom
  import opened Views
  import opened ContentConstraints
  import opened FieldConstraints

  datatype Constraint =
    | HasSourceC(source: string)
    | HasTextC(text: string)
    | HasElementC(selector: string, attributes: seq<AttrEntry>)
    | HasInElementC(element: string, text: string)
    | HasLinkC(linkText: string, url: Option<string>)
    | HasValueC(field: string, value: string)
    | IsCheckedC(checkbox: string)
    | IsSelectedC(choice: string, option: string)
    | Reverse(inner: Constraint)

  /** What `!` does to the outcome of `matches`: a failure passes through unchanged. */
  function Negate(r: Result<bool>): Result<bool>
  {
    match r
    case Ok(b) => Ok(!b)
    case Err(e) => Err(e)
  }

  /**
   * The failures a page constraint can raise by itself: an empty node list,
   * a refused selector, a missing field, or an input without a value. None of
   * them is about the session (no document, no response, a failed request).
   */
  predicate ConstraintFailure(e: Error)
  {
    e.EmptyNodeList? || e.InvalidSelector? || e.NoSuchField? || e.NullAsString?
  }

  /** `matches` of a constraint other than a negation. */
  function MatchesBase(eng: Engine, c: Constraint, v: View): (r: Result<bool>)
    requires !c.Reverse?
    ensures c.HasLinkC? ==> r.Ok?
    ensures r.Err? ==> ConstraintFailure(r.error)
  {
    match c
    case HasSourceC(source) => HasSource(v, source)
    case HasTextC(text) => HasText(eng, v, text)
    case HasElementC(selector, attributes) => HasElement(eng, v, selector, attributes)
    case HasInElementC(element, text) => HasInElement(eng, v, element, text)
    case HasLinkC(text, url) => Ok(HasLink(eng, v, text, url))
    case HasValueC(field, value) => HasValue(eng, v, field, value)
    case IsCheckedC(checkbox) => IsChecked(eng, v, checkbox)
    case IsSelectedC(choice, option) => IsSelected(eng, v, choice, option)
  }

  /** `$constraint->matches($crawler)`. */
  function Matches(eng: Engine, c: Constraint, v: View): (r: Result<bool>)
    ensures r.Err? ==> ConstraintFailure(r.error)
  {
    match c
    case Reverse(inner) => Negate(Matches(eng, inner, v))
    case _ => MatchesBase(eng, c, v)
  }

  /** The constraints that read `crawler($crawler)`, the node list, rather than `html` or `text`. */
  predicate ElementLevel(c: Constraint)
  {
    c.HasElementC? || c.HasInElementC? || c.HasLinkC? || c.HasValueC? || c.IsCheckedC? || c.IsSelectedC?
  }

  /**
   * A response body handed over as a string is parsed for the element-level
   * constraints: they answer on it exactly as on the parsed document.
   */
  lemma RawBodyIsParsed(eng: Engine, c: Constraint, body: string)
    requires ElementLevel(c)
    ensures Matches(eng, c, Raw(body)) == Matches(eng, c, Nodes(eng.parse(body)))
  {
  }

  /**
   * The negation of a constraint holds exactly when the constraint does not,
   * and fails exactly when, and as, the constraint fails.
   */
  lemma {:induction false} ReverseComplements(eng: Engine, c: Constraint, v: View)
    ensures Matches(eng, Reverse(c), v).Ok? <==> Matches(eng, c, v).Ok?
    ensures Matches(eng, c, v).Ok? ==> Matches(eng, Reverse(c), v).value == !Matches(eng, c, v).value
    ensures Matches(eng, c, v).Err? ==> Matches(eng, Reverse(c), v).error == Matches(eng, c, v).error
  {
  }

  /** Negating twice gives back the constraint's own answer, failures included. */
  lemma {:induction false} DoubleNegation(eng: Engine, c: Constraint, v: View)
    ensures Matches(eng, Reverse(Reverse(c)), v) == Matches(eng, c, v)
  {
  }
}
