/**
 * Failure values shared by the whole model.
 *
 * The PHP code signals every failure by throwing; the model returns an
 * `Error` instead. Most of them are `InvalidArgumentException`s in PHP and
 * carry the data of the exception message; the rest are PHP engine errors
 * (a method call on `null`, a return-type violation) or failures reported by
 * collaborators the model does not look inside.
 */
module Outcome {

  datatype Option<+T> = None | Some(value: T)

  datatype Error =
    /** storeInput: the name-or-id lookup found nothing (the filter token is kept). */
    | NothingMatched(filter: string)
    /** getForm: no form for the button label (present only when the label is truthy). */
    | FormNotFound(button: Option<string>)
    /**
     * `Form::setNode`: the button found has no enclosing form, or is not a
     * button at all (a `LogicException` in PHP, which `getForm` lets escape).
     */
    | NotAFormButton(message: string)
    /** click: neither link text nor name/id of an `a` element matched. */
    | LinkNotFound(name: string)
    /** FormFieldConstraint::field: the element kinds joined by "," and the selector. */
    | NoSuchField(kinds: string, selector: string)
    /** DomCrawler html()/text() on an empty node list. */
    | EmptyNodeList
    /** The CSS selector component could not parse a selector (a `ParseException` in PHP). */
    | InvalidSelector(selector: string)
    /** A DomCrawler method called on a session that holds no document (PHP Error). */
    | NoDocument
    /** A `: string` function returned null (PHP TypeError). */
    | NullAsString
    /** Form::setValues received null instead of an array (PHP TypeError). */
    | InputsNotArray
    /** Form::setValues refused a field or value (reported by the form collaborator). */
    | FormRejectsValues
    /** The HTTP transport failed. */
    | RequestFailed
    /** A page or response assertion made before any response (a method call on null in PHP). */
    | NoResponse

  /** The failures that PHP raises as `InvalidArgumentException`. */
  predicate IsInvalidArgument(e: Error)
  {
    e.NothingMatched? || e.FormNotFound? || e.LinkNotFound? || e.NoSuchField?
    || e.EmptyNodeList? || e.FormRejectsValues?
  }

  /** A value or the failure that prevented computing it; usable with `:-`. */
  datatype Result<+T> = Ok(value: T) | Err(error: Error) {

    predicate IsFailure()
    {
      Err?
    }

    function PropagateFailure<U>(): Result<U>
      requires Err?
    {
      Err(error)
    }

    function Extract(): T
      requires Ok?
    {
      value
    }
  }
}
