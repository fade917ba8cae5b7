/**
 * Optional values and results with errors. The converter signals failure by
 * throwing; the model returns `Err` with the reason instead.
 */
module Outcomes {

  datatype Option<T> = None | Some(value: T)

  /** The reasons for which the converter throws. */
  datatype Error =
    | NoOpRule                 // a rule returned the very state it was given
    | NoRuleMatch(object: string, kind: string)  // no serializer accepts the first node
    | InvalidHtml              // the HTML element stack did not end at the root
    | TypeError(what: string)  // a property read on `undefined` in the source
    | CannotNormalizeMatcher   // a matcher that is neither function, array nor string
    | SyntaxError(what: string) // a regular expression built at run time is invalid
    | OutOfFuel                // the recursion bound of the model was reached

  datatype Result<T> = Ok(value: T) | Err(error: Error) {
    predicate IsFailure() { Err? }
    function PropagateFailure<U>(): Result<U>
      requires Err?
    {
      Err(error)
    }
    function Extract(): T
      requires Ok?
    {
      value
    }
  }
}
