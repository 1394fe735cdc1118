/** The two outcome shapes the model needs: an optional value (an absent
    record key reads as `undefined`) and the completion of a JavaScript
    expression, which either yields a value or throws. */
module Completions {

  datatype Option<T> = None | Some(value: T)

  /** How a JavaScript evaluation ends: with a value, or with an exception
      that propagates to the caller. The exception's payload plays no part
      in this model. */
  datatype Completion<T> = Normal(value: T) | Throw
}
