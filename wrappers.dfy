/** Option and Result, the two failure-carrying shapes the model uses for
    Python's `None` returns and raised exceptions. */
module Wrappers {

  datatype Option<+T> = None | Some(value: T)

  /** The exceptions the modelled code can raise (or hit as an unbound local). */
  datatype Error =
    | IndexError        // `xs[0]` on an empty list, `xs[i]` past the end
    | UnboundLocal      // a variable assigned only on some branches is returned

  datatype Result<+T> = Success(value: T) | Failure(error: Error)
}
