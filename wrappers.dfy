/** Small value types shared by the whole model: an optional value, and the
    shapes of Go's multi-value returns. A Go `error` is modelled as
    `Option<string>`: `None` is `nil`, `Some(m)` an error whose text is `m`. */
module Wrappers {

  datatype Option<+T> = None | Some(value: T)

  /** Go's `(string, error)`. */
  datatype StringResult = StringResult(value: string, err: Option<string>)

  /** Go's `(string, string, error)`. */
  datatype PairResult = PairResult(first: string, second: string, err: Option<string>)
}
