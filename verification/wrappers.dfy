/** The optional result shared by every module of the model. */
module Wrappers {

  /** A present value or none: it stands for Python's `None` returns, for
      `find`'s -1, and for the `(None, None)` pair of the router. */
  datatype Option<+T> = None | Some(value: T)
}
