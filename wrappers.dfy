/** The optional-value type the model uses for Python operations that can raise. */
module Wrappers {

  /** `None` stands for an exception raised by the modelled Python code. */
  datatype Option<T> = None | Some(value: T)
}
