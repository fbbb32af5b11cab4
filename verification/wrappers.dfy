/** The optional value the Python code signals with `None`. */
module Wrappers {

  /** `None` stands for Python's `None` return (or an absent JSON key);
      `Some(v)` for a present value `v`. */
  datatype Option<+T> = None | Some(value: T)
}
