/** The optional-value datatype used for operations that can fail. */
module Wrappers {

  /** `None` stands for a failed search (Python's `re.search` returning `None`). */
  datatype Option<+T> = None | Some(value: T)
}
