/** The Java `null` of a reference, made explicit. */
module Wrappers {

  /** `None` stands for a Java `null` reference; `Some(v)` for a non-null one. */
  datatype Option<+T> = None | Some(value: T)
}
