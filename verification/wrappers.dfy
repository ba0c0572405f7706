/** The optional-value datatype used across the model. */
module Wrappers {

  /** A value that may be missing: a search that found nothing, an input
      that could not be parsed, a request that got no reply. */
  datatype Option<+T> = None | Some(value: T)
}
