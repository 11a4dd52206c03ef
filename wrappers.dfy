/** The optional result the unifier returns: a substitution or Python's None. */
module Wrappers {
  datatype Option<T> = None | Some(value: T)
}
