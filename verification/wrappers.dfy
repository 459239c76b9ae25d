/** The optional value the route planner model uses for a node's parent link. */
module Wrappers {

  /** A value that may be absent; stands in for a null parent link. */
  datatype Option<+T> = None | Some(value: T)
}
