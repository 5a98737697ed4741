/** The optional value the analysis uses for a photo's hash and a path's extension. */
module Wrappers {
  datatype Option<+T> = None | Some(value: T)
}
