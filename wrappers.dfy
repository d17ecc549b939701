/** The optional value used where the source's computation can produce
    nothing usable (a `NaN` coordinate, a search that finds no tour). */
module Wrappers {
  datatype Option<+T> = None | Some(value: T)
}
