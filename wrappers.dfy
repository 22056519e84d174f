/** An optional value: a missing neighbour, a received halo, a recorded
    generation bit. */
module Wrappers {

  datatype Option<T> = None | Some(value: T)
}
