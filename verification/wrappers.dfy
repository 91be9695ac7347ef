/** Option, for the places where the scheduler looks a value up and may find none. */
module Wrappers {

  datatype Option<+T> = None | Some(value: T)
}
