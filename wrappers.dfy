/** The conventional optional value, standing in for the nullable pointers of the C program. */
module Wrappers {

  datatype Option<+T> = None | Some(value: T)
}
