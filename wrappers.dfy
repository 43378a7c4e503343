/** The optional value the Python scripts express with `None`: a missing
    x-coordinate (the point at infinity), an absent seed argument, or a call
    that raised an exception. */
module Wrappers {

  datatype Option<+T> = None | Some(value: T)
}
