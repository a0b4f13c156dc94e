/** The value of a pointer that may be null, or of an array access that may
    fall past the end: `None` stands for the null pointer or the missing
    element. */
module Nullable {

  datatype Option<+T> = None | Some(value: T)
}
