/** An optional value: a JSON property that is either present or absent. */
module Wrappers {

  datatype Option<+T> = None | Some(value: T)
}
