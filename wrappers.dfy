/** An optional value: the codec's way of reporting input it cannot decode. */
module Wrappers {

  datatype Option<+T> = None | Some(value: T)
}
