/** The optional value used wherever the source has "maybe missing" data:
    an element that getElementById may not find, an absent JSON field. */
module Wrappers {

  datatype Option<+T> = None | Some(value: T)
}
