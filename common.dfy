/** Small shared vocabulary: an optional value, used for nullable pointers. */
module Common {

  /** `None` plays the role of a NULL pointer. */
  datatype Option<T> = None | Some(value: T)
}
