/** The absence sentinel: PHP's `null` returned by a lookup miss. */
module Options {

  datatype Option<+T> = None | Some(value: T)
}
