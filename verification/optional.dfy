/** Python's `None`-or-value arguments (`line_h=None`, `max_w=None`). */
module Optional {

  datatype Option<+T> = None | Some(value: T)

}
