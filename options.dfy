/** The optional value used wherever the planner's JavaScript may produce
    `null` instead of a value. */
module Options {
  datatype Option<T> = None | Some(value: T)
}
