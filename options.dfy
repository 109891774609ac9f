/** An optional value: what a lookup that may find nothing returns, and a
    property an object may or may not carry. */
module Options {
  datatype Option<T> = None | Some(value: T)
}
