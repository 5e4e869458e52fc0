/** The optional value used wherever the service has "a value or nothing"
    (Python's `Optional[...]` / `None`). */
module Options {

  datatype Option<+T> = None | Some(value: T)
}
