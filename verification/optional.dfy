/** The absent-or-present value the matcher's entry points return: `None` is
    the normal "no match" outcome, never an error. */
module Optional {

  datatype Option<T> = Some(value: T) | None
}
