/** The optional-value type used throughout the model. `None` stands for a run of
    the Go code that panics (an index out of range, a nil dereference or a helper
    that gives up); `Some` carries the value the code returns. */
module Options {

  datatype Option<+T> = None | Some(value: T)
}
