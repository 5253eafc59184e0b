/** The optional value the browser's `prompt` dialog returns: `None` when the
    user cancels, `Some(text)` otherwise. */
module Options {

  datatype Option<+T> = None | Some(value: T)
}
