/** The optional value used for a cell's colour (None is Python's `None`)
    and for the results of the decoders. */
module Maybe {
  datatype Option<+T> = None | Some(value: T)
}
