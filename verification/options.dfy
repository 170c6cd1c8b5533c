/** The optional value used throughout the model: a Python call that
    raises, or a lookup that finds nothing, is `None`. */
module Options {

  datatype Option<+T> = None | Some(value: T)
}
