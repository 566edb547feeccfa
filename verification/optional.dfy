/** The optional value used for a variable the Python model may leave unbound and
    for a function that may fall through without returning anything. */
module Optional {

  datatype Option<T> = None | Some(value: T)
}
