/** The optional value used throughout the model for the source's null
    pointers and "not found" answers. */
module Optional {

  datatype Option<T> = None | Some(value: T)
}
