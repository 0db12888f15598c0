/** The optional value the simulation passes around (`Option` in the source's language). */
module Options {
  datatype Option<T> = None | Some(value: T)
}
