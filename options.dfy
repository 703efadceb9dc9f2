/** The Option type used by the food spawner and by the score submissions. */
module Options {
  datatype Option<T> = None | Some(value: T)
}
