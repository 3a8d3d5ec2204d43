/** Optional values: the model of a Java `Integer` reference that may be null. */
module Options {

  datatype Option<T> = None | Some(value: T)
}
