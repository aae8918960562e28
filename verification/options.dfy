/** An optional value: the model's stand-in for a JavaScript `T | null`. */
module Options {

  datatype Option<T> = None | Some(value: T)

}
