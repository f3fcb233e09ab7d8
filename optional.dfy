/** An optional value: the model's counterpart of `T | null`. */
module Optional {

  datatype Option<T> = None | Some(value: T)

}
