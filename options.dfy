/** The optional value used for "no hit", "absorbed" and "total internal reflection". */
module Options {
  datatype Option<+T> = None | Some(value: T)
}
