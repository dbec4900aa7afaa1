/** A value that may be absent: a null reference, a failed lookup or a failed decoding. */
module Options {
  datatype Option<+T> = None | Some(value: T)
}
