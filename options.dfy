/** The optional value used wherever the source has `T | null` or an absent field. */
module Options {

  datatype Option<+T> = None | Some(value: T)

}
