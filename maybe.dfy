/** The optional value used wherever the PHP code stores `null` or "not present". */
module Maybe {
  datatype Option<+T> = None | Some(value: T)
}
