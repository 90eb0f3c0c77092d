/** The optional value used for the lookups and the selections that can come up empty. */
module Options {

  datatype Option<+T> = None | Some(value: T)

}
