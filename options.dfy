/** The optional value used for every nullable column of the job. */
module Options {

  datatype Option<+T> = None | Some(value: T)
}
