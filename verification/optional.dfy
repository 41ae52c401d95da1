/** The optional value used for oracle answers and for reads that can come up empty. */
module Optional {

  datatype Option<T> = None | Some(value: T)
}
