/** Optional values: Go's nil pointers, SQL NULL columns and absent results. */
module Options {

  datatype Option<+T> = None | Some(value: T)

}
