/** An optional value, for results that may be missing: a fragment file that
    could not be opened, or a search that ends without an answer. */
module Optional {
  datatype Option<T> = None | Some(value: T)
}
