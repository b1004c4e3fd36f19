/** A value that may be missing: a `page` or `per_page` query parameter the
    request leaves out, or the failed check of a record that passes them all. */
module Optional {

  datatype Option<+T> = None | Some(value: T)
}
