/** A value that may be absent: a page with no navigation, a path naming no
    page, a body without a usable `feedback` field. */
module Optional {

  datatype Option<+T> = None | Some(value: T)
}
