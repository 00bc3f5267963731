/** A value that may be missing: an empty spreadsheet cell (pandas NaN). */
module Options {
  datatype Option<+T> = None | Some(value: T)
}
