/** The optional value used wherever the source produces a missing value
    (a regex that does not match, a date that does not parse, a table that is skipped). */
module Optional {

  datatype Option<+T> = None | Some(value: T)

}
