/** The Some/None datatype used for lookups and for operations that can
    step outside the bounds of a sequence. */
module Optional {

  datatype Option<+T> = None | Some(value: T)

}
