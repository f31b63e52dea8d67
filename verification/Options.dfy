// Values that may be missing: null pointers, absent entries and unknown sizes.
module Options {

  datatype Option<+T> = None | Some(value: T)
}
