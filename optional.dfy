/** An optional value: `std::optional`, or a pointer that may be null. */
module Optional {

  datatype Option<+T> = None | Some(value: T)
}
