/** An optional value, used for Swift's optionals (`Deeplinkable?`) and for
    the result of a search that may find nothing. */
module Optional {

  datatype Option<+T> = None | Some(value: T)
}
