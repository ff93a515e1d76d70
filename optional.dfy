/** Swift's optional values (`T?`). */
module Optional {

  datatype Option<T> = None | Some(value: T)
}
