/** An optional value: what a `findOne` lookup or a validation step yields. */
module Options {

  datatype Option<+T> = None | Some(value: T)
}
