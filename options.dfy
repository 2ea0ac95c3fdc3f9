/** The optional value the TypeScript sources express with `null` or an absent property. */
module Options {

  datatype Option<+T> = None | Some(value: T)
}
