/** The optional value the pages use wherever the source has `null`,
    `undefined` or an absent field. */
module Options {

  datatype Option<+T> = None | Some(value: T)
}
