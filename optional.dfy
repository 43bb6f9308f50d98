/** An optional value, for JavaScript's `null`, `undefined` and `NaN` results. */
module Optional {

  datatype Option<+T> = None | Some(value: T)
}
