/** JavaScript's `undefined`/`null` results, as an explicit Option. */
module Optional {

  datatype Option<+T> = None | Some(value: T)
}
