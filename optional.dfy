/** Kotlin's nullable values (`Tetromino?`, `Array<IntArray>?`) as an option type. */
module Optional {
  datatype Option<+T> = None | Some(value: T)
}
