/** An optional value: stands for PHP's nullable `?string` parameters and results. */
module Options {
  datatype Option<+T> = None | Some(value: T)
}
