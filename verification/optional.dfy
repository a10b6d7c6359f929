/** An optional value: a fetch that failed, a form field the browser did not send. */
module Optional {
  datatype Option<+T> = None | Some(value: T)
}
