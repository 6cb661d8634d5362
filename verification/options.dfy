/** An optional value: Go's nil pointers, nil errors and "no reply" all map onto it. */
module Options {

  datatype Option<+T> = None | Some(value: T)
}
