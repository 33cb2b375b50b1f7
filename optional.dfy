// A value that may be absent: a lookup that misses, a message that was not
// handed to the transport.
module Optional {

  datatype Option<+T> = None | Some(value: T)

}
