/** A value that may be absent: the script's nullable references and failed parses. */
module Optional {

  datatype Option<+T> = None | Some(value: T)

}
