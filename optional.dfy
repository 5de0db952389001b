/** A value that may be absent: Java's null reference and java.util.Optional. */
module Optional {

  datatype Option<T> = None | Some(value: T)

}
