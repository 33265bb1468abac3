/** The "pointer or NULL" shape of the frame record's owned resources. */
module Optional {

  datatype Option<+T> = None | Some(value: T)

}
