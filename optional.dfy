/** Kotlin's nullable results (`User?`) as an explicit option value. */
module Optional {

  datatype Option<+T> = None | Some(value: T)

}
