/** Result shapes shared by every layer of the scheduler stack. */
module Common {

  /** A value that may be missing: the model of a C pointer that may be NULL. */
  datatype Option<T> = None | Some(value: T)

  /** The two-valued status code the containers return (SUCCESS / FAIL). */
  datatype Status = Success | Failure
}
