/**
  Failure-carrying wrappers shared by the four collection components.
  A Java method that either returns a value or throws is modelled as a
  function returning a `Result`; a nullable reference is an `Option`.
 */
module Results {

  /** A possibly absent value: `None` stands for a Java `null`. */
  datatype Option<+T> = None | Some(value: T)

  /** Either the value an operation returns or the exception it throws. */
  datatype Result<+T, +E> = Ok(value: T) | Err(error: E)

  /** Integer.compareTo-style sign of a difference: -1, 0 or 1. */
  function Sign(d: int): (s: int)
    ensures s == -1 || s == 0 || s == 1
    ensures s < 0 <==> d < 0
    ensures s > 0 <==> d > 0
  {
    if d < 0 then -1 else if d == 0 then 0 else 1
  }
}
