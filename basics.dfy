/** Small value wrappers shared by every module. */
module Basics {
  /** A value that may be absent: Python's `None`. */
  datatype Option<T> = None | Some(value: T)

  /** A key of a loaded JSON body: left out of the request, or given (possibly as `null`). */
  datatype Field<T> = Omitted | Given(value: T)

  /** `data.get(key)` on a nullable key: `None` when the key was left out. */
  function GetOrNone<T>(f: Field<Option<T>>): Option<T>
  {
    match f
    case Omitted => None
    case Given(v) => v
  }

  function Min(a: int, b: int): int
  {
    if a <= b then a else b
  }
}
