/** Small definitions shared by the models. */
module Wrappers {

  datatype Option<+T> = None | Some(value: T)

  datatype Result<+T, +E> = Success(value: T) | Failure(error: E)

  /** A confidence, forced into [0, 1]. */
  function Clamp(c: real): real { if c < 0.0 then 0.0 else if c > 1.0 then 1.0 else c }
}
