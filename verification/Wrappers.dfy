/** Result types shared by the models. */
module Wrappers {

  datatype Option<+T> = None | Some(value: T)

  /**
   Outcome of an operation that may throw `std::out_of_range`. `Undefined` is a step outside the
   language: a copy past the end of a buffer, let through because a 64-bit sum wrapped around.
   */
  datatype Outcome<+T> = Ok(value: T) | OutOfRange | Undefined {

    function Map<U>(f: T -> U): Outcome<U>
    {
      match this
      case Ok(v) => Ok(f(v))
      case OutOfRange => OutOfRange
      case Undefined => Undefined
    }
  }
}
