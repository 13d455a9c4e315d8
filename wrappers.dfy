/** Option and Result values used where the C++ code returns `npos`, an
    empty "failed" value, or throws. */
module Wrappers {

  datatype Option<T> = None | Some(value: T)

  /** The two standard exceptions the modelled code can raise:
      std::out_of_range (substr, insert, erase, stoi overflow) and
      std::invalid_argument (stoi finding no digits). */
  datatype Exception = OutOfRange | InvalidArgument

  datatype Result<T> = Ok(value: T) | Err(error: Exception)

  /** An operation that changes state in place and either completes or
      throws before changing anything. */
  datatype Outcome = Done | Thrown(error: Exception)

  function Min(a: int, b: int): int { if a <= b then a else b }

  function Max(a: int, b: int): int { if a >= b then a else b }
}
