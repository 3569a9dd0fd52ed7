/** Results carrying the exceptions the Python package raises. */
module Wrappers {

  datatype Option<T> = None | Some(value: T)

  /** The kinds of exception raised by the modelled code. */
  datatype Error =
    | SieveBound        // "Number larger than sieve size" / "Number bigger than the size of sieve"
    | NegativeArgument  // "Checking primality of number below 0"
    | ArgumentMismatch  // prime_list: not precisely one of `upto` and `n` supplied
    | TypeMismatch      // TypeError: an ordering comparison with None
    | IndexOutOfRange   // IndexError: list index out of range
    | MathDomain        // ValueError: math.isqrt of a negative number
    | MissingKey        // KeyError: lookup of a key absent from a dict
    | AssertionFailed   // AssertionError: a failing `assert` statement
    | NotImplemented    // "P_k is not implemented for k != 2"

  datatype Result<T> = Ok(value: T) | Err(error: Error)
}
