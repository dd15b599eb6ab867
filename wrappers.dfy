/** Option and Result, and the Ruby exceptions the modelled code raises. */
module Wrappers {

  datatype Option<+T> = None | Some(value: T)

  /** The exception classes raised by the library or by the Ruby collections it calls. */
  datatype Error =
    | ArgumentError   // wrong number of arguments, negative counts, unconvertible basis
    | KeyError        // Map#fetch of an absent key without fallback
    | IndexError      // List#fetch out of range, negative index or length on store
    | RangeError      // a range that starts before the beginning of the array on store
    | TypeError       // an argument that cannot be converted (a range together with a length, a non-integer length)
    | NoMethodError   // a call on an object that lacks the method (each_pair on a non-hash, map! on nil)

  datatype Result<+T> = Success(value: T) | Failure(error: Error)
}
