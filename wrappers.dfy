/** Option and Result types shared by the other modules, and the exception
    kinds the toolkit raises (WireCellUtil/Exceptions.h). */
module Wrappers {

  /** C++ `int`. */
  type Int32 = x: int | -0x8000_0000 <= x < 0x8000_0000

  datatype Option<+T> = None | Some(value: T)

  /** The exception classes thrown by the modelled code. `Undefined` marks
      inputs on which the C or C++ library call has undefined behaviour
      (an out-of-range `atoi`). */
  datatype Error = ValueError | IndexError | IOError | LogicError | Undefined

  datatype Result<+T> = Ok(value: T) | Err(error: Error) {
    predicate IsFailure() { Err? }
    function PropagateFailure<U>(): Result<U>
      requires Err?
    {
      Err(error)
    }
    function Extract(): T
      requires Ok?
    {
      value
    }
  }
}
