/** Exceptions, nullable references and the outcome of a call that may throw, shared by every module. */
module Errors {

  /** The exceptions the library raises, in its C# and its Java halves. `Raised(code)` stands for any
      exception thrown by code the caller supplies (a transformation, a selector, a supplier). */
  datatype Exception =
    | ArgumentNull(param: string)          // C# ArgumentNullException
    | Argument                             // C# ArgumentException
    | ArgumentOutOfRange                   // C# indexer or Enumerable.Repeat out of range
    | InvalidOperation                     // C# Enumerable.First on an empty sequence
    | KeyNotFound                          // C# KeyNotFoundException
    | DivideByZero                         // C# integer division by zero
    | Overflow                             // C# int.MinValue / -1
    | OptionValueAccess                    // Option<T>.Some on None
    | EmptyOptionType                      // OptionType<T>.Some on None
    | MExceptionValueAccess(inner: Exception)
    | General(message: string)             // C# new Exception(message)
    | IllegalArgument                      // Java IllegalArgumentException
    | NoSuchElement                        // Java NoSuchElementException
    | UnsupportedOperation                 // Java UnsupportedOperationException
    | ConcurrentModification               // Java ConcurrentModificationException
    | IndexOutOfBounds                     // Java List.get / array index out of range
    | NegativeArraySize                    // Java new int[n] or Arrays.copyOf with n < 0
    | EmptyListHasNoHead
    | EmptyListHasNoTail
    | OptionNoValueAccess                  // Java Option_int.Some() on None
    | Raised(code: int)

  /** A reference that may be null. */
  datatype Nullable<T> = Null | NotNull(value: T)

  /** What a call does: it returns a value or it throws. */
  datatype Outcome<T> = Returns(value: T) | Throws(error: Exception) {

    /** Sequencing in the source language: run `f` on the value, or let the exception propagate. */
    function Then<U>(f: T -> Outcome<U>): (r: Outcome<U>)
      ensures Throws? ==> r == Throws(error)
      ensures Returns? ==> r == f(value)
    {
      match this
      case Returns(v) => f(v)
      case Throws(e) => Throws(e)
    }
  }

  /** How a lazy sequence ends once its consumer has pulled everything: it runs out, or it throws. */
  datatype End = Exhausted | Raises(error: Exception)

  /** A complete run of a lazy sequence: the elements it yields, in order, and how it ends. */
  datatype Run<T> = Run(yielded: seq<T>, end: End)
}
