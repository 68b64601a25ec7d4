/** Small value types shared by the two TypeScript modules that are modelled:
    an optional value (the source's `null` / `undefined`) and the value a
    `catch` clause receives. */
module Wrappers {

  /** A value that may be absent (`null` or `undefined` in the source). */
  datatype Option<+T> = None | Some(value: T)

  /** What a `catch (error)` clause can receive: an `Error` object, which
      carries a message, or any other thrown value. */
  datatype Thrown = ErrorObject(message: string) | NonErrorValue

  /** The message both catch blocks fall back to for a thrown non-`Error`. */
  const UnknownError: string := "Unknown error"

  /** The message a catch block reports: an `Error`'s own message, or
      "Unknown error" for any other thrown value. */
  function MessageOf(e: Thrown): (m: string)
    ensures e.ErrorObject? ==> m == e.message
    ensures e.NonErrorValue? ==> m == UnknownError
  {
    match e
    case ErrorObject(msg) => msg
    case NonErrorValue => UnknownError
  }
}
