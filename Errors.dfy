/** Error kinds raised by the conversion pipeline, and the result type that
    stands in for Python's exceptions. */
module Errors {

  datatype Error =
    | UnmatchedBracket           // ValueError "Unmatched [ in regex"
    | InvalidCharacterClass      // ValueError "Invalid character class"
    | UnsupportedCharacterClass  // ValueError "Only simple ranges like [a-z] supported"
    | PopFromEmptyList           // IndexError raised by list.pop() on an empty stack

  datatype Result<T> = Ok(value: T) | Err(error: Error)
}
