/** Shared vocabulary: bytes, optional values, results and the Python
    exceptions that can escape the decoder. */
module Base {

  /** One byte of a `.sp` file, as Python's `bytes` indexing yields it. */
  type Byte = b: int | 0 <= b < 256

  datatype Option<+T> = None | Some(value: T)

  datatype Result<+T, +E> = Success(value: T) | Failure(error: E)

  /** The exceptions that nothing in the decoder catches. */
  datatype Exception =
    | ValueError          // tuple unpacking with the wrong number of values
    | IndexError          // a list index past the end
    | UnicodeDecodeError  // a strict ASCII decode that meets a byte >= 0x80

  function Min(a: int, b: int): int { if a <= b then a else b }

  function Max(a: int, b: int): int { if a <= b then b else a }
}
