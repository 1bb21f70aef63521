/** Outcomes of the decompressor's operations.

    `read_codes` and `decode_to_text` in decompressor.py raise an exception on corrupt
    input and return nothing; here every such exit is a distinct `Error` carried by a
    `Failure`. */
module Results {

  /** Why a decompression was abandoned. */
  datatype Error =
    | InvalidData           // one byte is left over after the 3-byte groups
    | EmptyInput            // there is no first code to pop
    | BadCharacter(code: int) // the first code is not a Unicode code point
    | UnknownCode(code: int)  // a code is neither a dictionary key nor the next key

  datatype Result<+T> = Success(value: T) | Failure(error: Error)
}
