/** Results of decoding steps, and the ways a decode can fail. */
module Wrappers {

  /** The conditions that abort decoding of one file. */
  datatype Error =
    | OutOfData                        // a read past the end of the stream
    | SeekBeforeBegin                  // a seek to a position before the start of the stream
    | InvalidSignature(found: string)  // a fixed marker read back as something else
    | UnknownFormat(code: int)         // an attribute format code with no known width
    | UnknownIndexFormat(code: int)    // an index width code other than 2 or 4
    | NoName                           // the scene chunk came before any hierarchy chunk
    | EmptyName                        // the asset name has no leading character to drop

  datatype Option<+T> = None | Some(value: T)

  datatype Result<+T> = Ok(value: T) | Err(error: Error) {
    predicate IsFailure() {
      Err?
    }

    function PropagateFailure<U>(): Result<U>
      requires Err?
    {
      Err(error)
    }

    function Extract(): T
      requires Ok?
    {
      value
    }
  }
}
