/** Failure-compatible wrappers shared by every module, the kinds of exception the
    program can meet while treating one file, and raw bytes. */
module Results {

  datatype Option<+T> = None | Some(value: T)

  /** The .NET exceptions the core can raise, one constructor per kind the program distinguishes. */
  datatype Fault =
    | ArgumentOutOfRange   // string.Substring past the end of the string
    | ArgumentInvalid      // Directory.CreateDirectory on an empty path
    | FileNotFound         // File.Move or Image.FromFile on a missing file
    | DirectoryNotFound    // File.Move into a directory that does not exist
    | IOError              // File.Move onto an existing entry, or a file in the way of a directory
    | UnauthorizedAccess   // the operating system refuses the path
    | ImageError           // any other failure of the image decoder

  datatype Result<+T> = Ok(value: T) | Err(error: Fault) {
    predicate IsFailure() { Err? }

    function PropagateFailure<U>(): Result<U>
      requires Err?
    {
      Err(error)
    }

    function Extract(): T
      requires Ok?
    {
      value
    }
  }

  /** The result of an operation that returns nothing but may throw. */
  type Status = Result<()>

  /** File contents and metadata values, as raw bytes. */
  newtype Byte = b: int | 0 <= b < 0x100
  type Bytes = seq<Byte>
}
