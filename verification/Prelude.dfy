/** Result and option types shared by every module, and the error classes of
    the original `Error` enum that the modelled operations can return. */
module Prelude {
  datatype Option<+T> = None | Some(value: T)

  datatype Error =
    | NotFound
    | AlreadyExists
    | PermissionDenied
    | IsADirectory
    | NotADirectory
    | DirectoryNotEmpty
    | InvalidArgument
    | NameTooLong
    | Git
    | Fork
    | Io

  datatype Result<+T> = Ok(value: T) | Err(error: Error)

  /** A byte of file content. */
  newtype byte = b: int | 0 <= b < 256

  type Bytes = seq<byte>

  /** A file path as the list of its components. */
  type Path = seq<string>
}
