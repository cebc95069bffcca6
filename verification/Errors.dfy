/** How the image engine's operations fail. */
module Errors {
  datatype Error =
    | InvalidArgument
    | InvalidPath
    | NameTooLong
    | NoSpace
    | NotFound
    | AlreadyExists
    | NotDirectory
    | IsDirectory
    | DirectoryNotEmpty
    | Unsupported
    | Corrupt
}
