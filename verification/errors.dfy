/** Error values and the failure oracle shared by every part of the model.

    Every filesystem primitive the writer calls is identified by an `Op`.  A
    failure oracle is a set of operations: an operation in the set fails with
    kind `Injected` (an I/O failure that is not "does not exist"), any other
    operation behaves as the abstract filesystem dictates.
 */
module Errors {

  datatype Option<+T> = None | Some(value: T)

  /** The reasons a payload path is rejected, in the order they are checked. */
  datatype PathError =
    | Empty
    | Absolute
    | TooLong
    | DotDotElement
    | NameTooLong
    | ReservedPrefix

  /** The operations an error can come from: the validation of a payload
      key, and the filesystem primitives with the path (relative to the
      target directory) they act on. */
  datatype Op =
    | Validate(path: string)
    | ReadlinkOp(path: string)
    | SymlinkOp(link: string, target: string)
    | RenameOp(src: string, dst: string)
    | RemoveOp(path: string)
    | RemoveAllOp(path: string)
    | MkdirAllOp(path: string)
    | MkdirTempOp(name: string)
    | WriteFileOp(path: string)
    | ChmodOp(path: string)
    | ReadFileOp(path: string)
    | StatOp(path: string)

  datatype ErrKind =
    | Injected
    | NotExist
    | Exist
    | IsDir
    | NotDir
    | NotEmpty
    | NotLink
    | NotRegular
    | InvalidPath(reason: PathError)

  datatype Error = Error(op: Op, kind: ErrKind)

  datatype Res<+T> = Ok(value: T) | Err(error: Error)

  /** `os.IsNotExist`. */
  predicate IsNotExist(e: Error) {
    e.kind == NotExist
  }
}
