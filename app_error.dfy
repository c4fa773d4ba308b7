/** The error type every Tauri command returns (`AppError` in src-tauri/src/error.rs). */
module AppErrors {

  /** The kind of operating-system failure behind an `Io` error. */
  datatype IoKind = NotFound | IsADirectory | NotADirectory | DirectoryNotEmpty | InvalidInput | InvalidData

  datatype AppError =
    | Io(kind: IoKind)
    | PathValidation(message: string)
    | PathTraversal
    | NotADirectory(path: string)
    | FileTooLarge(size: nat, max: nat)
      /** Only compiled on macOS. */
    | Ime(message: string)
}
