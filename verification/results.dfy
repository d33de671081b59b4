/** Failure-carrying values shared by the note store and the searcher.
    The store signals a missing note or version with `FileNotFoundError`;
    the filesystem itself can refuse a directory creation or a write. */
module Results {

  datatype Option<+T> = None | Some(value: T)

  /** The errors the storage layer can raise.
      - NotFound: `FileNotFoundError` (no such note, version or file);
      - FileExists: `FileExistsError` from `mkdir(exist_ok=True)` over an
        existing plain file;
      - IsADirectory: `IsADirectoryError` from opening a directory for
        writing. */
  datatype Error = NotFound | FileExists | IsADirectory

  datatype Result<+T> = Ok(value: T) | Err(error: Error)
}
