/** The uncaught Python exceptions the helper can end with, and the wrappers that carry them. */
module Outcomes {

  /** `FileNotFoundError` from `open`, `ValueError` from `list.index`, `IndexError` from indexing,
      `TypeError` from adding `None` to a string. */
  datatype Exception = FileNotFoundError(path: string) | ValueError | IndexError | TypeError

  datatype Option<T> = None | Some(value: T)

  datatype Result<T> = Ok(value: T) | Err(error: Exception)
}
