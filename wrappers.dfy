/** Optional values and results shared by every module of the model. */
module Wrappers {

  /** A value that may be missing: a NaN or NaT table cell, or a failed lookup. */
  datatype Option<+T> = None | Some(value: T) {

    /** The value, or `default` when it is missing (pandas `fillna(default)` on one cell). */
    function GetOr(default: T): T
    {
      match this
      case Some(v) => v
      case None => default
    }
  }

  /** The failures `load_and_merge_data` raises instead of returning a table. */
  datatype Error =
    | MissingColumn(name: string)
      // a column that is read but absent (pandas KeyError)
    | DuplicateColumns(names: seq<string>)
      // the merge suffix would give two columns one name (pandas MergeError)

  datatype Result<+T> = Ok(value: T) | Err(error: Error)
}
