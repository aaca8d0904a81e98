/** Failure-compatible result types for the dataset store, and the errors its
    operations raise. */
module Results {

  /** The exceptions the store's operations can raise. */
  datatype Error =
    /** `current_version:<name>` is unset, so the stored value is None and `.decode` fails. */
    | NoCurrentVersion(name: string)
    /** `save_data` found records already present for (name, version). */
    | VersionExists(name: string, version: string)
    /** A scanned key had no value when it was fetched (`json.loads(None)`). */
    | MissingValue(key: string)
    /** A scanned record key did not split into exactly four `:`-separated parts. */
    | MalformedKey(key: string)
    /** `int(version)` rejected the version segment of a record key. */
    | NotAnInteger(text: string)

  datatype Option<+T> = None | Some(value: T)

  datatype Result<+T> = Ok(value: T) | Err(error: Error) {

    predicate IsFailure() {
      Err?
    }

    function PropagateFailure<U>(): Result<U>
      requires Err?
    {
      Err(error)
    }

    function Extract(): T
      requires Ok?
    {
      value
    }
  }
}
