/** Optional values and the outcome of a call that may panic. */
module Failures {

  datatype Option<T> = None | Some(value: T)

  /** The conditions on which the Go server panics instead of returning. */
  datatype Fatal =
    | CorruptRecord(segment: string)   // a segment line that does not decode
    | CreateFailed(segment: string)    // os.Create of a new segment failed
    | PersistFailed(segment: string)   // writing or syncing the segment failed
    | ManifestSyncFailed               // syncing the manifest after the append failed
    | MkdirFailed                      // creating the data directory failed
    | ManifestCreateFailed             // creating a fresh manifest failed
    | ManifestOpenFailed               // an existing data directory has no openable manifest

  /**
   * Either the call returned normally with a value, or it panicked. A panic
   * in a request handler ends only that request (net/http recovers it) and
   * leaves the state reached so far; a panic during start-up ends the process.
   */
  datatype Outcome<T> = Ok(value: T) | Panic(cause: Fatal)
}
