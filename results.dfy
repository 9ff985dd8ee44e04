/** Optional values and the two failures a view's indexer can report. */
module Results {

  datatype Option<+T> = None | Some(value: T)

  /** The exceptions a view's members throw. */
  datatype Failure =
    | ArgumentOutOfRange   // index outside [0, Count)
    | NotInitializedYet    // a deferred view read before its container arrived
    | DestinationTooShort  // CopyTo into an array without room for every item

  datatype Result<+T> = Ok(value: T) | Err(failure: Failure)

  /** The indexer of a .NET list: the item at `index`, or an out-of-range failure. */
  function ItemAt<T>(s: seq<T>, index: int): Result<T>
  {
    if 0 <= index < |s| then Ok(s[index]) else Err(ArgumentOutOfRange)
  }
}
