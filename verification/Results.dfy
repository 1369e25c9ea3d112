/** Optional values and the result codes of driver calls. */
module Results {

  datatype Option<+T> = None | Some(value: T)

  /** A call succeeded, found the pipe or the codec busy, was made before the device
      was ready, or failed. */
  datatype Status = Success | Busy | NotReady | Failed(code: int)
}
