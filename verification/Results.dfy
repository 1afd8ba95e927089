/** Results and the error classes the service distinguishes. */
module Results {

  datatype Option<+T> = None | Some(value: T)

  /**
   * `StoreStatus` is the store's own status error, which unwraps to `Unavailable`; `Rejected` is an
   * event the consumer cannot use.
   */
  datatype Error = InvalidArgument | NotFound | Forbidden | Unavailable | StoreStatus(status: int) | Rejected

  datatype Result<+T> = Ok(value: T) | Err(error: Error)
}
