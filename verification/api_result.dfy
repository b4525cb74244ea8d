/** The response shapes of the simulated REST layer.

    Every API call either resolves with a `StatusResponse` carrying a status
    code and data, or rejects with a `{status, message}` object.  Latency and
    promises are not modelled: a call is one atomic transition.
 */
module ApiResult {

  datatype Option<+T> = None | Some(value: T) {
    /** The value, or `default` when absent: one field of a shallow merge
        `{ ...record, ...patch }`. */
    function GetOr(default: T): T {
      match this
      case Some(v) => v
      case None => default
    }
  }

  /** A resolved call (`Ok`) or a rejected one (`Err`). */
  datatype Result<+T> = Ok(status: int, value: T) | Err(status: int, message: string)

  /** The result of a routine that only reports whether it ran to the end
      (`Done`) or stopped at the first rejected call (`Failed`). */
  datatype Outcome = Done | Failed(status: int, message: string)
}
