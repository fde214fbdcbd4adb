/** Result types shared by every part of the model: Go's `(T, error)` pairs and the
    outcome of one run of an external command (`rbd`, `ceph`). */
module Outcomes {

  datatype Option<T> = None | Some(value: T)

  /** What one invocation of an external command reports: it succeeded, it exited with a
      non-zero status, or it failed without an exit status (the binary could not be
      started, a pipe broke), which `errors.As(…, &exitError)` does not recognise. */
  datatype RunOutcome = Success | Exit(code: int) | Unrun

  /** The errors the helpers return. `NotFound` is the `api.StatusErrorf(http.StatusNotFound, …)`
      value that `response.IsNotFoundError` recognises; every other kind is a plain error. */
  datatype Error =
    | NotFound(what: string)
    | Command(outcome: RunOutcome)
    | Malformed(what: string)
    | NotMapped(volume: string)
    | ImportFailed(errors: seq<Error>, stderr: string)
    | ScriptExhausted
    | OutOfFuel
  {
    predicate IsNotFound() { NotFound? }
  }

  /** Go's `(T, error)`. */
  datatype Result<T> = Ok(value: T) | Err(error: Error)

  /** Go's bare `error` return: `nil` is `Pass`. */
  datatype Outcome = Pass | Fail(error: Error)
}
