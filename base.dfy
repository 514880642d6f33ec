/** Shared wrappers: an optional value, and the outcome of an operation that
    may abort the process (a Rust `panic!`, an `assert_eq!` that does not hold
    or an `unwrap` of an error). */
module Base {

  datatype Option<+T> = None | Some(value: T)

  /** The reasons for which the library aborts instead of returning a status. */
  datatype Panic =
    | NoTickTicked          // a `NoTick` test stub was ticked
    | DroppedUnticked       // a `YesTick` test stub was dropped without a tick
    | WorkerDisconnected    // an `Action` poll found the worker's channel closed
    | ResetRecvFailed       // an `Action` reset waited on a channel that yields nothing
    | AssertionFailed       // the sanity `assert_eq!` of the old selector or sequence

  /** Either a value or the panic that ended the computation. */
  datatype Result<+T> = Ok(value: T) | Fatal(panic: Panic)
}
