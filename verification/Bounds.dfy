/** The caps and the closed error set shared by the protocol modules
    (crates/gaze-lens-protocol/src/bounds.rs and lib.rs). */
module Bounds {
  import opened Wrappers

  newtype byte = b: int | 0 <= b < 256
  type bytes = seq<byte>

  const FRAME_BYTES: nat := 1_048_576
  const REQUEST_BYTES: nat := 65_536
  const RESULT_BYTES: nat := 131_072
  const SCALAR_BYTES: nat := 8192
  const MAX_DEPTH: nat := 32
  const MAX_NODES: nat := 16_384
  const MAX_PRINCIPAL_CALLS: nat := 2

  datatype Error =
    | InvalidRequest
    | Unauthorized
    | UnsupportedVersion
    | UnsupportedOperation
    | Unavailable
    | CapExceeded
    | Timeout
    | BindingChanged
    | InternalFailure

  /** The crate's `Result<T>`. */
  type Result<+T> = Outcome<T, Error>

  function Require(ok: bool): Result<()> {
    if ok then Ok(()) else Err(InvalidRequest)
  }

  function Cap(size: nat, max: nat): Result<()> {
    if size <= max then Ok(()) else Err(CapExceeded)
  }
}
