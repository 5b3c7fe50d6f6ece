/** Error reporting of aids.hpp: an `Errno` wraps a C errno code, and
    `Result` / `Status` stand for `Result<T, Errno>` and `Result<void, Errno>`. */
module Errors {

  /** An errno value, as `aids::Errno` carries it. */
  datatype Errno = Errno(code: int)

  /** ENOMEM ("Cannot allocate memory"), with its Linux value. */
  const ENOMEM: Errno := Errno(12)

  /** `Result<T, Errno>`: either a value or an error. */
  datatype Result<T> = Ok(value: T) | Err(error: Errno)

  /** `Result<void, Errno>`: success without a value, or an error. */
  datatype Status = Done | Failed(error: Errno)
}
