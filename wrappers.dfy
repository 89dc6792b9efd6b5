/**
 * Result shapes shared by the whole model. Go returns `(value, error)` or a
 * bare `error`; here the value and the error are one datatype.
 */
module Wrappers {

  datatype Option<+T> = None | Some(value: T)

  /** The errors the core can return. */
  datatype Error =
      /** A validation error, with the message the source builds with fmt.Errorf. */
    | Invalid(message: string)
      /** pgx.ErrNoRows: QueryRow found no row for the key. */
    | NoRows
      /** Any failed round trip, scan or cursor error reported by the driver. */
    | StoreFailure

  /** `(T, error)` */
  datatype Result<+T> = Ok(value: T) | Err(error: Error)

  /** A bare `error` return: nil (Pass) or an error (Fail). */
  datatype Outcome = Pass | Fail(error: Error)
}
