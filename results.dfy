/**
 * Error values and the result wrappers shared by every module of the model.
 * Go's `error` return is modelled by `Result` (a value or an error) and by
 * `Option<Error>` where a function returns only an error.
 */
module Results {

  /** The errors the core can report. */
  datatype Error =
    /** `ErrPackageFieldRequired`: the control stanza has no "Package". */
    | PackageFieldRequired
    /** `ErrPackageFieldMultiple`: "Package" occurs more than once. */
    | PackageFieldMultiple
    /** A malformed container, a corrupt gzip header or a failed read,
        reported by one of the decoding libraries. */
    | FormatError(reason: string)

  datatype Option<+T> = None | Some(value: T)

  datatype Result<+T> = Ok(value: T) | Err(error: Error)
}
