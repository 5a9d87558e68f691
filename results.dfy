/** The two exceptions the modelled code can raise, as values. */
module Results {

  datatype Error =
    /** `lut[idx]` with `idx` past the end of a table that is too short. */
    | IndexError(index: int)
    /** `int(s)` on a field that is not a decimal integer literal. */
    | ValueError(literal: string)

  datatype Result<T> = Ok(value: T) | Err(error: Error)
}
