/**
 The failures that the ARINC 429 field and parity code raises, as values.
 Each Python exception class becomes one variant of `A429Error`; a call that
 may raise returns a `Result`.
 */
module A429Exception {

  datatype A429Error =
    /** A field definition that does not fit bits 1..32 (A429MsgStructureError) */
    | MsgStructureError(reason: string)
    /** A word or value outside what the field accepts (A429MsgRangeError),
        with the field's name, the bound that was violated and the offending value */
    | MsgRangeError(fieldName: string, bound: int, value: int)
    /** A parity convention other than "odd" or "even" */
    | ConventionError
    /** The parity bit was read before any payload was set (A429NoData) */
    | NoData

  datatype Result<+T> = Ok(value: T) | Err(error: A429Error)
}
