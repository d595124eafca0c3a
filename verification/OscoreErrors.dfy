/** The outcome of an OSCORE operation. */
module OscoreErrors {
  import opened Bytes

  /**
   * The error codes of OSCORE that the modelled functions return.  `Undefined` is not one of
   * them: it marks the executions in which C would read or write outside an object, or read a
   * variable that was never written, so that the source says nothing about what follows.
   */
  datatype OscoreError =
    | OutTooLong
    | InvalidAlgorithmAEAD
    | InvalidAlgorithmHKDF
    | KidRecipientIdMismatch
    | AuthenticationError
    | ValueLenTooLong
    | InPktInvalidTKL
    | InPktInvalidOptionDelta
    | InPktInvalidOptionLen
    | InPktInvalidPiv
    | DestBufferTooSmall
    | Undefined

  type Result<+T> = Outcome<T, OscoreError>
}
