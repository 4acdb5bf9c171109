/** The Python exceptions that the modelled code raises or lets propagate.
    Every fallible operation returns a `Result` whose failure is one of these. */
module Exceptions {

  /** Why `BasePDU.decode_bytes` rejected a frame header. */
  datatype FrameFault =
    | BadTransactionId(tid: int)
    | BadProtocolId(pid: int)
    | BadLength(headerLength: int, remaining: int)
    | BadUnitId(uid: int)

  datatype Exception =
    | ValueError
    | KeyError
    | IndexError
    | TypeError
    | OverflowError
    | AttributeError
    | AssertionError
    | NotImplementedError
      /** `InvalidPduState(message)` from the message constructors. */
    | InvalidPduState(message: string)
      /** `InvalidFrame(message, data)` from the header checks. */
    | InvalidFrame(fault: FrameFault)
      /** The payload decoder was asked for more bytes than the frame holds. */
    | Truncated
}
