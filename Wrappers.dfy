/** Option and Result values shared by every module, and the exception kinds
    the driver raises, as tags. */
module Wrappers {

  datatype Option<+T> = None | Some(value: T)

  /** The exception classes the modelled code raises or lets escape. */
  datatype Error =
    | ValueError       // bad value, truncated data, partial command serialised
    | KeyError         // unknown / missing / skipped constructor parameter
    | InvalidFrame     // signature, crc8 or crc16 mismatch
    | BufferTooShort   // not enough buffered bytes for a frame yet
    | RuntimeError     // request while disconnected
    | AttributeError   // attribute access on None
    | DeliveryError    // packet sent while the API is gone
    | IndexError       // list index past the end

  datatype Result<+T> = Ok(value: T) | Err(error: Error) {
    predicate IsFailure() { Err? }

    function PropagateFailure<U>(): Result<U>
      requires Err?
    {
      Err(error)
    }

    function Extract(): T
      requires Ok?
    {
      value
    }
  }
}
