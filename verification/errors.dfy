/**
  The ways a call into the hub driver can fail. The driver reports every failure by throwing one of
  three Java exception classes through its `throwException` helper (or, in one case, by indexing
  past the end of an array); the model returns the failure as a value instead.
 */
module Errors {

  datatype Option<T> = None | Some(value: T)

  /** The Java exception class a failure surfaces as. */
  datatype ExceptionClass = IndexOutOfBounds | IllegalState | Runtime | ArrayIndexOutOfBounds

  datatype HubError =
    | PinOutOfRange          // pin not in 1..12
    | EncoderPortOutOfRange  // encoder port not in 1..6
    | BusOutOfRange          // I2C bus not in 1..3
    | ConfigLocked           // the configuration was already passed to `init`
    | DuplicateDeviceType    // the bus already has a device of the same class
    | AddressConflict        // the bus already has a device at the same I2C address
    | NotInitialized         // no configuration has been passed to `init`
    | PinNotConfigured       // the pin is configured as NONE
    | EncoderNotConfigured   // the encoder port is configured as NONE
    | DeviceNotConfigured    // no device of the requested class on the bus
    | BulkReadTooLong        // the telemetry frame would exceed 100 bytes
    | FirmwareMismatch(major: int, minor: int, patch: int)  // the version bytes the hub reported
    | FrameTooShort          // a one-byte frame that starts with the identity byte
  {
    function Class(): ExceptionClass
    {
      match this
      case PinOutOfRange | EncoderPortOutOfRange | BusOutOfRange => IndexOutOfBounds
      case FirmwareMismatch(_, _, _) => Runtime
      case FrameTooShort => ArrayIndexOutOfBounds
      case _ => IllegalState
    }

    /**
      The class a caller actually sees. `throwException` throws the requested exception inside a
      `try` whose `catch (Exception e)` catches it again and rethrows it wrapped in a
      `RuntimeException`; only the array index failure, raised outside the helper, escapes as is.
     */
    function ThrownClass(): ExceptionClass
    {
      if this == FrameTooShort then ArrayIndexOutOfBounds else Runtime
    }
  }

  /** As written, a caller catching the documented class never catches any failure of the helper. */
  lemma WrappedClassDiffers(e: HubError)
    requires e != FrameTooShort && !e.FirmwareMismatch?
    ensures e.ThrownClass() == Runtime && e.ThrownClass() != e.Class()
  {
  }

  /**
    The documented classes tell the failures apart: an argument out of range is an
    `IndexOutOfBoundsException`, a wrong firmware a `RuntimeException`, a one-byte frame an
    `ArrayIndexOutOfBoundsException`, and every other failure an `IllegalStateException`.
   */
  lemma ClassSeparatesFailures(e: HubError)
    ensures e.Class() == IndexOutOfBounds <==> e in {PinOutOfRange, EncoderPortOutOfRange, BusOutOfRange}
    ensures e.Class() == Runtime <==> e.FirmwareMismatch?
    ensures e.Class() == ArrayIndexOutOfBounds <==> e == FrameTooShort
  {
  }

  datatype Result<T> = Ok(value: T) | Err(error: HubError)
}
