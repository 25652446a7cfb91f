/** Failure-carrying values shared by the USB side of the model.

    Python signals failure by raising; every exception the DLPC900 driver can
    raise on the paths modelled here is one variant of `Error`, and an
    operation that may raise returns a `Result`.  An operation that also
    advances the transport or the facade's cached state returns a `Step`:
    its outcome together with the state after it. */
module Results {

  datatype Option<+T> = None | Some(value: T)

  /** Why a `DMDerror` was raised (other than the two raised inside `send_command`). */
  datatype Fault =
    | CannotCommunicate     // check_communication_status
    | MemoryTestFailed      // check_system_status
    | StandbyFailed         // standby read-back did not say "standby"
    | ConnectionFailed      // constructor: get_hardware raised a DMDerror

  datatype Error =
    | PayloadTooLarge       // DMDerror: header + payload over 512 bytes
    | UsbError              // usb.USBError raised by dev.write / dev.read
    | ReplyErrorFlag        // DMDerror: bit 5 of the reply flag byte set
    | IndexError            // Python IndexError (short reply, empty data)
    | KeyError              // Python KeyError (unknown display-mode index)
    | ValueError            // Python ValueError (argument checks)
    | AssertionError        // Python assert on the reply sequence byte
    | UnboundLocal          // Python UnboundLocalError
    | ModeActivationFailed  // ConnectionError("Mode activation failed.")
    | DeviceFault(fault: Fault)

  datatype Result<+T> = Ok(value: T) | Err(error: Error) {
    predicate IsFailure() { Err? }

    function PropagateFailure<U>(): Result<U>
      requires Err?
    {
      Err(error)
    }

    function Extract(): T
      requires Ok?
    {
      value
    }
  }

  /** The outcome of an operation together with the state it leaves behind. */
  datatype Step<+T, S> = Step(result: Result<T>, state: S)
}
