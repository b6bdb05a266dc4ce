/** Option and Result wrappers shared by every module of the model, and the
    error kinds that the three versions of the event reader can raise. */
module Base {

  datatype Option<+T> = None | Some(value: T)

  /** Every way a call to get_events can fail instead of returning a list. */
  datatype Error =
    | Truncated          // struct.unpack_from found fewer than 16 bytes at the cursor
    | NameUndecodable    // the filesystem codec rejected a name payload
    | SelectFailed       // the readiness wait raised / select(2) returned < 0
    | ReadFailed         // os.read raised / read(2) returned < 0
    | BufferTooSmall     // read(2) returned 0 (the C binding's "event buffer too small")
    | OutOfBounds        // the C code would access memory past its static buffer
    | CursorOverflow     // the C code's int cursor would exceed INT_MAX
    | BadArgument        // PyArg_ParseTuple refused an argument (a C int out of range)
    | AttributeMissing   // an import-time attribute lookup raised AttributeError

  datatype Result<+T> = Ok(value: T) | Err(error: Error) {
    predicate IsFailure() { Err? }

    function PropagateFailure<U>(): Result<U>
      requires Err?
    {
      Err(error)
    }

    function Extract(): T
      requires Ok?
    {
      value
    }
  }
}
