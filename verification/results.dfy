/** Failure-compatible result type shared by the encoder and the decoder.
    The C# code throws one of two exception types; the model returns the
    cause of the failure instead, so that every error path is a value. */
module Results {

  /** Why an encode or decode call failed. */
  datatype Error =
    // encoding (BsfSerializationException)
    | NotWritable        // the sink cannot be written
    | NotSeekable        // a collection or class needs a seekable sink
    | Unsupported        // no dispatch rule matches the type
    | Unreachable        // WriteHeader met a header width it has no case for
    // decoding (BsfDeserializationException and BitConverter failures)
    | NotReadable        // the source cannot be read
    | EndOfStream        // fewer bytes left than the header promises
    | KindMismatch       // the mark is outside the band the target expects
    | NegativeLength     // an 8-byte length header is negative as a signed long
    | ManyPreferred      // more than one constructor is marked preferred
    | NoConstructor      // the class has no public constructor
    | ParamCountMismatch // entry count differs from the constructor's arity
    | UnknownParam       // an entry name matches no constructor parameter
    | ShortPrimitive     // fewer payload bytes than the primitive's width
    | InvalidCast        // a decoded object does not unbox to the target type

  datatype Result<+T> = Ok(value: T) | Err(error: Error) {

    predicate IsFailure() {
      Err?
    }

    function PropagateFailure<U>(): Result<U>
      requires Err?
    {
      Err(error)
    }

    function Extract(): T
      requires Ok?
    {
      value
    }
  }

  datatype Option<+T> = None | Some(value: T)
}
