/** Result and option types for the decoder. Every way a decode can fail in the
    scripts is a bitstring interpretation error; they are listed here. */
module Results {

  /** The interpretation errors the bit-string library raises while decoding. */
  datatype DecodeError =
    | EmptyInterpretation          // `.uint` / `.int` of a zero-length bit string
    | UnsupportedFloatWidth(width: nat)  // `.float` of a chunk that is not 32 or 64 bits
    | NotWholeBytes(width: nat)    // `.bytes` of a chunk whose length is not a multiple of 8

  datatype Result<+T> = Ok(value: T) | Err(error: DecodeError)

  datatype Option<+T> = None | Some(value: T)
}
