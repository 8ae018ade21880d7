/** Types and constants shared by the sender and the receiver. */
module Wire {

  /** One byte of a file or of the TCP byte stream. */
  type Byte = bv8

  /** MAX_BUFFER_SIZE in both programs: the size of the stack buffer that each
      read from the file (sender) or from the socket (receiver) fills. */
  const MaxBufferSize: nat := 1024

  datatype Option<T> = None | Some(value: T)

  /** The in-order concatenation of a list of chunks: what the byte stream
      carries once chunk boundaries are forgotten. */
  function Flatten(chunks: seq<seq<Byte>>): seq<Byte>
  {
    if chunks == [] then [] else chunks[0] + Flatten(chunks[1..])
  }
}
