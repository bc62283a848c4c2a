/**
 Shared vocabulary of the transform pipeline: bytes, Go's error returns, and
 the "partial output plus error" shape of Go's streaming readers.
 */
module Types {

  /**
   A Go `byte`. The passphrase, a Go string used only through its bytes, is a
   byte sequence; the base64 text is a Dafny `string` of characters.
   */
  newtype byte = x: int | 0 <= x < 256

  datatype Option<+T> = None | Some(value: T)

  /** The errors the modelled code can return. */
  datatype Error =
    | KeySizeError(size: nat)   // aes.NewCipher: key is not 16, 24 or 32 bytes
    | RandomEof                 // io.ReadFull: the random source delivered nothing
    | RandomUnexpectedEof       // io.ReadFull: the random source stopped part-way
    | CiphertextTooShort        // decrypt: input shorter than the nonce
    | AuthenticationFailed      // gcm.Open: tag mismatch or malformed body

  /** A Go `(value, error)` pair in which exactly one side is meaningful. */
  datatype Result<+T> = Ok(value: T) | Err(error: Error)

  /**
   Go's convention for a `([]byte, error)` result whose error is discarded:
   the failing path returned `nil`, which behaves as the empty slice.
   */
  function ValueOrNil(r: Result<seq<byte>>): (bytes: seq<byte>)
    ensures r.Ok? ==> bytes == r.value
    ensures r.Err? ==> bytes == []
  {
    match r
    case Ok(v) => v
    case Err(_) => []
  }

  /**
   What a Go decoder that streams into a buffer leaves behind: the bytes it
   produced before stopping, and whether it stopped without an error.
   */
  datatype Partial = Partial(data: seq<byte>, ok: bool)
}
