/** Shared vocabulary of the transport model: bytes, optional values and errors. */
module Common {

  /** One octet, as Go's `byte`. */
  newtype byte = x: int | 0 <= x < 256

  /** Go's `nil`-or-value, used for pointers and `error` values that may be nil. */
  datatype Option<+T> = None | Some(value: T) {
    function GetOr(default: T): T {
      match this
      case Some(v) => v
      case None => default
    }
  }

  /** A value or the error that replaced it. */
  datatype Result<+R, +E> = Success(value: R) | Failure(error: E)

  /**
   * How a blocking read call ended: with a value, with an error, or not yet
   * (it is still waiting for data that has not arrived).
   */
  datatype Outcome<+T> = Done(value: T) | Fail(error: Error) | Blocked

  /**
   * The errors the core passes around. Their text is irrelevant to the
   * transport; only their identity and where they travel matter.
   *  - EOF: clean end of a stream.
   *  - Context: a cancelled or expired call context, already mapped to a status.
   *  - Transport: any other failure reported by the peer or the connection.
   *  - Io: a failing write or read on a connection buffer.
   *  - Marshal: a serializer failure.
   *  - NotFrameWrite: the output buffer of the gRPC codec cannot write frames.
   */
  datatype Error =
    | EOF
    | Context(cause: nat)
    | Transport(code: nat)
    | Io(code: nat)
    | Marshal(code: nat)
    | NotFrameWrite

  /** 2^32: Go's `uint32` arithmetic wraps modulo this. */
  const Uint32Modulus: nat := 0x1_0000_0000

  /** Sequence concatenation regroups freely. */
  lemma ConcatAssoc<T>(a: seq<T>, b: seq<T>, c: seq<T>)
    ensures (a + b) + c == a + (b + c)
  {}
}
