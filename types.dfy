/** Shared vocabulary of the uTP socket adapter: bytes, the outbound cap,
    the engine's state codes and the opaque session handle. */
module UtpTypes {

  /** `UTP::byte` (utpsocket.h:5), an unsigned char. */
  newtype byte = x: int | 0 <= x < 256

  /** `Socket::MAXBUFFER` (utpsocket.h:10): the most bytes `send` keeps buffered. */
  const MaxBuffer: nat := 65536

  /** An engine session (`struct UTPSocket *`), known to the adapter only by identity. */
  type SessionId = nat

  datatype Option<T> = None | Some(value: T)

  /** The state codes the engine passes to the state-change callback. */
  datatype UtpState = StateConnect | StateWritable | StateEof | StateDestroying

  function Min(a: int, b: int): int
  {
    if a <= b then a else b
  }
}
