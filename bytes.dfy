/** The unsigned 8-bit value the driver stores in its frames and buffers (Arduino `byte`). */
module Bytes {

  type byte = b: int | 0 <= b < 256

  /** `n` zero bytes: the padding the page-write loop puts after the frame. */
  function Zeros(n: nat): (z: seq<byte>)
    ensures |z| == n
    ensures forall i :: 0 <= i < n ==> z[i] == 0
  {
    seq(n, _ => 0)
  }
}
