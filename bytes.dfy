/** Bytes as the codec sees them: unsigned 8-bit values (uint8_t). */
module Bytes {

  newtype byte = x: int | 0 <= x < 256

  /** No byte of s is 0x00, the value COBS removes from the payload. */
  predicate NonZero(s: seq<byte>) {
    forall k :: 0 <= k < |s| ==> s[k] != 0
  }
}
