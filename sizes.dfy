/**
 * The two buffer-sizing macros of cobs.h. What they are worth as bounds on
 * real frames is proved in module Bounds.
 */
module Sizes {

  /**
   * COBS_ENCODE_OUT_SIZE_MIN: the encode buffer size the header recommends,
   * the payload plus two bytes plus one byte per 256 payload bytes.
   */
  function EncodeOutSizeMin(n: nat): (m: nat)
    ensures m >= n + 2
    ensures n < 256 ==> m == n + 2
  {
    if n == 0 then 2 else n + 2 + n / 256
  }

  /**
   * COBS_DECODE_OUT_SIZE_MIN: the decode buffer size the header recommends,
   * the frame length less its first code byte and its terminator.
   */
  function DecodeOutSizeMin(n: nat): (m: nat)
    ensures m <= n
    ensures n >= 2 ==> m + 2 == n
  {
    if n < 3 then 0 else n - 2
  }
}
