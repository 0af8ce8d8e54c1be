/**
 * Frame lengths against the sizing macros of cobs.h.
 *
 * COBS_ENCODE_OUT_SIZE_MIN is exact up to 254 payload bytes but falls short
 * of the worst case for some longer payloads, the first being 255 bytes.
 * EncodeSizeBound is the worst case itself: one code byte per started block
 * of 254 bytes, plus the terminator.
 */
module Bounds {
  import opened Bytes
  import opened Sizes
  import opened Encoding
  import opened Decoding

  /** Longest frame for n payload bytes: n + 1 + ceil(n / 254), and 2 for n = 0. */
  function EncodeSizeBound(n: nat): nat {
    if n == 0 then 2 else n + 1 + (n + 253) / 254
  }

  lemma {:induction false} EncodeFromLength(q: seq<byte>, run: seq<byte>)
    requires |run| <= FullRun
    ensures var m := |q| + |run|;
            |EncodeFrom(q, run)| <= if m == 0 then 1 else m + (m + 253) / 254
    decreases |q|, |run|
  {
    if |q| == 0 {
    } else if |run| == FullRun {
      EncodeFromLength(q, []);
    } else if q[0] == 0 {
      EncodeFromLength(q[1..], []);
    } else {
      EncodeFromLength(q[1..], run + [q[0]]);
    }
  }

  /** Every frame is at least two bytes longer than its payload and at most EncodeSizeBound. */
  lemma FrameLength(p: seq<byte>)
    ensures |p| + 2 <= |Frame(p)| <= EncodeSizeBound(|p|)
  {
    EncodeFromLength(p, []);
  }

  lemma {:induction false} EncodeFromShortLength(q: seq<byte>, run: seq<byte>)
    requires |q| + |run| <= FullRun
    ensures |EncodeFrom(q, run)| == |q| + |run| + 1
    decreases |q|
  {
    if |q| > 0 {
      if q[0] == 0 {
        EncodeFromShortLength(q[1..], []);
      } else {
        EncodeFromShortLength(q[1..], run + [q[0]]);
      }
    }
  }

  /**
   * Up to 254 payload bytes, whatever they are, the frame is exactly two
   * bytes longer, which is what COBS_ENCODE_OUT_SIZE_MIN gives.
   */
  lemma ShortFrameLength(p: seq<byte>)
    requires |p| <= FullRun
    ensures |Frame(p)| == |p| + 2 == EncodeOutSizeMin(|p|)
  {
    EncodeFromShortLength(p, []);
  }

  /** A payload without zero bytes reaches the bound exactly: the bound is the worst case. */
  lemma {:induction false} NonZeroFrameLength(p: seq<byte>)
    requires NonZero(p)
    ensures |Frame(p)| == EncodeSizeBound(|p|)
    decreases |p|
  {
    if |p| <= FullRun {
      FrameLastBlock(p);
    } else {
      FrameFullBlock(p);
      NonZeroFrameLength(p[FullRun..]);
    }
  }

  /** n zero bytes become n + 1 blocks of code 1 and the terminator. */
  lemma {:induction false} ZerosFrame(n: nat)
    ensures Frame(seq(n, _ => 0)) == seq(n + 1, _ => 1) + [0]
    ensures |Frame(seq(n, _ => 0))| == n + 2
    decreases n
  {
    var p: seq<byte> := seq(n, _ => 0);
    if n == 0 {
      FrameLastBlock(p);
    } else {
      FrameZeroBlock(p, 0);
      ZerosFrame(n - 1);
      assert p[1..] == seq(n - 1, _ => 0);
      assert [1 as byte] + seq(n, _ => 1) == seq(n + 1, _ => 1);
    }
  }

  /**
   * COBS_ENCODE_OUT_SIZE_MIN is too small for 255 non-zero bytes: it gives
   * 257, the frame needs 258.
   */
  lemma EncodeOutSizeMinTooSmall(p: seq<byte>)
    requires |p| == 255 && NonZero(p)
    ensures EncodeOutSizeMin(|p|) == 257
    ensures |Frame(p)| == 258
  {
    NonZeroFrameLength(p);
  }

  /**
   * The payload lengths n for which COBS_ENCODE_OUT_SIZE_MIN(n) is at least
   * the worst-case frame length: ceil(n / 254) <= 1 + floor(n / 256).
   */
  predicate MacroCovers(n: nat) {
    n == 0 || (n + 253) / 254 <= 1 + n / 256
  }

  /** Where MacroCovers holds, every payload of that length fits the macro. */
  lemma EncodeOutSizeMinCovers(p: seq<byte>)
    requires MacroCovers(|p|)
    ensures |Frame(p)| <= EncodeOutSizeMin(|p|)
  {
    FrameLength(p);
  }

  /** Where MacroCovers fails, a payload without zero bytes overflows the macro. */
  lemma EncodeOutSizeMinShortfall(p: seq<byte>)
    requires !MacroCovers(|p|) && NonZero(p)
    ensures |Frame(p)| > EncodeOutSizeMin(|p|)
  {
    NonZeroFrameLength(p);
  }

  /**
   * The macro covers every length up to 254 and from 256 to 508 (65, 256 and
   * 333 among them), and fails at 255 and at 509 to 511.
   */
  lemma MacroCoversRanges(n: nat)
    ensures n <= 254 || 256 <= n <= 508 ==> MacroCovers(n)
    ensures n == 255 || 509 <= n <= 511 ==> !MacroCovers(n)
  {
    if 1 <= n <= 254 {
      assert (n + 253) / 254 == 1;
    } else if 256 <= n <= 508 {
      assert (n + 253) / 254 == 2 && n / 256 == 1;
    } else if n == 255 {
      assert (n + 253) / 254 == 2 && n / 256 == 0;
    } else if 509 <= n <= 511 {
      assert (n + 253) / 254 == 3 && n / 256 == 1;
    }
  }

  /**
   * A buffer of EncodeSizeBound(|p|) bytes always suffices: the encoder
   * returns the whole frame, whatever the buffer held before.
   */
  lemma EncodeFitsBound(p: seq<byte>, buf: seq<byte>)
    requires |buf| >= EncodeSizeBound(|p|)
    ensures EncodeReturn(p, buf) == |Frame(p)| == EncodedLength(p, |buf|)
  {
    FrameLength(p);
  }

  /**
   * A decode buffer of COBS_DECODE_OUT_SIZE_MIN bytes, for a frame whose
   * buffer was sized by either encode bound, holds the payload.
   */
  lemma DecodeSizeCoversPayload(n: nat)
    ensures DecodeOutSizeMin(EncodeOutSizeMin(n)) >= n
    ensures DecodeOutSizeMin(EncodeSizeBound(n)) >= n
  {
  }

  /**
   * Decoding a frame into COBS_DECODE_OUT_SIZE_MIN(frame length) bytes gives
   * back the payload.
   */
  lemma RoundTripWithDecodeSize(p: seq<byte>)
    ensures Decoded(Frame(p), DecodeOutSizeMin(|Frame(p)|)) == Some(p)
  {
    FrameLength(p);
    RoundTrip(p, DecodeOutSizeMin(|Frame(p)|));
  }
}
