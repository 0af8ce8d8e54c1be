/**
 * What cobs_encode (cobs.c) produces, as functions on sequences.
 *
 * The encoder keeps a pending block: a reserved code byte followed by the
 * data bytes copied since then. EncodeFrom(q, run) is everything the encoder
 * emits from the moment the pending block holds the data bytes `run` and the
 * payload still to be read is `q`, starting with the pending block's code
 * byte. Each branch is one branch of the encoder's loop.
 */
module Encoding {
  import opened Bytes

  /** Data bytes in a full block; such a block gets code 255 (COBS_BLOCK_SIZE). */
  const FullRun: nat := 254

  function EncodeFrom(q: seq<byte>, run: seq<byte>): (e: seq<byte>)
    requires |run| <= FullRun
    ensures |e| >= |q| + |run| + 1
    ensures |run| + 1 <= e[0] as int
    ensures e[1..|run| + 1] == run
    decreases |q|, |run|
  {
    if |q| == 0 then
      // frame end: the pending code counts the run and the code byte itself
      [(|run| + 1) as byte] + run
    else if |run| == FullRun then
      // block full: code 255, no payload byte consumed
      [255] + run + EncodeFrom(q, [])
    else if q[0] == 0 then
      // payload zero: not copied, it closes the block
      [(|run| + 1) as byte] + run + EncodeFrom(q[1..], [])
    else
      var e' := EncodeFrom(q[1..], run + [q[0]]);
      assert e'[1..|run| + 1] == (run + [q[0]])[..|run|];
      e'
  }

  /**
   * The complete frame for payload p: blocks, then the 0x00 terminator. It
   * is at least two bytes longer than the payload, and starts with a code
   * byte counting at least itself.
   */
  function Frame(p: seq<byte>): (f: seq<byte>)
    ensures |f| >= |p| + 2 && f[|f| - 1] == 0 && f[0] >= 1
  {
    EncodeFrom(p, []) + [0]
  }

  /**
   * Position, within EncodeFrom(q, run), of the code byte of the last block:
   * the byte the encoder patches just before writing the terminator.
   */
  function FinalCodePos(q: seq<byte>, run: seq<byte>): (pos: nat)
    requires |run| <= FullRun
    ensures pos < |EncodeFrom(q, run)|
    ensures EncodeFrom(q, run)[pos] as int == |EncodeFrom(q, run)| - pos
    decreases |q|, |run|
  {
    if |q| == 0 then 0
    else if |run| == FullRun then
      var pos := FinalCodePos(q, []);
      assert EncodeFrom(q, run) == [255] + run + EncodeFrom(q, []);
      BlockShift(EncodeFrom(q, run), 255, run, EncodeFrom(q, []), pos);
      |run| + 1 + pos
    else if q[0] == 0 then
      var pos := FinalCodePos(q[1..], []);
      assert EncodeFrom(q, run) == [(|run| + 1) as byte] + run + EncodeFrom(q[1..], []);
      BlockShift(EncodeFrom(q, run), (|run| + 1) as byte, run, EncodeFrom(q[1..], []), pos);
      |run| + 1 + pos
    else
      assert EncodeFrom(q, run) == EncodeFrom(q[1..], run + [q[0]]);
      FinalCodePos(q[1..], run + [q[0]])
  }

  /** Position k of rest, behind a block [c] + run, is position |run| + 1 + k of the whole. */
  lemma BlockShift(x: seq<byte>, c: byte, run: seq<byte>, rest: seq<byte>, k: nat)
    requires x == [c] + run + rest && k < |rest|
    ensures |run| + 1 + k < |x| && x[|run| + 1 + k] == rest[k]
    ensures |x| - (|run| + 1 + k) == |rest| - k
  {
  }

  /**
   * A pending block closed by a payload zero: its code byte |run| + 1 and
   * the run, then the blocks of the rest, whose last code position is
   * shifted by the block's length.
   */
  lemma ZeroBlockSplit(q: seq<byte>, run: seq<byte>)
    requires |run| < FullRun && |q| > 0 && q[0] == 0
    ensures EncodeFrom(q, run) == [(|run| + 1) as byte] + run + EncodeFrom(q[1..], [])
    ensures FinalCodePos(q, run) == |run| + 1 + FinalCodePos(q[1..], [])
  {
  }

  /**
   * The value cobs_encode returns, as written, for payload p and an output
   * buffer whose contents before the call are buf. The success test reads
   * the byte at the last pending code position; when the buffer fills exactly
   * as the payload runs out, that byte was never written by this call.
   */
  function EncodeReturn(p: seq<byte>, buf: seq<byte>): (ret: nat)
    requires |buf| >= 1 || |p| >= 1
    ensures ret == 0 || ret == |Frame(p)| || ret == |buf| == |Frame(p)| - 1
    ensures ret <= |buf|
    ensures |Frame(p)| <= |buf| ==> ret == |Frame(p)|
  {
    var n := |Frame(p)|;
    if n <= |buf| then n
    else if n == |buf| + 1 && buf[FinalCodePos(p, [])] == 0 then |buf|
    else 0
  }

  /**
   * The value the success test is meant to give: the frame length when the
   * terminator was written, 0 when the buffer is too small.
   */
  function EncodedLength(p: seq<byte>, cap: nat): (n: nat)
    ensures n == 0 || |p| + 2 <= n == |Frame(p)| <= cap
    ensures n == 0 <==> cap < |Frame(p)|
  {
    if |Frame(p)| <= cap then |Frame(p)| else 0
  }

  /**
   * The success test as written departs from the intended one exactly when
   * the frame is one byte longer than the buffer and the buffer already held
   * 0x00 at the last code position; it then reports the buffer length.
   */
  lemma EncodeReturnStale(p: seq<byte>, buf: seq<byte>)
    requires |buf| >= 1 || |p| >= 1
    ensures EncodeReturn(p, buf) != EncodedLength(p, |buf|) <==>
      |Frame(p)| == |buf| + 1 && buf[FinalCodePos(p, [])] == 0
    ensures EncodeReturn(p, buf) != EncodedLength(p, |buf|) ==>
      EncodeReturn(p, buf) == |buf| && EncodedLength(p, |buf|) == 0
  {
  }

  /** A non-zero byte joins the pending run without moving the last code position. */
  lemma FinalCodePosData(q: seq<byte>, run: seq<byte>)
    requires |q| > 0 && q[0] != 0 && |run| < FullRun
    ensures FinalCodePos(q, run) == FinalCodePos(q[1..], run + [q[0]])
  {
  }

  /**
   * Non-zero bytes that fill the pending block and spill one byte over: the
   * block gets code 255 and the spilled byte's block, the last one, has its
   * code byte 255 positions after the pending code byte.
   */
  lemma {:induction false} FinalCodePosFullBlock(q: seq<byte>, run: seq<byte>)
    requires NonZero(q) && |run| <= FullRun && |q| + |run| == FullRun + 1
    ensures FinalCodePos(q, run) == FullRun + 1
    decreases |q|
  {
    if |run| == FullRun {
      assert FinalCodePos(q, run) == FullRun + 1 + FinalCodePos(q, []);
      FinalCodePosData(q, []);
      assert q[1..] == [];
    } else {
      assert q[0] != 0;
      FinalCodePosData(q, run);
      FinalCodePosFullBlock(q[1..], run + [q[0]]);
    }
  }

  /** A pending run of only non-zero bytes yields only non-zero block bytes. */
  lemma {:induction false} EncodeFromNonZero(q: seq<byte>, run: seq<byte>)
    requires |run| <= FullRun && NonZero(run)
    ensures NonZero(EncodeFrom(q, run))
    decreases |q|, |run|
  {
    if |q| == 0 {
    } else if |run| == FullRun {
      EncodeFromNonZero(q, []);
    } else if q[0] == 0 {
      EncodeFromNonZero(q[1..], []);
    } else {
      EncodeFromNonZero(q[1..], run + [q[0]]);
    }
  }

  /** Every frame is non-zero up to its last byte, which is the 0x00 terminator. */
  lemma FrameShape(p: seq<byte>)
    ensures |Frame(p)| >= 2
    ensures NonZero(Frame(p)[..|Frame(p)| - 1])
    ensures Frame(p)[|Frame(p)| - 1] == 0
  {
    EncodeFromNonZero(p, []);
    assert Frame(p)[..|Frame(p)| - 1] == EncodeFrom(p, []);
  }

  /** A payload of only non-zero bytes that fits the pending block closes it. */
  lemma {:induction false} EncodeFromRun(q: seq<byte>, run: seq<byte>)
    requires |run| + |q| <= FullRun && NonZero(q)
    ensures EncodeFrom(q, run) == [(|run| + |q| + 1) as byte] + run + q
    decreases |q|
  {
    if |q| > 0 {
      EncodeFromRun(q[1..], run + [q[0]]);
      assert run + [q[0]] + q[1..] == run + q;
    }
  }

  /** Non-zero bytes that fit in the pending block are simply appended to it. */
  lemma {:induction false} EncodeFromAppend(q: seq<byte>, s: seq<byte>, run: seq<byte>)
    requires |run| + |q| <= FullRun && NonZero(q)
    ensures EncodeFrom(q + s, run) == EncodeFrom(s, run + q)
    decreases |q|
  {
    if |q| == 0 {
      assert q + s == s;
      assert run + q == run;
    } else {
      assert (q + s)[0] == q[0] && (q + s)[1..] == q[1..] + s;
      EncodeFromAppend(q[1..], s, run + [q[0]]);
      assert run + [q[0]] + q[1..] == run + q;
    }
  }

  /**
   * Block view of the frame, part 1: the last block. At most 254 non-zero
   * bytes with nothing after them become one block of code |p| + 1.
   */
  lemma FrameLastBlock(p: seq<byte>)
    requires |p| <= FullRun && NonZero(p)
    ensures Frame(p) == [(|p| + 1) as byte] + p + [0]
  {
    EncodeFromRun(p, []);
  }

  /**
   * Block view, part 2: k < 254 non-zero bytes followed by a payload zero
   * become a block of code k + 1; the zero itself is not copied.
   */
  lemma FrameZeroBlock(p: seq<byte>, k: nat)
    requires k < FullRun && k < |p| && NonZero(p[..k]) && p[k] == 0
    ensures Frame(p) == [(k + 1) as byte] + p[..k] + Frame(p[k + 1..])
  {
    assert p == p[..k] + p[k..];
    EncodeFromAppend(p[..k], p[k..], []);
    assert p[k..][0] == 0 && p[k..][1..] == p[k + 1..];
  }

  /**
   * Block view, part 3: 254 non-zero bytes with more payload after them
   * become a full block of code 255, and encoding resumes at byte 254 itself:
   * the block is closed without consuming a payload byte.
   */
  lemma FrameFullBlock(p: seq<byte>)
    requires |p| > FullRun && NonZero(p[..FullRun])
    ensures Frame(p) == [255] + p[..FullRun] + Frame(p[FullRun..])
  {
    assert p == p[..FullRun] + p[FullRun..];
    EncodeFromAppend(p[..FullRun], p[FullRun..], []);
  }
}
