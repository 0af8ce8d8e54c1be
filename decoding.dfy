/**
 * What cobs_decode (cobs.c) computes, as functions on sequences, and what
 * follows from it: the round trip with the encoder, which frames it accepts,
 * and how long its output can be.
 */
module Decoding {
  import opened Bytes
  import opened Sizes
  import opened Encoding

  datatype Option<T> = None | Some(value: T)

  /** No 0x00 among f[lo], ..., f[hi - 1]. */
  predicate NonZeroBetween(f: seq<byte>, lo: nat, hi: int)
    requires hi <= |f|
  {
    forall k :: lo <= k < hi ==> f[k] != 0
  }

  /**
   * Where the decoder's scan ends: the input position after the last byte it
   * read, the last code value it remembers, the bytes it wrote, and whether it
   * left the loop through its frame-end branch (a 0x00 byte or a full output
   * buffer) rather than by running out of input.
   */
  datatype Scan = Scan(end: nat, last: byte, out: seq<byte>, stopped: bool)

  /**
   * The decoder's loop from input position i, with the next code byte
   * expected at `next`, the previous code value `last` and the bytes written
   * so far `out`, into an output buffer of capacity cap. The second half of
   * the code-byte test at cobs.c:106 (the byte is not 0x00) is implied by the
   * first test at cobs.c:103, so it is not repeated here.
   */
  function DecodeLoop(f: seq<byte>, cap: nat, i: nat, next: nat, last: byte, out: seq<byte>): (s: Scan)
    requires 1 <= i <= |f| && |out| <= cap
    ensures |s.out| <= cap
    decreases |f| - i
  {
    if i == |f| then
      Scan(i, last, out, false)
    else if f[i] != 0 && |out| < cap then
      var s := if i == next then
          // code byte: an implied zero unless the previous block was full
          DecodeLoop(f, cap, i + 1, i + f[i] as int, f[i], if last != 255 then out + [0] else out)
        else
          // data byte: copied
          DecodeLoop(f, cap, i + 1, next, last, out + [f[i]]);
      s
    else
      // frame end: a 0x00 byte, or no room left for a non-zero one
      Scan(i + 1, f[i], out, true)
  }

  /**
   * What any scan s from input index i guarantees: it writes after what was
   * already in out, at most one byte per input byte and never past the
   * buffer; it stops on the first 0x00 or on a non-zero byte that finds the
   * buffer full; without a stop it reads every remaining byte and remembers
   * a non-zero code or the one it started with.
   */
  ghost predicate ScanBounded(f: seq<byte>, cap: nat, i: nat, last: byte, out: seq<byte>, s: Scan)
    requires i <= |f|
  {
    && i <= s.end <= |f| && out <= s.out
    && |s.out| + (if s.stopped then 1 else 0) <= |out| + s.end - i
    && (s.stopped ==> i < s.end && s.last == f[s.end - 1] && NonZeroBetween(f, i, s.end - 1))
    && (s.stopped ==> s.last == 0 || |s.out| == cap)
    && (!s.stopped ==> s.end == |f| && NonZeroBetween(f, i, |f|) && (s.last == last || s.last != 0))
  }

  /** Every scan is bounded. */
  lemma {:induction false} ScanFacts(f: seq<byte>, cap: nat, i: nat, next: nat, last: byte, out: seq<byte>)
    requires 1 <= i <= |f| && |out| <= cap
    ensures ScanBounded(f, cap, i, last, out, DecodeLoop(f, cap, i, next, last, out))
    decreases |f| - i
  {
    if i < |f| && f[i] != 0 && |out| < cap {
      if i == next {
        var out' := if last != 255 then out + [0] else out;
        CodeByteStep(f, cap, i, last, out);
        ScanFacts(f, cap, i + 1, i + f[i] as int, f[i], out');
        ScanExtend(f, cap, i, last, out, f[i], out', DecodeLoop(f, cap, i, next, last, out));
      } else {
        DataByteStep(f, cap, i, next, last, out);
        ScanFacts(f, cap, i + 1, next, last, out + [f[i]]);
        ScanExtend(f, cap, i, last, out, last, out + [f[i]], DecodeLoop(f, cap, i, next, last, out));
      }
    }
  }

  /** A bounded scan from i + 1 that went on from a non-zero byte at i is bounded from i. */
  lemma ScanExtend(f: seq<byte>, cap: nat, i: nat, last: byte, out: seq<byte>, last': byte, out': seq<byte>, s: Scan)
    requires i < |f| && f[i] != 0 && out <= out' && |out'| <= |out| + 1 && (last' == last || last' != 0)
    requires ScanBounded(f, cap, i + 1, last', out', s)
    ensures ScanBounded(f, cap, i, last, out, s)
  {
  }

  /** The whole scan: the first byte is the first code (cobs.c:97-98). */
  function DecodeScan(f: seq<byte>, cap: nat): (s: Scan)
    requires |f| >= 1
    ensures |s.out| <= cap && |s.out| < s.end <= |f|
    ensures s.stopped || s.end == |f|
  {
    ScanFacts(f, cap, 1, f[0] as nat, f[0], []);
    DecodeLoop(f, cap, 1, f[0] as nat, f[0], [])
  }

  /**
   * cobs_decode's success test as written: the scan reached the end of the
   * input and the remembered code is 0x00. The decoded payload is the bytes
   * written; None stands for a return of 0 that is a failure.
   */
  function Decoded(f: seq<byte>, cap: nat): (r: Option<seq<byte>>)
    requires |f| >= 1
    ensures r.Some? ==> |r.value| <= cap && |r.value| < |f|
  {
    var s := DecodeScan(f, cap);
    if s.end == |f| && s.last == 0 then Some(s.out) else None
  }

  /** cobs_decode's return value: the decoded length, or 0. */
  function DecodeReturn(f: seq<byte>, cap: nat): (n: nat)
    requires |f| >= 1
    ensures n <= cap && n < |f|
  {
    if Decoded(f, cap).Some? then |Decoded(f, cap).value| else 0
  }

  /**
   * The success test as its comment describes it: all input decoded and the
   * last input byte 0x00.
   */
  function DecodedChecked(f: seq<byte>, cap: nat): (r: Option<seq<byte>>)
    requires |f| >= 1
    ensures r.Some? ==> f[|f| - 1] == 0 && |r.value| <= DecodeOutSizeMin(|f|)
  {
    if f[|f| - 1] == 0 then
      if Decoded(f, cap).Some? then
        DecodedLengthBound(f, cap);
        Decoded(f, cap)
      else None
    else None
  }

  /**
   * The decoder, positioned right after the code byte and the run of a
   * pending block of EncodeFrom(q, run), with room for q, yields q and stops
   * on the terminator.
   */
  ghost predicate DecodesRest(f: seq<byte>, cap: nat, i: nat, acc: seq<byte>, q: seq<byte>, run: seq<byte>)
    requires |run| <= FullRun && 1 <= i <= |f| && |acc| + |q| <= cap
  {
    var e := EncodeFrom(q, run);
    DecodeLoop(f, cap, i, i + e[0] as int - 1 - |run|, e[0], acc) == Scan(|f|, 0, acc + q, true)
  }

  lemma {:induction false} DecodeBlocks(f: seq<byte>, cap: nat, i: nat, acc: seq<byte>, q: seq<byte>, run: seq<byte>)
    requires |run| <= FullRun && 1 <= i <= |f| && |acc| + |q| <= cap
    requires f[i..] == EncodeFrom(q, run)[|run| + 1..] + [0]
    ensures DecodesRest(f, cap, i, acc, q, run)
    decreases |q|, |run|, 1
  {
    assert f[i] == f[i..][0];
    if |q| == 0 {
      assert f[i..] == [0];
      assert acc + q == acc;
    } else if |run| == FullRun {
      DecodeFullBlock(f, cap, i, acc, q, run);
    } else if q[0] == 0 {
      DecodeZeroBlock(f, cap, i, acc, q, run);
    } else {
      DecodeDataByte(f, cap, i, acc, q, run);
    }
  }

  /** A full block's code 255 is followed by the next code byte, no zero. */
  lemma {:induction false} DecodeFullBlock(f: seq<byte>, cap: nat, i: nat, acc: seq<byte>, q: seq<byte>, run: seq<byte>)
    requires |run| == FullRun && 1 <= i <= |f| && |acc| + |q| <= cap && |q| > 0
    requires f[i..] == EncodeFrom(q, run)[|run| + 1..] + [0]
    ensures DecodesRest(f, cap, i, acc, q, run)
    decreases |q|, |run|, 0
  {
    FullBlockFrame(f, i, q, run);
    CodeByteStep(f, cap, i, 255, acc);
    DecodeBlocks(f, cap, i + 1, acc, q, []);
  }

  /** After a full block, the frame continues with the frame of the same payload from an empty run. */
  lemma FullBlockFrame(f: seq<byte>, i: nat, q: seq<byte>, run: seq<byte>)
    requires |run| == FullRun && 1 <= i <= |f| && |q| > 0
    requires f[i..] == EncodeFrom(q, run)[|run| + 1..] + [0]
    ensures EncodeFrom(q, run)[0] == 255
    ensures i < |f| && f[i] == EncodeFrom(q, [])[0] && f[i + 1..] == EncodeFrom(q, [])[1..] + [0]
  {
    var e := EncodeFrom(q, run);
    assert e == [255] + run + EncodeFrom(q, []);
    BlockTail(f, i, e, 255, run, EncodeFrom(q, []));
  }

  /** A block closed by a payload zero yields that zero at the next code byte. */
  lemma {:induction false} DecodeZeroBlock(f: seq<byte>, cap: nat, i: nat, acc: seq<byte>, q: seq<byte>, run: seq<byte>)
    requires |run| < FullRun && 1 <= i <= |f| && |acc| + |q| <= cap && |q| > 0 && q[0] == 0
    requires f[i..] == EncodeFrom(q, run)[|run| + 1..] + [0]
    ensures DecodesRest(f, cap, i, acc, q, run)
    decreases |q|, |run|, 0
  {
    ZeroBlockFrame(f, i, q, run);
    CodeByteStep(f, cap, i, EncodeFrom(q, run)[0], acc);
    DecodeBlocks(f, cap, i + 1, acc + [0], q[1..], []);
    assert acc + [0] + q[1..] == acc + q;
  }

  /** After a block closed by a payload zero, the frame continues with the frame of the rest. */
  lemma ZeroBlockFrame(f: seq<byte>, i: nat, q: seq<byte>, run: seq<byte>)
    requires |run| < FullRun && 1 <= i <= |f| && |q| > 0 && q[0] == 0
    requires f[i..] == EncodeFrom(q, run)[|run| + 1..] + [0]
    ensures EncodeFrom(q, run)[0] == (|run| + 1) as byte
    ensures i < |f| && f[i] == EncodeFrom(q[1..], [])[0] && f[i + 1..] == EncodeFrom(q[1..], [])[1..] + [0]
  {
    ZeroBlockSplit(q, run);
    BlockTail(f, i, EncodeFrom(q, run), (|run| + 1) as byte, run, EncodeFrom(q[1..], []));
  }

  /** When the block [c] + run has been read up to index i, the bytes from i on are the next blocks and the terminator. */
  lemma BlockTail(f: seq<byte>, i: nat, e: seq<byte>, c: byte, run: seq<byte>, e': seq<byte>)
    requires i <= |f| && |e'| >= 1 && e == [c] + run + e'
    requires f[i..] == e[|run| + 1..] + [0]
    ensures e[0] == c && i < |f| && f[i] == e'[0] && f[i + 1..] == e'[1..] + [0]
  {
    assert e[|run| + 1..] == e';
    assert f[i] == f[i..][0];
    assert f[i + 1..] == f[i..][1..];
  }

  /**
   * One iteration of the decoder on a non-zero byte at the code position: a
   * zero is implied unless the previous code was 255, and the byte becomes
   * the new code.
   */
  lemma CodeByteStep(f: seq<byte>, cap: nat, i: nat, last: byte, out: seq<byte>)
    requires 1 <= i < |f| && |out| < cap && f[i] != 0
    ensures DecodeLoop(f, cap, i, i, last, out) ==
      DecodeLoop(f, cap, i + 1, i + f[i] as int, f[i], if last != 255 then out + [0] else out)
  {
  }

  /** One iteration of the decoder on a non-zero byte away from the code position: it is copied. */
  lemma DataByteStep(f: seq<byte>, cap: nat, i: nat, next: nat, last: byte, out: seq<byte>)
    requires 1 <= i < |f| && |out| < cap && f[i] != 0 && i != next
    ensures DecodeLoop(f, cap, i, next, last, out) == DecodeLoop(f, cap, i + 1, next, last, out + [f[i]])
  {
  }

  /**
   * Inside a block of an encoded frame, a non-zero payload byte is the next
   * byte of the frame, and the rest of the frame is that of the longer run.
   */
  lemma DataByteFrame(f: seq<byte>, i: nat, q: seq<byte>, run: seq<byte>)
    requires |run| < FullRun && 1 <= i <= |f| && |q| > 0 && q[0] != 0
    requires f[i..] == EncodeFrom(q, run)[|run| + 1..] + [0]
    ensures var run' := run + [q[0]];
      && EncodeFrom(q, run) == EncodeFrom(q[1..], run')
      && i < |f| && f[i] == q[0]
      && f[i + 1..] == EncodeFrom(q[1..], run')[|run'| + 1..] + [0]
  {
    var e := EncodeFrom(q, run);
    var run' := run + [q[0]];
    assert e == EncodeFrom(q[1..], run');
    assert e[|run| + 1] == q[0] by {
      assert e[1..|run'| + 1] == run';
      assert run'[|run|] == q[0];
    }
    var x := e[|run| + 1..] + [0];
    SliceHead(f, i, x);
    assert f[i] == q[0];
    assert f[i + 1..] == e[|run'| + 1..] + [0] by { assert x[1..] == e[|run'| + 1..] + [0]; }
  }


  /** Reading one byte off the front of a suffix. */
  lemma SliceHead(f: seq<byte>, i: nat, x: seq<byte>)
    requires i < |f| && f[i..] == x
    ensures f[i] == x[0] && f[i + 1..] == x[1..]
  {
    assert f[i] == f[i..][0];
    assert f[i + 1..] == f[i..][1..];
  }

  /** A non-zero payload byte inside a block is copied. */
  lemma {:induction false} DecodeDataByte(f: seq<byte>, cap: nat, i: nat, acc: seq<byte>, q: seq<byte>, run: seq<byte>)
    requires |run| < FullRun && 1 <= i <= |f| && |acc| + |q| <= cap && |q| > 0 && q[0] != 0
    requires f[i..] == EncodeFrom(q, run)[|run| + 1..] + [0]
    ensures DecodesRest(f, cap, i, acc, q, run)
    decreases |q|, |run|, 0
  {
    var e := EncodeFrom(q, run);
    var run' := run + [q[0]];
    DataByteFrame(f, i, q, run);
    var next := i + e[0] as int - 1 - |run|;
    assert next == i + 1 + e[0] as int - 1 - |run'| && next > i;
    DataByteStep(f, cap, i, next, e[0], acc);
    DecodeBlocks(f, cap, i + 1, acc + [q[0]], q[1..], run');
    assert acc + [q[0]] + q[1..] == acc + q;
  }

  /**
   * A scan that did not stop on a full output buffer runs the same with any
   * larger buffer.
   */
  lemma {:induction false} ScanCapMonotone(f: seq<byte>, cap: nat, cap': nat, i: nat, next: nat, last: byte, out: seq<byte>)
    requires 1 <= i <= |f| && |out| <= cap <= cap'
    requires var s := DecodeLoop(f, cap, i, next, last, out); s.stopped ==> s.last == 0
    ensures DecodeLoop(f, cap', i, next, last, out) == DecodeLoop(f, cap, i, next, last, out)
    decreases |f| - i
  {
    if i < |f| && f[i] != 0 && |out| < cap {
      if i == next {
        ScanCapMonotone(f, cap, cap', i + 1, i + f[i] as int, f[i], if last != 255 then out + [0] else out);
      } else {
        ScanCapMonotone(f, cap, cap', i + 1, next, last, out + [f[i]]);
      }
    }
  }

  /** A larger output buffer never changes a successful decode. */
  lemma DecodeCapMonotone(f: seq<byte>, cap: nat, cap': nat)
    requires |f| >= 1 && cap <= cap' && Decoded(f, cap).Some?
    ensures Decoded(f, cap') == Decoded(f, cap)
  {
    ScanCapMonotone(f, cap, cap', 1, f[0] as nat, f[0], []);
  }

  /**
   * The round trip, with the decoder's buffer size: decoding an encoded frame
   * gives back exactly the payload when the buffer holds it, and fails when
   * it does not.
   */
  lemma RoundTrip(p: seq<byte>, cap: nat)
    ensures Decoded(Frame(p), cap) == if |p| <= cap then Some(p) else None
    ensures DecodedChecked(Frame(p), cap) == Decoded(Frame(p), cap)
    ensures DecodeReturn(Frame(p), cap) == if |p| <= cap then |p| else 0
  {
    var f := Frame(p);
    assert Decoded(f, |p|) == Some(p) by {
      var e := EncodeFrom(p, []);
      assert f[0] == e[0];
      assert f[1..] == e[1..] + [0];
      DecodeBlocks(f, |p|, 1, [], p, []);
      assert [] + p == p;
    }
    if |p| <= cap {
      DecodeCapMonotone(f, |p|, cap);
    } else if Decoded(f, cap).Some? {
      DecodeCapMonotone(f, cap, |p|);
    }
  }

  /**
   * What an accepted frame looks like: no 0x00 between the first and the last
   * byte, and a 0x00 either last or first.
   */
  lemma AcceptedShape(f: seq<byte>, cap: nat)
    requires |f| >= 1 && Decoded(f, cap).Some?
    ensures NonZeroBetween(f, 1, |f| - 1)
    ensures f[|f| - 1] == 0 || f[0] == 0
    ensures |Decoded(f, cap).value| <= cap
  {
    ScanFacts(f, cap, 1, f[0] as nat, f[0], []);
  }

  /** A 0x00 inside the frame (not first, not last) is detected. */
  lemma ZeroInsideRejected(f: seq<byte>, cap: nat, k: nat)
    requires 1 <= k < |f| - 1 && f[k] == 0
    ensures Decoded(f, cap) == None
    ensures DecodeReturn(f, cap) == 0
  {
    if Decoded(f, cap).Some? {
      AcceptedShape(f, cap);
    }
  }

  /** From position i on, non-zero bytes up to a final 0x00 are all consumed. */
  lemma {:induction false} ScanReachesTerminator(f: seq<byte>, cap: nat, i: nat, next: nat, last: byte, out: seq<byte>)
    requires 1 <= i < |f| && |out| <= cap
    requires NonZeroBetween(f, i, |f| - 1) && f[|f| - 1] == 0
    requires |out| + (|f| - 1 - i) <= cap
    ensures var s := DecodeLoop(f, cap, i, next, last, out);
            s.stopped && s.end == |f| && s.last == 0
    decreases |f| - i
  {
    if i < |f| - 1 {
      if i == next {
        ScanReachesTerminator(f, cap, i + 1, i + f[i] as int, f[i], if last != 255 then out + [0] else out);
      } else {
        ScanReachesTerminator(f, cap, i + 1, next, last, out + [f[i]]);
      }
    }
  }

  /**
   * Conversely, a frame whose only 0x00 after the first byte is its last byte
   * is accepted into a buffer of COBS_DECODE_OUT_SIZE_MIN(|f|) bytes, and no
   * frame ending in 0x00 decodes to more than that.
   */
  lemma AcceptsTerminated(f: seq<byte>, cap: nat)
    requires |f| >= 1 && NonZeroBetween(f, 1, |f| - 1) && f[|f| - 1] == 0
    requires cap >= DecodeOutSizeMin(|f|)
    ensures Decoded(f, cap).Some?
    ensures |Decoded(f, cap).value| <= DecodeOutSizeMin(|f|)
  {
    ScanFacts(f, cap, 1, f[0] as nat, f[0], []);
    if |f| > 1 {
      ScanReachesTerminator(f, cap, 1, f[0] as nat, f[0], []);
    }
  }

  /** Output of a frame ending in 0x00 never exceeds COBS_DECODE_OUT_SIZE_MIN. */
  lemma DecodedLengthBound(f: seq<byte>, cap: nat)
    requires |f| >= 1 && f[|f| - 1] == 0 && Decoded(f, cap).Some?
    ensures |Decoded(f, cap).value| <= DecodeOutSizeMin(|f|)
  {
    ScanFacts(f, cap, 1, f[0] as nat, f[0], []);
  }

  /**
   * The corrected success test: an accepted frame ends in 0x00, has no other
   * 0x00 after its first byte, and decodes to at most
   * COBS_DECODE_OUT_SIZE_MIN(|f|) bytes.
   */
  lemma DecodedCheckedShape(f: seq<byte>, cap: nat)
    requires |f| >= 1 && DecodedChecked(f, cap).Some?
    ensures f[|f| - 1] == 0 && NonZeroBetween(f, 1, |f| - 1)
    ensures |DecodedChecked(f, cap).value| <= DecodeOutSizeMin(|f|)
  {
    AcceptedShape(f, cap);
    DecodedLengthBound(f, cap);
  }

  /**
   * With a first byte 0x00 the first code position is 0, which the scan has
   * already passed, so no later byte is taken for a code byte: every byte up
   * to the terminator is copied verbatim.
   */
  lemma {:induction false} ScanCopiesAll(f: seq<byte>, cap: nat, i: nat, next: nat, out: seq<byte>)
    requires 1 <= i < |f| && next < i && |out| <= cap
    requires NonZeroBetween(f, i, |f| - 1) && f[|f| - 1] == 0
    requires |out| + (|f| - 1 - i) <= cap
    ensures DecodeLoop(f, cap, i, next, 0, out) == Scan(|f|, 0, out + f[i..|f| - 1], true)
    decreases |f| - i
  {
    if i < |f| - 1 {
      ScanCopiesAll(f, cap, i + 1, next, out + [f[i]]);
      assert f[i..|f| - 1] == [f[i]] + f[i + 1..|f| - 1];
    }
  }

  /** A frame whose first byte is 0x00 decodes to its inner bytes verbatim. */
  lemma FirstZeroCopies(f: seq<byte>, cap: nat)
    requires |f| >= 2 && f[0] == 0 && NonZeroBetween(f, 1, |f| - 1) && f[|f| - 1] == 0
    requires cap >= |f| - 2
    ensures Decoded(f, cap) == Some(f[1..|f| - 1])
  {
    ScanCopiesAll(f, cap, 1, 0, []);
    assert [] + f[1..|f| - 1] == f[1..|f| - 1];
  }
}
