/**
 * The fixed vectors of cobs_test.c, and the inputs that show where the code
 * as written departs from its own comments.
 */
module Examples {
  import opened Bytes
  import opened Sizes
  import opened Encoding
  import opened Decoding
  import opened Bounds

  /** n bytes counting up from `from`. */
  function Count(from: nat, n: nat): (s: seq<byte>)
    requires 1 <= from && from + n <= 256
    ensures |s| == n && NonZero(s)
  {
    seq(n, k requires 0 <= k < n => (from + k) as byte)
  }

  function Ones(n: nat): seq<byte> {
    seq(n, _ => 1)
  }

  function Zeros(n: nat): seq<byte> {
    seq(n, _ => 0)
  }

  /**
   * What each example test checks: the frame of p is `code`, encoding p into
   * a buffer of |code| bytes returns |code|, and decoding `code` into a
   * buffer of |p| bytes returns p.
   */
  ghost predicate PassesTest(p: seq<byte>, code: seq<byte>) {
    Frame(p) == code &&
    (forall buf: seq<byte> | |buf| == |code| :: EncodeReturn(p, buf) == |code|) &&
    Decoded(code, |p|) == Some(p) && DecodeReturn(code, |p|) == |p|
  }

  /** Once the frame is known, the rest of a test follows from the round trip. */
  lemma Vector(p: seq<byte>, code: seq<byte>)
    requires Frame(p) == code
    ensures PassesTest(p, code)
  {
    RoundTrip(p, |p|);
  }

  /** 00 -> 01 01 00 */
  lemma Example1()
    ensures PassesTest([0], [1, 1, 0])
  {
    FrameZeroBlock([0], 0);
    FrameLastBlock([]);
    Vector([0], [1, 1, 0]);
  }

  /** 00 00 -> 01 01 01 00 */
  lemma Example2()
    ensures PassesTest([0, 0], [1, 1, 1, 0])
  {
    ZerosFrame(2);
    assert Zeros(2) == [0, 0];
    assert seq(3, _ => 1 as byte) == [1, 1, 1];
    Vector([0, 0], [1, 1, 1, 0]);
  }

  /** 00 11 00 -> 01 02 11 01 00 */
  lemma Example3()
    ensures PassesTest([0, 0x11, 0], [1, 2, 0x11, 1, 0])
  {
    var p: seq<byte> := [0, 0x11, 0];
    FrameZeroBlock(p, 0);
    assert p[1..] == [0x11, 0];
    FrameZeroBlock([0x11, 0], 1);
    FrameLastBlock([]);
    Vector(p, [1, 2, 0x11, 1, 0]);
  }

  /** 11 22 00 33 -> 03 11 22 02 33 00 */
  lemma Example4()
    ensures PassesTest([0x11, 0x22, 0, 0x33], [3, 0x11, 0x22, 2, 0x33, 0])
  {
    var p: seq<byte> := [0x11, 0x22, 0, 0x33];
    FrameZeroBlock(p, 2);
    assert p[..2] == [0x11, 0x22] && p[3..] == [0x33];
    FrameLastBlock([0x33]);
    Vector(p, [3, 0x11, 0x22, 2, 0x33, 0]);
  }

  /** 11 22 33 44 -> 05 11 22 33 44 00 */
  lemma Example5()
    ensures PassesTest([0x11, 0x22, 0x33, 0x44], [5, 0x11, 0x22, 0x33, 0x44, 0])
  {
    FrameLastBlock([0x11, 0x22, 0x33, 0x44]);
    Vector([0x11, 0x22, 0x33, 0x44], [5, 0x11, 0x22, 0x33, 0x44, 0]);
  }

  /** 11 00 00 00 -> 02 11 01 01 01 00 */
  lemma Example6()
    ensures PassesTest([0x11, 0, 0, 0], [2, 0x11, 1, 1, 1, 0])
  {
    var p: seq<byte> := [0x11, 0, 0, 0];
    FrameZeroBlock(p, 1);
    assert p[..1] == [0x11] && p[2..] == [0, 0];
    Example2();
    Vector(p, [2, 0x11, 1, 1, 1, 0]);
  }

  /** 01 .. FE -> FF 01 .. FE 00: 254 non-zero bytes make one full block. */
  lemma Example7()
    ensures PassesTest(Count(1, 254), [255] + Count(1, 254) + [0])
  {
    FrameLastBlock(Count(1, 254));
    Vector(Count(1, 254), [255] + Count(1, 254) + [0]);
  }

  /** 00 01 .. FE -> 01 FF 01 .. FE 00 */
  lemma Example8()
    ensures PassesTest([0] + Count(1, 254), [1, 255] + Count(1, 254) + [0])
  {
    var p := [0] + Count(1, 254);
    FrameZeroBlock(p, 0);
    assert p[1..] == Count(1, 254);
    FrameLastBlock(Count(1, 254));
    Vector(p, [1, 255] + Count(1, 254) + [0]);
  }

  /**
   * 01 .. FF -> FF 01 .. FE 02 FF 00: after a full block the 255th byte
   * starts a new block, and no 0x00 is implied between them.
   */
  lemma Example9()
    ensures PassesTest(Count(1, 255), [255] + Count(1, 254) + [2, 255, 0])
    ensures |Frame(Count(1, 255))| == 258
  {
    var p := Count(1, 255);
    FrameFullBlock(p);
    assert p[..FullRun] == Count(1, 254) && p[FullRun..] == [255];
    FrameLastBlock([255]);
    Vector(p, [255] + Count(1, 254) + [2, 255, 0]);
  }

  /** 02 .. FF 00 -> FF 02 .. FF 01 01 00 */
  lemma Example10()
    ensures PassesTest(Count(2, 254) + [0], [255] + Count(2, 254) + [1, 1, 0])
  {
    var p := Count(2, 254) + [0];
    FrameFullBlock(p);
    assert p[..FullRun] == Count(2, 254) && p[FullRun..] == [0];
    Example1();
    Vector(p, [255] + Count(2, 254) + [1, 1, 0]);
  }

  /** 03 .. FF 00 01 -> FE 03 .. FF 02 01 00 */
  lemma Example11()
    ensures PassesTest(Count(3, 253) + [0, 1], [254] + Count(3, 253) + [2, 1, 0])
  {
    var p := Count(3, 253) + [0, 1];
    FrameZeroBlock(p, 253);
    assert p[..253] == Count(3, 253) && p[254..] == [1];
    FrameLastBlock([1]);
    Vector(p, [254] + Count(3, 253) + [2, 1, 0]);
  }

  /** 555 zero bytes: 556 blocks of code 1, and decoding gives them back. */
  lemma Encode555Zeros()
    ensures PassesTest(Zeros(555), Ones(556) + [0])
  {
    ZerosFrame(555);
    Vector(Zeros(555), Ones(556) + [0]);
  }

  /** 555 bytes 0x01: two full blocks and a last block of 47 bytes. */
  lemma Encode555Ones()
    ensures PassesTest(Ones(555), [255] + Ones(254) + [255] + Ones(254) + [48] + Ones(47) + [0])
    ensures |Frame(Ones(555))| == 559
  {
    var p := Ones(555);
    FrameFullBlock(p);
    assert p[..FullRun] == Ones(254) && p[FullRun..] == Ones(301);
    FrameFullBlock(Ones(301));
    assert Ones(301)[..FullRun] == Ones(254) && Ones(301)[FullRun..] == Ones(47);
    FrameLastBlock(Ones(47));
    Vector(p, [255] + Ones(254) + [255] + Ones(254) + [48] + Ones(47) + [0]);
  }

  /**
   * The payload sizes the tests use with COBS_ENCODE_OUT_SIZE_MIN: payloads
   * of 1s fill the buffer exactly, payloads of 0s leave it 0, 1 or 2 bytes
   * short. Any payload returns at most the buffer length, and for 65 bytes
   * exactly the buffer length.
   */
  lemma EncodeOutSizeTests(n: nat, buf: seq<byte>)
    requires n == 65 || n == 256 || n == 333 || n == 512
    requires |buf| == EncodeOutSizeMin(n)
    ensures EncodeReturn(Ones(n), buf) == |buf|
    ensures EncodeReturn(Zeros(n), buf) == |buf| - (if n == 65 then 0 else if n == 512 then 2 else 1)
    ensures forall p: seq<byte> | |p| == n :: EncodeReturn(p, buf) <= |buf|
    ensures n == 65 ==> forall p: seq<byte> | |p| == n :: EncodeReturn(p, buf) == |buf|
  {
    MacroCoversRanges(n);
    NonZeroFrameLength(Ones(n));
    ZerosFrame(n);
    if n == 65 {
      forall p: seq<byte> | |p| == n
        ensures EncodeReturn(p, buf) == |buf|
      {
        ShortFrameLength(p);
      }
    }
    if n == 512 {
      assert (n + 253) / 254 == 3;
    }
  }

  /**
   * decode_out_size65: 65 bytes of 0x01, and 65 bytes of 0x00, encoded into
   * COBS_ENCODE_OUT_SIZE_MIN bytes decode into COBS_DECODE_OUT_SIZE_MIN bytes,
   * which the payload fills.
   */
  lemma DecodeOutSize65()
    ensures DecodeReturn(Frame(Ones(65)), DecodeOutSizeMin(EncodeOutSizeMin(65))) == 65
    ensures DecodeReturn(Frame(Zeros(65)), DecodeOutSizeMin(EncodeOutSizeMin(65))) == 65
  {
    assert DecodeReturn(Frame(Ones(65)), 65) == 65 by {
      RoundTrip(Ones(65), 65);
    }
    RoundTrip(Zeros(65), 65);
  }

  /**
   * decode_out_size512: with 512 bytes of 0x01 the frame is the full
   * COBS_ENCODE_OUT_SIZE_MIN of 516 bytes and decodes into its
   * COBS_DECODE_OUT_SIZE_MIN of 514 bytes with 2 to spare; with 512 bytes of
   * 0x00 the frame is 514 bytes and decodes into the same buffer.
   */
  lemma DecodeOutSize512()
    ensures |Frame(Ones(512))| == EncodeOutSizeMin(512)
    ensures DecodeReturn(Frame(Ones(512)), DecodeOutSizeMin(|Frame(Ones(512))|)) == 512
    ensures |Frame(Zeros(512))| == 514
    ensures DecodeReturn(Frame(Zeros(512)), DecodeOutSizeMin(516)) == 512
  {
    assert |Frame(Ones(512))| == 516 by {
      NonZeroFrameLength(Ones(512));
    }
    assert DecodeReturn(Frame(Ones(512)), 514) == 512 by {
      RoundTrip(Ones(512), 514);
    }
    assert |Frame(Zeros(512))| == 514 by {
      ZerosFrame(512);
    }
    RoundTrip(Zeros(512), 514);
  }

  /**
   * decode_out_size0: the empty payload encodes to 01 00 in two bytes, and
   * decoding that into no room at all succeeds with an empty payload.
   */
  lemma EmptyPayload()
    ensures PassesTest([], [1, 0])
  {
    FrameLastBlock([]);
    Vector([], [1, 0]);
  }

  /**
   * overflow: 65 bytes of 0x01 into 10 bytes fewer than the macro gives
   * return 0, and so does decoding the frame of 65 zeros into 10 bytes
   * fewer than the payload needs.
   */
  lemma Overflow(buf: seq<byte>)
    requires |buf| == EncodeOutSizeMin(65) - 10
    ensures EncodeReturn(Ones(65), buf) == 0
    ensures DecodeReturn(Frame(Zeros(65)), DecodeOutSizeMin(EncodeOutSizeMin(65)) - 10) == 0
  {
    ShortFrameLength(Ones(65));
    RoundTrip(Zeros(65), DecodeOutSizeMin(EncodeOutSizeMin(65)) - 10);
  }

  /** protocol_issue: a 0x00 written over byte 10 of a frame makes the decoder fail. */
  lemma ProtocolIssue(cap: nat)
    ensures DecodeReturn(Frame(Ones(65))[10 := 0], cap) == 0
  {
    ShortFrameLength(Ones(65));
    ZeroInsideRejected(Frame(Ones(65))[10 := 0], cap, 10);
  }

  /**
   * The encoder's success test as written reads a code byte the call never
   * wrote. The payload 11 needs the 3-byte frame 02 11 00; into a 2-byte
   * buffer that held 00 00 the encoder writes 11 at index 1, runs out of
   * room before the frame end, finds the untouched 00 at index 0, and
   * returns 2 for a buffer holding 00 11. The empty payload into a 1-byte
   * buffer holding 00 returns 1 without writing anything.
   */
  lemma StaleCodeByte()
    ensures Frame([0x11]) == [2, 0x11, 0]
    ensures EncodeReturn([0x11], [0, 0]) == 2 && EncodedLength([0x11], 2) == 0
    ensures EncodeReturn([], [0]) == 1 && EncodedLength([], 1) == 0
  {
    FrameLastBlock([0x11]);
    FrameLastBlock([]);
  }

  /**
   * The stale code byte behind a buffer of COBS_ENCODE_OUT_SIZE_MIN bytes:
   * for 255 non-zero bytes the macro gives 257 bytes, the frame needs 258,
   * so the loop fills the buffer just as the payload runs out and the
   * success test reads index 255, the last code position, which this call
   * never wrote. A buffer that held 0x00 there, as a zero-initialised one
   * does, makes the encoder return 257 with no terminator written.
   */
  lemma MacroSizedBufferStale(buf: seq<byte>)
    requires |buf| == EncodeOutSizeMin(255)
    ensures |buf| == 257 && |Frame(Count(1, 255))| == 258
    ensures FinalCodePos(Count(1, 255), []) == 255
    ensures EncodeReturn(Count(1, 255), buf) == if buf[255] == 0 then 257 else 0
    ensures EncodedLength(Count(1, 255), |buf|) == 0
  {
    var p := Count(1, 255);
    NonZeroFrameLength(p);
    FinalCodePosFullBlock(p, []);
  }

  /**
   * The decoder's success test as written accepts an unterminated frame
   * whose first byte is 0x00: 00 11 decodes to 11, one byte more than
   * COBS_DECODE_OUT_SIZE_MIN(2) allows. The corrected test rejects it.
   */
  lemma UnterminatedAccepted()
    ensures Decoded([0, 0x11], 1) == Some([0x11]) && DecodeReturn([0, 0x11], 1) == 1
    ensures DecodeOutSizeMin(2) == 0
    ensures DecodedChecked([0, 0x11], 1) == None
  {
    var f: seq<byte> := [0, 0x11];
    assert DecodeLoop(f, 1, 2, 0, 0, [0x11]) == Scan(2, 0, [0x11], false);
    assert DecodeScan(f, 1) == DecodeLoop(f, 1, 1, 0, 0, []) == Scan(2, 0, [0x11], false);
  }

  /**
   * A 0x00 written over the first byte of a frame goes unnoticed: every
   * later byte is copied as data, codes included.
   */
  lemma FirstByteCorruptionUndetected()
    ensures Decoded(Frame([0x11, 0x22, 0, 0x33])[0 := 0], 4) == Some([0x11, 0x22, 2, 0x33])
  {
    Example4();
    var f := Frame([0x11, 0x22, 0, 0x33])[0 := 0];
    assert f == [0, 0x11, 0x22, 2, 0x33, 0];
    FirstZeroCopies(f, 4);
    assert f[1..5] == [0x11, 0x22, 2, 0x33];
  }

  /**
   * The decoder accepts frames the encoder never produces: 05 11 00 decodes
   * to 11, whose frame is 02 11 00. Only decode after encode is the identity.
   */
  lemma NotEveryAcceptedFrameIsEncoded()
    ensures Decoded([5, 0x11, 0], 1) == Some([0x11])
    ensures Frame([0x11]) != [5, 0x11, 0]
  {
    var f: seq<byte> := [5, 0x11, 0];
    assert DecodeLoop(f, 1, 2, 5, 5, [0x11]) == Scan(3, 0, [0x11], true);
    assert DecodeScan(f, 1) == DecodeLoop(f, 1, 1, 5, 5, []) == Scan(3, 0, [0x11], true);
    FrameLastBlock([0x11]);
  }
}
