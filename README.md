# COBS codec in Dafny

This project models the Consistent Overhead Byte Stuffing codec of `cobs.c` and `cobs.h` in Dafny and proves properties of the model.
- `cobs_encode` turns a payload into a frame with no 0x00 byte except a final 0x00 terminator. Each block starts with a code byte: the distance to the next code byte, or 255 (COBS_BLOCK_SIZE) for a full block of 254 data bytes.
- `cobs_decode` turns a frame back into the payload.
- The two header macros COBS_ENCODE_OUT_SIZE_MIN and COBS_DECODE_OUT_SIZE_MIN size the buffers.

Layout, one module per file:

- `bytes.dfy` (Bytes): `byte`, the unsigned 8-bit value, and `NonZero`.
- `sizes.dfy` (Sizes): the two macros as written.
- `encoding.dfy` (Encoding): what the encoder emits, as functions on sequences.
  - `EncodeFrom(q, run)` is the output from the moment the pending block holds the data bytes `run` and the payload still to read is `q`. Its four branches are the four branches of the encoder's loop.
  - `Frame(p)` is the whole frame.
  - `EncodeReturn` is the value the function returns as written. `EncodedLength` is the value its comment describes.
- `encoder_loop.dfy` (EncoderLoop): `EncodeLoop` is the encoder's loop as a function on the buffer contents, one call per iteration. `EncodeLoopFrame` proves what the loop leaves in the buffer.
- `decoding.dfy` (Decoding): `DecodeLoop` is the decoder's loop as a function. This module also holds the round trip, the shape of accepted frames, and the output bound.
- `bounds.dfy` (Bounds): frame lengths against the macros.
- `codec.dfy` (Codec): `cobs_encode` and `cobs_decode` as methods over arrays.
  - Each C pointer becomes an index into its array.
  - Each loop is a `while` loop whose invariant ties the remaining iterations to `EncodeLoop` or `DecodeLoop`.
  - Each method's `ensures` states its result and the new buffer contents in terms of `Frame`, `Decoded` and the old buffer.
  - `Encode` and `Decode` keep the success tests as written. `EncodeChecked` and `DecodeChecked` use the tests their comments describe.
- `vectors.dfy` (Examples): the fixed vectors of `cobs_test.c` as lemmas, and the inputs behind the findings below.

## Model

| member | source | states |
|---|---|---|
| Codec.RunEncoder | cobs.c:40-77 | The encoder loop on arrays. When the frame fits the buffer, the loop leaves through the frame-end branch with the frame in out[..o] and the bytes after it untouched. Otherwise out holds the first out.Length bytes of the frame, except the last code position, which keeps its old byte. The payload is read to the end exactly when the frame is one byte longer than the buffer. |
| Codec.Encode | cobs.c:28-86 | cobs_encode as written. It returns EncodeReturn of the payload and the old buffer. The buffer holds the frame when it fits, and otherwise the frame's prefix with one code byte unwritten. An empty buffer with a non-empty payload returns 0. |
| Codec.EncodeChecked | cobs.c:78-83 | The encoder with the success test its comment describes. It returns the frame length exactly when the frame fits, and 0 otherwise, with the same buffer contents as Encode. |
| Codec.RunDecoder | cobs.c:100-132 | The decoder loop on arrays. Its end position, remembered code and written bytes are those of DecodeScan, and nothing after the written bytes changes. |
| Codec.Decode | cobs.c:88-140 | cobs_decode as written. It returns DecodeReturn. Whether or not it succeeds, the output starts with the bytes the scan wrote and the rest is unchanged; on success those bytes are the decoded payload. |
| Codec.DecodeChecked | cobs.c:133-138 | The decoder with the success test its comment describes (all input decoded, last byte 0x00). It returns the DecodedChecked length, writes that payload on success, and in every case writes exactly the bytes of the scan. |
| EncoderLoop.EncodeLoop | cobs.c:40-77 | One loop iteration per call: zero byte, data byte, full block or frame end. The buffer length never changes: no write lands outside the buffer. |
| EncoderLoop.EncodeLoopFrame | cobs.c:40-77 | From the first call: terminated iff the frame fits the buffer. If it fits, buf[..o] is the frame, the rest is unchanged, and the whole payload was read. If not, the buffer is the frame's first bytes with the old byte at the last code position. |
| EncoderLoop.ZeroStep | cobs.c:48-53 | A payload zero closes the pending block with code run length + 1. The zero itself is not emitted. |
| EncoderLoop.DataStep | cobs.c:54-58 | A non-zero payload byte is emitted right after the pending run. |
| EncoderLoop.FullStep | cobs.c:61-66 | A block of 254 data bytes gets code 255 and no payload byte is consumed. |
| EncoderLoop.EndStep | cobs.c:68-76 | At the end of the payload the last block gets code run length + 1 and ends the encoded blocks. |
| EncoderLoop.Exhausted | cobs.c:40 | When the loop runs out of buffer before the frame end, the frame is longer than the buffer, by exactly one byte iff the payload was read to the end. In that case the pending code position is the frame's last code position. |
| Encoding.EncodeFrom | cobs.c:40-77 | The output from a pending block: at least one byte per payload byte and run byte plus the code byte. The code byte is at least the run length + 1, and the run follows it. |
| Encoding.FinalCodePos | cobs.c:71 | The last code byte of the frame lies inside the encoded blocks and holds the distance to the terminator. |
| Encoding.EncodeReturn | cobs.c:78-85 | The value returned as written is 0, the frame length, or the buffer length when that is one byte short of the frame. It never exceeds the buffer length, and it is the frame length whenever the frame fits. |
| Encoding.EncodeReturnStale | cobs.c:79-83 | The as-written and the intended return values differ exactly when the frame is one byte longer than the buffer and the buffer already held 0x00 at the last code position. The as-written value is then the buffer length instead of 0. |
| Encoding.Frame | cobs.c:40-77 | The frame the encoder writes is at least two bytes longer than the payload, ends in the 0x00 terminator, and starts with a non-zero code byte. |
| Encoding.EncodedLength | cobs.c:78-83 | The value the success test's comment describes is 0 exactly when the frame does not fit, and otherwise the frame length, which is at least payload + 2. |
| Encoding.FinalCodePosData | cobs.c:54-58 | A non-zero byte that joins the pending run does not move the last code position. |
| Encoding.FinalCodePosFullBlock | cobs.c:61-66 | Non-zero bytes that fill the pending block and spill one byte over put the last code byte 255 positions after the pending one. |
| Encoding.ZeroBlockSplit | cobs.c:48-53 | A payload zero closes the pending block: code run length + 1, the run, then the blocks of the rest, whose last code position is shifted by the block's length. |
| Sizes.EncodeOutSizeMin | cobs.h:19-20 | COBS_ENCODE_OUT_SIZE_MIN(n) is at least n + 2, and exactly n + 2 below 256. |
| Sizes.DecodeOutSizeMin | cobs.h:21-22 | COBS_DECODE_OUT_SIZE_MIN(n) never exceeds n, and is n - 2 from 2 on. |
| Encoding.FrameShape | cobs.c:40-77 | Every frame has at least two bytes, no 0x00 before its last byte, and ends with the 0x00 terminator. |
| Encoding.EncodeFromNonZero | cobs.c:51 | Code bytes and copied bytes are never 0x00. |
| Encoding.EncodeFromRun | cobs.c:54-58 | Non-zero bytes that fit the pending block are copied after its code byte. |
| Encoding.EncodeFromAppend | cobs.c:54-58 | Non-zero bytes that fit the pending block are appended to its run, whatever payload follows. |
| Encoding.FrameLastBlock | cobs.c:68-76 | Up to 254 non-zero bytes with nothing after them give one block of code length + 1, then 0x00. |
| Encoding.FrameZeroBlock | cobs.c:48-53 | k < 254 non-zero bytes followed by a zero give a block of code k + 1, then the frame of the rest after the zero. |
| Encoding.FrameFullBlock | cobs.c:45-66 | 254 non-zero bytes with more payload after them give a block of code 255, then the frame of the rest, which starts at byte 254 itself. |
| Decoding.DecodeLoop | cobs.c:100-132 | The decoder loop as a function: it never writes more bytes than the output capacity. |
| Decoding.DecodeScan | cobs.c:97-132 | The whole scan starts at the first code byte. It writes at most the capacity, fewer bytes than it reads, and either stops on its frame-end branch or reads the whole input. |
| Decoding.Decoded | cobs.c:133-138 | A successful decode (as written) fits the output buffer and is shorter than the input. |
| Decoding.DecodeReturn | cobs.c:133-139 | The return value never exceeds the output buffer or reaches the input length. |
| Decoding.DecodedChecked | cobs.c:136 | Under the test the comment describes, an accepted input ends in 0x00 and decodes to at most COBS_DECODE_OUT_SIZE_MIN(length) bytes. |
| Decoding.ScanFacts | cobs.c:100-132 | What every scan guarantees. It only appends, at most one byte per input byte. It stops at the first 0x00, or at a non-zero byte that finds the output full. Without a stop it reads to the end and remembers a non-zero code or the one it started with. |
| Decoding.DecodeBlocks | cobs.c:106-123 | From any block boundary of an encoded frame, the decoder yields the rest of the payload and stops on the terminator with code 0. |
| Decoding.DecodeFullBlock | cobs.c:109-116 | After a code 255 no zero is implied: the next code byte is read directly. |
| Decoding.DecodeZeroBlock | cobs.c:109-116 | A code byte after a block whose code was not 255 yields a 0x00. |
| Decoding.DecodeDataByte | cobs.c:118-123 | A byte that is not at the code position is copied. |
| Decoding.CodeByteStep | cobs.c:106-117 | At the code position a non-zero byte with room left appends an implied 0x00 unless the remembered code was 255, then becomes the remembered code and sets the next code position that many bytes on. |
| Decoding.DataByteStep | cobs.c:118-123 | Away from the code position a non-zero byte with room left is copied to the output, and the code position and remembered code stay. |
| Decoding.FullBlockFrame | cobs.c:61-66 | In an encoded frame, a block of code 255 is followed directly by the blocks of the same payload and the terminator. |
| Decoding.ZeroBlockFrame | cobs.c:48-53 | In an encoded frame, a block closed by a payload zero has code run length + 1 and is followed by the blocks of the rest after the zero and the terminator. |
| Decoding.DataByteFrame | cobs.c:54-58 | In an encoded frame, a payload byte that joins the pending run sits at its place in the frame, followed by the rest of that block. |
| Decoding.ScanCapMonotone | cobs.c:103 | A scan that did not stop on a full buffer runs the same with any larger buffer. |
| Decoding.DecodeCapMonotone | cobs.c:88-140 | A larger output buffer never changes a successful decode. |
| Decoding.RoundTrip | cobs.c:28-140 | Decoding the encoded frame gives back exactly the payload when the buffer holds it, and fails (return 0) when it does not. The checked test agrees with the written one on encoded frames. |
| Decoding.AcceptedShape | cobs.c:103-138 | An accepted frame has no 0x00 strictly inside. Its last or first byte is 0x00, and the output fits the buffer. |
| Decoding.ZeroInsideRejected | cobs.c:103-138 | A 0x00 at any position other than the first and the last makes the decoder return 0. |
| Decoding.ScanReachesTerminator | cobs.c:100-132 | Non-zero bytes up to a final 0x00 are consumed when the output has room, and the scan stops on that 0x00. |
| Decoding.AcceptsTerminated | cobs.h:21-22 | Conversely, a frame whose only 0x00 after the first byte is its last is accepted into COBS_DECODE_OUT_SIZE_MIN(length) bytes and decodes to at most that many. |
| Decoding.DecodedLengthBound | cobs.h:21-22 | A frame ending in 0x00 never decodes to more than COBS_DECODE_OUT_SIZE_MIN(length) bytes. |
| Decoding.DecodedCheckedShape | cobs.c:133-138 | Under the corrected test, an accepted frame ends in 0x00, has no other 0x00 after its first byte, and decodes to at most COBS_DECODE_OUT_SIZE_MIN(length) bytes. |
| Decoding.ScanCopiesAll | cobs.c:106 | When the next code position is already behind the scan, every byte up to the terminator is copied verbatim. |
| Decoding.FirstZeroCopies | cobs.c:97-98 | A frame whose first byte is 0x00 decodes to its inner bytes verbatim. |
| Bounds.EncodeFromLength | cobs.c:40-77 | The output from a pending block is at most its bytes plus one code byte per started block of 254. |
| Bounds.FrameLength | cobs.c:28-86 | Every frame is at least payload + 2 bytes and at most EncodeSizeBound. |
| Bounds.EncodeFromShortLength | cobs.c:40-77 | Up to 254 bytes in total give exactly one byte more. |
| Bounds.ShortFrameLength | cobs.h:19-20 | Up to 254 payload bytes the frame is exactly payload + 2 bytes, which is COBS_ENCODE_OUT_SIZE_MIN. |
| Bounds.NonZeroFrameLength | cobs.c:45-66 | A payload without 0x00 reaches EncodeSizeBound exactly, so the bound is the worst case. |
| Bounds.ZerosFrame | cobs.c:48-53 | n zero bytes give n + 1 blocks of code 1, then the terminator. |
| Bounds.EncodeOutSizeMinTooSmall | cobs.h:19-20 | For 255 non-zero bytes the macro gives 257 but the frame needs 258. |
| Bounds.EncodeOutSizeMinCovers | cobs.h:19-20 | Where MacroCovers holds, every payload of that length fits the macro. |
| Bounds.EncodeOutSizeMinShortfall | cobs.h:19-20 | Where MacroCovers fails, every payload without 0x00 overflows the macro. |
| Bounds.MacroCoversRanges | cobs.h:19-20 | The macro covers lengths 0 to 254 and 256 to 508. It fails at 255 and at 509 to 511. |
| Bounds.EncodeFitsBound | cobs.c:78-83 | With EncodeSizeBound bytes of buffer the encoder returns the whole frame length, whatever the buffer held. |
| Bounds.DecodeSizeCoversPayload | cobs.h:19-22 | COBS_DECODE_OUT_SIZE_MIN of either encode size is at least the payload length. |
| Bounds.RoundTripWithDecodeSize | cobs.h:21-22 | A frame decoded into COBS_DECODE_OUT_SIZE_MIN(frame length) bytes gives back the payload. |
| Examples.Vector | cobs_test.c:49-353 | Given a frame, PassesTest holds: the encoder returns its length for a buffer of that length, and decoding into the payload's size returns the payload. |
| Examples.Example1 | cobs_test.c:49-71 | 00 encodes to 01 01 00; encoding returns 3 for a 3-byte buffer, and decoding 01 01 00 into 1 byte gives 00 back with return 1. |
| Examples.Example2 | cobs_test.c:73-95 | 00 00 encodes to 01 01 01 00; encoding returns the frame length for a buffer of that size, and decoding the frame into the payload's size gives the payload back. |
| Examples.Example3 | cobs_test.c:97-118 | 00 11 00 encodes to 01 02 11 01 00; encoding returns the frame length for a buffer of that size, and decoding the frame into the payload's size gives the payload back. |
| Examples.Example4 | cobs_test.c:120-141 | 11 22 00 33 encodes to 03 11 22 02 33 00; encoding returns the frame length for a buffer of that size, and decoding the frame into the payload's size gives the payload back. |
| Examples.Example5 | cobs_test.c:143-164 | 11 22 33 44 encodes to 05 11 22 33 44 00; encoding returns the frame length for a buffer of that size, and decoding the frame into the payload's size gives the payload back. |
| Examples.Example6 | cobs_test.c:166-187 | 11 00 00 00 encodes to 02 11 01 01 01 00; encoding returns the frame length for a buffer of that size, and decoding the frame into the payload's size gives the payload back. |
| Examples.Example7 | cobs_test.c:189-220 | 01 .. FE encodes to FF 01 .. FE 00; encoding returns the frame length for a buffer of that size, and decoding the frame into the payload's size gives the payload back. |
| Examples.Example8 | cobs_test.c:222-253 | 00 01 .. FE encodes to 01 FF 01 .. FE 00; encoding returns the frame length for a buffer of that size, and decoding the frame into the payload's size gives the payload back. |
| Examples.Example9 | cobs_test.c:255-287 | 01 .. FF encodes to FF 01 .. FE 02 FF 00, which is 258 bytes; encoding returns the frame length for a buffer of that size, and decoding the frame into the payload's size gives the payload back. |
| Examples.Example10 | cobs_test.c:289-321 | 02 .. FF 00 encodes to FF 02 .. FF 01 01 00; encoding returns the frame length for a buffer of that size, and decoding the frame into the payload's size gives the payload back. |
| Examples.Example11 | cobs_test.c:323-355 | 03 .. FF 00 01 encodes to FE 03 .. FF 02 01 00; encoding returns the frame length for a buffer of that size, and decoding the frame into the payload's size gives the payload back. |
| Examples.Encode555Zeros | cobs_test.c:357-382 | 555 zeros encode to 556 bytes of 01, then 00; encoding returns 557 for a buffer of that size, and decoding the frame into 555 bytes gives the zeros back. |
| Examples.Encode555Ones | cobs_test.c:384-411 | 555 bytes of 01 encode to two full blocks and a block of 47, 559 bytes in all; encoding returns 559 for a buffer of that size, and decoding the frame into 555 bytes gives the payload back. |
| Examples.EncodeOutSizeTests | cobs_test.c:413-515 | For lengths 65, 256, 333 and 512 and a buffer of COBS_ENCODE_OUT_SIZE_MIN bytes: 01s return the buffer length, and 00s return it less 0, 1, 1 or 2. Any payload returns at most the buffer length, and any 65-byte payload returns exactly the buffer length. |
| Examples.DecodeOutSize65 | cobs_test.c:530-544 | The frames of 65 bytes of 0x01 and of 65 bytes of 0x00 decode into COBS_DECODE_OUT_SIZE_MIN(COBS_ENCODE_OUT_SIZE_MIN(65)) bytes, and `cobs_decode` returns 65. |
| Examples.DecodeOutSize512 | cobs_test.c:546-565 | The frame of 512 bytes of 0x01 is COBS_ENCODE_OUT_SIZE_MIN(512) = 516 bytes long and decodes into 514 bytes with 512 returned. The frame of 512 bytes of 0x00 is 514 bytes long and also decodes to 512 bytes. |
| Examples.EmptyPayload | cobs_test.c:517-528 | The empty payload encodes to 01 00 in 2 bytes and decodes into 0 bytes with return 0. |
| Examples.Overflow | cobs_test.c:567-581 | A buffer 10 bytes under the macro makes the encoder return 0. An output 10 bytes too small makes the decoder return 0. |
| Examples.ProtocolIssue | cobs_test.c:583-594 | Writing 0x00 over byte 10 of a frame makes the decoder return 0, whatever the buffer size. |
| Examples.StaleCodeByte | cobs.c:79-83 | Payload 11 into a 2-byte buffer holding 00 00 returns 2 although no frame was written. The empty payload into a 1-byte buffer holding 00 returns 1. The intended value is 0 in both cases. |
| Examples.MacroSizedBufferStale | cobs.c:79-83 | For 255 non-zero bytes and a buffer of COBS_ENCODE_OUT_SIZE_MIN(255) = 257 bytes, the frame is 258 bytes and the last code position is index 255. The encoder returns 257 when the buffer held 0x00 at index 255 and 0 otherwise, while the intended value is 0. |
| Examples.UnterminatedAccepted | cobs.c:134-138 | The unterminated input 00 11 is accepted and decodes to 11. The corrected test rejects it. |
| Examples.FirstByteCorruptionUndetected | cobs.c:97-98 | 0x00 written over the first byte of the frame of 11 22 00 33 is accepted and decodes to 11 22 02 33. |
| Examples.NotEveryAcceptedFrameIsEncoded | cobs.c:106-116 | 05 11 00 decodes to 11 although it is not the frame of 11, so only decode after encode is the identity. |

## Left out

- `assert(vp_in && u8p_out)` and the other null-pointer assertions: arrays in the model are never null.
- Aliasing: input and output are required to be distinct arrays. The C code does not forbid overlapping buffers, and the model does not say what overlap does.
- Pointer arithmetic and `size_t` overflow: lengths are unbounded naturals. The C code would wrap only for buffers near the size of the address space.
- Empty buffers: `cobs_decode` reads `*u8p_in` (cobs.c:97-98) before any length test, so a zero-length input reads outside the buffer and the decoder methods require at least one input byte. `cobs_encode` with an empty output buffer is modelled: a non-empty payload returns 0 and nothing is touched, because the test at cobs.c:79 stops at `u8p_in == u8p_in_end`. Only an empty payload with an empty buffer reads `*u8p_out_code` outside the buffer, and that one case is excluded.
- Bytes past the end of the output buffer: the tests at cobs_test.c:451, 477 and 503-504 check that bytes beyond the length passed stay 0xBB. In the model the buffer is exactly the array, and `Codec.Encode` already states that every byte after the frame keeps its old value.
- The random payloads of cobs_test.c:427-435 and the later size tests: `Examples.EncodeOutSizeTests` states the property for every payload instead of 100 random ones.
- The test harness (`memprint`, `UTEST_PRINTF`, `rand`, the test main) is I/O and is not modelled.
- The check commented out at cobs_test.c:596-600 (first byte changed to 255) is not an assertion of the source and is not modelled.
- Detection of every corruption by 0x00 is not promised. Written over any byte after the first other than the terminator, a 0x00 makes `cobs_decode` return 0 (`Decoding.ZeroInsideRejected`; cobs_test.c:583-594 checks byte 10). Written over the first byte it goes unnoticed: every later byte is then copied as data (`Examples.FirstByteCorruptionUndetected`).

## Findings

| source | as written | input that shows it | evidently intended | confidence | as-written member | corrected member |
|---|---|---|---|---|---|---|
| cobs.c:79-83 | The success test reads `*u8p_out_code` after the loop. When the buffer fills exactly as the payload runs out, that byte is the last code position, which this call never wrote. | Payload 11, 2-byte buffer holding 00 00: returns 2, with no terminator and no code byte written. Also the empty payload in a 1-byte buffer holding 00: returns 1. | Return the frame length only when the terminator was written, otherwise 0. | not executed | Examples.StaleCodeByte | Codec.EncodeChecked |
| cobs.c:134-138 | The success test accepts when the scan reaches the end of the input and the remembered code is 0x00. A first byte of 0x00 satisfies it with no terminator at all. | Input 00 11 with an output buffer of 1 byte: returns 1 and writes 11, although COBS_DECODE_OUT_SIZE_MIN(2) is 0. | Accept only input whose last byte is the 0x00 terminator, as the comment at cobs.c:136 says. | not executed | Examples.UnterminatedAccepted | Codec.DecodeChecked |
| cobs.h:19-20 | COBS_ENCODE_OUT_SIZE_MIN(n) adds one overhead byte per 256 payload bytes, but the encoder adds a code byte per 254. | 255 non-zero payload bytes: the macro gives 257, the frame is 258 bytes, and cobs_encode, given a buffer of the macro's size, writes no terminator: it returns 0, or 257 when index 255 (the last code position) already held 0x00, as in a zero-initialised buffer (`Examples.MacroSizedBufferStale`). Lengths 509 to 511 and 763 to 767 fail the same way. | n + 1 + ceil(n / 254), or 2 for the empty payload, which every payload fits. | not executed | Bounds.EncodeOutSizeMinShortfall | Bounds.EncodeFitsBound |
