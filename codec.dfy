/**
 * cobs_encode and cobs_decode (cobs.c) as methods over arrays, proved
 * against the functions of Encoding and Decoding. Indices stand for the C
 * pointers: `o` for u8p_out, `c` for u8p_out_code, `i` for u8p_in and
 * `code` for u8p_in_code. Each routine's loop is a method of its own, so that
 * the success test as written and the corrected one share it.
 */
module Codec {
  import opened Bytes
  import opened Encoding
  import opened Decoding
  import opened EncoderLoop

  /**
   * The loop of cobs_encode (cobs.c:40-77). On return, `terminated` says
   * whether the loop left through the frame-end branch; `c` is the last code
   * position. When the frame fits it is in out[..o], and nothing after it is
   * touched. When it does not, the buffer holds the first out.Length bytes
   * of the frame except at `c`, whose code byte was never written.
   */
  method RunEncoder(input: array<byte>, out: array<byte>) returns (i: nat, o: nat, c: nat, terminated: bool)
    requires input != out && out.Length >= 1
    modifies out
    ensures i <= input.Length && c < o <= out.Length
    ensures terminated <==> |Frame(input[..])| <= out.Length
    ensures terminated ==> i == input.Length && c == o - 1 && o == |Frame(input[..])|
    ensures terminated ==> out[..o] == Frame(input[..]) && out[o..] == old(out[o..])
    ensures !terminated ==> o == out.Length && out[c] == old(out[c])
    ensures !terminated ==> out[..] == Frame(input[..])[..out.Length][c := old(out[c])]
    ensures !terminated ==> (i == input.Length <==> |Frame(input[..])| == out.Length + 1)
    ensures !terminated && i == input.Length ==> c == FinalCodePos(input[..], [])
  {
    ghost var p := input[..];
    ghost var r := EncodeLoop(p, out[..], 0, 1, 0);
    EncodeLoopFrame(p, out[..]);
    i, o, c, terminated := 0, 1, 0, false;
    while o < out.Length
      invariant i <= |p| && c < o <= out.Length && o - c <= FullRun + 1
      invariant EncodeLoop(p, out[..], i, o, c) == r
      decreases out.Length - o
    {
      ghost var before := out[..];
      if i < input.Length {
        if o - c < FullRun + 1 {
          if input[i] == 0 {
            // a payload zero closes the block: patch its code byte
            out[c] := (o - c) as byte;
            assert out[..] == before[c := (o - c) as byte];
            c := o;
          } else {
            out[o] := input[i];
            assert out[..] == before[o := p[i]];
          }
          i := i + 1;
        } else {
          // the block is full: code 255, the next byte starts a new block
          out[c] := 255;
          assert out[..] == before[c := 255];
          c := o;
        }
      } else {
        // frame end: patch the last code byte and write the terminator
        ghost var c0 := c;
        out[c] := (o - c) as byte;
        c := o;
        out[c] := 0;
        assert out[..] == before[c0 := (o - c0) as byte][o := 0];
        o := o + 1;
        terminated := true;
        break;
      }
      o := o + 1;
    }
    assert r == EncState(i, o, c, out[..], terminated);
  }

  /**
   * cobs_encode as written (cobs.c:28-86). The return value is
   * EncodeReturn: the frame length when the frame fits, and also the buffer
   * length when the buffer is exactly one byte short and its previous byte at
   * the last code position happens to be 0x00. With an empty buffer and a
   * non-empty payload nothing is read or written and the result is 0.
   */
  method Encode(input: array<byte>, out: array<byte>) returns (ret: nat)
    requires input != out && (out.Length >= 1 || input.Length >= 1)
    modifies out
    ensures ret == EncodeReturn(input[..], old(out[..]))
    ensures |Frame(input[..])| <= out.Length ==>
      out[..|Frame(input[..])|] == Frame(input[..]) &&
      out[|Frame(input[..])|..] == old(out[|Frame(input[..])|..])
    ensures |Frame(input[..])| > out.Length >= 1 ==>
      exists c :: 0 <= c < out.Length && out[..] == Frame(input[..])[..out.Length][c := old(out[c])]
  {
    if out.Length == 0 {
      // the loop does not run, and the test at cobs.c:79 stops at the unread input
      return 0;
    }
    var i, o, c, terminated := RunEncoder(input, out);
    if i == input.Length && out[c] == 0 {
      ret := o;
    } else {
      ret := 0;
    }
  }

  /**
   * cobs_encode with the success test its comment describes: the whole
   * input was encoded and the terminator was written.
   */
  method EncodeChecked(input: array<byte>, out: array<byte>) returns (ret: nat)
    requires input != out && (out.Length >= 1 || input.Length >= 1)
    modifies out
    ensures ret == EncodedLength(input[..], out.Length)
    ensures ret > 0 ==> out[..ret] == Frame(input[..]) && out[ret..] == old(out[ret..])
    ensures ret == 0 && out.Length >= 1 ==>
      exists c :: 0 <= c < out.Length && out[..] == Frame(input[..])[..out.Length][c := old(out[c])]
  {
    if out.Length == 0 {
      return 0;
    }
    var i, o, c, terminated := RunEncoder(input, out);
    if terminated {
      ret := o;
    } else {
      ret := 0;
    }
  }

  /**
   * The loop of cobs_decode (cobs.c:100-133): its end position, remembered
   * code and written bytes are those of DecodeScan, and nothing after the
   * written bytes is touched.
   */
  method RunDecoder(input: array<byte>, output: array<byte>) returns (i: nat, o: nat, last: byte)
    requires input != output && input.Length >= 1
    modifies output
    ensures var s := DecodeScan(input[..], output.Length);
      i == s.end && last == s.last && o == |s.out| <= output.Length &&
      output[..o] == s.out && output[o..] == old(output[o..])
  {
    ghost var f := input[..];
    ghost var cap := output.Length;
    var code: nat := input[0] as nat;
    last := input[0];
    i, o := 1, 0;
    ghost var stopped := false;
    while i < input.Length
      invariant 1 <= i <= |f| && o <= cap
      invariant DecodeLoop(f, cap, i, code, last, output[..o]) == DecodeScan(f, cap)
      invariant output[o..] == old(output[o..])
      decreases |f| - i
    {
      if input[i] != 0 && o < output.Length {
        if i == code {
          // a code byte: the block before it ended in a zero unless it was full
          if last != 255 {
            output[o] := 0;
            assert output[..o + 1] == output[..o] + [0];
            o := o + 1;
          }
          code := i + input[i] as nat;
          last := input[i];
        } else {
          output[o] := input[i];
          assert output[..o + 1] == output[..o] + [input[i]];
          o := o + 1;
        }
      } else {
        // a 0x00 or a full output buffer ends the frame
        last := input[i];
        i := i + 1;
        stopped := true;
        break;
      }
      i := i + 1;
    }
    assert DecodeScan(f, cap) == Scan(i, last, output[..o], stopped);
  }

  /**
   * cobs_decode as written (cobs.c:88-140): the bytes written are those of
   * the scan, whether or not it succeeds, and the return value is
   * DecodeReturn.
   */
  method Decode(input: array<byte>, output: array<byte>) returns (ret: nat)
    requires input != output && input.Length >= 1
    modifies output
    ensures ret == DecodeReturn(input[..], output.Length)
    ensures var s := DecodeScan(input[..], output.Length);
      output[..|s.out|] == s.out && output[|s.out|..] == old(output[|s.out|..])
    ensures Decoded(input[..], output.Length).Some? ==>
      output[..ret] == Decoded(input[..], output.Length).value && output[ret..] == old(output[ret..])
  {
    var i, o, last := RunDecoder(input, output);
    if i == input.Length && last == 0 {
      ret := o;
    } else {
      ret := 0;
    }
  }

  /**
   * cobs_decode with the success test its comment describes, which also
   * demands that the last input byte be 0x00.
   */
  method DecodeChecked(input: array<byte>, output: array<byte>) returns (ret: nat)
    requires input != output && input.Length >= 1
    modifies output
    ensures ret == (if DecodedChecked(input[..], output.Length).Some? then |DecodedChecked(input[..], output.Length).value| else 0)
    ensures var s := DecodeScan(input[..], output.Length);
      output[..|s.out|] == s.out && output[|s.out|..] == old(output[|s.out|..])
    ensures DecodedChecked(input[..], output.Length).Some? ==>
      output[..ret] == DecodedChecked(input[..], output.Length).value && output[ret..] == old(output[ret..])
  {
    var i, o, last := RunDecoder(input, output);
    if i == input.Length && last == 0 && input[input.Length - 1] == 0 {
      ret := o;
    } else {
      ret := 0;
    }
  }
}
