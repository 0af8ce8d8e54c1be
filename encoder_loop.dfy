/**
 * The loop of cobs_encode (cobs.c:40-77) on the contents of the output
 * buffer, one iteration per call, and what it leaves behind: the frame of
 * Encoding when it fits, and otherwise the frame's first bytes with one code
 * byte missing.
 */
module EncoderLoop {
  import opened Bytes
  import opened Encoding

  /**
   * Where the loop stops: payload index i, output index o, last code
   * position c, the buffer contents, and whether it left through the
   * frame-end branch.
   */
  datatype EncState = EncState(i: nat, o: nat, c: nat, buf: seq<byte>, terminated: bool)

  /**
   * The loop from payload index i, output index o and pending code position
   * c over buffer contents buf. Its branches are those of the loop body.
   */
  function EncodeLoop(p: seq<byte>, buf: seq<byte>, i: nat, o: nat, c: nat): (r: EncState)
    requires i <= |p| && c < o <= |buf| && o - c <= FullRun + 1
    ensures |r.buf| == |buf|
    decreases |buf| - o
  {
    if o == |buf| then EncState(i, o, c, buf, false)
    else if i < |p| then
      if o - c < FullRun + 1 then
        if p[i] == 0 then EncodeLoop(p, buf[c := (o - c) as byte], i + 1, o + 1, o)
        else EncodeLoop(p, buf[o := p[i]], i + 1, o + 1, c)
      else EncodeLoop(p, buf[c := 255], i, o + 1, o)
    else EncState(i, o + 1, o, buf[c := (o - c) as byte][o := 0], true)
  }

  /**
   * What the encoder has settled so far, for payload p whose encoding is e
   * and whose last code position is fin: `pre` is the output before the
   * pending code byte, `run` the data bytes of the pending block, and p[i..]
   * the unread payload. Followed by what the encoder still emits from there,
   * `pre` makes up e.
   */
  ghost predicate Settled(p: seq<byte>, e: seq<byte>, fin: nat, i: nat, pre: seq<byte>, run: seq<byte>) {
    i <= |p| && |run| <= FullRun &&
    pre + EncodeFrom(p[i..], run) == e &&
    |pre| + FinalCodePos(p[i..], run) == fin
  }

  /** A payload zero closes the pending block: its code byte in e is |run| + 1. */
  lemma ZeroStep(p: seq<byte>, e: seq<byte>, fin: nat, i: nat, pre: seq<byte>, run: seq<byte>)
    requires Settled(p, e, fin, i, pre, run) && i < |p| && p[i] == 0 && |run| < FullRun
    ensures e[|pre|] as int == |run| + 1
    ensures Settled(p, e, fin, i + 1, pre + [(|run| + 1) as byte] + run, [])
  {
    var q := p[i..];
    assert q[0] == 0 && q[1..] == p[i + 1..];
    ZeroBlockSplit(q, run);
    CloseBlock(e, pre, EncodeFrom(q, run), (|run| + 1) as byte, run, EncodeFrom(q[1..], []));
  }

  /** A non-zero payload byte joins the pending run: e holds it right after the run. */
  lemma DataStep(p: seq<byte>, e: seq<byte>, fin: nat, i: nat, pre: seq<byte>, run: seq<byte>)
    requires Settled(p, e, fin, i, pre, run) && i < |p| && p[i] != 0 && |run| < FullRun
    ensures |pre| + |run| + 1 < |e| && e[|pre| + |run| + 1] == p[i]
    ensures Settled(p, e, fin, i + 1, pre, run + [p[i]])
  {
    var q := p[i..];
    assert q[0] == p[i] && q[1..] == p[i + 1..];
    var x := EncodeFrom(q[1..], run + [p[i]]);
    assert x[1..|run| + 2] == run + [p[i]];
    assert e[|pre| + |run| + 1] == x[|run| + 1];
  }

  /** A full pending block gets code 255 in e; no payload byte is consumed. */
  lemma FullStep(p: seq<byte>, e: seq<byte>, fin: nat, i: nat, pre: seq<byte>, run: seq<byte>)
    requires Settled(p, e, fin, i, pre, run) && i < |p| && |run| == FullRun
    ensures e[|pre|] == 255
    ensures Settled(p, e, fin, i, pre + [255] + run, [])
  {
    var x, rest := EncodeFrom(p[i..], run), EncodeFrom(p[i..], []);
    assert x == [255] + run + rest;
    CloseBlock(e, pre, x, 255, run, rest);
  }

  /** Closing the pending block of x with code byte c moves it into the settled prefix. */
  lemma CloseBlock(e: seq<byte>, pre: seq<byte>, x: seq<byte>, c: byte, run: seq<byte>, rest: seq<byte>)
    requires pre + x == e && x == [c] + run + rest
    ensures (pre + [c] + run) + rest == e && e[|pre|] == c
  {
    assert e[|pre|] == x[0];
  }

  /** At the end of the payload, e ends with the last block: code |run| + 1, then the run. */
  lemma EndStep(p: seq<byte>, e: seq<byte>, fin: nat, i: nat, pre: seq<byte>, run: seq<byte>)
    requires Settled(p, e, fin, i, pre, run) && i == |p|
    ensures e[|pre|] as int == |run| + 1
    ensures |e| == |pre| + |run| + 1
  {
    assert p[i..] == [];
  }

  /**
   * The buffer of n bytes is full before the frame end: e + [0] is longer,
   * by exactly one byte when the payload has been read to the end.
   */
  lemma Exhausted(p: seq<byte>, e: seq<byte>, fin: nat, i: nat, pre: seq<byte>, run: seq<byte>, n: nat)
    requires Settled(p, e, fin, i, pre, run) && n == |pre| + |run| + 1
    ensures |e| >= n
    ensures i == |p| <==> |e| == n
    ensures i == |p| ==> |pre| == fin
  {
    if i == |p| {
      assert p[i..] == [];
    }
  }

  /**
   * The loop's state at output index o over buffer buf, which held buf0
   * before the call: Settled, the bytes before o other than the pending code
   * byte are those of e, and the rest is as it was.
   */
  ghost predicate LoopState(p: seq<byte>, e: seq<byte>, fin: nat, buf0: seq<byte>, buf: seq<byte>,
                            i: nat, o: nat, c: nat, pre: seq<byte>, run: seq<byte>) {
    Settled(p, e, fin, i, pre, run) && |pre| == c && |run| == o - c - 1 &&
    c < o <= |buf| && |buf| == |buf0| &&
    (forall k | 0 <= k < o && k != c :: buf[k] == e[k]) &&
    buf[c] == buf0[c] && (forall k | o <= k < |buf| :: buf[k] == buf0[k])
  }

  /**
   * What the loop leaves, for payload p with encoding e and last code
   * position fin, in a buffer that held buf0: the frame e + [0] and the old
   * bytes after it, or the frame's first |buf0| bytes with the old byte at
   * the last code position.
   */
  ghost predicate Final(p: seq<byte>, e: seq<byte>, fin: nat, buf0: seq<byte>, r: EncState) {
    r.i <= |p| && r.c < r.o <= |buf0| && |r.buf| == |buf0| &&
    (r.terminated <==> |e| + 1 <= |buf0|) &&
    (r.terminated ==>
      r.i == |p| && r.c == r.o - 1 && r.o == |e| + 1 &&
      r.buf[..r.o] == e + [0] && r.buf[r.o..] == buf0[r.o..]) &&
    (!r.terminated ==>
      r.o == |buf0| && r.buf == (e + [0])[..|buf0|][r.c := buf0[r.c]] &&
      (r.i == |p| <==> |e| == |buf0|) && (r.i == |p| ==> r.c == fin))
  }

  lemma {:induction false} LoopFinal(p: seq<byte>, e: seq<byte>, fin: nat, buf0: seq<byte>, buf: seq<byte>,
                                     i: nat, o: nat, c: nat, pre: seq<byte>, run: seq<byte>)
    requires LoopState(p, e, fin, buf0, buf, i, o, c, pre, run)
    ensures Final(p, e, fin, buf0, EncodeLoop(p, buf, i, o, c))
    decreases |buf| - o, 1
  {
    if o == |buf| {
      Exhausted(p, e, fin, i, pre, run, o);
      assert buf == (e + [0])[..|buf0|][c := buf0[c]];
    } else if i < |p| {
      if o - c < FullRun + 1 {
        if p[i] == 0 {
          LoopZero(p, e, fin, buf0, buf, i, o, c, pre, run);
        } else {
          LoopData(p, e, fin, buf0, buf, i, o, c, pre, run);
        }
      } else {
        LoopFull(p, e, fin, buf0, buf, i, o, c, pre, run);
      }
    } else {
      EndStep(p, e, fin, i, pre, run);
      var r := EncodeLoop(p, buf, i, o, c);
      assert r.buf[..r.o] == e + [0];
    }
  }

  lemma {:induction false} LoopZero(p: seq<byte>, e: seq<byte>, fin: nat, buf0: seq<byte>, buf: seq<byte>,
                                    i: nat, o: nat, c: nat, pre: seq<byte>, run: seq<byte>)
    requires LoopState(p, e, fin, buf0, buf, i, o, c, pre, run)
    requires o < |buf| && i < |p| && o - c < FullRun + 1 && p[i] == 0
    ensures Final(p, e, fin, buf0, EncodeLoop(p, buf, i, o, c))
    decreases |buf| - o, 0
  {
    ZeroStep(p, e, fin, i, pre, run);
    LoopFinal(p, e, fin, buf0, buf[c := (o - c) as byte], i + 1, o + 1, o, pre + [(o - c) as byte] + run, []);
  }

  lemma {:induction false} LoopData(p: seq<byte>, e: seq<byte>, fin: nat, buf0: seq<byte>, buf: seq<byte>,
                                    i: nat, o: nat, c: nat, pre: seq<byte>, run: seq<byte>)
    requires LoopState(p, e, fin, buf0, buf, i, o, c, pre, run)
    requires o < |buf| && i < |p| && o - c < FullRun + 1 && p[i] != 0
    ensures Final(p, e, fin, buf0, EncodeLoop(p, buf, i, o, c))
    decreases |buf| - o, 0
  {
    DataStep(p, e, fin, i, pre, run);
    LoopFinal(p, e, fin, buf0, buf[o := p[i]], i + 1, o + 1, c, pre, run + [p[i]]);
  }

  lemma {:induction false} LoopFull(p: seq<byte>, e: seq<byte>, fin: nat, buf0: seq<byte>, buf: seq<byte>,
                                    i: nat, o: nat, c: nat, pre: seq<byte>, run: seq<byte>)
    requires LoopState(p, e, fin, buf0, buf, i, o, c, pre, run)
    requires o < |buf| && i < |p| && o - c == FullRun + 1
    ensures Final(p, e, fin, buf0, EncodeLoop(p, buf, i, o, c))
    decreases |buf| - o, 0
  {
    FullStep(p, e, fin, i, pre, run);
    LoopFinal(p, e, fin, buf0, buf[c := 255], i, o + 1, o, pre + [255] + run, []);
  }

  /**
   * The whole loop, from a buffer that held buf: when the frame fits, the
   * loop leaves through the frame-end branch with the frame in buf[..o] and
   * the rest untouched; otherwise the buffer is full of the frame's first
   * bytes, except the last code position c, which keeps its old byte. The
   * payload is read to the end exactly when the frame is one byte too long.
   */
  lemma EncodeLoopFrame(p: seq<byte>, buf: seq<byte>)
    requires |buf| >= 1
    ensures var r := EncodeLoop(p, buf, 0, 1, 0);
      r.i <= |p| && r.c < r.o <= |buf| &&
      (r.terminated <==> |Frame(p)| <= |buf|) &&
      (r.terminated ==>
        r.i == |p| && r.c == r.o - 1 && r.o == |Frame(p)| &&
        r.buf[..r.o] == Frame(p) && r.buf[r.o..] == buf[r.o..]) &&
      (!r.terminated ==>
        r.o == |buf| && r.buf == Frame(p)[..|buf|][r.c := buf[r.c]] &&
        (r.i == |p| <==> |Frame(p)| == |buf| + 1) &&
        (r.i == |p| ==> r.c == FinalCodePos(p, [])))
  {
    assert p[0..] == p;
    LoopFinal(p, EncodeFrom(p, []), FinalCodePos(p, []), buf, buf, 0, 1, 0, [], []);
  }
}
