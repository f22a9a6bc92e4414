/** The streaming wire format: a stream is a sequence of frames, each the
    little-endian u32 length of one compressed block followed by that many
    payload bytes. This module defines how `Writer.Write` cuts its input
    into blocks and frames them (as functions over values) and a reference
    decoder of a whole framed stream, and proves that decoding inverts
    encoding however the input was split into writes. */
module Framing {
  import opened Wire
  import opened Io
  import opened Codec

  /** The length header of a frame: Go's `uint32(written)` encoded. */
  function Header(n: int): (h: seq<byte>)
    ensures |h| == 4
  {
    PutUint32(Uint32Of(n))
  }

  function Frame(payload: seq<byte>): (f: seq<byte>)
    ensures |f| == |payload| + BlockHeaderSize && f[BlockHeaderSize..] == payload
    ensures |payload| < Two32 ==> Uint32(f) == |payload|
  {
    DecodeEncodePrefix(Uint32Of(|payload|), payload);
    Header(|payload|) + payload
  }

  function Flatten(bs: seq<seq<byte>>): seq<byte>
  {
    if bs == [] then [] else bs[0] + Flatten(bs[1..])
  }

  lemma {:induction false} FlattenAppend(bs: seq<seq<byte>>, b: seq<byte>)
    ensures Flatten(bs + [b]) == Flatten(bs) + b
  {
    if bs != [] {
      assert (bs + [b])[1..] == bs[1..] + [b];
      FlattenAppend(bs[1..], b);
    } else {
      assert [b][1..] == [];
    }
  }

  lemma {:induction false} FlattenConcat(bs: seq<seq<byte>>, cs: seq<seq<byte>>)
    ensures Flatten(bs + cs) == Flatten(bs) + Flatten(cs)
  {
    if bs == [] {
      assert bs + cs == cs;
    } else {
      assert (bs + cs)[1..] == bs[1..] + cs;
      FlattenConcat(bs[1..], cs);
    }
  }

  ghost predicate BlockSized(b: seq<byte>)
  {
    0 < |b| <= StreamingBlockSize
  }

  /** The blocks `Writer.Write` cuts its input into: consecutive slices of
      StreamingBlockSize bytes, the last one possibly shorter, which
      together are the input in order. */
  function Blocks(src: seq<byte>): (bs: seq<seq<byte>>)
    ensures src == [] <==> bs == []
    ensures 0 < |src| <= StreamingBlockSize ==> bs == [src]
    decreases |src|
  {
    if src == [] then []
    else
      var k := Min(|src|, StreamingBlockSize);
      assert |src| <= StreamingBlockSize ==> src[..k] == src && src[k..] == [];
      [src[..k]] + Blocks(src[k..])
  }

  /** The blocks, in order, are the input. */
  lemma {:induction false} BlocksFlatten(src: seq<byte>)
    ensures Flatten(Blocks(src)) == src
    decreases |src|
  {
    if src != [] {
      var k := Min(|src|, StreamingBlockSize);
      var bs := Blocks(src);
      BlocksFlatten(src[k..]);
      assert bs[0] == src[..k] && bs[1..] == Blocks(src[k..]);
      assert src == src[..k] + src[k..];
    }
  }

  /** Every block holds 1 to StreamingBlockSize bytes, and every block
      but the last is full. */
  lemma {:induction false} BlocksSized(src: seq<byte>)
    ensures forall i :: 0 <= i < |Blocks(src)| ==> BlockSized(Blocks(src)[i])
    ensures forall i :: 0 <= i < |Blocks(src)| - 1 ==> |Blocks(src)[i]| == StreamingBlockSize
    decreases |src|
  {
    if src != [] {
      var k := Min(|src|, StreamingBlockSize);
      var bs := Blocks(src);
      var tail := Blocks(src[k..]);
      BlocksSized(src[k..]);
      assert bs == [src[..k]] + tail;
      forall i | 0 <= i < |bs|
        ensures BlockSized(bs[i]) && (i < |bs| - 1 ==> |bs[i]| == StreamingBlockSize)
      {
        if i > 0 {
          assert bs[i] == tail[i - 1];
        } else if |bs| > 1 {
          assert tail != [];
        }
      }
    }
  }

  /** What a stream emits for blocks `bs` when its history starts at
      `dict`: one frame per block, or None if the codec fails on one. */
  function EncodeBlocks(c: StreamCodec, dict: seq<byte>, bs: seq<seq<byte>>): Option<seq<byte>>
    decreases |bs|
  {
    if bs == [] then Some([])
    else
      var p := c.compress(dict, bs[0]);
      if p == [] then None
      else
        match EncodeBlocks(c, bs[0], bs[1..])
        case None => None
        case Some(rest) => Some(Frame(p) + rest)
  }

  /** The history after `bs` are processed: the last block. */
  function LastBlock(dict: seq<byte>, bs: seq<seq<byte>>): seq<byte>
  {
    if bs == [] then dict else bs[|bs| - 1]
  }

  function Prepend(prefix: seq<byte>, o: Option<seq<byte>>): Option<seq<byte>>
  {
    match o
    case None => None
    case Some(s) => Some(prefix + s)
  }

  /** The history of the LZ4 decoder after it decodes `b`: the decoded
      block, except that LZ4_decompress_safe_continue returns a status of 0
      (an empty block) before it updates its prefix, so the previous history
      stays. */
  function History(dict: seq<byte>, b: seq<byte>): seq<byte>
  {
    if b == [] then dict else b
  }

  /** Reference decoding of a framed stream whose history starts at
      `dict`: None if it ends inside a frame, a length exceeds what a frame
      can hold, or the codec rejects a payload. */
  function DecodeStream(c: StreamCodec, dict: seq<byte>, data: seq<byte>): Option<seq<byte>>
    decreases |data|
  {
    if data == [] then Some([])
    else if |data| < BlockHeaderSize then None
    else
      var size := Uint32(data);
      if size > BoundedStreamingBlockSize || |data| - BlockHeaderSize < size then None
      else
        match c.decompress(dict, data[BlockHeaderSize..BlockHeaderSize + size])
        case Malformed(_) => None
        case Decoded(b) => Prepend(b, DecodeStream(c, History(dict, b), data[BlockHeaderSize + size..]))
  }

  /** Decoding one frame followed by more data. */
  lemma DecodeFrame(c: StreamCodec, dict: seq<byte>, p: seq<byte>, tail: seq<byte>)
    requires |p| <= BoundedStreamingBlockSize
    ensures c.decompress(dict, p).Malformed? ==> DecodeStream(c, dict, Frame(p) + tail) == None
    ensures c.decompress(dict, p).Decoded? ==>
      var b := c.decompress(dict, p).block;
      DecodeStream(c, dict, Frame(p) + tail) == Prepend(b, DecodeStream(c, History(dict, b), tail))
  {
    var data := Frame(p) + tail;
    DecodeEncodePrefix(Uint32Of(|p|), p + tail);
    assert data == Header(|p|) + (p + tail);
    assert Uint32(data) == |p|;
    assert data[BlockHeaderSize..BlockHeaderSize + |p|] == p;
    assert data[BlockHeaderSize + |p|..] == tail;
  }

  /** A frame that decodes to an empty block delivers nothing and leaves
      the history as it was: the frames after it decode as if it were not
      there. */
  lemma EmptyFrameSkipped(c: StreamCodec, dict: seq<byte>, p: seq<byte>, tail: seq<byte>)
    requires |p| <= BoundedStreamingBlockSize && c.decompress(dict, p) == Decoded([])
    ensures DecodeStream(c, dict, Frame(p) + tail) == DecodeStream(c, dict, tail)
  {
    DecodeFrame(c, dict, p, tail);
    PrependEmpty(DecodeStream(c, dict, tail));
  }

  /** The decoder undoes the encoder: the frames of `bs`, followed by
      anything, decode to the blocks' bytes followed by the decoding of the
      rest, whose history is then the last block. */
  lemma {:induction false} DecodeEncodedBlocks(c: StreamCodec, dict: seq<byte>, bs: seq<seq<byte>>, tail: seq<byte>)
    requires StreamSound(c) && StreamRoundTrips(c)
    requires forall i :: 0 <= i < |bs| ==> BlockSized(bs[i])
    requires EncodeBlocks(c, dict, bs).Some?
    ensures DecodeStream(c, dict, EncodeBlocks(c, dict, bs).value + tail)
         == Prepend(Flatten(bs), DecodeStream(c, LastBlock(dict, bs), tail))
    decreases |bs|
  {
    if bs == [] {
      assert EncodeBlocks(c, dict, bs).value + tail == tail;
      PrependEmpty(DecodeStream(c, dict, tail));
    } else {
      var p := c.compress(dict, bs[0]);
      var rest := EncodeBlocks(c, bs[0], bs[1..]).value;
      assert CompressFits(c, dict, bs[0]) && Inverts(c, dict, bs[0]);
      assert BlockSized(bs[0]);
      DecodeFrame(c, dict, p, rest + tail);
      assert EncodeBlocks(c, dict, bs).value + tail == Frame(p) + (rest + tail);
      DecodeEncodedBlocks(c, bs[0], bs[1..], tail);
      assert LastBlock(bs[0], bs[1..]) == LastBlock(dict, bs);
      PrependPrepend(bs[0], Flatten(bs[1..]), DecodeStream(c, LastBlock(dict, bs), tail));
    }
  }

  lemma PrependEmpty(o: Option<seq<byte>>)
    ensures Prepend([], o) == o
  {
    match o
    case None =>
    case Some(s) => assert [] + s == s;
  }

  lemma PrependPrepend(a: seq<byte>, b: seq<byte>, o: Option<seq<byte>>)
    ensures Prepend(a, Prepend(b, o)) == Prepend(a + b, o)
  {
    match o
    case None =>
    case Some(s) => assert a + (b + s) == a + b + s;
  }

  /** Frames of `bs` followed by the frames of `cs`. */
  lemma {:induction false} EncodeBlocksConcat(c: StreamCodec, dict: seq<byte>, bs: seq<seq<byte>>, cs: seq<seq<byte>>)
    requires EncodeBlocks(c, dict, bs).Some?
    requires EncodeBlocks(c, LastBlock(dict, bs), cs).Some?
    ensures EncodeBlocks(c, dict, bs + cs)
         == Some(EncodeBlocks(c, dict, bs).value + EncodeBlocks(c, LastBlock(dict, bs), cs).value)
    ensures LastBlock(dict, bs + cs) == LastBlock(LastBlock(dict, bs), cs)
    decreases |bs|
  {
    if bs == [] {
      assert bs + cs == cs;
      assert [] + EncodeBlocks(c, dict, cs).value == EncodeBlocks(c, dict, cs).value;
    } else {
      assert (bs + cs)[0] == bs[0] && (bs + cs)[1..] == bs[1..] + cs;
      assert LastBlock(bs[0], bs[1..]) == LastBlock(dict, bs);
      EncodeBlocksConcat(c, bs[0], bs[1..], cs);
      var p := c.compress(dict, bs[0]);
      var x := EncodeBlocks(c, bs[0], bs[1..]).value;
      var y := EncodeBlocks(c, LastBlock(dict, bs), cs).value;
      assert EncodeBlocks(c, dict, bs + cs) == Some(Frame(p) + (x + y));
      assert Frame(p) + (x + y) == (Frame(p) + x) + y;
      if cs != [] {
        assert (bs + cs)[|bs + cs| - 1] == cs[|cs| - 1];
      }
    }
  }

  // ---------------------------------------------------------------------
  // The encoder of Writer (lz4.go:97-150), as functions over values.

  /** The underlying io.Writer, given by the writes it refuses:
      `rejects(accepted, chunk)` says whether writing `chunk` after the
      bytes `accepted` so far fails. A refused chunk is not stored. */
  type Sink = (seq<byte>, seq<byte>) -> bool

  /** Everything a write changes: the history of the compression stream
      (the previous block), the bytes the sink accepted, and
      totalCompressedWritten. */
  datatype Encoder = Encoder(dict: seq<byte>, sunk: seq<byte>, total: nat)

  /** The result of a write: the count returned, the error, and the state after. */
  datatype WriteOut = WriteOut(n: nat, err: Option<Error>, after: Encoder)

  /** `writeFrame`: compress one block against the previous one, then send
      header and payload. The stream records the block as its new history
      whatever the outcome. */
  function WriteFrame(c: StreamCodec, sink: Sink, e: Encoder, block: seq<byte>): (r: WriteOut)
    ensures r.after.dict == block
    ensures r.err.None? ==> r.n == |block|
    ensures r.err.Some? ==> r.n == 0 && r.after.total == e.total
  {
    var payload := c.compress(e.dict, block);
    if |payload| <= 0 then WriteOut(0, Some(Compressing), e.(dict := block))
    else
      var header := Header(|payload|);
      if sink(e.sunk, header) then WriteOut(0, Some(SinkFault), e.(dict := block))
      else if sink(e.sunk + header, payload) then WriteOut(0, Some(SinkFault), e.(dict := block, sunk := e.sunk + header))
      else WriteOut(|block|, None, Encoder(block, e.sunk + header + payload, e.total + |payload| + 4))
  }

  /** The loop of `Write`, from offset `done` of `src` on. */
  function WriteFrom(c: StreamCodec, sink: Sink, e: Encoder, src: seq<byte>, done: nat): (r: WriteOut)
    requires done <= |src|
    ensures done <= r.n <= |src|
    ensures r.err.None? <==> r.n == |src|
    decreases |src| - done
  {
    if |src| - done <= 0 then WriteOut(done, None, e)
    else
      var endIdx := Min(done + StreamingBlockSize, |src|);
      var f := WriteFrame(c, sink, e, src[done..endIdx]);
      if f.err.Some? then WriteOut(done, f.err, f.after)
      else WriteFrom(c, sink, f.after, src, done + f.n)
  }

  /** Writer.Write on values: the blocks of `src` framed one by one; the
      count returned is the whole input exactly when nothing failed, and an
      empty input sends nothing. */
  function Write(c: StreamCodec, sink: Sink, e: Encoder, src: seq<byte>): (r: WriteOut)
    ensures r.n <= |src| && (r.err.None? <==> r.n == |src|)
    ensures src == [] ==> r == WriteOut(0, None, e)
  {
    WriteFrom(c, sink, e, src, 0)
  }

  lemma BlocksFrom(src: seq<byte>, done: nat)
    requires done < |src|
    ensures var endIdx := Min(done + StreamingBlockSize, |src|);
      Blocks(src[done..]) == [src[done..endIdx]] + Blocks(src[endIdx..])
  {
    var endIdx := Min(done + StreamingBlockSize, |src|);
    var k := endIdx - done;
    assert src[done..][..k] == src[done..endIdx];
    assert src[done..][k..] == src[endIdx..];
  }

  ghost predicate SinkAcceptsAll(sink: Sink)
  {
    forall accepted, chunk :: !sink(accepted, chunk)
  }

  /** `s` begins with `prefix`. */
  ghost predicate Extends(prefix: seq<byte>, s: seq<byte>)
  {
    |prefix| <= |s| && s[..|prefix|] == prefix
  }

  /** A successful frame sends the frame of the compressed block. */
  lemma WriteFrameSent(c: StreamCodec, sink: Sink, e: Encoder, block: seq<byte>)
    requires WriteFrame(c, sink, e, block).err.None?
    ensures var p := c.compress(e.dict, block);
      p != [] && WriteFrame(c, sink, e, block).after == Encoder(block, e.sunk + Frame(p), e.total + |Frame(p)|)
  {
    var p := c.compress(e.dict, block);
    assert e.sunk + Header(|p|) + p == e.sunk + Frame(p);
  }

  /** A write that succeeds has sent exactly the frames of the blocks of
      its input, and its history is the last block. */
  lemma {:induction false} WriteFromSent(c: StreamCodec, sink: Sink, e: Encoder, src: seq<byte>, done: nat)
    requires done <= |src|
    requires WriteFrom(c, sink, e, src, done).err.None?
    ensures EncodeBlocks(c, e.dict, Blocks(src[done..])).Some?
    ensures var x := EncodeBlocks(c, e.dict, Blocks(src[done..])).value;
      var after := WriteFrom(c, sink, e, src, done).after;
      && after.dict == LastBlock(e.dict, Blocks(src[done..]))
      && after.sunk == e.sunk + x
      && after.total == e.total + |x|
    decreases |src| - done
  {
    if done == |src| {
      assert src[done..] == [];
      assert e.sunk + [] == e.sunk;
    } else {
      var endIdx := Min(done + StreamingBlockSize, |src|);
      var block := src[done..endIdx];
      var p := c.compress(e.dict, block);
      var next := Encoder(block, e.sunk + Frame(p), e.total + |Frame(p)|);
      SentStep(c, sink, e, src, done);
      WriteFromSent(c, sink, next, src, endIdx);
      FramesAfter(c, e.dict, e.sunk, e.total, src, done, WriteFrom(c, sink, next, src, endIdx).after);
    }
  }

  /** A frame followed by the frames of the remaining blocks are the frames
      of all the blocks. */
  lemma FramesAfter(c: StreamCodec, dict: seq<byte>, sunk: seq<byte>, total: nat, src: seq<byte>, done: nat, after: Encoder)
    requires done < |src|
    requires var endIdx := Min(done + StreamingBlockSize, |src|);
      var block := src[done..endIdx];
      var p := c.compress(dict, block);
      var x := EncodeBlocks(c, block, Blocks(src[endIdx..]));
      && p != [] && x.Some?
      && after.dict == LastBlock(block, Blocks(src[endIdx..]))
      && after.sunk == sunk + Frame(p) + x.value
      && after.total == total + |Frame(p)| + |x.value|
    ensures EncodeBlocks(c, dict, Blocks(src[done..])).Some?
    ensures var x := EncodeBlocks(c, dict, Blocks(src[done..])).value;
      && after.dict == LastBlock(dict, Blocks(src[done..]))
      && after.sunk == sunk + x
      && after.total == total + |x|
  {
    var endIdx := Min(done + StreamingBlockSize, |src|);
    var block := src[done..endIdx];
    var p := c.compress(dict, block);
    var rest := EncodeBlocks(c, block, Blocks(src[endIdx..])).value;
    EncodeSplitAt(c, dict, src, done, rest);
    Associates(sunk, Frame(p), rest);
  }

  lemma Associates(a: seq<byte>, b: seq<byte>, c: seq<byte>)
    ensures a + b + c == a + (b + c) && |b + c| == |b| + |c|
  {
  }

  /** The first step of a successful loop: the frame of the first block
      sent, and the loop going on after it. */
  lemma SentStep(c: StreamCodec, sink: Sink, e: Encoder, src: seq<byte>, done: nat)
    requires done < |src| && WriteFrom(c, sink, e, src, done).err.None?
    ensures var endIdx := Min(done + StreamingBlockSize, |src|);
      var block := src[done..endIdx];
      var p := c.compress(e.dict, block);
      && p != []
      && WriteFrom(c, sink, e, src, done)
         == WriteFrom(c, sink, Encoder(block, e.sunk + Frame(p), e.total + |Frame(p)|), src, endIdx)
  {
    WriteFromNext(c, sink, e, src, done);
    FrameStep(c, sink, e, src, done);
  }

  /** A step of the loop whose frame is sent: the loop goes on from the
      end of the block with the frame appended. */
  lemma FrameStep(c: StreamCodec, sink: Sink, e: Encoder, src: seq<byte>, done: nat)
    requires done < |src|
    requires WriteFrame(c, sink, e, src[done..Min(done + StreamingBlockSize, |src|)]).err.None?
    ensures var endIdx := Min(done + StreamingBlockSize, |src|);
      var block := src[done..endIdx];
      var p := c.compress(e.dict, block);
      && p != []
      && WriteFrom(c, sink, e, src, done)
         == WriteFrom(c, sink, Encoder(block, e.sunk + Frame(p), e.total + |Frame(p)|), src, endIdx)
  {
    WriteFromNext(c, sink, e, src, done);
    WriteFrameSent(c, sink, e, src[done..Min(done + StreamingBlockSize, |src|)]);
  }

  /** EncodeSplit for the input of the loop from offset `done` on. */
  lemma EncodeSplitAt(c: StreamCodec, dict: seq<byte>, src: seq<byte>, done: nat, rest: seq<byte>)
    requires done < |src|
    requires var endIdx := Min(done + StreamingBlockSize, |src|);
      && c.compress(dict, src[done..endIdx]) != []
      && EncodeBlocks(c, src[done..endIdx], Blocks(src[endIdx..])) == Some(rest)
    ensures var endIdx := Min(done + StreamingBlockSize, |src|);
      && EncodeBlocks(c, dict, Blocks(src[done..])) == Some(Frame(c.compress(dict, src[done..endIdx])) + rest)
      && LastBlock(dict, Blocks(src[done..])) == LastBlock(src[done..endIdx], Blocks(src[endIdx..]))
  {
    var endIdx := Min(done + StreamingBlockSize, |src|);
    var t := src[done..];
    assert t[..Min(|t|, StreamingBlockSize)] == src[done..endIdx];
    assert t[Min(|t|, StreamingBlockSize)..] == src[endIdx..];
    EncodeSplit(c, dict, t, rest);
  }

  /** One step of the loop of Write. */
  lemma WriteFromNext(c: StreamCodec, sink: Sink, e: Encoder, src: seq<byte>, done: nat)
    requires done < |src|
    ensures var endIdx := Min(done + StreamingBlockSize, |src|);
      var f := WriteFrame(c, sink, e, src[done..endIdx]);
      WriteFrom(c, sink, e, src, done)
        == if f.err.Some? then WriteOut(done, f.err, f.after) else WriteFrom(c, sink, f.after, src, done + f.n)
  {
  }

  /** The encoding of the blocks of `t` when its first block compresses:
      that block's frame, then the encoding of the blocks of the rest. */
  lemma EncodeSplit(c: StreamCodec, dict: seq<byte>, t: seq<byte>, rest: seq<byte>)
    requires t != []
    requires c.compress(dict, t[..Min(|t|, StreamingBlockSize)]) != []
    requires var m := Min(|t|, StreamingBlockSize);
      EncodeBlocks(c, t[..m], Blocks(t[m..])) == Some(rest)
    ensures var m := Min(|t|, StreamingBlockSize);
      && EncodeBlocks(c, dict, Blocks(t)) == Some(Frame(c.compress(dict, t[..m])) + rest)
      && LastBlock(dict, Blocks(t)) == LastBlock(t[..m], Blocks(t[m..]))
  {
    var m := Min(|t|, StreamingBlockSize);
    var bs := Blocks(t);
    assert bs == [t[..m]] + Blocks(t[m..]);
    assert bs[0] == t[..m] && bs[1..] == Blocks(t[m..]);
  }

  /** With a sink that never refuses, a write succeeds exactly when the
      codec compresses every block. */
  lemma {:induction false} WriteFromAccepted(c: StreamCodec, sink: Sink, e: Encoder, src: seq<byte>, done: nat)
    requires done <= |src| && SinkAcceptsAll(sink)
    ensures WriteFrom(c, sink, e, src, done).err.None?
        <==> EncodeBlocks(c, e.dict, Blocks(src[done..])).Some?
    decreases |src| - done
  {
    if done == |src| {
      assert src[done..] == [];
    } else {
      var endIdx := Min(done + StreamingBlockSize, |src|);
      var block := src[done..endIdx];
      var bs := Blocks(src[done..]);
      BlocksFrom(src, done);
      assert bs[0] == block && bs[1..] == Blocks(src[endIdx..]);
      var f := WriteFrame(c, sink, e, block);
      var p := c.compress(e.dict, block);
      assert !sink(e.sunk, Header(|p|)) && !sink(e.sunk + Header(|p|), p);
      if p != [] {
        WriteFromAccepted(c, sink, f.after, src, endIdx);
      }
    }
  }

  /** `Write` succeeds, when it does, with every byte of its input sent
      as frames of the input's blocks; with a sink that never refuses it
      succeeds exactly when the codec compresses every block. */
  lemma WriteEncodes(c: StreamCodec, sink: Sink, e: Encoder, src: seq<byte>)
    ensures var r := Write(c, sink, e, src);
      && (r.err.None? ==>
            r.n == |src|
            && EncodeBlocks(c, e.dict, Blocks(src)).Some?
            && r.after.sunk == e.sunk + EncodeBlocks(c, e.dict, Blocks(src)).value
            && r.after.dict == LastBlock(e.dict, Blocks(src)))
      && (SinkAcceptsAll(sink) ==> (r.err.None? <==> EncodeBlocks(c, e.dict, Blocks(src)).Some?))
  {
    assert src[0..] == src;
    if Write(c, sink, e, src).err.None? {
      WriteFromSent(c, sink, e, src, 0);
    }
    if SinkAcceptsAll(sink) {
      WriteFromAccepted(c, sink, e, src, 0);
    }
  }

  /** An empty write emits nothing and changes nothing; a non-empty write
      of at most one block emits exactly one frame. */
  lemma WriteSingleFrame(c: StreamCodec, sink: Sink, e: Encoder, src: seq<byte>)
    ensures src == [] ==> Write(c, sink, e, src) == WriteOut(0, None, e)
    ensures 0 < |src| <= StreamingBlockSize && Write(c, sink, e, src).err.None? ==>
      Write(c, sink, e, src).after.sunk == e.sunk + Frame(c.compress(e.dict, src))
  {
    if 0 < |src| <= StreamingBlockSize && Write(c, sink, e, src).err.None? {
      WriteEncodes(c, sink, e, src);
      assert Blocks(src) == [src];
      assert EncodeBlocks(c, e.dict, [src]) == Some(Frame(c.compress(e.dict, src)) + []);
      assert Frame(c.compress(e.dict, src)) + [] == Frame(c.compress(e.dict, src));
    }
  }

  /** A failed frame has sent at most its header, and reports the error
      of the codec or of the sink. */
  lemma WriteFrameFailed(c: StreamCodec, sink: Sink, e: Encoder, block: seq<byte>)
    requires WriteFrame(c, sink, e, block).err.Some?
    ensures WriteFrame(c, sink, e, block).err.value in {Compressing, SinkFault}
    ensures Extends(e.sunk, WriteFrame(c, sink, e, block).after.sunk)
  {
    var p := c.compress(e.dict, block);
    assert (e.sunk + Header(|p|))[..|e.sunk|] == e.sunk;
    assert e.sunk[..|e.sunk|] == e.sunk;
  }

  /** What a failed loop from offset `done` has done: it reports only the
      bytes of the blocks completed before the failing one, a whole number
      of blocks less than the input, with the error of the codec or of the
      sink; everything the sink accepted begins with the frames of those
      blocks. */
  ghost predicate FailedAfterBlocks(c: StreamCodec, sink: Sink, e: Encoder, src: seq<byte>, done: nat)
    requires done <= |src|
  {
    var r := WriteFrom(c, sink, e, src, done);
    && r.n < |src| && r.n % StreamingBlockSize == 0
    && r.err.Some? && r.err.value in {Compressing, SinkFault}
    && EncodeBlocks(c, e.dict, Blocks(src[done..r.n])).Some?
    && Extends(e.sunk + EncodeBlocks(c, e.dict, Blocks(src[done..r.n])).value, r.after.sunk)
  }

  /** Every failed loop from a block boundary is as FailedAfterBlocks says. */
  lemma {:induction false} WriteFromFailure(c: StreamCodec, sink: Sink, e: Encoder, src: seq<byte>, done: nat)
    requires done <= |src| && done % StreamingBlockSize == 0
    requires WriteFrom(c, sink, e, src, done).err.Some?
    ensures FailedAfterBlocks(c, sink, e, src, done)
    decreases |src| - done
  {
    var endIdx := Min(done + StreamingBlockSize, |src|);
    var block := src[done..endIdx];
    if WriteFrame(c, sink, e, block).err.Some? {
      FailedHere(c, sink, e, src, done);
    } else {
      var p := c.compress(e.dict, block);
      var next := Encoder(block, e.sunk + Frame(p), e.total + |Frame(p)|);
      FailedLater(c, sink, e, src, done, next);
      WriteFromFailure(c, sink, next, src, done + StreamingBlockSize);
      FailedAfterFrame(c, sink, e, src, done, next);
    }
  }

  /** A loop whose first frame fails reports nothing sent. */
  lemma FailedHere(c: StreamCodec, sink: Sink, e: Encoder, src: seq<byte>, done: nat)
    requires done < |src| && done % StreamingBlockSize == 0
    requires WriteFrame(c, sink, e, src[done..Min(done + StreamingBlockSize, |src|)]).err.Some?
    ensures FailedAfterBlocks(c, sink, e, src, done)
  {
    var block := src[done..Min(done + StreamingBlockSize, |src|)];
    var f := WriteFrame(c, sink, e, block);
    WriteFromNext(c, sink, e, src, done);
    WriteFrameFailed(c, sink, e, block);
    assert WriteFrom(c, sink, e, src, done) == WriteOut(done, f.err, f.after);
    assert src[done..done] == [];
    assert e.sunk + [] == e.sunk;
  }

  /** A failed loop whose first frame is sent fails later, from the next
      block boundary on. */
  lemma FailedLater(c: StreamCodec, sink: Sink, e: Encoder, src: seq<byte>, done: nat, next: Encoder)
    requires done < |src| && done % StreamingBlockSize == 0
    requires WriteFrom(c, sink, e, src, done).err.Some?
    requires var block := src[done..Min(done + StreamingBlockSize, |src|)];
      var p := c.compress(e.dict, block);
      && WriteFrame(c, sink, e, block).err.None?
      && next == Encoder(block, e.sunk + Frame(p), e.total + |Frame(p)|)
    ensures done + StreamingBlockSize < |src|
    ensures (done + StreamingBlockSize) % StreamingBlockSize == 0
    ensures WriteFrom(c, sink, e, src, done) == WriteFrom(c, sink, next, src, done + StreamingBlockSize)
  {
    FrameStep(c, sink, e, src, done);
    NextBlockBoundary(done);
  }

  /** The failure of the rest of the loop, with the first frame in front. */
  lemma FailedAfterFrame(c: StreamCodec, sink: Sink, e: Encoder, src: seq<byte>, done: nat, next: Encoder)
    requires done + StreamingBlockSize < |src|
    requires var block := src[done..done + StreamingBlockSize];
      var p := c.compress(e.dict, block);
      && p != []
      && next == Encoder(block, e.sunk + Frame(p), e.total + |Frame(p)|)
    requires WriteFrom(c, sink, e, src, done) == WriteFrom(c, sink, next, src, done + StreamingBlockSize)
    requires FailedAfterBlocks(c, sink, next, src, done + StreamingBlockSize)
    ensures FailedAfterBlocks(c, sink, e, src, done)
  {
    var r := WriteFrom(c, sink, next, src, done + StreamingBlockSize);
    FramesBefore(c, e.dict, e.sunk, src, done, r.n, r.after.sunk);
  }

  /** If the sink holds a frame followed by the frames of the blocks up to
      `n`, it holds the frames of all the blocks up to `n`. */
  lemma FramesBefore(c: StreamCodec, dict: seq<byte>, sunk: seq<byte>, src: seq<byte>, done: nat, n: nat, accepted: seq<byte>)
    requires done + StreamingBlockSize <= n <= |src|
    requires var block := src[done..done + StreamingBlockSize];
      var p := c.compress(dict, block);
      && p != []
      && EncodeBlocks(c, block, Blocks(src[done + StreamingBlockSize..n])).Some?
      && Extends(sunk + Frame(p) + EncodeBlocks(c, block, Blocks(src[done + StreamingBlockSize..n])).value, accepted)
    ensures EncodeBlocks(c, dict, Blocks(src[done..n])).Some?
    ensures Extends(sunk + EncodeBlocks(c, dict, Blocks(src[done..n])).value, accepted)
  {
    var block := src[done..done + StreamingBlockSize];
    var p := c.compress(dict, block);
    var rest := EncodeBlocks(c, block, Blocks(src[done + StreamingBlockSize..n])).value;
    EncodeSplitBefore(c, dict, src, done, n, rest);
    assert sunk + Frame(p) + rest == sunk + (Frame(p) + rest);
  }

  /** Block boundaries are multiples of the block size. */
  lemma NextBlockBoundary(done: nat)
    requires done % StreamingBlockSize == 0
    ensures (done + StreamingBlockSize) % StreamingBlockSize == 0
  {
  }

  /** EncodeSplit for the blocks of `src[done..n]` when they hold more
      than one block. */
  lemma EncodeSplitBefore(c: StreamCodec, dict: seq<byte>, src: seq<byte>, done: nat, n: nat, rest: seq<byte>)
    requires done + StreamingBlockSize <= n <= |src|
    requires var block := src[done..done + StreamingBlockSize];
      && c.compress(dict, block) != []
      && EncodeBlocks(c, block, Blocks(src[done + StreamingBlockSize..n])) == Some(rest)
    ensures EncodeBlocks(c, dict, Blocks(src[done..n]))
         == Some(Frame(c.compress(dict, src[done..done + StreamingBlockSize])) + rest)
  {
    var t := src[done..n];
    assert t[..StreamingBlockSize] == src[done..done + StreamingBlockSize];
    assert t[StreamingBlockSize..] == src[done + StreamingBlockSize..n];
    EncodeSplit(c, dict, t, rest);
  }

  lemma WriteFailure(c: StreamCodec, sink: Sink, e: Encoder, src: seq<byte>)
    ensures var r := Write(c, sink, e, src);
      r.err.Some? ==>
        && r.n < |src| && r.n % StreamingBlockSize == 0
        && r.err.value in {Compressing, SinkFault}
        && EncodeBlocks(c, e.dict, Blocks(src[..r.n])).Some?
        && Extends(e.sunk + EncodeBlocks(c, e.dict, Blocks(src[..r.n])).value, r.after.sunk)
  {
    var r := Write(c, sink, e, src);
    if r.err.Some? {
      WriteFromFailure(c, sink, e, src, 0);
      assert src[0..r.n] == src[..r.n];
    }
  }

  /** A sequence of writes on one stream, stopping at the first error. */
  function WriteAll(c: StreamCodec, sink: Sink, e: Encoder, ws: seq<seq<byte>>): (r: (Option<Error>, Encoder))
    decreases |ws|
  {
    if ws == [] then (None, e)
    else
      var w := Write(c, sink, e, ws[0]);
      if w.err.Some? then (w.err, w.after) else WriteAll(c, sink, w.after, ws[1..])
  }

  lemma {:induction false} BlocksConcatFull(a: seq<byte>, b: seq<byte>)
    requires |a| % StreamingBlockSize == 0
    ensures Blocks(a + b) == Blocks(a) + Blocks(b)
    decreases |a|
  {
    if a == [] {
      assert a + b == b;
    } else {
      assert |a| >= StreamingBlockSize;
      var k := StreamingBlockSize;
      assert (a + b)[..k] == a[..k];
      assert (a + b)[k..] == a[k..] + b;
      BlocksConcatFull(a[k..], b);
    }
  }

  /** Whatever sizes a payload is written in, what the sink receives is
      an encoding of the writes of which the decoder recovers exactly the
      concatenated payload (with the codec's guarantees). */
  lemma {:induction false} WriteAllDecodes(c: StreamCodec, sink: Sink, e: Encoder, ws: seq<seq<byte>>, tail: seq<byte>)
    requires StreamSound(c) && StreamRoundTrips(c)
    requires WriteAll(c, sink, e, ws).0.None?
    ensures var r := WriteAll(c, sink, e, ws);
      && Extends(e.sunk, r.1.sunk)
      && DecodeStream(c, e.dict, r.1.sunk[|e.sunk|..] + tail)
         == Prepend(Flatten(ws), DecodeStream(c, r.1.dict, tail))
    decreases |ws|
  {
    var r := WriteAll(c, sink, e, ws);
    if ws == [] {
      assert r.1.sunk[|e.sunk|..] + tail == tail;
      PrependEmpty(DecodeStream(c, e.dict, tail));
    } else {
      var w := Write(c, sink, e, ws[0]);
      assert w.err.None? && r == WriteAll(c, sink, w.after, ws[1..]);
      WriteAllDecodes(c, sink, w.after, ws[1..], tail);
      var y := r.1.sunk[|w.after.sunk|..];
      assert r.1.sunk == w.after.sunk + y;
      DecodeAfterWrite(c, sink, e, ws[0], y, tail);
      PrependPrepend(ws[0], Flatten(ws[1..]), DecodeStream(c, r.1.dict, tail));
      assert (w.after.sunk + y)[..|e.sunk|] == e.sunk;
    }
  }

  /** One successful write: its frames, followed by anything, decode to its
      input followed by what the rest decodes to with the write's history. */
  lemma DecodeAfterWrite(c: StreamCodec, sink: Sink, e: Encoder, src: seq<byte>, y: seq<byte>, tail: seq<byte>)
    requires StreamSound(c) && StreamRoundTrips(c)
    requires Write(c, sink, e, src).err.None?
    ensures var w := Write(c, sink, e, src);
      && Extends(e.sunk, w.after.sunk)
      && DecodeStream(c, e.dict, (w.after.sunk + y)[|e.sunk|..] + tail)
         == Prepend(src, DecodeStream(c, w.after.dict, y + tail))
  {
    var w := Write(c, sink, e, src);
    var bs := Blocks(src);
    assert src[0..] == src;
    WriteFromSent(c, sink, e, src, 0);
    var x := EncodeBlocks(c, e.dict, bs).value;
    assert w.after.sunk == e.sunk + x;
    assert (w.after.sunk + y)[|e.sunk|..] + tail == x + (y + tail);
    BlocksSized(src);
    BlocksFlatten(src);
    DecodeEncodedBlocks(c, e.dict, bs, y + tail);
  }

  /** Streaming round trip and chunk-size independence: on a new stream,
      any sequence of successful writes decodes to their concatenation. */
  lemma StreamRoundTrip(c: StreamCodec, sink: Sink, ws: seq<seq<byte>>)
    requires StreamSound(c) && StreamRoundTrips(c)
    ensures var r := WriteAll(c, sink, Encoder([], [], 0), ws);
      r.0.None? ==> DecodeStream(c, [], r.1.sunk) == Some(Flatten(ws))
  {
    var r := WriteAll(c, sink, Encoder([], [], 0), ws);
    if r.0.None? {
      WriteAllDecodes(c, sink, Encoder([], [], 0), ws, []);
      assert r.1.sunk[0..] + [] == r.1.sunk;
      assert Flatten(ws) + [] == Flatten(ws);
    }
  }
}
