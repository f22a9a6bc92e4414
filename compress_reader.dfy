/** `CompressReader` of lz4.go (lines 300-396): a pull-style compressing
    stream. Each read that finds its buffer empty reads the next block of
    the source into one of two staging slots, taking turns, compresses it
    against the previous block, frames it in `compressedBuffer` and serves
    it from a bytes.Reader over that buffer. Its Read is proved against
    `Pull.CompressRead`, which serves buffered bytes whenever there are any
    (the code as written does so only for a non-empty destination;
    `Pull.CompressReadAsWritten` models that). */
module CompressStream {
  import opened Wire
  import opened Io
  import opened Codec
  import opened Framing
  import opened Pull

  class CompressReader {
    const codec: StreamCodec
    /** compressionBuffer: the two staging slots, one block each. */
    const buf0: array<byte>
    const buf1: array<byte>
    /** The buffer a frame is assembled in: header, then payload. */
    const compressedBuffer: array<byte>
    /** The underlying io.Reader. */
    var source: Source
    var inpBufIndex: nat
    /** outputBuffer: a bytes.Reader over the first `outLen` bytes of
        compressedBuffer, its cursor at `outPos`. */
    var outLen: nat
    var outPos: nat
    /** The LZ4 stream: whether it is allocated, and the slot and length of
        the block it keeps as history. */
    var streamLive: bool
    var dictSlot: nat
    var dictLen: nat
    var totalCompressedWritten: nat
    /** Whether Close has freed the buffers. */
    var released: bool

    function Slot(i: nat): array<byte>
    {
      if i == 0 then buf0 else buf1
    }

    /** The shapes of the buffers and the ranges of the indices. */
    ghost predicate Shaped()
      reads this
    {
      && buf0 != buf1 && compressedBuffer != buf0 && compressedBuffer != buf1
      && buf0.Length == StreamingBlockSize && buf1.Length == StreamingBlockSize
      && compressedBuffer.Length == BoundedStreamingBlockSize + BlockHeaderSize
      && inpBufIndex < 2 && dictSlot < 2 && dictLen <= StreamingBlockSize
      && outPos <= outLen <= compressedBuffer.Length
    }

    /** Besides the shapes: the history lies in the slot used last, so the
        next block, which goes to the other slot, cannot overwrite it,
        unless no block can follow. */
    ghost predicate Valid()
      reads this
    {
      Shaped() && (dictLen == 0 || dictSlot == inpBufIndex || source.data == [])
    }

    ghost function State(): PullEncoder
      requires Shaped()
      reads this, buf0, buf1, compressedBuffer
    {
      PullEncoder(source, compressedBuffer[outPos..outLen], Slot(dictSlot)[..dictLen], totalCompressedWritten)
    }

    /** NewCompressReader. */
    constructor (codec: StreamCodec, source: Source)
      ensures Valid() && streamLive && !released
      ensures State() == PullEncoder(source, [], [], 0)
      ensures fresh(buf0) && fresh(buf1) && fresh(compressedBuffer)
    {
      this.codec := codec;
      this.source := source;
      buf0 := new byte[StreamingBlockSize];
      buf1 := new byte[StreamingBlockSize];
      compressedBuffer := new byte[BoundedStreamingBlockSize + BlockHeaderSize];
      inpBufIndex := 0;
      outLen, outPos := 0, 0;
      streamLive := true;
      dictSlot, dictLen := 0, 0;
      totalCompressedWritten := 0;
      released := false;
    }

    /** nextInputBuffer: the slot after the current one. */
    method NextInputBuffer() returns (slot: array<byte>)
      requires Valid()
      modifies this`inpBufIndex
      ensures inpBufIndex == (old(inpBufIndex) + 1) % 2 && slot == Slot(inpBufIndex)
    {
      inpBufIndex := (inpBufIndex + 1) % 2;
      slot := Slot(inpBufIndex);
    }

    /** Read: buffered bytes first; with none buffered, the next block is
        read, compressed and framed, and served from the new buffer. */
    method Read(dst: array<byte>) returns (n: int, err: Option<Error>)
      requires Valid() && streamLive && !released && StreamSound(codec)
      requires dst != buf0 && dst != buf1 && dst != compressedBuffer
      modifies this, buf0, buf1, compressedBuffer, dst
      ensures Valid() && streamLive && !released
      ensures var r := CompressRead(codec, old(State()), dst.Length);
        && n == r.n && err == r.err && State() == r.after
        && dst[..] == r.delivered + old(dst[..])[|r.delivered|..]
    {
      if outLen - outPos > 0 {
        n := Drain(dst);
        return n, None;
      }
      n, err := ReadNextBlock(dst);
    }

    /** The path of Read that serves buffered bytes: as many as fit. */
    method Drain(dst: array<byte>) returns (n: nat)
      requires Valid() && outLen - outPos > 0 && dst != compressedBuffer
      modifies this`outPos, dst
      ensures Valid()
      ensures var s := Pull.Serve(old(compressedBuffer[outPos..outLen]), dst.Length);
        && n == |s.0| && compressedBuffer[outPos..outLen] == s.1
        && dst[..] == s.0 + old(dst[..])[n..]
    {
      var m := Min(dst.Length, outLen - outPos);
      ghost var buffered := compressedBuffer[outPos..outLen];
      assert compressedBuffer[outPos..outPos + m] == buffered[..m];
      assert compressedBuffer[outPos + m..outLen] == buffered[m..];
      Copy(dst, 0, compressedBuffer[outPos..outPos + m]);
      outPos := outPos + m;
      return m;
    }

    /** The path of Read that compresses the next block. */
    method ReadNextBlock(dst: array<byte>) returns (n: int, err: Option<Error>)
      requires Valid() && streamLive && !released && StreamSound(codec)
      requires dst != buf0 && dst != buf1 && dst != compressedBuffer
      modifies this`source, this`inpBufIndex, this`outLen, this`outPos, this`dictSlot, this`dictLen
      modifies this`totalCompressedWritten, buf0, buf1, compressedBuffer, dst
      ensures Valid()
      ensures var r := CompressFrame(codec, old(State()), dst.Length);
        && n == r.n && err == r.err && State() == r.after
        && dst[..] == r.delivered + old(dst[..])[|r.delivered|..]
    {
      var inpPtr, f := Stage();
      if f.err == Some(EOF) {
        return 0, f.err;
      }
      if f.err.Some? && f.err != Some(UnexpectedEOF) {
        return 0, Some(ReadingSource(f.err.value));
      }
      n, err := CompressStaged(inpPtr, |f.bytes|, dst);
    }

    /** The path of ReadNextBlock after a block has been staged in the
        current slot: it is compressed against the history, becomes the
        history, and its frame is served. */
    method CompressStaged(inpPtr: array<byte>, bytesRead: nat, dst: array<byte>) returns (n: int, err: Option<Error>)
      requires Shaped() && StreamSound(codec)
      requires inpPtr == Slot(inpBufIndex) && bytesRead <= StreamingBlockSize
      requires dst != buf0 && dst != buf1 && dst != compressedBuffer
      modifies this`outLen, this`outPos, this`dictSlot, this`dictLen
      modifies this`totalCompressedWritten, compressedBuffer, dst
      ensures Valid()
      ensures var r := Pull.CompressBlock(codec, old(State()), old(inpPtr[..bytesRead]), source, dst.Length);
        && n == r.n && err == r.err && State() == r.after
        && dst[..] == r.delivered + old(dst[..])[|r.delivered|..]
    {
      var written := codec.compress(Slot(dictSlot)[..dictLen], inpPtr[..bytesRead]);
      assert CompressFits(codec, Slot(dictSlot)[..dictLen], inpPtr[..bytesRead]);
      dictSlot, dictLen := inpBufIndex, bytesRead;
      if |written| <= 0 {
        return 0, Some(Compressing);
      }
      n := Serve(written, dst);
      return n, None;
    }

    /** The first steps of a new block: the other slot is taken and filled
        from the source with io.ReadFull. The history is left as it was. */
    method Stage() returns (inpPtr: array<byte>, f: Fill)
      requires Valid()
      modifies this`inpBufIndex, this`source, buf0, buf1
      ensures Shaped() && inpPtr == Slot(inpBufIndex)
      ensures f == ReadFull(old(source), StreamingBlockSize) && source == f.rest
      ensures |f.bytes| <= StreamingBlockSize && inpPtr[..|f.bytes|] == f.bytes
      ensures Slot(dictSlot)[..dictLen] == old(Slot(dictSlot)[..dictLen])
      ensures inpBufIndex == (old(inpBufIndex) + 1) % 2
    {
      ghost var used := inpBufIndex;
      inpPtr := NextInputBuffer();
      f := ReadFull(source, StreamingBlockSize);
      source := f.rest;
      Copy(inpPtr, 0, f.bytes);
      assert inpPtr[..][..|f.bytes|] == f.bytes;
      if dictLen > 0 && dictSlot != used {
        // No block follows the history: nothing is copied over it.
        assert f.bytes == [] && inpPtr[..] == old(inpPtr[..]);
      } else if dictLen > 0 {
        assert Slot(dictSlot) != inpPtr;
      }
    }

    /** A compressed block: framed at the front of compressedBuffer, which
        the buffer then views, and handed over as far as it fits. */
    method Serve(written: seq<byte>, dst: array<byte>) returns (n: nat)
      requires Valid() && 0 < |written| <= BoundedStreamingBlockSize
      requires dst != buf0 && dst != buf1 && dst != compressedBuffer
      modifies this`outLen, this`outPos, this`totalCompressedWritten, compressedBuffer, dst
      ensures Valid()
      ensures totalCompressedWritten == old(totalCompressedWritten) + |Frame(written)|
      ensures var s := Pull.Serve(Frame(written), dst.Length);
        && n == |s.0| && compressedBuffer[outPos..outLen] == s.1
        && dst[..] == s.0 + old(dst[..])[n..]
    {
      Assemble(written);
      outLen, outPos := |written| + BlockHeaderSize, 0;
      var m := Min(dst.Length, outLen);
      Copy(dst, 0, compressedBuffer[..m]);
      assert compressedBuffer[..m] == Frame(written)[..m];
      assert compressedBuffer[m..outLen] == Frame(written)[m..];
      outPos := m;
      totalCompressedWritten := totalCompressedWritten + |written| + 4;
      return m;
    }

    /** The frame of a compressed block at the front of compressedBuffer:
        the payload after the header space, then the header. */
    method Assemble(written: seq<byte>)
      requires Shaped() && 0 < |written| <= BoundedStreamingBlockSize
      modifies compressedBuffer
      ensures compressedBuffer[..BlockHeaderSize + |written|] == Frame(written)
    {
      Copy(compressedBuffer, BlockHeaderSize, written);
      Copy(compressedBuffer, 0, Header(|written|));
      assert compressedBuffer[..BlockHeaderSize + |written|] == Frame(written);
    }

    /** Close frees the LZ4 stream if it is still allocated, then the
        buffers; freeing them twice is undefined, hence the precondition. */
    method Close() returns (err: Option<Error>)
      requires Valid() && !released
      modifies this
      ensures err.None? && released && !streamLive && Valid()
      ensures source == old(source) && totalCompressedWritten == old(totalCompressedWritten)
    {
      if streamLive {
        streamLive := false;
      }
      released := true;
      return None;
    }
  }
}
