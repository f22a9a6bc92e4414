/** `DecompressReader` of lz4.go (lines 398-498), behind NewDecompressReader:
    it decodes each frame into one of two slots, taking turns, and serves
    the decoded block from a bytes.Reader over that slot. Its Read is proved
    against `Pull.PullRead`, which serves buffered bytes whenever there are
    any (the code as written does so only for a non-empty destination;
    `Pull.PullReadAsWritten` models that). */
module DecompressStream {
  import opened Wire
  import opened Io
  import opened Codec
  import opened Pull

  class DecompressReader {
    const codec: StreamCodec
    /** decompressionBuffer: the two slots decoded blocks are written to. */
    const buf0: array<byte>
    const buf1: array<byte>
    /** The buffer a payload is read into. */
    const compressedBuffer: array<byte>
    /** The underlying io.Reader. */
    var source: Source
    var inpBufIndex: nat
    /** outputBuffer: a bytes.Reader over the first `outLen` bytes of slot
        `outSlot`, its cursor at `outPos`. */
    var outSlot: nat
    var outLen: nat
    var outPos: nat
    /** The LZ4 decoding stream: whether it is allocated, and the slot and
        length of the block it keeps as history. */
    var streamLive: bool
    var dictSlot: nat
    var dictLen: nat
    /** Whether Close has freed the buffers. */
    var released: bool

    function Slot(i: nat): array<byte>
    {
      if i == 0 then buf0 else buf1
    }

    ghost predicate Valid()
      reads this
    {
      && buf0 != buf1 && compressedBuffer != buf0 && compressedBuffer != buf1
      && buf0.Length == StreamingBlockSize && buf1.Length == StreamingBlockSize
      && compressedBuffer.Length == BoundedStreamingBlockSize
      && inpBufIndex < 2 && outSlot < 2 && dictSlot < 2
      && outPos <= outLen <= StreamingBlockSize && dictLen <= StreamingBlockSize
    }

    /** The next block goes to the slot after `inpBufIndex`, and that slot
        does not hold the history, unless no block can follow. */
    ghost predicate Staggered()
      reads this
    {
      dictLen == 0 || (inpBufIndex + 1) % 2 != dictSlot || source.data == []
    }

    ghost function State(): Decoder
      requires Valid()
      reads this, buf0, buf1
    {
      Decoder(source, Slot(outSlot)[outPos..outLen], Slot(dictSlot)[..dictLen])
    }

    /** NewDecompressReader. */
    constructor (codec: StreamCodec, source: Source)
      ensures Valid() && Staggered() && streamLive && !released
      ensures State() == Decoder(source, [], [])
      ensures fresh(buf0) && fresh(buf1) && fresh(compressedBuffer)
    {
      this.codec := codec;
      this.source := source;
      buf0 := new byte[StreamingBlockSize];
      buf1 := new byte[StreamingBlockSize];
      compressedBuffer := new byte[BoundedStreamingBlockSize];
      inpBufIndex := 0;
      outSlot, outLen, outPos := 0, 0, 0;
      streamLive := true;
      dictSlot, dictLen := 0, 0;
      released := false;
    }

    /** nextDecompressionBuffer: the slot after the current one. */
    method NextDecompressionBuffer() returns (slot: array<byte>)
      requires Valid()
      modifies this`inpBufIndex
      ensures Valid() && inpBufIndex == (old(inpBufIndex) + 1) % 2 && slot == Slot(inpBufIndex)
    {
      inpBufIndex := (inpBufIndex + 1) % 2;
      slot := Slot(inpBufIndex);
    }

    /** Read: buffered bytes first; with none buffered, the next frame is
        read and decoded into the next slot, which the buffer then views. */
    method Read(dst: array<byte>) returns (n: int, err: Option<Error>)
      requires Valid() && Staggered() && streamLive && !released && StreamSound(codec)
      requires dst != buf0 && dst != buf1 && dst != compressedBuffer
      modifies this, buf0, buf1, compressedBuffer, dst
      ensures Valid() && streamLive && !released
      ensures var r := PullRead(codec, old(State()), dst.Length);
        && n == r.n && err == r.err && State() == r.after
        && dst[..] == r.delivered + old(dst[..])[|r.delivered|..]
      // A frame that decodes to nothing leaves the history in the slot the
      // next frame goes to: that read is the one with no error whose
      // buffer views nothing.
      ensures err != Some(Decompressing) && err != Some(SliceOutOfRange) && (err.Some? || outLen > 0) ==> Staggered()
    {
      if outLen - outPos > 0 {
        n := Drain(dst);
        return n, None;
      }
      n, err := ReadNextFrame(dst);
    }

    /** The path of Read that serves buffered bytes: as many as fit. */
    method Drain(dst: array<byte>) returns (n: nat)
      requires Valid() && outLen - outPos > 0 && dst != buf0 && dst != buf1
      modifies this`outPos, dst
      ensures Valid()
      ensures var s := Serve(old(Slot(outSlot)[outPos..outLen]), dst.Length);
        && n == |s.0| && Slot(outSlot)[outPos..outLen] == s.1
        && dst[..] == s.0 + old(dst[..])[n..]
    {
      var m := Min(dst.Length, outLen - outPos);
      Copy(dst, 0, Slot(outSlot)[outPos..outPos + m]);
      assert Slot(outSlot)[outPos..outPos + m] == Slot(outSlot)[outPos..outLen][..m];
      assert Slot(outSlot)[outPos + m..outLen] == Slot(outSlot)[outPos..outLen][m..];
      outPos := outPos + m;
      return m;
    }

    /** The frame path of Read. */
    method ReadNextFrame(dst: array<byte>) returns (n: int, err: Option<Error>)
      requires Valid() && Staggered() && streamLive && !released && StreamSound(codec)
      requires dst != buf0 && dst != buf1 && dst != compressedBuffer
      modifies this`source, this`inpBufIndex, this`outSlot, this`outLen, this`outPos
      modifies this`dictSlot, this`dictLen, buf0, buf1, compressedBuffer, dst
      ensures Valid()
      ensures var r := ReadFrame(codec, old(State()), dst.Length);
        && n == r.n && err == r.err && State() == r.after
        && dst[..] == r.delivered + old(dst[..])[|r.delivered|..]
      ensures err != Some(Decompressing) && err != Some(SliceOutOfRange) && (err.Some? || outLen > 0) ==> Staggered()
    {
      var compressedBlockSize, e, rest := ReadSize(source);
      ReadFrameAfterHeader(codec, State(), dst.Length);
      source := rest;
      if e.Some? {
        return 0, e;
      }
      n, err := ReadStaged(compressedBlockSize, dst);
    }

    /** The path of ReadNextFrame after the length header: the next slot is
        taken, the payload read, and then decoded. */
    method ReadStaged(size: nat, dst: array<byte>) returns (n: int, err: Option<Error>)
      requires Valid() && StreamSound(codec)
      requires dictLen == 0 || (inpBufIndex + 1) % 2 != dictSlot
      requires dst != buf0 && dst != buf1 && dst != compressedBuffer
      modifies this`source, this`inpBufIndex, this`outSlot, this`outLen, this`outPos
      modifies this`dictSlot, this`dictLen, buf0, buf1, compressedBuffer, dst
      ensures Valid()
      ensures var r := FrameAfterHeader(codec, old(State()), size, dst.Length);
        && n == r.n && err == r.err && State() == r.after
        && dst[..] == r.delivered + old(dst[..])[|r.delivered|..]
      ensures err != Some(Decompressing) && err != Some(SliceOutOfRange) && (err.Some? || outLen > 0) ==> Staggered()
    {
      var outPtr := NextDecompressionBuffer();
      var q := ReadPayload(compressedBuffer, source, size);
      source := q.rest;
      if q.err.Some? {
        assert q.err != Some(SliceOutOfRange) ==> source.data == [];
        return 0, q.err;
      }
      n, err := DecodeStaged(outPtr, size, dst);
    }

    /** The path of ReadNextFrame after the payload has been read into
        compressedBuffer: it is decompressed against the history, and a
        decoded block is delivered from the current slot. */
    method DecodeStaged(outPtr: array<byte>, size: nat, dst: array<byte>) returns (n: int, err: Option<Error>)
      requires Valid() && StreamSound(codec)
      requires outPtr == Slot(inpBufIndex) && size <= compressedBuffer.Length
      // The decoder writes the block over outPtr while it reads the history.
      requires dictLen == 0 || dictSlot != inpBufIndex
      requires dst != buf0 && dst != buf1 && dst != compressedBuffer
      modifies this`outSlot, this`outLen, this`outPos, this`dictSlot, this`dictLen, outPtr, dst
      ensures Valid() && (err.None? && outLen > 0 ==> dictSlot == inpBufIndex && Staggered())
      ensures var r := DecodePayload(codec, old(State()), old(compressedBuffer[..size]), dst.Length);
        && n == r.n && err == r.err && State() == r.after
        && dst[..] == r.delivered + old(dst[..])[|r.delivered|..]
    {
      var history := Slot(dictSlot)[..dictLen];
      var decoded := codec.decompress(history, compressedBuffer[..size]);
      if decoded.Malformed? {
        return decoded.code, Some(Decompressing);
      }
      assert DecompressFits(codec, history, compressedBuffer[..size]);
      n := Deliver(outPtr, decoded.block, dst);
      return n, None;
    }

    /** A decoded block: written to the current slot, which becomes what
        the buffer views and, unless the block is empty, the history; as
        much as fits is handed over. */
    method Deliver(outPtr: array<byte>, b: seq<byte>, dst: array<byte>) returns (n: nat)
      requires Valid() && |b| <= StreamingBlockSize && outPtr == Slot(inpBufIndex)
      requires dst != buf0 && dst != buf1
      modifies this`dictSlot, this`dictLen, this`outSlot, this`outLen, this`outPos, outPtr, dst
      ensures Valid() && outLen == |b| && (b != [] ==> dictSlot == inpBufIndex)
      ensures var s := Serve(b, dst.Length);
        && n == |s.0| && dst[..] == s.0 + old(dst[..])[n..]
        && (b != [] ==> State() == Decoder(source, s.1, b))
      ensures b == [] ==> State() == Decoder(source, [], old(State().dict))
    {
      if |b| == 0 {
        // Nothing is written; the buffer views an empty slice.
        outSlot, outLen, outPos := inpBufIndex, 0, 0;
        return 0;
      }
      Copy(outPtr, 0, b);
      assert outPtr[..][..|b|] == b;
      dictSlot, dictLen := inpBufIndex, |b|;
      outSlot, outLen, outPos := inpBufIndex, |b|, 0;
      var m := Min(dst.Length, |b|);
      Copy(dst, 0, outPtr[..m]);
      assert outPtr[..m] == b[..m] && outPtr[m..|b|] == b[m..];
      outPos := m;
      return m;
    }

    /** Close frees the decoding stream if it is still allocated, then the
        buffers; freeing them twice is undefined, hence the precondition. */
    method Close() returns (err: Option<Error>)
      requires Valid() && !released
      modifies this
      ensures err.None? && released && !streamLive && Valid()
      ensures source == old(source)
    {
      if streamLive {
        streamLive := false;
      }
      released := true;
      return None;
    }
  }
}
