/** `Writer` of lz4.go (lines 75-172): a push-style compressing stream.
    Each block of a write is copied into one of two staging slots, the slots
    taking turns, and compressed against the previous block, which the LZ4
    stream still finds in the other slot. The methods are proved against the
    value-level encoder of the Framing module. */
module WriterStream {
  import opened Wire
  import opened Io
  import opened Codec
  import opened Framing

  class Writer {
    const codec: StreamCodec
    /** The underlying io.Writer. */
    const rejects: Sink
    /** compressionBuffer: the two staging slots, one block each. */
    const buf0: array<byte>
    const buf1: array<byte>
    var inpBufIndex: nat
    /** The LZ4 stream (lz4Stream): whether it is allocated, and the slot
        and length of the block it keeps as history. */
    var streamLive: bool
    var dictSlot: nat
    var dictLen: nat
    var totalCompressedWritten: nat
    /** The bytes the underlying writer has accepted. */
    var sunk: seq<byte>
    /** Whether Close has freed the staging slots. */
    var released: bool

    function Slot(i: nat): array<byte>
    {
      if i == 0 then buf0 else buf1
    }

    /** The history lies in the slot used last, so the next block, which
        goes to the other slot, never overwrites it. */
    ghost predicate Valid()
      reads this
    {
      && buf0 != buf1
      && buf0.Length == StreamingBlockSize && buf1.Length == StreamingBlockSize
      && inpBufIndex < 2 && dictSlot == inpBufIndex && dictLen <= StreamingBlockSize
    }

    ghost function State(): Encoder
      requires Valid()
      reads this, buf0, buf1
    {
      Encoder(Slot(dictSlot)[..dictLen], sunk, totalCompressedWritten)
    }

    /** NewWriter. */
    constructor (codec: StreamCodec, rejects: Sink)
      ensures Valid() && streamLive && !released
      ensures State() == Encoder([], [], 0)
      ensures fresh(buf0) && fresh(buf1)
    {
      this.codec := codec;
      this.rejects := rejects;
      buf0 := new byte[StreamingBlockSize];
      buf1 := new byte[StreamingBlockSize];
      inpBufIndex := 0;
      streamLive := true;
      dictSlot := 0;
      dictLen := 0;
      totalCompressedWritten := 0;
      sunk := [];
      released := false;
    }

    /** The slot for the next block: the other one. */
    method NextInputBuffer() returns (slot: array<byte>)
      requires Valid()
      modifies this
      ensures inpBufIndex == (old(inpBufIndex) + 1) % 2 && slot == Slot(inpBufIndex)
      ensures dictSlot == old(dictSlot) && dictLen == old(dictLen)
      ensures sunk == old(sunk) && totalCompressedWritten == old(totalCompressedWritten)
      ensures streamLive == old(streamLive) && released == old(released)
    {
      inpBufIndex := (inpBufIndex + 1) % 2;
      slot := Slot(inpBufIndex);
    }

    /** writeFrame: stage the block, compress it against the history, send
        header and payload. The previous block's slot is left as it was. */
    method WriteFrame(block: seq<byte>) returns (n: nat, err: Option<Error>)
      requires Valid() && streamLive && !released
      requires |block| <= StreamingBlockSize
      modifies this, buf0, buf1
      ensures Valid() && streamLive && !released
      ensures inpBufIndex == (old(inpBufIndex) + 1) % 2
      ensures var r := Framing.WriteFrame(codec, rejects, old(State()), block);
        n == r.n && err == r.err && State() == r.after
      ensures Slot(old(inpBufIndex))[..] == old(Slot(inpBufIndex)[..])
    {
      var slot := NextInputBuffer();
      Copy(slot, 0, block);
      assert slot[..][..|block|] == block;
      var history := Slot(dictSlot)[..dictLen];
      var compressed := codec.compress(history, slot[..|block|]);
      dictSlot, dictLen := inpBufIndex, |block|;
      if |compressed| <= 0 {
        return 0, Some(Compressing);
      }
      var header := Header(|compressed|);
      if rejects(sunk, header) {
        return 0, Some(SinkFault);
      }
      sunk := sunk + header;
      if rejects(sunk, compressed) {
        return 0, Some(SinkFault);
      }
      sunk := sunk + compressed;
      totalCompressedWritten := totalCompressedWritten + |compressed| + 4;
      return |block|, None;
    }

    /** Write: the blocks of `src` in order, stopping at the first error
        with the count of the bytes of the blocks sent before it. */
    method Write(src: seq<byte>) returns (n: nat, err: Option<Error>)
      requires Valid() && streamLive && !released
      modifies this, buf0, buf1
      ensures Valid() && streamLive && !released
      ensures var r := Framing.Write(codec, rejects, old(State()), src);
        n == r.n && err == r.err && State() == r.after
    {
      var remainingBytes := |src|;
      var totalWritten := 0;
      while remainingBytes > 0
        invariant Valid() && streamLive && !released
        invariant totalWritten <= |src| && remainingBytes == |src| - totalWritten
        invariant WriteFrom(codec, rejects, State(), src, totalWritten)
               == Framing.Write(codec, rejects, old(State()), src)
        decreases remainingBytes
      {
        var endIdx := totalWritten + StreamingBlockSize;
        if endIdx > |src| {
          endIdx := |src|;
        }
        var written, e := WriteFrame(src[totalWritten..endIdx]);
        if e.Some? {
          return totalWritten, e;
        }
        totalWritten := totalWritten + written;
        remainingBytes := remainingBytes - written;
      }
      return totalWritten, None;
    }

    /** Close frees the LZ4 stream if it is still allocated, then the two
        slots; freeing them twice is undefined, hence the precondition. */
    method Close() returns (err: Option<Error>)
      requires Valid() && !released
      modifies this
      ensures err.None? && released && !streamLive && Valid()
      ensures sunk == old(sunk) && totalCompressedWritten == old(totalCompressedWritten)
    {
      if streamLive {
        streamLive := false;
      }
      released := true;
      return None;
    }
  }
}
