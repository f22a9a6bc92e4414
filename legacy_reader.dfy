/** The legacy `reader` of lz4.go (lines 175-298), behind NewReader: it
    decodes each frame into one of two slots, `left` and `right` taking
    turns, and keeps what the caller's buffer cannot take as a pending tail.
    Its Read is proved against `Pull.LegacyRead`. */
module LegacyStream {
  import opened Wire
  import opened Io
  import opened Codec
  import opened Pull

  class Reader {
    const codec: StreamCodec
    /** The two slots decoded blocks are written to. */
    const left: array<byte>
    const right: array<byte>
    var isLeft: bool
    /** The undelivered rest of the last decoded block (nil when empty). */
    var pending: seq<byte>
    /** The underlying io.Reader. */
    var source: Source
    /** The LZ4 decoding stream: whether it is allocated, and the slot and
        length of the block it keeps as history. */
    var streamLive: bool
    var dictInLeft: bool
    var dictLen: nat
    /** Whether Close has freed the slots. */
    var released: bool

    ghost predicate Valid()
      reads this
    {
      && left != right
      && left.Length == BoundedStreamingBlockSize && right.Length == BoundedStreamingBlockSize
      && dictLen <= BoundedStreamingBlockSize
    }

    function DictSlot(): array<byte>
      reads this
    {
      if dictInLeft then left else right
    }

    /** The history lies in the slot written last, so the next block goes
        to the other one: what the LZ4 decoder needs of the history. */
    ghost predicate Staggered()
      reads this
    {
      dictLen == 0 || dictInLeft != isLeft
    }

    ghost function State(): Decoder
      requires Valid()
      reads this, left, right
    {
      Decoder(source, pending, DictSlot()[..dictLen])
    }

    /** NewReader. */
    constructor (codec: StreamCodec, source: Source)
      ensures Valid() && Staggered() && streamLive && !released && isLeft
      ensures State() == Decoder(source, [], [])
      ensures fresh(left) && fresh(right)
    {
      this.codec := codec;
      this.source := source;
      left := new byte[BoundedStreamingBlockSize];
      right := new byte[BoundedStreamingBlockSize];
      isLeft := true;
      pending := [];
      streamLive := true;
      dictInLeft := true;
      dictLen := 0;
      released := false;
    }

    /** readFromPending: hand over as much of the tail as fits, and keep
        the rest (nil once drained). */
    method ReadFromPending(dst: array<byte>) returns (n: nat)
      requires dst != left && dst != right
      modifies this, dst
      ensures var s := Serve(old(pending), dst.Length);
        && n == |s.0| && pending == s.1
        && dst[..] == s.0 + old(dst[..])[n..]
      ensures source == old(source) && isLeft == old(isLeft)
      ensures dictInLeft == old(dictInLeft) && dictLen == old(dictLen)
      ensures streamLive == old(streamLive) && released == old(released)
    {
      var copySize := Min(dst.Length, |pending|);
      Copy(dst, 0, pending[..copySize]);
      if copySize == |pending| {
        pending := [];
      } else {
        pending := pending[copySize..];
      }
      return copySize;
    }

    /** Read: an empty destination returns at once; the pending tail is
        served first; otherwise the next frame is read. */
    method Read(dst: array<byte>) returns (n: int, err: Option<Error>)
      requires Valid() && Staggered() && streamLive && !released && StreamSound(codec)
      requires dst != left && dst != right
      modifies this, left, right, dst
      ensures Valid() && streamLive && !released
      ensures var r := LegacyRead(codec, old(State()), dst.Length);
        && n == r.n && err == r.err && State() == r.after
        && dst[..] == r.delivered + old(dst[..])[|r.delivered|..]
      // A frame that decodes to nothing leaves the history where the next
      // block goes: that read is the one with no error that hands over
      // nothing and keeps nothing, for a non-empty destination.
      ensures err != Some(Decompressing) && (err.Some? || n > 0 || pending != [] || dst.Length == 0) ==> Staggered()
    {
      if dst.Length == 0 {
        return 0, None;
      }
      if pending != [] {
        n := ReadFromPending(dst);
        return n, None;
      }
      n, err := ReadNextFrame(dst);
    }

    /** The frame path of Read: the length, then the payload, then the
        block decoded into the next slot. */
    method ReadNextFrame(dst: array<byte>) returns (n: int, err: Option<Error>)
      requires Valid() && Staggered() && streamLive && !released && StreamSound(codec)
      requires dst != left && dst != right
      modifies this, left, right, dst
      ensures Valid() && streamLive && !released
      ensures var r := ReadFrame(codec, old(State()), dst.Length);
        && n == r.n && err == r.err && State() == r.after
        && dst[..] == r.delivered + old(dst[..])[|r.delivered|..]
      ensures err != Some(Decompressing) && (err.Some? || n > 0 || pending != []) ==> Staggered()
    {
      var blockSize, e, rest := ReadSize(source);
      ReadFrameAfterHeader(codec, State(), dst.Length);
      source := rest;
      if e.Some? {
        return 0, e;
      }
      n, err := ReadStaged(blockSize, dst);
    }

    /** The path of ReadNextFrame after the length header: the payload is
        read, the next slot taken, and the payload decoded into it. */
    method ReadStaged(size: nat, dst: array<byte>) returns (n: int, err: Option<Error>)
      requires Valid() && Staggered() && StreamSound(codec)
      requires dst != left && dst != right
      modifies this, left, right, dst
      ensures Valid() && streamLive == old(streamLive) && released == old(released)
      ensures var r := FrameAfterHeader(codec, old(State()), size, dst.Length);
        && n == r.n && err == r.err && State() == r.after
        && dst[..] == r.delivered + old(dst[..])[|r.delivered|..]
      ensures err != Some(Decompressing) && (err.Some? || n > 0 || pending != []) ==> Staggered()
    {
      ghost var d := State();
      var uncompressedBuf := new byte[BoundedStreamingBlockSize];
      var q := ReadPayload(uncompressedBuf, source, size);
      source := q.rest;
      if q.err.Some? {
        return 0, q.err;
      }
      var ptr := NextSlot();
      assert State() == d.(source := q.rest);
      n, err := DecodeStaged(ptr, uncompressedBuf[..size], dst);
    }

    /** The path of ReadNextFrame after the payload has been read: it is
        decompressed against the history into the slot just taken. */
    method DecodeStaged(ptr: array<byte>, payload: seq<byte>, dst: array<byte>) returns (n: int, err: Option<Error>)
      requires Valid() && StreamSound(codec) && |payload| <= BoundedStreamingBlockSize
      requires ptr == (if isLeft then right else left)
      // The decoder writes the block over ptr while it reads the history.
      requires dictLen == 0 || ptr != DictSlot()
      requires dst != left && dst != right
      modifies this, ptr, dst
      ensures Valid() && isLeft == old(isLeft) && (err.None? && (n > 0 || pending != []) ==> Staggered())
      ensures streamLive == old(streamLive) && released == old(released)
      ensures var r := DecodePayload(codec, old(State()), payload, dst.Length);
        && n == r.n && err == r.err && State() == r.after
        && dst[..] == r.delivered + old(dst[..])[|r.delivered|..]
    {
      var history := DictSlot()[..dictLen];
      var decoded := codec.decompress(history, payload);
      if decoded.Malformed? {
        return decoded.code, Some(Decompressing);
      }
      assert DecompressFits(codec, history, payload);
      n := Deliver(ptr, decoded.block, dst);
      return n, None;
    }

    /** The `isLeft` toggle: the slot for this block, the other one next time. */
    method NextSlot() returns (ptr: array<byte>)
      modifies this
      ensures isLeft == !old(isLeft) && ptr == (if old(isLeft) then left else right)
      ensures pending == old(pending) && source == old(source)
      ensures dictInLeft == old(dictInLeft) && dictLen == old(dictLen)
      ensures streamLive == old(streamLive) && released == old(released)
    {
      if isLeft {
        ptr := left;
        isLeft := false;
      } else {
        ptr := right;
        isLeft := true;
      }
    }

    /** A decoded block: written to the next slot, which becomes the
        history unless the block is empty, and handed over as far as it
        fits; the rest is pending. */
    method Deliver(ptr: array<byte>, b: seq<byte>, dst: array<byte>) returns (n: nat)
      requires Valid() && |b| <= StreamingBlockSize
      requires ptr == (if isLeft then right else left)
      requires dst != left && dst != right
      modifies this, ptr, dst
      ensures Valid() && (b != [] ==> Staggered()) && isLeft == old(isLeft)
      ensures var s := Serve(b, dst.Length);
        && n == |s.0| && dst[..] == s.0 + old(dst[..])[n..]
        && (b != [] ==> State() == Decoder(old(source), s.1, b))
      ensures b == [] ==> State() == Decoder(old(source), [], old(State().dict))
      ensures streamLive == old(streamLive) && released == old(released)
    {
      Copy(ptr, 0, b);
      assert ptr[..][..|b|] == b;
      if |b| > 0 {
        dictInLeft, dictLen := ptr == left, |b|;
      }
      var mySlice := ptr[..|b|];
      var copySize := Min(|b|, dst.Length);
      Copy(dst, 0, mySlice[..copySize]);
      if |b| > dst.Length {
        pending := mySlice[copySize..];
      } else {
        pending := [];
      }
      return copySize;
    }

    /** Close frees the decoding stream if it is still allocated, then the
        two slots; freeing them twice is undefined, hence the precondition. */
    method Close() returns (err: Option<Error>)
      requires Valid() && !released
      modifies this
      ensures err.None? && released && !streamLive && Valid()
      ensures source == old(source) && pending == old(pending)
    {
      if streamLive {
        streamLive := false;
      }
      released := true;
      return None;
    }
  }
}
