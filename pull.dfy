/** The three readers of lz4.go as functions over values: the legacy
    `reader` (lines 174-298) and `DecompressReader` (lines 398-498), which
    undo the framing, and `CompressReader` (lines 300-396), which produces it
    on demand. Each read is a function of the reader's state and of the
    length of the caller's buffer; the reader classes are proved against
    these functions, and the theorems about what a sequence of reads
    delivers are proved here. */
module Pull {
  import opened Wire
  import opened Io
  import opened Codec
  import opened Framing

  /** What a decompressing reader depends on and changes: the unread
      source, the pending tail (the undelivered rest of the last decoded
      block) and the history of the LZ4 decoder (the last decoded block). */
  datatype Decoder = Decoder(source: Source, pending: seq<byte>, dict: seq<byte>)

  /** What a read produced: the count returned, the error, the bytes it
      placed at the front of the caller's buffer, and the state after. */
  datatype ReadOut<S> = ReadOut(n: int, err: Option<Error>, delivered: seq<byte>, after: S)

  /** Copying from a buffered slice into a buffer of `k` bytes
      (readFromPending, bytes.Reader.Read): the bytes handed over and the
      bytes left, which together are the buffered bytes. */
  function Serve(buffered: seq<byte>, k: nat): (r: (seq<byte>, seq<byte>))
    ensures r.0 + r.1 == buffered
    ensures |r.0| == Min(k, |buffered|)
  {
    var m := Min(k, |buffered|);
    (buffered[..m], buffered[m..])
  }

  /** Reading one frame: its 4-byte length, then that many payload bytes,
      then decompressing them against the history. A length above the
      capacity of the payload buffer makes Go slice out of range (a panic,
      reported here as SliceOutOfRange); a negative decompressor status is
      returned as the count together with "error decompressing". */
  function ReadFrame(c: StreamCodec, d: Decoder, k: nat): (r: ReadOut<Decoder>)
    ensures r.err.None? ==>
      var b := r.delivered + r.after.pending;
      && r.n == |r.delivered| == Min(k, |b|)
      && (b != [] ==> r.after.dict == b)
      && (b == [] ==> r.after.dict == d.dict)
    ensures r.err.Some? ==> r.delivered == [] && r.after.pending == d.pending && r.after.dict == d.dict
    ensures r.err.Some? && r.err != Some(Decompressing) ==> r.n == 0
  {
    var q := NextPayload(d.source);
    if q.err.Some? then ReadOut(0, q.err, [], d.(source := q.rest))
    else DecodePayload(c, d.(source := q.rest), q.bytes, k)
  }

  /** The part of ReadFrame after the payload has been read: decompressing
      it against the history; a decoded block is served and replaces the
      history, unless it is empty. */
  function DecodePayload(c: StreamCodec, d: Decoder, payload: seq<byte>, k: nat): (r: ReadOut<Decoder>)
    ensures r.after.source == d.source
    ensures r.err.None? <==> c.decompress(d.dict, payload).Decoded?
    ensures r.err.Some? ==> r == ReadOut(c.decompress(d.dict, payload).code, Some(Decompressing), [], d)
    ensures r.err.None? ==>
      var b := c.decompress(d.dict, payload).block;
      && r.delivered + r.after.pending == b
      && r.n == |r.delivered| == Min(k, |b|)
      && (b != [] ==> r.after.dict == b)
      && (b == [] ==> r.after.dict == d.dict)
  {
    match c.decompress(d.dict, payload)
    case Malformed(code) => ReadOut(code, Some(Decompressing), [], d)
    case Decoded(b) =>
      var s := Serve(b, k);
      ReadOut(|s.0|, None, s.0, Decoder(d.source, s.1, History(d.dict, b)))
  }

  /** The part of ReadFrame after a length header announcing `size`: the
      payload, then decompressing it. */
  function FrameAfterHeader(c: StreamCodec, d: Decoder, size: nat, k: nat): ReadOut<Decoder>
  {
    var q := PayloadOf(d.source, size);
    if q.err.Some? then ReadOut(0, q.err, [], d.(source := q.rest))
    else DecodePayload(c, d.(source := q.rest), q.bytes, k)
  }

  /** ReadFrame as the length header followed by FrameAfterHeader. */
  lemma ReadFrameAfterHeader(c: StreamCodec, d: Decoder, k: nat)
    ensures var h := ReadFull(d.source, BlockHeaderSize);
      ReadFrame(c, d, k) ==
        if h.err.Some? then ReadOut(0, h.err, [], d.(source := h.rest))
        else FrameAfterHeader(c, d.(source := h.rest), Uint32(h.bytes), k)
  {
  }

  /** The payload of the next frame: the length header, then that many
      bytes. */
  function NextPayload(s: Source): (q: Fill)
    ensures q.err.None? ==>
      && |s.data| >= BlockHeaderSize
      && Uint32(s.data) <= BoundedStreamingBlockSize
      && BlockHeaderSize + Uint32(s.data) <= |s.data|
      && q.bytes == s.data[BlockHeaderSize..BlockHeaderSize + Uint32(s.data)]
      && q.rest == s.(data := s.data[BlockHeaderSize + Uint32(s.data)..])
    ensures
      && |s.data| >= BlockHeaderSize
      && Uint32(s.data) <= BoundedStreamingBlockSize
      && BlockHeaderSize + Uint32(s.data) <= |s.data|
      ==> q.err.None?
  {
    var h := ReadFull(s, BlockHeaderSize);
    if h.err.Some? then Fill([], h.err, h.rest)
    else PayloadOf(h.rest, Uint32(h.bytes))
  }

  /** The payload of a frame whose header announced `size` bytes. The
      payload buffer holds BoundedStreamingBlockSize bytes. */
  function PayloadOf(s: Source, size: nat): (q: Fill)
    ensures q.err.None? ==> size <= BoundedStreamingBlockSize && q.bytes + q.rest.data == s.data && |q.bytes| == size
    ensures q.err == Some(SliceOutOfRange) <==> size > BoundedStreamingBlockSize
    ensures q.err.Some? && size <= BoundedStreamingBlockSize ==> q.rest.data == []
    ensures q.rest.fault == s.fault
  {
    if size > BoundedStreamingBlockSize then Fill([], Some(SliceOutOfRange), s)
    else ReadFull(s, size)
  }

  /** readSize (both decompressing readers): the next four bytes of the
      source, read into a 4-byte buffer, as a little-endian length. The
      length read back is the one whose header was read. */
  method ReadSize(s: Source) returns (size: nat, err: Option<Error>, rest: Source)
    ensures var h := ReadFull(s, BlockHeaderSize);
      && rest == h.rest && err == h.err
      && (err.None? ==> size == Uint32(h.bytes) && PutUint32(size) == h.bytes)
      && (err.Some? ==> size == 0)
  {
    var temp := new byte[BlockHeaderSize];
    var h := ReadFull(s, BlockHeaderSize);
    rest := h.rest;
    Copy(temp, 0, h.bytes);
    if h.err.Some? {
      return 0, h.err, rest;
    }
    assert temp[..] == h.bytes;
    EncodeDecode(temp[..]);
    return Uint32(temp[..]), None, rest;
  }

  /** Reading the payload of `size` bytes into the payload buffer, where
      Go slices the buffer to `size` first. */
  method ReadPayload(buf: array<byte>, s: Source, size: nat) returns (q: Fill)
    requires buf.Length == BoundedStreamingBlockSize
    modifies buf
    ensures q == PayloadOf(s, size)
    ensures q.err.None? ==> buf[..size] == q.bytes
  {
    if size > BoundedStreamingBlockSize {
      return Fill([], Some(SliceOutOfRange), s);
    }
    q := ReadFull(s, size);
    Copy(buf, 0, q.bytes);
    assert q.err.None? ==> buf[..][..size] == q.bytes;
  }

  /** DecompressReader.Read, with the guard it evidently intends: buffered
      bytes are served first, and only an empty buffer makes it read the
      next frame (even for an empty destination, which Go allows). */
  function PullRead(c: StreamCodec, d: Decoder, k: nat): (r: ReadOut<Decoder>)
    ensures |d.pending| > 0 ==>
      && r.err.None? && r.delivered + r.after.pending == d.pending
      && r.n == |r.delivered| == Min(k, |d.pending|)
      && r.after.source == d.source && r.after.dict == d.dict
  {
    if |d.pending| > 0 then
      var s := Serve(d.pending, k);
      ReadOut(|s.0|, None, s.0, d.(pending := s.1))
    else
      ReadFrame(c, d, k)
  }

  /** DecompressReader.Read as written: it takes a count of 0 from the
      buffer to mean that the buffer is empty, which is also what an empty
      destination gets while bytes are buffered. */
  function PullReadAsWritten(c: StreamCodec, d: Decoder, k: nat): (r: ReadOut<Decoder>)
    ensures k > 0 ==> r == PullRead(c, d, k)
  {
    if Min(k, |d.pending|) > 0 then
      var s := Serve(d.pending, k);
      ReadOut(|s.0|, None, s.0, d.(pending := s.1))
    else
      ReadFrame(c, d, k)
  }

  /** reader.Read (legacy): an empty destination returns at once; a
      pending tail is served before the next frame is read. */
  function LegacyRead(c: StreamCodec, d: Decoder, k: nat): (r: ReadOut<Decoder>)
    ensures k == 0 ==> r == ReadOut(0, None, [], d)
    ensures k > 0 ==> r == PullRead(c, d, k)
  {
    if k == 0 then ReadOut(0, None, [], d)
    else if |d.pending| > 0 then
      var s := Serve(d.pending, k);
      ReadOut(|s.0|, None, s.0, d.(pending := s.1))
    else
      ReadFrame(c, d, k)
  }

  /** The bytes a decoder still has to deliver: its pending tail, then
      the reference decoding of the rest of the source with its history
      (None if that rest is not a well-formed stream). */
  function Remaining(c: StreamCodec, d: Decoder): Option<seq<byte>>
  {
    Prepend(d.pending, DecodeStream(c, d.dict, d.source.data))
  }

  /** One frame of a well-formed stream: a header whose length fits,
      that many payload bytes, and a payload the codec decodes. */
  lemma WellFormedFrame(c: StreamCodec, dict: seq<byte>, data: seq<byte>)
    requires data != [] && DecodeStream(c, dict, data).Some?
    ensures |data| >= BlockHeaderSize
    ensures Uint32(data) <= BoundedStreamingBlockSize && BlockHeaderSize + Uint32(data) <= |data|
    ensures c.decompress(dict, data[4..4 + Uint32(data)]).Decoded?
    ensures var b := c.decompress(dict, data[4..4 + Uint32(data)]).block;
      DecodeStream(c, dict, data) == Prepend(b, DecodeStream(c, History(dict, b), data[4 + Uint32(data)..]))
  {
  }

  /** Reading such a frame delivers the start of its block and keeps the
      rest as the pending tail. */
  lemma ReadWellFormedFrame(c: StreamCodec, d: Decoder, k: nat)
    requires !d.source.fault && |d.source.data| >= BlockHeaderSize
    requires Uint32(d.source.data) <= BoundedStreamingBlockSize
    requires BlockHeaderSize + Uint32(d.source.data) <= |d.source.data|
    requires c.decompress(d.dict, d.source.data[4..4 + Uint32(d.source.data)]).Decoded?
    ensures var data := d.source.data;
      var b := c.decompress(d.dict, data[4..4 + Uint32(data)]).block;
      var sv := Serve(b, k);
      ReadFrame(c, d, k) == ReadOut(|sv.0|, None, sv.0, Decoder(Source(data[4 + Uint32(data)..], false), sv.1, History(d.dict, b)))
  {
    var data := d.source.data;
    var h := ReadFull(d.source, BlockHeaderSize);
    assert h.bytes == data[..4] && h.rest.data == data[4..];
    var size := Uint32(data);
    assert Uint32(h.bytes) == size;
    var p := ReadFull(h.rest, size);
    assert p.bytes == data[4..4 + size] && p.rest.data == data[4 + size..];
  }

  /** The invariant of a decompressing read: on a well-formed stream, a
      read delivers the next bytes of what remains, in order, and keeps the
      rest for later; the only error it can return is io.EOF, once nothing
      remains. */
  lemma PullReadStep(c: StreamCodec, d: Decoder, k: nat, rest: seq<byte>)
    requires !d.source.fault && Remaining(c, d) == Some(rest)
    ensures var r := PullRead(c, d, k);
      && (r.err.None? ==>
            && r.n == |r.delivered| <= |rest| && r.delivered == rest[..r.n]
            && Remaining(c, r.after) == Some(rest[r.n..]))
      && (r.err.Some? ==> rest == [] && r.err == Some(EOF) && r.delivered == [] && r.n == 0)
  {
    if |d.pending| > 0 {
      var s := DecodeStream(c, d.dict, d.source.data).value;
      var m := Min(k, |d.pending|);
      assert rest == d.pending + s;
      assert rest[..m] == d.pending[..m];
      assert rest[m..] == d.pending[m..] + s;
    } else {
      PrependEmpty(DecodeStream(c, d.dict, d.source.data));
      ReadFrameStep(c, d, k, rest);
    }
  }

  /** The frame path of the invariant: with nothing pending, reading a
      frame of a well-formed stream delivers the start of what remains. */
  lemma ReadFrameStep(c: StreamCodec, d: Decoder, k: nat, rest: seq<byte>)
    requires !d.source.fault && DecodeStream(c, d.dict, d.source.data) == Some(rest)
    ensures var r := ReadFrame(c, d, k);
      && (r.err.None? ==>
            && r.n == |r.delivered| <= |rest| && r.delivered == rest[..r.n]
            && Remaining(c, r.after) == Some(rest[r.n..]))
      && (r.err.Some? ==> rest == [] && r.err == Some(EOF) && r.delivered == [] && r.n == 0)
  {
    var data := d.source.data;
    if data == [] {
      assert ReadFull(d.source, BlockHeaderSize).err == Some(EOF);
    } else {
      WellFormedFrame(c, d.dict, data);
      ReadWellFormedFrame(c, d, k);
      var size := Uint32(data);
      var b := c.decompress(d.dict, data[4..4 + size]).block;
      var tail := DecodeStream(c, History(d.dict, b), data[4 + size..]).value;
      ServeSplits(rest, b, tail, k);
    }
  }

  /** Reads of sizes `ks` one after the other, stopping at the first
      error: the bytes delivered in total, the error, the state after. */
  function DecompressDrain(c: StreamCodec, d: Decoder, ks: seq<nat>): (seq<byte>, Option<Error>, Decoder)
    decreases |ks|
  {
    if ks == [] then ([], None, d)
    else
      var r := PullRead(c, d, ks[0]);
      if r.err.Some? then (r.delivered, r.err, r.after)
      else
        var t := DecompressDrain(c, r.after, ks[1..]);
        (r.delivered + t.0, t.1, t.2)
  }

  /** Chunk-size independence of reading: whatever buffer sizes a caller
      reads with, it receives a prefix of the decoded stream, the rest
      still remains, and io.EOF comes only once all of it was delivered. */
  lemma {:induction false} DrainDelivers(c: StreamCodec, d: Decoder, ks: seq<nat>, rest: seq<byte>)
    requires !d.source.fault && Remaining(c, d) == Some(rest)
    ensures var t := DecompressDrain(c, d, ks);
      && |t.0| <= |rest| && t.0 == rest[..|t.0|]
      && (t.1.None? ==> Remaining(c, t.2) == Some(rest[|t.0|..]) && !t.2.source.fault)
      && (t.1.Some? ==> t.0 == rest && t.1 == Some(EOF))
    decreases |ks|
  {
    if ks != [] {
      var r := PullRead(c, d, ks[0]);
      PullReadStep(c, d, ks[0], rest);
      if r.err.None? {
        assert !r.after.source.fault by { ReadFaultKept(c, d, ks[0]); }
        var rest' := rest[r.n..];
        DrainDelivers(c, r.after, ks[1..], rest');
        var t := DecompressDrain(c, r.after, ks[1..]);
        PrefixThenPrefix(rest, r.delivered, t.0);
      }
    }
  }

  /** Progress of decompressing reads: a read with room for a byte that
      succeeds either delivers a byte or moves past a frame of the source. */
  lemma PullReadProgress(c: StreamCodec, d: Decoder, k: nat)
    requires k >= 1
    ensures var r := PullRead(c, d, k);
      r.err.None? ==>
        && |r.after.source.data| <= |d.source.data|
        && (r.n >= 1 || |r.after.source.data| < |d.source.data|)
  {
    if |d.pending| == 0 {
      var q := NextPayload(d.source);
      if q.err.None? {
        assert |q.rest.data| < |d.source.data|;
      }
    }
  }

  /** Liveness of reading: on a well-formed stream, reads that each have
      room for a byte, as many as the bytes still to deliver and the bytes
      of the source together plus one, deliver all of what remains and end
      with io.EOF. (The source counts too: a frame may decode to an empty
      block, and a read of it delivers nothing.) */
  lemma {:induction false} DrainCompletes(c: StreamCodec, d: Decoder, ks: seq<nat>, rest: seq<byte>)
    requires !d.source.fault && Remaining(c, d) == Some(rest)
    requires forall i :: 0 <= i < |ks| ==> ks[i] >= 1
    requires |ks| > |rest| + |d.source.data|
    ensures DecompressDrain(c, d, ks).0 == rest && DecompressDrain(c, d, ks).1 == Some(EOF)
    decreases |ks|
  {
    var k := ks[0];
    var r := PullRead(c, d, k);
    PullReadStep(c, d, k, rest);
    ReadFaultKept(c, d, k);
    PullReadProgress(c, d, k);
    if r.err.None? {
      var ks' := ks[1..];
      assert forall i :: 0 <= i < |ks'| ==> ks'[i] == ks[i + 1];
      assert |ks'| > |rest[r.n..]| + |r.after.source.data|;
      DrainCompletes(c, r.after, ks', rest[r.n..]);
      var t := DecompressDrain(c, r.after, ks');
      assert DecompressDrain(c, d, ks) == (r.delivered + t.0, t.1, t.2);
      SplitAt(rest, r.n);
    }
  }

  /** A sequence is its prefix followed by the rest. */
  lemma SplitAt(s: seq<byte>, n: nat)
    requires n <= |s|
    ensures s[..n] + s[n..] == s
  {
  }

  /** A prefix of `rest` followed by a prefix of what remains of it is a
      prefix of `rest`, and leaves what remains after both. */
  lemma PrefixThenPrefix(rest: seq<byte>, d: seq<byte>, t: seq<byte>)
    requires |d| <= |rest| && d == rest[..|d|]
    requires |t| <= |rest| - |d| && t == rest[|d|..][..|t|]
    ensures |d + t| <= |rest| && rest[..|d + t|] == d + t
    ensures rest[|d + t|..] == rest[|d|..][|t|..]
    ensures t == rest[|d|..] ==> d + t == rest
  {
    assert rest == d + rest[|d|..];
  }

  /** A read never makes a source fail that did not. */
  lemma ReadFaultKept(c: StreamCodec, d: Decoder, k: nat)
    ensures PullRead(c, d, k).after.source.fault == d.source.fault
  {
  }

  /** End to end: on a stream a Writer produced, any sequence of reads
      delivers a prefix of everything written, and reaches io.EOF only
      after delivering all of it. */
  lemma WrittenStreamReadsBack(c: StreamCodec, sink: Sink, ws: seq<seq<byte>>, ks: seq<nat>)
    requires StreamSound(c) && StreamRoundTrips(c)
    requires WriteAll(c, sink, Encoder([], [], 0), ws).0.None?
    ensures var t := DecompressDrain(c, Decoder(Source(WriteAll(c, sink, Encoder([], [], 0), ws).1.sunk, false), [], []), ks);
      && |t.0| <= |Flatten(ws)| && t.0 == Flatten(ws)[..|t.0|]
      && (t.1.Some? ==> t.0 == Flatten(ws) && t.1 == Some(EOF))
  {
    var d := Decoder(Source(WriteAll(c, sink, Encoder([], [], 0), ws).1.sunk, false), [], []);
    StreamRoundTrip(c, sink, ws);
    PrependEmpty(DecodeStream(c, [], d.source.data));
    DrainDelivers(c, d, ks, Flatten(ws));
  }

  /** The streams do not report a stream truncated right after a length
      header as truncated: io.ReadFull returns plain io.EOF when not one
      payload byte follows, so the read ends as if the stream had ended,
      though the stream is not well formed. */
  lemma HeaderOnlyEndsCleanly(c: StreamCodec, dict: seq<byte>, size: nat, k: nat)
    requires 0 < size <= BoundedStreamingBlockSize
    ensures DecodeStream(c, dict, Header(size)) == None
    ensures var r := PullRead(c, Decoder(Source(Header(size), false), [], dict), k);
      r.err == Some(EOF) && r.delivered == []
  {
    DecodeEncode(size);
  }

  // ---------------------------------------------------------------------
  // CompressReader

  /** What a compressing reader depends on and changes: the unread source,
      the framed bytes still buffered, the history of the LZ4 stream (the
      last block read) and totalCompressedWritten. */
  datatype PullEncoder = PullEncoder(source: Source, buffered: seq<byte>, dict: seq<byte>, total: nat)

  /** Reading the next block (up to StreamingBlockSize bytes, a short last
      one included), compressing it against the history and framing it.
      io.EOF passes through; any other source error is wrapped as "error
      reading source". The history becomes the block read whatever the
      compressor reports. */
  function CompressFrame(c: StreamCodec, e: PullEncoder, k: nat): (r: ReadOut<PullEncoder>)
    ensures r.err.None? ==>
      && |e.source.data| > 0
      && r.after.dict == e.source.data[..Min(StreamingBlockSize, |e.source.data|)]
      && r.after.source.data == e.source.data[Min(StreamingBlockSize, |e.source.data|)..]
      && r.n == |r.delivered|
      && r.delivered + r.after.buffered == Frame(c.compress(e.dict, r.after.dict))
      && r.after.total == e.total + |Frame(c.compress(e.dict, r.after.dict))|
    ensures r.err.Some? ==> r.n == 0 && r.delivered == [] && r.after.total == e.total
    ensures r.err == Some(EOF) <==> !e.source.fault && e.source.data == []
  {
    var f := ReadFull(e.source, StreamingBlockSize);
    if f.err == Some(EOF) then ReadOut(0, Some(EOF), [], e.(source := f.rest))
    else if f.err.Some? && f.err != Some(UnexpectedEOF) then
      ReadOut(0, Some(ReadingSource(f.err.value)), [], e.(source := f.rest))
    else
      CompressBlock(c, e, f.bytes, f.rest, k)
  }

  /** The part of CompressFrame after a block has been read: compressing
      it against the history, which it replaces, and serving its frame. */
  function CompressBlock(c: StreamCodec, e: PullEncoder, block: seq<byte>, rest: Source, k: nat): (r: ReadOut<PullEncoder>)
    ensures r.after.dict == block && r.after.source == rest
    ensures r.err.None? <==> c.compress(e.dict, block) != []
    ensures r.err.Some? ==> r == ReadOut(0, Some(Compressing), [], e.(source := rest, dict := block))
    ensures r.err.None? ==>
      && r.n == |r.delivered| == Min(k, |Frame(c.compress(e.dict, block))|)
      && r.delivered + r.after.buffered == Frame(c.compress(e.dict, block))
      && r.after.total == e.total + |Frame(c.compress(e.dict, block))|
  {
    var p := c.compress(e.dict, block);
    if |p| <= 0 then ReadOut(0, Some(Compressing), [], e.(source := rest, dict := block))
    else
      var s := Serve(Frame(p), k);
      ReadOut(|s.0|, None, s.0, PullEncoder(rest, s.1, block, e.total + |p| + 4))
  }

  /** CompressReader.Read, with the intended guard: buffered bytes first. */
  function CompressRead(c: StreamCodec, e: PullEncoder, k: nat): (r: ReadOut<PullEncoder>)
    ensures |e.buffered| > 0 ==>
      && r.err.None? && r.delivered + r.after.buffered == e.buffered
      && r.n == |r.delivered| == Min(k, |e.buffered|)
      && r.after.source == e.source && r.after.dict == e.dict && r.after.total == e.total
  {
    if |e.buffered| > 0 then
      var s := Serve(e.buffered, k);
      ReadOut(|s.0|, None, s.0, e.(buffered := s.1))
    else
      CompressFrame(c, e, k)
  }

  /** CompressReader.Read as written (the same guard as DecompressReader). */
  function CompressReadAsWritten(c: StreamCodec, e: PullEncoder, k: nat): (r: ReadOut<PullEncoder>)
    ensures k > 0 ==> r == CompressRead(c, e, k)
  {
    if Min(k, |e.buffered|) > 0 then
      var s := Serve(e.buffered, k);
      ReadOut(|s.0|, None, s.0, e.(buffered := s.1))
    else
      CompressFrame(c, e, k)
  }

  /** The framed bytes a compressing reader still has to deliver: what it
      buffers, then the frames of the blocks of the rest of the source. */
  function Unsent(c: StreamCodec, e: PullEncoder): Option<seq<byte>>
  {
    Prepend(e.buffered, EncodeBlocks(c, e.dict, Blocks(e.source.data)))
  }

  /** Reading the next block of a source that still has bytes, when the
      codec compresses it. */
  lemma CompressNextBlock(c: StreamCodec, e: PullEncoder, k: nat)
    requires !e.source.fault && e.source.data != []
    requires var m := Min(StreamingBlockSize, |e.source.data|);
      c.compress(e.dict, e.source.data[..m]) != []
    ensures var data := e.source.data;
      var m := Min(StreamingBlockSize, |data|);
      var p := c.compress(e.dict, data[..m]);
      var sv := Serve(Frame(p), k);
      CompressFrame(c, e, k)
        == ReadOut(|sv.0|, None, sv.0, PullEncoder(Source(data[m..], false), sv.1, data[..m], e.total + |p| + 4))
  {
  }

  /** The invariant of a compressing read: when every block compresses, a
      read delivers the next framed bytes in order and keeps the rest; the
      only error is io.EOF, once nothing remains. */
  lemma CompressReadStep(c: StreamCodec, e: PullEncoder, k: nat, rest: seq<byte>)
    requires !e.source.fault && Unsent(c, e) == Some(rest)
    ensures var r := CompressRead(c, e, k);
      && (r.err.None? ==>
            && r.n == |r.delivered| <= |rest| && r.delivered == rest[..r.n]
            && Unsent(c, r.after) == Some(rest[r.n..]))
      && (r.err.Some? ==> rest == [] && r.err == Some(EOF))
  {
    var data := e.source.data;
    if |e.buffered| > 0 {
      ServeSplits(rest, e.buffered, EncodeBlocks(c, e.dict, Blocks(data)).value, k);
    } else {
      PrependEmpty(EncodeBlocks(c, e.dict, Blocks(data)));
      if data != [] {
        var m := Min(StreamingBlockSize, |data|);
        assert Blocks(data) == [data[..m]] + Blocks(data[m..]);
        var p := c.compress(e.dict, data[..m]);
        CompressNextBlock(c, e, k);
        ServeSplits(rest, Frame(p), EncodeBlocks(c, data[..m], Blocks(data[m..])).value, k);
      }
    }
  }

  /** Serving the front part of `rest` hands over a prefix of `rest` and
      keeps the remainder, the back part included. */
  lemma ServeSplits(rest: seq<byte>, front: seq<byte>, back: seq<byte>, k: nat)
    requires rest == front + back
    ensures var sv := Serve(front, k);
      && |sv.0| <= |rest| && rest[..|sv.0|] == sv.0 && rest[|sv.0|..] == sv.1 + back
  {
    var sv := Serve(front, k);
    assert rest == sv.0 + (sv.1 + back);
  }

  /** Reads of sizes `ks` from a CompressReader, stopping at the first error. */
  function CompressDrain(c: StreamCodec, e: PullEncoder, ks: seq<nat>): (seq<byte>, Option<Error>, PullEncoder)
    decreases |ks|
  {
    if ks == [] then ([], None, e)
    else
      var r := CompressRead(c, e, ks[0]);
      if r.err.Some? then (r.delivered, r.err, r.after)
      else
        var t := CompressDrain(c, r.after, ks[1..]);
        (r.delivered + t.0, t.1, t.2)
  }

  /** Whatever buffer sizes a caller reads a CompressReader with, it
      receives a prefix of the framed stream, and io.EOF only after all of it. */
  lemma {:induction false} CompressDrainDelivers(c: StreamCodec, e: PullEncoder, ks: seq<nat>, rest: seq<byte>)
    requires !e.source.fault && Unsent(c, e) == Some(rest)
    ensures var t := CompressDrain(c, e, ks);
      && |t.0| <= |rest| && t.0 == rest[..|t.0|]
      && (t.1.None? ==> Unsent(c, t.2) == Some(rest[|t.0|..]) && !t.2.source.fault)
      && (t.1.Some? ==> t.0 == rest && t.1 == Some(EOF))
    decreases |ks|
  {
    if ks != [] {
      var r := CompressRead(c, e, ks[0]);
      CompressReadStep(c, e, ks[0], rest);
      if r.err.None? {
        assert r.after.source.fault == e.source.fault;
        var rest' := rest[r.n..];
        CompressDrainDelivers(c, r.after, ks[1..], rest');
        var t := CompressDrain(c, r.after, ks[1..]);
        PrefixThenPrefix(rest, r.delivered, t.0);
      }
    }
  }

  /** Progress of compressing reads: a read with room for a byte that
      succeeds delivers at least one, since every frame has a header. */
  lemma CompressReadProgress(c: StreamCodec, e: PullEncoder, k: nat)
    requires k >= 1
    ensures var r := CompressRead(c, e, k); r.err.None? ==> r.n >= 1
  {
    if |e.buffered| == 0 {
      var f := ReadFull(e.source, StreamingBlockSize);
      var p := c.compress(e.dict, f.bytes);
      assert |Frame(p)| >= BlockHeaderSize;
    }
  }

  /** Liveness of a CompressReader: when every block compresses, reads
      that each have room for a byte, one more than the framed bytes still
      to deliver, deliver all of them and end with io.EOF. */
  lemma {:induction false} CompressDrainCompletes(c: StreamCodec, e: PullEncoder, ks: seq<nat>, rest: seq<byte>)
    requires !e.source.fault && Unsent(c, e) == Some(rest)
    requires forall i :: 0 <= i < |ks| ==> ks[i] >= 1
    requires |ks| > |rest|
    ensures CompressDrain(c, e, ks).0 == rest && CompressDrain(c, e, ks).1 == Some(EOF)
    decreases |ks|
  {
    var r := CompressRead(c, e, ks[0]);
    CompressReadStep(c, e, ks[0], rest);
    if r.err.None? {
      CompressReadProgress(c, e, ks[0]);
      assert r.after.source.fault == e.source.fault;
      var ks' := ks[1..];
      assert forall i :: 0 <= i < |ks'| ==> ks'[i] == ks[i + 1];
      CompressDrainCompletes(c, r.after, ks', rest[r.n..]);
      var t := CompressDrain(c, r.after, ks');
      assert CompressDrain(c, e, ks) == (r.delivered + t.0, t.1, t.2);
      SplitAt(rest, r.n);
    }
  }

  /** A CompressReader over `data` produces the very bytes one Write of
      `data` to a new Writer sends. */
  lemma CompressReaderMatchesWriter(c: StreamCodec, sink: Sink, data: seq<byte>)
    requires Write(c, sink, Encoder([], [], 0), data).err.None?
    ensures Unsent(c, PullEncoder(Source(data, false), [], [], 0))
         == Some(Write(c, sink, Encoder([], [], 0), data).after.sunk)
  {
    WriteEncodes(c, sink, Encoder([], [], 0), data);
    PrependEmpty(EncodeBlocks(c, [], Blocks(data)));
    assert [] + EncodeBlocks(c, [], Blocks(data)).value == EncodeBlocks(c, [], Blocks(data)).value;
  }

  /** End to end, liveness: on a stream a Writer produced, enough reads
      that each have room for a byte deliver everything written and then
      io.EOF. */
  lemma WrittenStreamReadsAll(c: StreamCodec, sink: Sink, ws: seq<seq<byte>>, ks: seq<nat>)
    requires StreamSound(c) && StreamRoundTrips(c)
    requires WriteAll(c, sink, Encoder([], [], 0), ws).0.None?
    requires forall i :: 0 <= i < |ks| ==> ks[i] >= 1
    requires |ks| > |Flatten(ws)| + |WriteAll(c, sink, Encoder([], [], 0), ws).1.sunk|
    ensures var t := DecompressDrain(c, Decoder(Source(WriteAll(c, sink, Encoder([], [], 0), ws).1.sunk, false), [], []), ks);
      t.0 == Flatten(ws) && t.1 == Some(EOF)
  {
    var d := Decoder(Source(WriteAll(c, sink, Encoder([], [], 0), ws).1.sunk, false), [], []);
    StreamRoundTrip(c, sink, ws);
    PrependEmpty(DecodeStream(c, [], d.source.data));
    DrainCompletes(c, d, ks, Flatten(ws));
  }

  /** A CompressReader over `data`, read with enough reads that each have
      room for a byte, hands over exactly what one Write of `data` sends,
      then io.EOF. */
  lemma CompressReaderDeliversWrite(c: StreamCodec, sink: Sink, data: seq<byte>, ks: seq<nat>)
    requires Write(c, sink, Encoder([], [], 0), data).err.None?
    requires forall i :: 0 <= i < |ks| ==> ks[i] >= 1
    requires |ks| > |Write(c, sink, Encoder([], [], 0), data).after.sunk|
    ensures var t := CompressDrain(c, PullEncoder(Source(data, false), [], [], 0), ks);
      t.0 == Write(c, sink, Encoder([], [], 0), data).after.sunk && t.1 == Some(EOF)
  {
    CompressReaderMatchesWriter(c, sink, data);
    CompressDrainCompletes(c, PullEncoder(Source(data, false), [], [], 0), ks, Write(c, sink, Encoder([], [], 0), data).after.sunk);
  }

  // ---------------------------------------------------------------------
  // The lost buffer of DecompressReader.Read and CompressReader.Read

  /** A codec that sends blocks as they are: it meets every guarantee the
      theorems assume, so it is a fair witness. */
  function Stored(): (c: StreamCodec)
  {
    StreamCodec(
      (dict: seq<byte>, block: seq<byte>) => block,
      (dict: seq<byte>, payload: seq<byte>) =>
        if |payload| <= StreamingBlockSize then Decoded(payload) else Malformed(-1))
  }

  lemma StoredIsSound()
    ensures StreamSound(Stored()) && StreamRoundTrips(Stored())
  {
    forall dict: seq<byte>, block: seq<byte>
      ensures CompressFits(Stored(), dict, block) && Inverts(Stored(), dict, block)
    {
    }
    forall dict: seq<byte>, payload: seq<byte>
      ensures DecompressFits(Stored(), dict, payload)
    {
    }
  }

  /** As written, DecompressReader.Read with an empty destination while
      the tail [1, 2, 3] is buffered reads the next frame, and the tail is
      gone: it is never delivered. */
  lemma DecompressReaderLosesBuffered()
    ensures var d := Decoder(Source(Frame([7]), false), [1, 2, 3], []);
      var r := PullReadAsWritten(Stored(), d, 0);
      && Remaining(Stored(), d) == Some([1, 2, 3, 7])
      && r.err.None? && r.delivered == []
      && Remaining(Stored(), r.after) == Some([7])
  {
    var c := Stored();
    var data := Frame([7]);
    DecodeFrame(c, [], [7], []);
    assert data + [] == data;
    assert Uint32(data) == 1 && data[4..5] == [7] && data[5..] == [];
    var d := Decoder(Source(data, false), [1, 2, 3], []);
    ReadWellFormedFrame(c, d, 0);
    assert Serve([7], 0) == ([], [7]);
    var r := PullReadAsWritten(c, d, 0);
    assert c.decompress([], [7]) == Decoded([7]);
    assert DecodeStream(c, [7], []) == Some([]);
    assert DecodeStream(c, [], data) == Some([7]);
    assert [1, 2, 3] + [7] == [1, 2, 3, 7];
    assert r.err.None? && r.delivered == [];
    assert r.after == Decoder(Source([], false), [7], [7]);
    assert Remaining(c, r.after) == Some([7]);
  }

  /** As written, CompressReader.Read with an empty destination while the
      framed bytes [1, 2] are buffered compresses the next block, and the
      buffered bytes are gone. */
  lemma CompressReaderLosesBuffered()
    ensures var e := PullEncoder(Source([9], false), [1, 2], [], 0);
      var r := CompressReadAsWritten(Stored(), e, 0);
      && Unsent(Stored(), e) == Some([1, 2] + Frame([9]))
      && r.err.None? && r.delivered == []
      && Unsent(Stored(), r.after) == Some(Frame([9]))
  {
    var c := Stored();
    assert Blocks([9]) == [[9]];
    assert EncodeBlocks(c, [], [[9]]) == Some(Frame([9]) + []);
    assert Frame([9]) + [] == Frame([9]);
    var e := PullEncoder(Source([9], false), [1, 2], [], 0);
    var r := CompressReadAsWritten(c, e, 0);
    assert r.after.buffered == Frame([9]) && r.after.source.data == [];
    assert [9][1..] == [];
  }

  /** With the intended guard, an empty destination changes nothing while
      bytes are buffered, and so the same reads lose nothing. */
  lemma IntendedGuardKeepsBuffered(c: StreamCodec, d: Decoder, e: PullEncoder)
    requires |d.pending| > 0 && |e.buffered| > 0
    ensures PullRead(c, d, 0) == ReadOut(0, None, [], d)
    ensures CompressRead(c, e, 0) == ReadOut(0, None, [], e)
  {
    assert d.pending[0..] == d.pending && e.buffered[0..] == e.buffered;
  }
}
