/** The block codec the streams and the envelope are layered on (liblz4),
    taken as an oracle: the core only ever sees what a compress or
    decompress call returns. Its guarantees are stated as predicates that
    the theorems assume, never as axioms. Also the size constants,
    `CompressBound` and `min` of lz4.go. */
module Codec {
  import opened Wire
  import opened Io

  /** Largest block a stream compresses in one call (64 KiB). */
  const StreamingBlockSize: nat := 1024 * 64
  /** Size of the length header in front of every frame. */
  const BlockHeaderSize: nat := 4
  /** Capacity of the buffer a compressed block is written to. */
  const BoundedStreamingBlockSize: nat := StreamingBlockSize + StreamingBlockSize / 255 + 16
  /** Largest input liblz4 compresses (LZ4_MAX_INPUT_SIZE). */
  const MaxInputSize: nat := 0x7E00_0000

  function Min(a: int, b: int): (r: int)
    ensures r <= a && r <= b
    ensures r == a || r == b
  {
    if a < b then a else b
  }

  /** Worst-case compressed size of an input of `n` bytes (Go takes the
      slice and uses its length; the macro's cut-off above the largest
      input is not reproduced by the Go code). */
  function CompressBound(n: nat): (r: nat)
    ensures n + 16 <= r
    ensures (r - n - 16) * 255 <= n < (r - n - 15) * 255
  {
    n + (n / 255 + 16)
  }

  /** The bound grows with the input and always leaves room for it. */
  lemma CompressBoundMonotone(m: nat, n: nat)
    requires m <= n
    ensures m + 16 <= CompressBound(m) <= CompressBound(n)
  {
    assert m / 255 <= n / 255;
  }

  /** The values the test suite pins down. */
  lemma CompressBoundValues()
    ensures CompressBound(0) == 16 && CompressBound(1) == 17
    ensures CompressBound(254) == 270 && CompressBound(255) == 272
    ensures CompressBound(510) == 528
  {
  }

  /** The staging buffer for a compressed block holds the bound of a
      full block. */
  lemma BoundedBlockIsBound()
    ensures BoundedStreamingBlockSize == CompressBound(StreamingBlockSize) == 65809
  {
  }

  /** What a decompression call produced: a negative status, or the
      decoded bytes (the status is their count). */
  datatype Decoded = Malformed(code: int) | Decoded(block: seq<byte>)

  /** The history-keeping calls LZ4_compress_fast_continue and
      LZ4_decompress_safe_continue. The history is the previous block of the
      same stream, which a caller passes as `dict`, read from wherever the
      previous block still lies when the call is made. A compressed result
      of length 0 is the failure status (the bytes written are the status). */
  datatype StreamCodec = StreamCodec(
    compress: (seq<byte>, seq<byte>) -> seq<byte>,
    decompress: (seq<byte>, seq<byte>) -> Decoded)

  /** The compressed output of a block fits the output buffer the stream
      passes (capacity BoundedStreamingBlockSize). */
  ghost predicate CompressFits(c: StreamCodec, dict: seq<byte>, block: seq<byte>)
  {
    |block| <= StreamingBlockSize ==> |c.compress(dict, block)| <= BoundedStreamingBlockSize
  }

  /** Decompression fills at most the StreamingBlockSize bytes it is given,
      and reports failure with a negative status. */
  ghost predicate DecompressFits(c: StreamCodec, dict: seq<byte>, payload: seq<byte>)
  {
    match c.decompress(dict, payload)
    case Malformed(code) => code < 0
    case Decoded(b) => |b| <= StreamingBlockSize
  }

  ghost predicate StreamSound(c: StreamCodec)
  {
    && (forall dict, block :: CompressFits(c, dict, block))
    && (forall dict, payload :: DecompressFits(c, dict, payload))
  }

  /** Decompressing with the same history inverts a successful compression. */
  ghost predicate Inverts(c: StreamCodec, dict: seq<byte>, block: seq<byte>)
  {
    0 < |block| <= StreamingBlockSize && |c.compress(dict, block)| > 0 ==>
      c.decompress(dict, c.compress(dict, block)) == Decoded(block)
  }

  ghost predicate StreamRoundTrips(c: StreamCodec)
  {
    forall dict, block :: Inverts(c, dict, block)
  }

  /** The one-shot calls: LZ4_compress_default(src, dstCapacity),
      LZ4_decompress_safe(src, dstCapacity), and the high-compression
      variants behind CompressHC and CompressHCLevel. A compressed result
      of length 0 is the failure status. */
  datatype BlockCodec = BlockCodec(
    compress: (seq<byte>, nat) -> seq<byte>,
    decompress: (seq<byte>, nat) -> Decoded,
    compressHC: (seq<byte>, nat) -> seq<byte>,
    compressHCLevel: (seq<byte>, nat, int) -> seq<byte>)

  /** A one-shot compressed result never exceeds the capacity it was given,
      and nothing above the largest input is ever compressed. */
  ghost predicate OutputFits(out: seq<byte>, src: seq<byte>, cap: nat)
  {
    |out| <= cap && (|out| > 0 ==> |src| <= MaxInputSize)
  }

  ghost predicate OneShotFits(c: BlockCodec, src: seq<byte>, cap: nat, level: int)
  {
    && OutputFits(c.compress(src, cap), src, cap)
    && OutputFits(c.compressHC(src, cap), src, cap)
    && OutputFits(c.compressHCLevel(src, cap, level), src, cap)
    && (match c.decompress(src, cap)
        case Malformed(code) => code < 0
        case Decoded(b) => |b| <= cap)
    && (|src| <= MaxInputSize && CompressBound(|src|) <= cap ==> |c.compress(src, cap)| > 0)
  }

  ghost predicate BlockSound(c: BlockCodec)
  {
    forall src, cap, level :: OneShotFits(c, src, cap, level)
  }

  /** Decompressing into any buffer large enough for the original inverts
      a successful one-shot compression. */
  ghost predicate OneShotInverts(c: BlockCodec, src: seq<byte>, cap: nat, room: nat)
  {
    |c.compress(src, cap)| > 0 && |src| <= room ==>
      c.decompress(c.compress(src, cap), room) == Decoded(src)
  }

  ghost predicate BlockRoundTrips(c: BlockCodec)
  {
    forall src, cap, room :: OneShotInverts(c, src, cap, room)
  }

  const Two31: nat := 0x8000_0000

  /** clen: the length of a Go slice converted to a C int, that is its low
      32 bits read as a two's-complement number. Lengths from 2^31 on come
      out negative or wrapped. */
  function CInt(n: nat): (r: int)
    ensures -(Two31 as int) <= r < Two31 && (n - r) % Two32 == 0
    ensures n < Two31 ==> r == n
    ensures r <= n
  {
    var m := n % Two32;
    if m < Two31 then m else m - Two32
  }

  /** The body Go's Compress gets from LZ4_compress_default for an input
      `src` and an output slice of `cap` bytes: liblz4 sees the first
      clen(in) bytes of the input and clen(out) bytes of room. A negative
      length or room is taken to make it fail (status 0, no body). */
  function Compress(c: BlockCodec, src: seq<byte>, cap: nat): (body: seq<byte>)
    ensures |src| < Two31 && cap < Two31 ==> body == c.compress(src, cap)
    ensures CInt(|src|) < 0 || CInt(cap) < 0 ==> body == []
    ensures BlockSound(c) ==>
      && |body| <= cap
      && (|body| > 0 ==> |src| % Two32 <= MaxInputSize)
      && (|src| <= MaxInputSize && CompressBound(|src|) <= cap < Two31 ==> |body| > 0)
  {
    var n, m := CInt(|src|), CInt(cap);
    if n < 0 || m < 0 then []
    else
      assert BlockSound(c) ==> OneShotFits(c, src[..n], m, 0);
      assert |src| < Two31 ==> src[..n] == src;
      c.compress(src[..n], m)
  }

  /** What LZ4_decompress_safe produces when Go's Uncompress hands it an
      input `src` and an output slice of `room` bytes, both as C ints: it
      sees the first clen(in) bytes and clen(out) bytes of room. A negative
      length or room is taken to fail with status -1. */
  function SafeDecompress(c: BlockCodec, src: seq<byte>, room: nat): (r: Decoded)
    ensures |src| < Two31 && room < Two31 ==> r == c.decompress(src, room)
    ensures |src| < Two31 && 0 <= CInt(room) ==> r == c.decompress(src, CInt(room))
    ensures CInt(|src|) < 0 || CInt(room) < 0 ==> r == Malformed(-1)
    ensures BlockSound(c) ==>
      && (r.Malformed? ==> r.code < 0)
      && (r.Decoded? ==> |r.block| <= room)
  {
    var n, m := CInt(|src|), CInt(room);
    if n < 0 || m < 0 then Malformed(-1)
    else
      assert BlockSound(c) ==> OneShotFits(c, src[..n], m, 0);
      assert |src| < Two31 ==> src[..n] == src;
      c.decompress(src[..n], m)
  }

  /** Go's Uncompress: the status of LZ4_decompress_safe as the count, a
      negative one reported as a malformed stream. */
  function Uncompress(c: BlockCodec, src: seq<byte>, room: nat): (r: (int, Option<Error>))
    ensures r.1.Some? <==> SafeDecompress(c, src, room).Malformed?
    ensures r.1.Some? ==> r.1 == Some(MalformedStream) && r.0 == SafeDecompress(c, src, room).code
    ensures r.1.None? ==> r.0 == |SafeDecompress(c, src, room).block|
    ensures BlockSound(c) ==> (r.1.Some? <==> r.0 < 0)
  {
    match SafeDecompress(c, src, room)
    case Malformed(code) => (code, Some(MalformedStream))
    case Decoded(b) => (|b|, None)
  }
}
