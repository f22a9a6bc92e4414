/** The whole-message envelope of header.go: a one-shot compressed body
    behind a 4-byte little-endian header that stores the length of the
    original message, so that a decompressor knows how much room to make.
    The one-shot codec is the oracle `BlockCodec`; the envelope's own
    logic (the header, the length checks, the zero-length shortcut and
    the allocate-if-too-small rule) is modelled exactly. */
module Envelope {
  import opened Wire
  import opened Io
  import opened Codec

  /** CompressBoundHdr: room for the worst-case body and the header. */
  function CompressBoundHdr(n: nat): (r: nat)
    ensures r == CompressBound(n) + BlockHeaderSize
    ensures r >= n + 20
  {
    CompressBound(n) + 4
  }

  /** The header every variant writes: `uint32(len(in))`, little-endian. */
  function LengthHeader(src: seq<byte>): (h: seq<byte>)
    ensures |h| == BlockHeaderSize
    ensures |src| < Two32 ==> Uint32(h) == |src|
  {
    DecodeEncode(Uint32Of(|src|));
    PutUint32(Uint32Of(|src|))
  }

  function Sealed(src: seq<byte>, body: seq<byte>): seq<byte>
  {
    LengthHeader(src) + body
  }

  /** A sealed message gives back the original length, modulo 2^32 as
      `uint32` keeps it, and the body. */
  lemma SealedOpens(src: seq<byte>, body: seq<byte>)
    ensures |Sealed(src, body)| >= 4
    ensures Uint32(Sealed(src, body)) == Uint32Of(|src|)
    ensures |src| < Two32 ==> Uint32(Sealed(src, body)) == |src|
    ensures Sealed(src, body)[4..] == body
  {
    DecodeEncodePrefix(Uint32Of(|src|), body);
  }

  function Zeros(n: nat): (z: seq<byte>)
    ensures |z| == n && forall i :: 0 <= i < n ==> z[i] == 0
  {
    seq(n, _ => 0)
  }

  /** The common tail of CompressHdr, CompressHCHdr and CompressHCLevelHdr:
      the body the codec wrote at out[4:], then the header over out[0:4],
      and the count plus the header. */
  method Seal(out: array<byte>, src: seq<byte>, body: seq<byte>) returns (count: nat)
    requires BlockHeaderSize + |body| <= out.Length
    modifies out
    ensures count == |body| + BlockHeaderSize
    ensures out[..] == Sealed(src, body) + old(out[..])[count..]
  {
    ghost var before := out[..];
    Copy(out, 4, body);
    Copy(out, 0, LengthHeader(src));
    assert before[4 + |body|..] == before[..][4 + |body|..];
    return |body| + 4;
  }

  /** CompressHdr: the body Go's Compress writes into out[4:]. The count
      is that of the body plus 4; a body of 0 bytes is the codec's failure
      (Insufficient space), and the count is then 4. */
  method CompressHdr(c: BlockCodec, out: array<byte>, src: seq<byte>) returns (count: int, err: Option<Error>)
    requires BlockSound(c) && out.Length >= BlockHeaderSize
    modifies out
    ensures var body := Compress(c, src, out.Length - BlockHeaderSize);
      && count == |body| + BlockHeaderSize && count <= out.Length
      && out[..] == Sealed(src, body) + old(out[..])[count..]
      && (err.Some? <==> body == []) && (err.Some? ==> err == Some(InsufficientSpace))
  {
    var body := Compress(c, src, out.Length - 4);
    count := Seal(out, src, body);
    err := if |body| == 0 then Some(InsufficientSpace) else None;
  }

  /** CompressHCHdr: the same envelope around an HC body. A 0-byte body is
      taken to be CompressHC's failure. */
  method CompressHCHdr(c: BlockCodec, out: array<byte>, src: seq<byte>) returns (count: int, err: Option<Error>)
    requires BlockSound(c) && out.Length >= BlockHeaderSize
    modifies out
    ensures var body := c.compressHC(src, out.Length - BlockHeaderSize);
      && count == |body| + BlockHeaderSize && count <= out.Length
      && out[..] == Sealed(src, body) + old(out[..])[count..]
      && (err.Some? <==> body == []) && (err.Some? ==> err == Some(Compressing))
  {
    var body := c.compressHC(src, out.Length - 4);
    assert OneShotFits(c, src, out.Length - 4, 0);
    count := Seal(out, src, body);
    err := if |body| == 0 then Some(Compressing) else None;
  }

  /** CompressHCLevelHdr: as CompressHCHdr, at the given level. */
  method CompressHCLevelHdr(c: BlockCodec, out: array<byte>, src: seq<byte>, level: int) returns (count: int, err: Option<Error>)
    requires BlockSound(c) && out.Length >= BlockHeaderSize
    modifies out
    ensures var body := c.compressHCLevel(src, out.Length - BlockHeaderSize, level);
      && count == |body| + BlockHeaderSize && count <= out.Length
      && out[..] == Sealed(src, body) + old(out[..])[count..]
      && (err.Some? <==> body == []) && (err.Some? ==> err == Some(Compressing))
  {
    var body := c.compressHCLevel(src, out.Length - 4, level);
    assert OneShotFits(c, src, out.Length - 4, level);
    count := Seal(out, src, body);
    err := if |body| == 0 then Some(Compressing) else None;
  }

  /** What CompressAllocHdr returns: the envelope trimmed to its count, or
      on failure the whole zeroed bound-sized buffer with only the header
      written, and the error. */
  function CompressAlloc(c: BlockCodec, src: seq<byte>): (r: (seq<byte>, Option<Error>))
    requires BlockSound(c)
    ensures |r.0| >= BlockHeaderSize && r.0[..BlockHeaderSize] == LengthHeader(src)
    ensures r.1.None? <==> |Compress(c, src, CompressBound(|src|))| > 0
    ensures r.1.None? ==> r.0[BlockHeaderSize..] == Compress(c, src, CompressBound(|src|))
    ensures r.1.Some? ==>
      && r.1 == Some(InsufficientSpace) && |r.0| == CompressBoundHdr(|src|)
      && forall i :: BlockHeaderSize <= i < |r.0| ==> r.0[i] == 0
  {
    var body := Compress(c, src, CompressBound(|src|));
    if |body| == 0 then
      (Sealed(src, Zeros(CompressBound(|src|))), Some(InsufficientSpace))
    else
      (Sealed(src, body), None)
  }

  /** Every input the codec accepts can be enveloped: the bound always
      leaves enough room. */
  lemma CompressAllocSucceeds(c: BlockCodec, src: seq<byte>)
    requires BlockSound(c) && |src| <= MaxInputSize
    ensures CompressAlloc(c, src).1.None?
    ensures |CompressAlloc(c, src).0| <= CompressBoundHdr(|src|)
  {
    BoundFitsCInt(|src|);
  }

  /** Up to the largest input, the bound is below 2^31, so neither length
      Go passes to liblz4 wraps. */
  lemma BoundFitsCInt(n: nat)
    requires n <= MaxInputSize
    ensures n < Two31 && CompressBound(n) < Two31
  {
    CompressBoundMonotone(n, MaxInputSize);
  }

  /** CompressAllocHdr: a fresh buffer of CompressBoundHdr bytes, filled
      by CompressHdr, trimmed to the count only on success. */
  method CompressAllocHdr(c: BlockCodec, src: seq<byte>) returns (out: seq<byte>, err: Option<Error>)
    requires BlockSound(c)
    ensures (out, err) == CompressAlloc(c, src)
  {
    var buf := new byte[CompressBoundHdr(|src|)](_ => 0);
    ghost var zeros := buf[..];
    assert zeros == Zeros(buf.Length);
    var count;
    count, err := CompressHdr(c, buf, src);
    ghost var body := Compress(c, src, CompressBound(|src|));
    assert buf[..] == Sealed(src, body) + zeros[count..];
    if err.Some? {
      assert body == [];
      assert zeros[count..] == Zeros(CompressBound(|src|));
      assert Sealed(src, body) + zeros[count..] == Sealed(src, zeros[count..]);
      return buf[..], err;
    }
    assert buf[..count] == Sealed(src, body);
    return buf[..count], None;
  }

  /** UncompressHdr: what `out` holds afterwards, and the error. A message
      shorter than a header fails before the codec is called; otherwise
      the body is decompressed into all of `out`, whatever the header
      says. */
  function Unseal(c: BlockCodec, out: seq<byte>, msg: seq<byte>): (r: (seq<byte>, Option<Error>))
    requires BlockSound(c)
    ensures |r.0| == |out|
    ensures |msg| < BlockHeaderSize <==> r.1 == Some(TooShort)
    ensures |msg| < BlockHeaderSize ==> r.0 == out
    ensures |msg| >= BlockHeaderSize ==> match SafeDecompress(c, msg[BlockHeaderSize..], |out|)
      case Malformed(_) => r == (out, Some(MalformedStream))
      case Decoded(b) => |b| <= |out| && r.1.None? && r.0[..|b|] == b && r.0[|b|..] == out[|b|..]
  {
    if |msg| < 4 then (out, Some(TooShort))
    else
      match SafeDecompress(c, msg[4..], |out|)
      case Malformed(_) => (out, Some(MalformedStream))
      case Decoded(b) => (b + out[|b|..], None)
  }

  method UncompressHdr(c: BlockCodec, out: array<byte>, msg: seq<byte>) returns (err: Option<Error>)
    requires BlockSound(c)
    modifies out
    ensures (out[..], err) == Unseal(c, old(out[..]), msg)
  {
    if |msg| < 4 {
      return Some(TooShort);
    }
    var status := Uncompress(c, msg[4..], out.Length);
    if status.1.Some? {
      return status.1;
    }
    var b := SafeDecompress(c, msg[4..], out.Length).block;
    ghost var before := out[..];
    Copy(out, 0, b);
    assert before[|b|..] == before[..][|b|..];
    assert out[..] == b + before[|b|..];
    return None;
  }

  /** Whether UncompressAllocHdr allocates: the stored length exceeds
      `uint32(len(out))` (Go converts the length, so it wraps too). */
  predicate Allocates(outLen: nat, msg: seq<byte>)
  {
    |msg| >= BlockHeaderSize && Uint32(msg) > Uint32Of(outLen)
  }

  /** UncompressAllocHdr: the slice it returns, and the error. */
  function UnsealAlloc(c: BlockCodec, out: seq<byte>, msg: seq<byte>): (r: (seq<byte>, Option<Error>))
    requires BlockSound(c)
    ensures |msg| < BlockHeaderSize <==> r.1 == Some(TooShort)
    ensures |msg| < BlockHeaderSize ==> r.0 == out
    ensures |msg| >= BlockHeaderSize && Uint32(msg) == 0 ==> r == ([], None)
    ensures Allocates(|out|, msg) ==> |r.0| == Uint32(msg)
    ensures |msg| >= BlockHeaderSize && Uint32(msg) > 0 && !Allocates(|out|, msg) ==>
      r == Unseal(c, out, msg)
    ensures r.1.Some? ==> r.1 == Some(TooShort) || r.1 == Some(MalformedStream)
  {
    if |msg| < 4 then (out, Some(TooShort))
    else if Uint32(msg) == 0 then ([], None)
    else if Uint32(msg) > Uint32Of(|out|) then Unseal(c, Zeros(Uint32(msg)), msg)
    else Unseal(c, out, msg)
  }

  /** UncompressAllocHdr on an `out` array: the array it returns, `out`
      itself or a fresh one of the stored length, and the length of the
      slice of it that is returned. */
  method UncompressAllocHdr(c: BlockCodec, out: array<byte>, msg: seq<byte>)
    returns (res: array<byte>, len: nat, err: Option<Error>)
    requires BlockSound(c)
    modifies out
    ensures len <= res.Length
    ensures (res[..len], err) == UnsealAlloc(c, old(out[..]), msg)
    ensures Allocates(out.Length, msg) ==> fresh(res) && out[..] == old(out[..])
    ensures !Allocates(out.Length, msg) ==> res == out
    ensures |msg| < BlockHeaderSize || Uint32(msg) == 0 ==> out[..] == old(out[..])
    ensures |msg| >= BlockHeaderSize && Uint32(msg) > 0 && !Allocates(out.Length, msg) ==>
      (out[..], err) == Unseal(c, old(out[..]), msg)
  {
    if |msg| < 4 {
      assert out[..out.Length] == out[..];
      return out, out.Length, Some(TooShort);
    }
    var origlen := Uint32(msg);
    if origlen <= 0 {
      return out, 0, None;
    }
    res := out;
    if origlen > Uint32Of(out.Length) {
      res := new byte[origlen](_ => 0);
      assert res[..] == Zeros(origlen);
    }
    err := UncompressHdr(c, res, msg);
    len := res.Length;
    assert res[..len] == res[..];
  }

  /** An envelope of a zero-length message is read back as the empty slice
      without the codec: the result does not depend on the codec, nor on
      any bytes after the header. */
  lemma ZeroLengthSkipsCodec(c1: BlockCodec, c2: BlockCodec, out: seq<byte>, tail: seq<byte>)
    requires BlockSound(c1) && BlockSound(c2)
    ensures UnsealAlloc(c1, out, [0, 0, 0, 0] + tail) == UnsealAlloc(c2, [], [0, 0, 0, 0]) == ([], None)
  {
  }

  /** The round trip of the envelope: for every input the codec accepts,
      UncompressAllocHdr(nil, CompressAllocHdr(x)) gives x back. */
  lemma {:induction false} AllocRoundTrip(c: BlockCodec, x: seq<byte>)
    requires BlockSound(c) && BlockRoundTrips(c) && |x| <= MaxInputSize
    ensures UnsealAlloc(c, [], CompressAlloc(c, x).0) == (x, None)
  {
    CompressAllocSucceeds(c, x);
    var body := c.compress(x, CompressBound(|x|));
    var msg := CompressAlloc(c, x).0;
    assert msg == Sealed(x, body);
    SealedOpens(x, body);
    if |x| > 0 {
      assert OneShotInverts(c, x, CompressBound(|x|), |x|);
      assert Allocates(0, msg);
      assert c.decompress(msg[4..], |x|) == Decoded(x);
      assert UnsealAlloc(c, [], msg) == Unseal(c, Zeros(|x|), msg);
      var r := Unseal(c, Zeros(|x|), msg);
      assert r.0[..|x|] == x && |r.0| == |x|;
      assert r.0 == r.0[..|x|];
    }
  }

  /** The round trip into a caller's buffer: UncompressHdr of the envelope
      into any `out` whose room, as the C int clen(out), holds x leaves x at
      the front of `out`. */
  lemma {:induction false} HdrRoundTrip(c: BlockCodec, x: seq<byte>, out: seq<byte>)
    requires BlockSound(c) && BlockRoundTrips(c) && |x| <= MaxInputSize && |x| <= CInt(|out|)
    ensures var r := Unseal(c, out, CompressAlloc(c, x).0);
      r.1.None? && r.0 == x + out[|x|..]
  {
    CompressAllocSucceeds(c, x);
    BoundFitsCInt(|x|);
    var body := c.compress(x, CompressBound(|x|));
    var msg := CompressAlloc(c, x).0;
    assert msg == Sealed(x, body);
    SealedOpens(x, body);
    assert OneShotInverts(c, x, CompressBound(|x|), CInt(|out|));
    assert SafeDecompress(c, msg[4..], |out|) == Decoded(x);
  }


  /** As written, an input of 2^32 + 5 bytes is compressed only as far as
      its first 5 bytes: clen(in) wraps to 5, and so does the stored
      uint32(len(in)). CompressAllocHdr reports success, and the message
      reads back as those 5 bytes. */
  lemma HugeInputTruncated(c: BlockCodec, x: seq<byte>)
    requires BlockSound(c) && BlockRoundTrips(c) && |x| == Two32 + 5
    ensures CompressAlloc(c, x).1.None?
    ensures UnsealAlloc(c, [], CompressAlloc(c, x).0) == (x[..5], None)
    ensures x[..5] != x
  {
    var cap := CompressBound(|x|);
    assert cap == 4311810326;
    assert CInt(|x|) == 5 && CInt(cap) == 16843030;
    var body := c.compress(x[..5], 16843030);
    assert OneShotFits(c, x[..5], 16843030, 0);
    assert Compress(c, x, cap) == body && 0 < |body| <= 16843030;
    var msg := CompressAlloc(c, x).0;
    assert msg == Sealed(x, body);
    SealedOpens(x, body);
    assert Uint32Of(|x|) == 5;
    assert Allocates(0, msg);
    assert OneShotInverts(c, x[..5], 16843030, 5);
    assert SafeDecompress(c, msg[4..], 5) == Decoded(x[..5]);
    var r := Unseal(c, Zeros(5), msg);
    assert r.0 == r.0[..5];
  }

  /** CompressAllocHdr as evidently intended: an input too long for liblz4
      to take whole is refused before its length is converted to a C int,
      with the failure CompressAllocHdr reports for a body that does not
      fit. */
  function CompressAllocChecked(c: BlockCodec, src: seq<byte>): (r: (seq<byte>, Option<Error>))
    requires BlockSound(c)
    ensures |src| <= MaxInputSize ==> r == CompressAlloc(c, src)
    ensures |src| > MaxInputSize ==> r.1 == Some(InsufficientSpace)
  {
    if |src| > MaxInputSize then (Sealed(src, Zeros(CompressBound(|src|))), Some(InsufficientSpace))
    else CompressAlloc(c, src)
  }

  /** With that check, an envelope is only ever returned for the whole
      input: every successful one reads back as exactly that input. */
  lemma CheckedAllocRoundTrip(c: BlockCodec, x: seq<byte>)
    requires BlockSound(c) && BlockRoundTrips(c)
    ensures CompressAllocChecked(c, x).1.None? ==> UnsealAlloc(c, [], CompressAllocChecked(c, x).0) == (x, None)
  {
    if |x| <= MaxInputSize {
      AllocRoundTrip(c, x);
    }
  }
}
