# golz4 framing and envelope, modelled in Dafny

golz4 wraps the liblz4 block codec with two layers of its own, and this
project models both:

- **Streaming framing** (`lz4.go`). A `Writer` cuts every `Write` into
  blocks of at most 64 KiB. It stages each block in one of two buffers,
  the two taking turns, and compresses it against the previous block
  (the LZ4 history). Each block goes out as a frame: a 4-byte
  little-endian length followed by that many payload bytes.
  `CompressReader` produces the same frames on demand. The legacy
  `reader` and `DecompressReader` read them back: they read the length,
  then the payload, decompress into the next staging buffer, hand
  `min(decoded, len(dst))` bytes to the caller and keep the rest for
  later calls.
- **The whole-message envelope** (`header.go`). A one-shot compressed
  body sits behind a 4-byte little-endian header holding the original
  length. Decoding checks that the input is long enough, takes a
  shortcut for a zero length, and allocates a new buffer when the
  caller's is too small.

The codec is an oracle, given as a datatype of function values:
`Codec.StreamCodec` for the history-keeping calls and `Codec.BlockCodec`
for the one-shot calls. What the core relies on is stated as predicates
that the theorems require:

- `StreamSound` and `BlockSound` bound output sizes and say that a
  failure is a negative status.
- `StreamRoundTrips` and `BlockRoundTrips` say that decompressing
  inverts compressing.

The history is the previous block of the same stream. It is read from
the staging buffer where that block still lies at the time of the next
call. So whenever the model copies new bytes into a staging buffer, or
has the decoder write a block into one, it must show that this buffer
is not the one holding the history:

- `Writer` keeps the history in the current buffer, and the next block
  goes to the other one; this is part of `Valid()`. `CompressReader`
  keeps the same relation in `Valid()` unless its source is exhausted:
  it takes the next slot before reading the source, so after io.EOF or
  a source error the history lies in the slot the next read would fill.
  The modelled source stays ended once it has ended (see "## Left out").
- The two decoders keep the same relation as `Staggered()`. Their
  `DecodeStaged` requires, at the decompress call, that the slot being
  decoded into is not the history's. Their `Read` requires `Staggered()`
  and re-establishes it after every outcome except "error decompressing",
  a frame that decodes to nothing (liblz4 then keeps the previous block
  as history) and, for `DecompressReader`, the panic on an oversized
  length. Reading on after one of these is under "## Left out".

Modules:

| file | module | models |
|---|---|---|
| wire.dfy | Wire | bytes, `uint32(...)`, `binary.LittleEndian.PutUint32`/`Uint32` |
| io.dfy | Io | error values, the source read with `io.ReadFull`, `copy` |
| codec.dfy | Codec | size constants, `clen`, `min`, `CompressBound`, the codec oracle, `Compress`, `Uncompress` |
| framing.dfy | Framing | the frame format, block cutting, the value-level encoder of `Writer`, a reference stream decoder, the streaming round trip |
| writer.dfy | WriterStream | the `Writer` class |
| pull.dfy | Pull | the three readers' `Read` as functions of the reader state, and the theorems about sequences of reads |
| legacy_reader.dfy | LegacyStream | the legacy `reader` class |
| decompress_reader.dfy | DecompressStream | the `DecompressReader` class |
| compress_reader.dfy | CompressStream | the `CompressReader` class |
| envelope.dfy | Envelope | every function of `header.go` |

All stream classes work the same way. Each keeps its fixed buffers as
`array<byte>` fields and its Go fields as `var`s. It exposes its
abstract state through `State()`. Every `Read`/`Write` method is proved
equal to the value-level function in `Framing` or `Pull` that produces
that state, and the theorems are proved about those functions.

Where a reader of the framing might expect otherwise, the model follows
the code:

- **A header with no payload ends like a clean end of stream.** A stream
  that ends right after a length header is not well formed, and one
  might expect it to be reported as truncated. But when not one payload
  byte follows the header,
  `io.ReadFull` returns plain `io.EOF`, and `reader.Read` and
  `DecompressReader.Read` pass it on unchanged (lz4.go:238-240,
  446-448). `Pull.HeaderOnlyEndsCleanly` proves this for every length.
- **An oversized length panics.** One might expect an error when a
  length is larger than anything the codec can decode. But both
  decompressing readers slice their payload buffer (capacity 65809) to
  the announced length without checking it (lz4.go:238, 446). In Go that
  is a runtime panic. The model makes it the explicit error
  `SliceOutOfRange` (`Pull.PayloadOf`); it is not a handled error of the
  source.
- **Go's `nil` pending tail is the empty sequence.** `reader` tests
  `pending != nil`. The code only ever stores a non-empty tail or `nil`,
  so this test means "non-empty" (lz4.go:269-272, 292-296).

## Model

| member | source | states |
|---|---|---|
| Wire.Uint32Of | lz4.go:136 | Go's `uint32(n)` keeps n modulo 2^32: below 2^32, n itself |
| Wire.PutUint32 | lz4.go:134-136 | the encoding is 4 bytes, least significant first |
| Wire.Uint32 | lz4.go:285 | the decoded value is below 2^32, and its low byte is the first byte |
| Wire.DecodeEncode | lz4.go:278-286 | reading an encoded length back gives the length |
| Wire.EncodeDecode | lz4.go:491-498 | re-encoding a decoded header gives the header, so a header and its value determine each other |
| Wire.DecodeEncodePrefix | lz4.go:491-498 | a header is read back from the front of any longer byte string |
| Io.ReadFull | lz4.go:238 | `io.ReadFull`: exactly k bytes when the source has them; EOF when the source ends before the first byte; unexpected EOF when it ends later; a source error instead of either; the bytes read are consumed either way |
| Io.Copy | lz4.go:121 | `copy` into a buffer with room writes `src` at the offset and changes nothing else |
| Codec.Min | lz4.go:37-42 | the result is one of the two arguments and at most both |
| Codec.CompressBound | lz4.go:59-61 | the bound is the input's length plus 16 plus floor(len / 255): what it adds beyond len + 16 is the largest q with 255 * q <= len |
| Codec.CompressBoundMonotone | lz4.go:59-61 | the bound grows with the input and leaves at least 16 bytes beyond it |
| Codec.CompressBoundValues | lz4.go:59-61 | bound(0)=16, bound(1)=17, bound(254)=270, bound(255)=272, bound(510)=528 |
| Codec.BoundedBlockIsBound | lz4.go:18-22 | boundedStreamingBlockSize is the bound of a full 64 KiB block, 65809 |
| Codec.CInt | lz4.go:33-35 | `C.int(len(s))`: a value in [-2^31, 2^31) congruent to the length modulo 2^32, the length itself below 2^31, and never more than the length |
| Codec.Compress | lz4.go:63-72 | the body LZ4_compress_default writes for Go's Compress: with both lengths below 2^31, the codec's result on the input and the room; no body when clen(in) or clen(out) is negative. The body fits the room; a body is produced only for an input whose length modulo 2^32 is within LZ4's largest input, and always for an input within it given its full bound (below 2^31) as room |
| Codec.SafeDecompress | lz4.go:46 | LZ4_decompress_safe as Go's Uncompress calls it: the codec's result when both lengths are below 2^31, decoding into the wrapped room clen(out) when that is not negative, and status -1 when clen(in) or clen(out) is negative; a failure is a negative status and a decoded block fits the room |
| Codec.Uncompress | lz4.go:46-52 | an error (Malformed compression stream) exactly when the decompression reports a negative status, and that status is then the count; otherwise the count of decoded bytes |
| Framing.Header | lz4.go:134-136 | the frame header is 4 bytes |
| Framing.Frame | lz4.go:134-146 | a frame is the payload behind a 4-byte header that decodes to the payload's length |
| Framing.Blocks | lz4.go:101-112 | an empty input has no blocks; a non-empty input of at most 64 KiB is a single block |
| Framing.BlocksFlatten | lz4.go:101-112 | the blocks, concatenated in order, are the input |
| Framing.BlocksSized | lz4.go:102-106 | every block holds 1 to 65536 bytes, and every block but the last is full |
| Framing.BlocksFrom | lz4.go:102-106 | the next slice the loop takes is the first block of the rest of the input |
| Framing.BlocksConcatFull | lz4.go:101-112 | cutting a + b, where a is a whole number of blocks, gives the blocks of a and then those of b |
| Framing.DecodeFrame | lz4.go:437-461 | the reference decoder fails on a frame the codec rejects; otherwise it yields the block, then the rest decoded with the block as history, or with the old history when the block is empty |
| Framing.EmptyFrameSkipped | lz4.go:451-461 | a frame that decodes to an empty block contributes nothing, and the frames after it decode against the history before it |
| Framing.DecodeEncodedBlocks | lz4.go:117-150 | decoding the frames of the blocks, followed by anything, gives the blocks in order, then the rest decoded with the last block as history |
| Framing.EncodeBlocksConcat | lz4.go:97-115 | encoding bs + cs is encoding bs, then cs with the history bs leaves |
| Framing.WriteFrame | lz4.go:117-150 | writeFrame adopts the block as history whatever the outcome; it reports the block's length on success and 0 with totalCompressedWritten unchanged on failure |
| Framing.WriteFrom | lz4.go:101-114 | the loop's count lies between the bytes already done and the input's length, and it is the whole input exactly when no error occurred |
| Framing.Write | lz4.go:97-115 | Write returns at most len(src), and len(src) exactly when no error occurred; an empty Write sends nothing and changes nothing |
| Framing.WriteFrameSent | lz4.go:134-148 | a successful frame sends the header and the non-empty payload, adds size + 4 to totalCompressedWritten and adopts the block as history |
| Framing.WriteFrameFailed | lz4.go:130-146 | a failed frame reports the codec's or the sink's error, and the sink has received at most the header |
| Framing.WriteFromSent | lz4.go:97-115 | a successful write sends exactly the frames of the blocks of its input, in order. Its history is the last block and totalCompressedWritten grows by their size |
| Framing.WriteFromAccepted | lz4.go:97-115 | with a sink that refuses nothing, a write succeeds exactly when the codec compresses every block |
| Framing.WriteEncodes | lz4.go:97-115 | Write succeeds with len(src) and the frames of the blocks of src sent; with a sink that refuses nothing it succeeds exactly when every block compresses |
| Framing.WriteSingleFrame | lz4.go:97-115 | an empty Write sends nothing and changes nothing; a Write of at most 64 KiB sends exactly one frame |
| Framing.WriteFromFailure | lz4.go:106-109 | a failed loop from a block boundary reports only the bytes of the blocks finished before the failing one. That is a whole number of blocks, less than the input, with the codec's or the sink's error. The sink received those blocks' frames first |
| Framing.WriteFailure | lz4.go:106-109 | the same for Write from its start |
| Framing.WriteAllDecodes | lz4.go:97-150 | after any sequence of successful writes, the sink's new bytes, followed by anything, decode to the concatenated writes, then the rest decoded with the last block as history |
| Framing.DecodeAfterWrite | lz4.go:97-150 | one successful write, followed by anything, decodes to its input, then the rest decoded with the write's history |
| Framing.StreamRoundTrip | lz4.go:97-150 | round trip that does not depend on chunk sizes: on a new stream, successful writes of any sizes decode to their concatenation |
| WriterStream.Writer.constructor | lz4.go:85-94 | a new Writer has no history, has sent nothing and counts 0 |
| WriterStream.Writer.NextInputBuffer | lz4.go:152-160 | the slot index becomes (i + 1) % 2 and the method returns that slot; nothing else changes |
| WriterStream.Writer.WriteFrame | lz4.go:117-150 | the result and the new state are those of Framing.WriteFrame; the slot index toggles, and the slot that holds the history is left untouched |
| WriterStream.Writer.Write | lz4.go:97-115 | the loop's count, error and new state are those of Framing.Write, so every Framing theorem applies to the class |
| WriterStream.Writer.Close | lz4.go:164-172 | releases the stream and the slots, and changes nothing that was sent |
| Pull.Serve | lz4.go:288-298 | copying into k bytes hands over min(k, len) bytes; those bytes and the rest make up what was buffered |
| Pull.NextPayload | lz4.go:231-241 | a frame is read exactly when the header, a length within 65809, and that many payload bytes are all there; the bytes are then the payload and the source moves past the frame |
| Pull.PayloadOf | lz4.go:236-241 | a payload read succeeds only for a length within the buffer and delivers exactly that many bytes |
| Pull.ReadSize | lz4.go:278-286 | readSize consumes 4 bytes and returns their little-endian value, whose encoding they are; it passes on ReadFull's error |
| Pull.ReadPayload | lz4.go:236-241 | the payload read into the buffer is the one PayloadOf describes, at the front of the buffer |
| Pull.DecodePayload | lz4.go:451-468 | a payload the codec rejects returns its negative status with "error decompressing" and changes nothing else; of a decoded block min(decoded, k) bytes are delivered with the rest pending, and the block becomes the history unless it is empty, when the history stays |
| Pull.ReadFrameAfterHeader | lz4.go:231-241 | reading a frame is reading its 4-byte header and then, unless that fails, the payload of the announced length and its decoding |
| Pull.ReadFrame | lz4.go:231-274 | reading a frame delivers min(decoded, k) bytes and keeps the rest pending; the delivered bytes and the pending bytes make up the block, which becomes the history unless it is empty (then the history stays). On an error nothing is delivered and the history and pending tail stay; only a decompression error returns a count other than 0 |
| Pull.PullRead | lz4.go:428-469 | DecompressReader.Read with the corrected guard: buffered bytes are served first, without touching the source or the history |
| Pull.PullReadAsWritten | lz4.go:428-435 | the Read as written agrees with the corrected one for every non-empty destination |
| Pull.LegacyRead | lz4.go:222-229 | reader.Read: an empty destination returns 0 and changes nothing; otherwise it is the pending-first read |
| Pull.WellFormedFrame | lz4.go:437-461 | a non-empty well-formed stream starts with a frame whose length fits and whose payload decodes |
| Pull.ReadWellFormedFrame | lz4.go:437-468 | reading such a frame delivers the start of its block and leaves the rest pending |
| Pull.PullReadStep | lz4.go:428-469 | on a well-formed stream, a read delivers the next bytes of what remains in order and keeps the rest; its only error is io.EOF, once nothing remains |
| Pull.ReadFrameStep | lz4.go:437-468 | the frame path of that invariant |
| Pull.DrainDelivers | lz4.go:428-469 | reads of any sizes deliver a prefix of the decoded stream, and io.EOF comes only after all of it |
| Pull.ReadFaultKept | lz4.go:428-469 | a read never makes a healthy source fail |
| Pull.PullReadProgress | lz4.go:428-469 | a successful read into a non-empty dst delivers at least one byte or consumes a frame of the source, and never grows the source |
| Pull.DrainCompletes | lz4.go:428-469 | liveness: on a well-formed stream, more reads into non-empty buffers than the bytes left to deliver plus the source's bytes deliver exactly what remains and end with io.EOF |
| Pull.WrittenStreamReadsBack | lz4.go:97-469 | end to end: reads of any sizes of what a Writer sent deliver a prefix of everything written, and all of it before io.EOF |
| Pull.WrittenStreamReadsAll | lz4.go:97-469 | end to end, liveness: more reads into non-empty buffers than the bytes written plus the bytes sent deliver everything written, then io.EOF |
| Pull.HeaderOnlyEndsCleanly | lz4.go:446-449 | a stream cut off right after a header is not well formed, yet reading it ends with plain io.EOF |
| Pull.CompressFrame | lz4.go:339-377 | the next block is the next min(65536, rest) source bytes and becomes the history. The frame of its compressed form is split between dst and the buffer, and the total grows by the frame's length. io.EOF is returned exactly when the source is exhausted |
| Pull.CompressBlock | lz4.go:356-377 | the block read becomes the history whatever the codec reports. An empty compressed result is "error compressing" with nothing delivered and the total kept; otherwise the frame of the compressed block is split between dst and the buffer, and the total grows by the frame's length |
| Pull.CompressRead | lz4.go:330-378 | CompressReader.Read with the corrected guard: buffered bytes are served first, without touching the source, history or total |
| Pull.CompressReadAsWritten | lz4.go:330-337 | the Read as written agrees with the corrected one for every non-empty destination |
| Pull.CompressNextBlock | lz4.go:339-377 | reading the next block of a healthy non-empty source that compresses frames it and serves it |
| Pull.CompressReadStep | lz4.go:330-378 | when every block compresses, a read delivers the next framed bytes in order and keeps the rest; io.EOF comes only once nothing remains |
| Pull.CompressDrainDelivers | lz4.go:330-378 | reads of any sizes deliver a prefix of the framed stream, and io.EOF comes only after all of it |
| Pull.CompressReadProgress | lz4.go:330-378 | a successful read into a non-empty dst delivers at least one byte, since every frame has a header |
| Pull.CompressDrainCompletes | lz4.go:330-378 | liveness: when every block compresses, more reads into non-empty buffers than the framed bytes left deliver all of them and end with io.EOF |
| Pull.CompressReaderMatchesWriter | lz4.go:330-378 | a CompressReader over data yields exactly the bytes one Write of data to a new Writer sends |
| Pull.CompressReaderDeliversWrite | lz4.go:97-378 | liveness: more reads into non-empty buffers than the bytes one Write of data sends hand over exactly those bytes, then io.EOF |
| Pull.DecompressReaderLosesBuffered | lz4.go:430-435 | as written, an empty dst while [1,2,3] is buffered reads the next frame and the buffered bytes are never delivered |
| Pull.CompressReaderLosesBuffered | lz4.go:332-337 | as written, an empty dst while framed bytes are buffered compresses the next block and the buffered bytes are lost |
| Pull.IntendedGuardKeepsBuffered | lz4.go:430-435 | with the intended guard, an empty dst while bytes are buffered changes nothing |
| LegacyStream.Reader.constructor | lz4.go:189-205 | a new reader starts on the left slot with nothing pending and no history |
| LegacyStream.Reader.ReadFromPending | lz4.go:288-298 | copies min(len(dst), len(pending)) bytes into dst and keeps the rest pending; nothing else changes |
| LegacyStream.Reader.NextSlot | lz4.go:243-250 | takes the left slot when isLeft, else the right one, and flips isLeft |
| LegacyStream.Reader.Read | lz4.go:222-275 | the count, error, new state and dst contents are those of Pull.LegacyRead. It requires the history to lie outside the slot the next frame goes to (isLeft), and re-establishes that on every outcome but a decompression error and a frame that decodes to nothing |
| LegacyStream.Reader.ReadNextFrame | lz4.go:231-274 | the count, error, new state and dst contents are those of Pull.ReadFrame; the same slot invariant, with the same exceptions |
| LegacyStream.Reader.ReadStaged | lz4.go:236-274 | after the header: the count, error, new state and dst contents are those of Pull.FrameAfterHeader, the payload read into a fresh buffer; the same slot invariant, with the same exceptions |
| LegacyStream.Reader.DecodeStaged | lz4.go:252-274 | requires at the decompress call that the slot decoded into does not hold the history; the count, error, new state and dst contents are those of Pull.DecodePayload, and a decoded non-empty block leaves the history outside the next slot |
| LegacyStream.Reader.Deliver | lz4.go:264-274 | a non-empty decoded block becomes the history in the slot just used, and an empty one leaves the history as it was; dst gets the block's first min(len, len(dst)) bytes and the rest is pending |
| LegacyStream.Reader.Close | lz4.go:209-218 | releases the stream and the slots without changing what is pending |
| DecompressStream.DecompressReader.constructor | lz4.go:412-425 | a new reader has nothing buffered and no history |
| DecompressStream.DecompressReader.NextDecompressionBuffer | lz4.go:485-488 | the slot index becomes (i + 1) % 2 and the method returns that slot; nothing else changes |
| DecompressStream.DecompressReader.Read | lz4.go:428-469 | the count, error, new state and dst contents are those of Pull.PullRead. It requires the history to lie outside slot (inpBufIndex + 1) % 2, where the next frame goes, unless the source is exhausted, and re-establishes that unless decompression fails, the length panics or the frame decodes to nothing |
| DecompressStream.DecompressReader.Drain | lz4.go:430-435 | min(len(dst), buffered) buffered bytes go to dst, the rest stays buffered |
| DecompressStream.DecompressReader.ReadNextFrame | lz4.go:437-468 | the count, error, new state and dst contents are those of Pull.ReadFrame; the same slot invariant, with the same exceptions |
| DecompressStream.DecompressReader.ReadStaged | lz4.go:442-468 | after the header: the next slot is taken, and the count, error, new state and dst contents are those of Pull.FrameAfterHeader; the same slot invariant, with the same exceptions |
| DecompressStream.DecompressReader.DecodeStaged | lz4.go:451-468 | requires at the decompress call that the slot decoded into does not hold the history; the count, error, new state and dst contents are those of Pull.DecodePayload on the payload read into compressedBuffer; a decoded non-empty block lands in the slot just taken, which then holds the history |
| DecompressStream.DecompressReader.Deliver | lz4.go:463-468 | the bytes.Reader views the decoded block and dst gets its first min(len, len(dst)) bytes; a non-empty block becomes the history, and an empty one leaves the history as it was |
| DecompressStream.DecompressReader.Close | lz4.go:473-483 | releases the stream and the buffers |
| CompressStream.CompressReader.constructor | lz4.go:316-327 | a new reader has nothing buffered, no history and counts 0 |
| CompressStream.CompressReader.NextInputBuffer | lz4.go:380-383 | the slot index becomes (i + 1) % 2 and the method returns that slot; nothing else changes |
| CompressStream.CompressReader.Read | lz4.go:330-378 | the count, error, new state and dst contents are those of Pull.CompressRead; the history stays where the next block will not overwrite it, or else the source is exhausted |
| CompressStream.CompressReader.Drain | lz4.go:332-337 | min(len(dst), buffered) buffered bytes go to dst, the rest stays buffered |
| CompressStream.CompressReader.ReadNextBlock | lz4.go:339-377 | the count, error, new state and dst contents are those of Pull.CompressFrame |
| CompressStream.CompressReader.Stage | lz4.go:341-344 | the other slot is taken and filled by io.ReadFull, the source moves on, and the history is not overwritten |
| CompressStream.CompressReader.CompressStaged | lz4.go:356-377 | the count, error, new state and dst contents are those of Pull.CompressBlock on the staged block; the history moves to the slot just filled |
| CompressStream.CompressReader.Serve | lz4.go:367-376 | the frame (header over the payload) is assembled in compressedBuffer. dst gets its first min(len, len(dst)) bytes, the rest stays buffered, and the total grows by the frame's length |
| CompressStream.CompressReader.Assemble | lz4.go:356-368 | the front of compressedBuffer holds the frame: the 4-byte header, then the compressed block |
| CompressStream.CompressReader.Close | lz4.go:387-396 | releases the stream and the buffers, keeping the total |
| Envelope.CompressBoundHdr | header.go:14-16 | the bound plus room for the header, at least 20 bytes more than the input |
| Envelope.LengthHeader | header.go:24 | `uint32(len(in))` as 4 bytes, read back as len(in) below 2^32 |
| Envelope.SealedOpens | header.go:22-26 | a sealed message gives back the original length modulo 2^32 (the length itself below 2^32) and the body |
| Envelope.Seal | header.go:23-25 | writes the body at out[4:] and the header over out[0:4], returns the body's count + 4, and leaves the rest of out as it was |
| Envelope.CompressHdr | header.go:22-26 | out holds the header and the body Go's Compress writes into out[4:]; the count is body + 4, and on failure (Insufficient space) it is 4 |
| Envelope.CompressHCHdr | header.go:75-79 | the same envelope and count around the HC body |
| Envelope.CompressHCLevelHdr | header.go:82-86 | the same envelope and count around the HC body at the given level |
| Envelope.CompressAlloc | header.go:32-39 | on success the result is exactly header + body; on failure it is the whole bound-sized buffer, zero after the header, with the error |
| Envelope.CompressAllocSucceeds | header.go:32-39 | every input up to LZ4's largest input is enveloped without error, within CompressBoundHdr |
| Envelope.BoundFitsCInt | header.go:32-34 | up to LZ4's largest input, neither the input's length nor its bound wraps as a C int |
| Envelope.CompressAllocHdr | header.go:32-39 | the allocating method returns what CompressAlloc describes |
| Envelope.Unseal | header.go:45-51 | inputs of 0 to 3 bytes give TooShort and leave out unchanged. Otherwise the body is decompressed into all of out: a malformed body leaves out unchanged with the error, and a decoded body lands at its front |
| Envelope.UncompressHdr | header.go:45-51 | out and the error after the call are those of Unseal |
| Envelope.UnsealAlloc | header.go:58-72 | 0 to 3 bytes give (out, TooShort). A stored length of 0 gives the empty slice without error. A length above uint32(len(out)) gives a result of exactly that length; otherwise out itself is decoded into, untrimmed |
| Envelope.UncompressAllocHdr | header.go:58-72 | the returned slice and error are those of UnsealAlloc. It allocates a fresh buffer exactly when the stored length exceeds uint32(len(out)), and then leaves out unchanged; otherwise it returns out itself. out is also unchanged for a message shorter than 4 bytes and for a stored length of 0, and otherwise holds what Unseal leaves in it (unchanged for a malformed body) |
| Envelope.ZeroLengthSkipsCodec | header.go:62-66 | a stored length of 0 gives the empty slice, whatever the codec, the out buffer and the bytes after the header |
| Envelope.AllocRoundTrip | header.go:58-72 | UncompressAllocHdr(nil, CompressAllocHdr(x)) == x for every x up to LZ4's largest input |
| Envelope.HdrRoundTrip | header.go:45-51 | UncompressHdr of CompressAllocHdr(x) into any out whose room as a C int, clen(out), holds x leaves x at its front |
| Envelope.HugeInputTruncated | header.go:22-39 | as written, an input of 2^32 + 5 bytes is enveloped without error, and the envelope reads back as its first 5 bytes only |
| Envelope.CompressAllocChecked | header.go:32-39 | CompressAllocHdr with the length check: the same result up to LZ4's largest input, and InsufficientSpace above it |
| Envelope.CheckedAllocRoundTrip | header.go:32-72 | with the check, every envelope returned without error reads back as the whole input, whatever its length |

## Left out

- The liblz4 calls (LZ4_compress_fast_continue, LZ4_decompress_safe_continue, LZ4_compress_default, LZ4_decompress_safe, stream creation and freeing) are an oracle with assumed guarantees; entropy coding is not modelled.
- CompressHC and CompressHCLevel are defined in a file that is not part of this model. The model assumes that they fail exactly when they return 0 bytes, and reports that failure as "error compressing". How they pass lengths to liblz4 is not known here, so the model hands them the whole input and room, without the C int conversion of `Compress`.
- Bytes that the codec may write past its result into an output buffer are not modelled: after a failed call a buffer holds what it held before.
- `C.malloc`/`C.free`, `unsafe.Pointer`, `reflect.SliceHeader`, `p` and `ptrToByteSlice` are memory plumbing; the buffers are Dafny arrays of the same sizes. `clen` is modelled (`Codec.CInt`) where a length may reach 2^31, in `Compress` and `Uncompress`; the streams pass lengths of at most 65809.
- Codec.Compress, Codec.SafeDecompress: what liblz4 does with a length or room that is negative as a C int is not part of this model; such a call is taken to fail, LZ4_compress_default with status 0 and LZ4_decompress_safe with status -1. So inputs of 2^31 to 2^32 - 1 bytes fail to compress, and stored lengths from 2^31 on fail to decompress into a buffer of that size.
- Envelope.HdrRoundTrip: requires clen(out) to hold x, not just len(out): an out of 2^31 bytes or more gives liblz4 a wrapped or negative room.
- LegacyStream.Reader.Read, DecompressStream.DecompressReader.Read: after a frame that decodes to nothing, liblz4 keeps the previous block as history (LZ4_decompress_safe_continue returns a status of 0 before it updates its prefix) while the slot index has moved on (lz4.go:243-250, 485-488), so Go's next Read decodes into the slot that holds that history. Read no longer re-establishes the slot invariant then, so reading on is not modelled; `Framing.DecodeStream` decodes the next frame against the kept history, without the overlap.
- Framing.DecodeStream, Pull.DecodePayload: the history is the last non-empty block alone. LZ4_decompress_safe_continue would also keep older bytes when the next slot began exactly where the previous block ended in memory, which depends on where the buffers were allocated.
- WriterStream.Writer.WriteFrame: the local `compressedBuf` of writeFrame is the codec's returned sequence, not an array.
- WriterStream.Writer.Close, LegacyStream.Reader.Close, DecompressStream.DecompressReader.Close, CompressStream.CompressReader.Close: Go frees the buffers unconditionally, so a second Close is undefined behaviour. The model requires that Close was not called before and claims no double-close safety.
- The underlying io.Reader is a byte sequence and a flag for an error of its own; reads shorter than requested, which io.ReadFull hides, are not modelled.
- The underlying io.Writer is a predicate saying which writes it refuses; a refused write stores nothing, and partial writes are not modelled.
- bytes.Reader is modelled by its slice and cursor only.
- Concurrency is not modelled; each stream object has a single owner.
- Codec.CompressBound: follows the Go function, which does not reproduce the C macro's cut-off to 0 above LZ4_MAX_INPUT_SIZE.
- Envelope.CompressHdr, Envelope.CompressHCHdr, Envelope.CompressHCLevelHdr: Go panics when out is shorter than 4 bytes; the model requires at least 4 bytes.
- LegacyStream.Reader.Read, DecompressStream.DecompressReader.Read: after "error decompressing" (lz4.go:260-262, 459-461) the slot index has moved on but the history has not, so Go's next Read decodes into the slot that holds the history, which the LZ4 decoder does not support; what it then produces is not modelled, as Read requires the slot invariant that such an error breaks. The same holds after the slice-bounds panic of DecompressReader.
- CompressStream.CompressReader.Read, DecompressStream.DecompressReader.Read: the modelled source's io.EOF and errors are permanent (after one its data is empty), so reading on after one is not modelled. Both readers take the next slot before reading the source (lz4.go:341 and 344, lz4.go:443 and 446), so with an io.Reader that delivers data again after an error, Go's next Read writes the next block into the slot holding the history.
- Pull.DrainCompletes, Pull.WrittenStreamReadsAll: the number of reads that suffices counts the source's bytes as well as the bytes to deliver, because a frame may decode to an empty block; no tighter count is proved for streams a Writer produced.
- Pull.PayloadOf: a length above the payload buffer's capacity is a Go panic; the model reports it as SliceOutOfRange.
- Tests, benchmarks, file I/O, Python interoperability and compression-ratio checks depend on the real codec and the operating system.

## Findings

| source | as written | input that shows it | evidently intended | confidence | as-written member | corrected member |
|---|---|---|---|---|---|---|
| lz4.go:430-435 | `DecompressReader.Read` reads the next frame whenever `outputBuffer.Read(dst)` returns 0, which also happens for an empty dst while bytes are still buffered | dst of length 0 while [1,2,3] is buffered and the next frame decodes to [7]: the buffer is replaced by [7] and [1,2,3] is never delivered | read the next frame only when the buffer is empty | not executed | Pull.DecompressReaderLosesBuffered | Pull.PullRead |
| header.go:22-39 | `CompressHdr` passes liblz4 `clen(in)`, which wraps modulo 2^32, and stores `uint32(len(in))`, which wraps the same way; nothing checks the length first | an input of 2^32 + 5 bytes: the first 5 bytes are compressed, the header says 5, no error is returned, and the envelope reads back as those 5 bytes | refuse an input longer than LZ4's largest input, as happens for 2^31 to 2^32 - 1 bytes | not executed | Envelope.HugeInputTruncated | Envelope.CompressAllocChecked |
| lz4.go:332-337 | `CompressReader.Read` compresses the next block whenever `outputBuffer.Read(dst)` returns 0, including an empty dst while framed bytes are buffered | dst of length 0 while [1,2] is buffered and the source holds [9]: the buffer is replaced by the frame of [9] and [1,2] is lost | compress the next block only when the buffer is empty | not executed | Pull.CompressReaderLosesBuffered | Pull.CompressRead |
