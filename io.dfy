/** The parts of Go's `io` package the streams rely on: the error values,
    a byte source read with `io.ReadFull`, and the `copy` built-in over a
    fixed buffer. */
module Io {
  import opened Wire

  datatype Option<+T> = None | Some(value: T)

  /** Every error the core returns or propagates. */
  datatype Error =
    | EOF                          // io.EOF
    | UnexpectedEOF                // io.ErrUnexpectedEOF
    | SourceFault                  // an error of the underlying io.Reader itself
    | SinkFault                    // an error of the underlying io.Writer
    | ReadingSource(cause: Error)  // "error reading source: %s"
    | Compressing                  // "error compressing"
    | Decompressing                // "error decompressing"
    | InsufficientSpace            // "Insufficient space for compression"
    | MalformedStream              // "Malformed compression stream"
    | TooShort                     // errTooShort
    | SliceOutOfRange              // a Go runtime panic: slice bounds out of range

  /** The unread part of an underlying io.Reader: the bytes it still has,
      and whether it then reports an error of its own instead of io.EOF
      (such an error is reported again on every later read). */
  datatype Source = Source(data: seq<byte>, fault: bool)

  /** What one `io.ReadFull` call produced: the bytes placed in the
      buffer, the error, and the source afterwards. */
  datatype Fill = Fill(bytes: seq<byte>, err: Option<Error>, rest: Source)

  /** `io.ReadFull(src, buf[:k])`. It succeeds with exactly `k` bytes when
      the source has them; a source ending before the first byte gives
      io.EOF, one ending later io.ErrUnexpectedEOF (a source error is
      passed on instead of either). Bytes read are consumed either way. */
  function ReadFull(s: Source, k: nat): (f: Fill)
    ensures f.bytes + f.rest.data == s.data && f.rest.fault == s.fault
    ensures f.err.None? <==> k <= |s.data|
    ensures f.err.None? ==> |f.bytes| == k
    ensures f.err.Some? ==> |f.bytes| < k && f.rest.data == []
    ensures f.err == Some(EOF) <==> !s.fault && 0 == |s.data| < k
    ensures f.err == Some(UnexpectedEOF) <==> !s.fault && 0 < |s.data| < k
    ensures f.err == Some(SourceFault) <==> s.fault && |s.data| < k
  {
    if k <= |s.data| then Fill(s.data[..k], None, s.(data := s.data[k..]))
    else if |s.data| == 0 then Fill([], Some(if s.fault then SourceFault else EOF), s)
    else Fill(s.data, Some(if s.fault then SourceFault else UnexpectedEOF), s.(data := []))
  }

  /** Go's `copy(buf[at:], src)` where the destination has room for all of
      `src`: writes `src` at offset `at` and nothing else. */
  method Copy(buf: array<byte>, at: nat, src: seq<byte>)
    requires at + |src| <= buf.Length
    modifies buf
    ensures buf[..] == old(buf[..at]) + src + old(buf[at + |src|..])
  {
    ghost var before := buf[..];
    var i := 0;
    while i < |src|
      invariant 0 <= i <= |src|
      invariant forall j :: 0 <= j < buf.Length ==>
        buf[j] == if at <= j < at + i then src[j - at] else before[j]
    {
      buf[at + i] := src[i];
      i := i + 1;
    }
    assert buf[..] == before[..at] + src + before[at + |src|..];
  }
}
