/** Bytes, Go's int-to-uint32 conversion and the little-endian 32-bit
    encoding of `encoding/binary` (PutUint32 / Uint32) used for every
    length header of the stream and envelope formats. */
module Wire {

  type byte = x: int | 0 <= x < 256

  const Two32: nat := 0x1_0000_0000

  /** Go's `uint32(n)` on an `int`: keeps the low 32 bits (two's complement). */
  function Uint32Of(n: int): (r: nat)
    ensures r < Two32
    ensures 0 <= n < Two32 ==> r == n
    ensures (r - n) % Two32 == 0
  {
    n % Two32
  }

  /** `binary.LittleEndian.PutUint32`: least significant byte first. */
  function PutUint32(v: nat): (b: seq<byte>)
    requires v < Two32
    ensures |b| == 4
    ensures b[0] == v % 256 && b[3] == v / 0x100_0000
  {
    [v % 256, (v / 0x100) % 256, (v / 0x1_0000) % 256, v / 0x100_0000]
  }

  /** `binary.LittleEndian.Uint32`: reads the first four bytes of `b`
      (Go panics on a shorter slice). */
  function Uint32(b: seq<byte>): (v: nat)
    requires |b| >= 4
    ensures v < Two32
    ensures v % 256 == b[0]
  {
    b[0] as int + b[1] as int * 0x100 + b[2] as int * 0x1_0000 + b[3] as int * 0x100_0000
  }

  /** Decoding an encoded value gives the value back. */
  lemma DecodeEncode(v: nat)
    requires v < Two32
    ensures Uint32(PutUint32(v)) == v
  {
    var b := PutUint32(v);
    var q1 := v / 0x100;
    var q2 := q1 / 0x100;
    assert v == b[0] as int + q1 * 0x100;
    assert q1 == b[1] + q2 * 0x100;
    assert q2 == b[2] as int + b[3] as int * 0x100;
    assert v / 0x1_0000 == q2;
    assert v / 0x100_0000 == q2 / 0x100;
  }

  /** Encoding the decoded value of a header gives the header back, so a
      4-byte header and its value determine each other. */
  lemma EncodeDecode(b: seq<byte>)
    requires |b| >= 4
    ensures PutUint32(Uint32(b)) == b[..4]
  {
    var v := Uint32(b);
    var q1 := b[1] as int + b[2] as int * 0x100 + b[3] as int * 0x1_0000;
    var q2 := b[2] as int + b[3] as int * 0x100;
    assert v == b[0] as int + q1 * 0x100;
    assert v / 0x100 == q1 && v % 0x100 == b[0];
    assert q1 == b[1] + q2 * 0x100;
    assert q1 / 0x100 == q2 && q1 % 0x100 == b[1];
    assert q2 / 0x100 == b[3] && q2 % 0x100 == b[2];
    assert v / 0x1_0000 == q2;
    assert v / 0x100_0000 == b[3];
  }

  /** A header is read back from the front of any longer byte string. */
  lemma DecodeEncodePrefix(v: nat, tail: seq<byte>)
    requires v < Two32
    ensures Uint32(PutUint32(v) + tail) == v
  {
    DecodeEncode(v);
    assert (PutUint32(v) + tail)[..4] == PutUint32(v);
  }
}
