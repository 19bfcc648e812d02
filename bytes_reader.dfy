/** Big-endian integer readers over raw bytes, as used by the RTMP chunk parser
    and the AMF0 decoder (src/mmedia/base/BytesReader.cpp).

    The C++ readers take a bare `const char *` and read a fixed number of bytes
    from it; here they take a byte sequence and require that those bytes exist.
    `ntohl`/`ntohs` are written out as explicit most-significant-byte-first
    arithmetic. */
module BytesReader {

  /** An unsigned 8-bit value (a byte of a buffer, read as `unsigned char`). */
  type byte = x: int | 0 <= x < 0x100
  type uint16 = x: int | 0 <= x < 0x1_0000
  type uint32 = x: int | 0 <= x < 0x1_0000_0000

  const TwoTo32: int := 0x1_0000_0000

  /** 256 to the power n: the number of distinct values of an n-byte field. */
  function Pow256(n: nat): (p: nat)
    ensures p >= 1
  {
    if n == 0 then 1 else 256 * Pow256(n - 1)
  }

  /** Reference definition: the unsigned value of `s`, most significant byte first. */
  function BigEndian(s: seq<byte>): (v: nat)
    ensures v < Pow256(|s|)
  {
    if s == [] then 0
    else
      var init := BigEndian(s[..|s| - 1]);
      assert init + 1 <= Pow256(|s| - 1);
      assert (init + 1) * 256 <= Pow256(|s| - 1) * 256;
      init * 256 + s[|s| - 1]
  }

  /** BytesReader::ReadUint32T: four bytes in network order, through `ntohl`. */
  function ReadUint32(data: seq<byte>): (r: uint32)
    requires |data| >= 4
    ensures r == ReadUint16(data) * 0x1_0000 + ReadUint16(data[2..])
  {
    data[0] as int * 0x100_0000 + data[1] as int * 0x1_0000 + data[2] as int * 0x100 + data[3] as int
  }

  /** BytesReader::ReadUint24T: `(c[0] << 16) | (c[1] << 8) | c[2]` over unsigned
      bytes; the three shifted values do not overlap, so `|` is a sum. */
  function ReadUint24(data: seq<byte>): (r: uint32)
    requires |data| >= 3
    ensures r < 0x100_0000
  {
    data[0] as int * 0x1_0000 + data[1] as int * 0x100 + data[2] as int
  }

  /** BytesReader::ReadUint16T: two bytes in network order, through `ntohs`. */
  function ReadUint16(data: seq<byte>): (r: uint16)
    requires |data| >= 2
    ensures r / 0x100 == data[0] && r % 0x100 == data[1]
  {
    data[0] as int * 0x100 + data[1] as int
  }

  /** BytesReader::ReadUint8T: the first byte, unchanged. */
  function ReadUint8(data: seq<byte>): (r: byte)
    requires |data| >= 1
    ensures r == BigEndian(data[..1])
  {
    assert data[..1][..0] == [];
    data[0]
  }

  /** Each reader computes the big-endian value of exactly the bytes it names,
      so it is independent of anything that follows them. */
  lemma {:induction false} ReadersAreBigEndian(data: seq<byte>)
    ensures |data| >= 4 ==> ReadUint32(data) == BigEndian(data[..4])
    ensures |data| >= 3 ==> ReadUint24(data) == BigEndian(data[..3])
    ensures |data| >= 2 ==> ReadUint16(data) == BigEndian(data[..2])
    ensures |data| >= 1 ==> ReadUint8(data) == BigEndian(data[..1])
  {
    if |data| >= 1 {
      BigEndianStep(data[..1]);
      assert data[..1][..0] == [];
    }
    if |data| >= 2 {
      BigEndianStep(data[..2]);
      assert data[..2][..1] == data[..1];
    }
    if |data| >= 3 {
      BigEndianStep(data[..3]);
      assert data[..3][..2] == data[..2];
    }
    if |data| >= 4 {
      BigEndianStep(data[..4]);
      assert data[..4][..3] == data[..3];
    }
  }

  lemma BigEndianStep(s: seq<byte>)
    requires s != []
    ensures BigEndian(s) == BigEndian(s[..|s| - 1]) * 256 + s[|s| - 1]
  {
  }

  /** The readers look at no byte beyond the ones they name: two buffers that
      agree on those bytes read the same value. */
  lemma {:induction false} ReadersReadOnlyTheirBytes(a: seq<byte>, b: seq<byte>, n: nat)
    requires 1 <= n <= 4 && n <= |a| && n <= |b| && a[..n] == b[..n]
    ensures n == 4 ==> ReadUint32(a) == ReadUint32(b)
    ensures n == 3 ==> ReadUint24(a) == ReadUint24(b)
    ensures n == 2 ==> ReadUint16(a) == ReadUint16(b)
    ensures n == 1 ==> ReadUint8(a) == ReadUint8(b)
  {
    ReadersAreBigEndian(a);
    ReadersAreBigEndian(b);
  }

  /** Big-endian encodings, used to state what the readers invert. */
  function WriteUint16(v: uint16): (s: seq<byte>)
    ensures |s| == 2
  {
    [v / 0x100, v % 0x100]
  }

  function WriteUint24(v: nat): (s: seq<byte>)
    requires v < 0x100_0000
    ensures |s| == 3
  {
    [v / 0x1_0000, (v / 0x100) % 0x100, v % 0x100]
  }

  function WriteUint32(v: uint32): (s: seq<byte>)
    ensures |s| == 4
  {
    [v / 0x100 / 0x100 / 0x100, v / 0x100 / 0x100 % 0x100, v / 0x100 % 0x100, v % 0x100]
  }

  /** Each reader inverts the matching big-endian encoding, whatever follows it. */
  lemma {:induction false} ReadAfterWrite32(v: uint32, rest: seq<byte>)
    ensures ReadUint32(WriteUint32(v) + rest) == v
  {
    var q1 := v / 0x100;
    var q2 := q1 / 0x100;
    assert v == q1 * 0x100 + v % 0x100;
    assert q1 == q2 * 0x100 + q1 % 0x100;
    assert q2 == (q2 / 0x100) * 0x100 + q2 % 0x100;
  }

  lemma {:induction false} ReadAfterWrite24(v: uint32, rest: seq<byte>)
    requires v < 0x100_0000
    ensures ReadUint24(WriteUint24(v) + rest) == v
  {
    var w := WriteUint24(v) + rest;
    assert w[0] == v / 0x1_0000 && w[1] == (v / 0x100) % 0x100 && w[2] == v % 0x100;
  }

  lemma {:induction false} ReadAfterWrite16(v: uint16, rest: seq<byte>)
    ensures ReadUint16(WriteUint16(v) + rest) == v
  {
    var w := WriteUint16(v) + rest;
    assert w[0] == v / 0x100 && w[1] == v % 0x100;
  }
}
