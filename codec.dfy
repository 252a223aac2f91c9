/** Fixed-width big-endian integer codec (encodingDecoding.go; the same four
    functions are repeated in wal.go as encodeInt/decodeInt and
    encodeVersion/decodeVersion and are modelled once here). */
module Codec {

  /** A Go `byte`. */
  type byte = x: int | 0 <= x < 256

  const TwoTo16: int := 0x1_0000
  const TwoTo32: int := 0x1_0000_0000

  /** The unsigned value of `s` read most significant byte first: the
      reference meaning of "big-endian". */
  function BigEndian(s: seq<byte>): (v: nat)
  {
    if s == [] then 0 else BigEndian(s[..|s| - 1]) * 256 + s[|s| - 1]
  }

  /** `encodeInt`: `uint32(x)` written as 4 bytes, most significant first.
      Go's conversion to uint32 keeps the low 32 bits of the two's-complement
      value, which is `x` modulo 2^32 for every `x`. */
  function EncodeInt(x: int): (r: seq<byte>)
    ensures |r| == 4
  {
    var u := x % TwoTo32;
    [u / 0x100_0000, (u / 0x1_0000) % 0x100, (u / 0x100) % 0x100, u % 0x100]
  }

  /** What `encodeInt` writes is `x` modulo 2^32 in big-endian order. */
  lemma EncodeIntValue(x: int)
    ensures BigEndian(EncodeInt(x)) == x % TwoTo32
  {
    var u := x % TwoTo32;
    BigEndian4(EncodeInt(x));
    Digits(u);
  }

  /** A number below 2^32 is the sum of its four base-256 digits. */
  lemma Digits(u: nat)
    ensures u == (u / 0x100_0000) * 0x100_0000 + ((u / 0x1_0000) % 0x100) * 0x1_0000
              + ((u / 0x100) % 0x100) * 0x100 + u % 0x100
  {
    var c := u / 0x100;
    var b := c / 0x100;
    var a := b / 0x100;
    DivStep(u, 0x100);
    DivStep(u, 0x1_0000);
    assert u == c * 0x100 + u % 0x100;
    assert c == b * 0x100 + c % 0x100;
    assert b == a * 0x100 + b % 0x100;
  }

  /** Dividing by `d` and then by 256 is dividing by `256 * d`. */
  lemma DivStep(u: nat, d: nat)
    requires d == 0x100 || d == 0x1_0000
    ensures u / (d * 0x100) == (u / d) / 0x100
  {
    var q := u / d;
    var b := q / 0x100;
    assert u == q * d + u % d;
    assert q == b * 0x100 + q % 0x100;
    assert u == b * (d * 0x100) + ((q % 0x100) * d + u % d);
    assert 0 <= (q % 0x100) * d + u % d < d * 0x100;
  }

  /** `decodeInt`: the first 4 bytes as a big-endian uint32. Go's
      `binary.BigEndian.Uint32` panics on fewer than 4 bytes and ignores any
      byte after the fourth. */
  function DecodeInt(b: seq<byte>): (r: int)
    requires |b| >= 4
    ensures 0 <= r < TwoTo32
  {
    b[0] as int * 0x100_0000 + b[1] as int * 0x1_0000 + b[2] as int * 0x100 + b[3] as int
  }

  /** `decodeInt` reads the first four bytes in big-endian order. */
  lemma DecodeIntValue(b: seq<byte>)
    requires |b| >= 4
    ensures DecodeInt(b) == BigEndian(b[..4])
  {
    BigEndian4(b[..4]);
  }

  /** `encodeNum`: `uint16(v)` written as 2 bytes, most significant first. */
  function EncodeNum(v: int): (r: seq<byte>)
    ensures |r| == 2
  {
    var u := v % TwoTo16;
    [u / 0x100, u % 0x100]
  }

  /** What `encodeNum` writes is `v` modulo 2^16 in big-endian order. */
  lemma EncodeNumValue(v: int)
    ensures BigEndian(EncodeNum(v)) == v % TwoTo16
  {
    BigEndian2(EncodeNum(v));
  }

  /** `decodeNum`: the first 2 bytes as a big-endian uint16. */
  function DecodeNum(b: seq<byte>): (r: int)
    requires |b| >= 2
    ensures 0 <= r < TwoTo16
  {
    b[0] as int * 0x100 + b[1] as int
  }

  /** `decodeNum` reads the first two bytes in big-endian order. */
  lemma DecodeNumValue(b: seq<byte>)
    requires |b| >= 2
    ensures DecodeNum(b) == BigEndian(b[..2])
  {
    BigEndian2(b[..2]);
  }

  /** The big-endian value of four bytes, written out. */
  lemma BigEndian4(s: seq<byte>)
    requires |s| == 4
    ensures BigEndian(s) == s[0] as int * 0x100_0000 + s[1] as int * 0x1_0000 + s[2] as int * 0x100 + s[3] as int
  {
    var s1, s2, s3 := s[..1], s[..2], s[..3];
    assert s1[..0] == [] && s2[..1] == s1 && s3[..2] == s2 && s[..3] == s3;
    assert BigEndian(s1) == s[0] as int;
    assert BigEndian(s2) == s[0] as int * 0x100 + s[1] as int;
    assert BigEndian(s3) == (s[0] as int * 0x100 + s[1] as int) * 0x100 + s[2] as int;
  }

  /** The big-endian value of two bytes, written out. */
  lemma BigEndian2(s: seq<byte>)
    requires |s| == 2
    ensures BigEndian(s) == s[0] as int * 0x100 + s[1] as int
  {
    var s1 := s[..1];
    assert s1[..0] == [] && s[..1] == s1;
    assert BigEndian(s1) == s[0] as int;
  }

  /** Decoding undoes encoding on the uint32 range. */
  lemma DecodeEncodeInt(x: int)
    requires 0 <= x < TwoTo32
    ensures DecodeInt(EncodeInt(x)) == x
  {
    assert EncodeInt(x)[..4] == EncodeInt(x);
    EncodeIntValue(x);
    DecodeIntValue(EncodeInt(x));
  }

  /** Encoding undoes decoding: every 4-byte string is the encoding of the
      value it decodes to. */
  lemma EncodeDecodeInt(b: seq<byte>)
    requires |b| == 4
    ensures EncodeInt(DecodeInt(b)) == b
  {
    var v := DecodeInt(b);
    assert b[..4] == b;
    DecodeIntValue(b);
    EncodeIntValue(v);
    assert v % TwoTo32 == v;
    assert BigEndian(EncodeInt(v)) == BigEndian(b);
    BigEndianInjective(EncodeInt(v), b);
  }

  /** Out-of-range values wrap: only the low 32 bits are kept. */
  lemma EncodeIntWraps(x: int)
    ensures EncodeInt(x) == EncodeInt(x % TwoTo32)
    ensures DecodeInt(EncodeInt(x)) == x % TwoTo32
  {
    assert EncodeInt(x)[..4] == EncodeInt(x);
    EncodeIntValue(x);
    EncodeIntValue(x % TwoTo32);
    DecodeIntValue(EncodeInt(x));
    BigEndianInjective(EncodeInt(x), EncodeInt(x % TwoTo32));
  }

  /** Decoding undoes encoding on the uint16 range. */
  lemma DecodeEncodeNum(v: int)
    requires 0 <= v < TwoTo16
    ensures DecodeNum(EncodeNum(v)) == v
  {
    assert EncodeNum(v)[..2] == EncodeNum(v);
    EncodeNumValue(v);
    DecodeNumValue(EncodeNum(v));
  }

  /** Every 2-byte string is the encoding of the value it decodes to. */
  lemma EncodeDecodeNum(b: seq<byte>)
    requires |b| == 2
    ensures EncodeNum(DecodeNum(b)) == b
  {
    var r := EncodeNum(DecodeNum(b));
    assert b[..2] == b;
    DecodeNumValue(b);
    EncodeNumValue(DecodeNum(b));
    BigEndianInjective(r, b);
  }

  /** Two byte strings of one length with the same big-endian value are equal. */
  lemma {:induction false} BigEndianInjective(a: seq<byte>, b: seq<byte>)
    requires |a| == |b|
    requires BigEndian(a) == BigEndian(b)
    ensures a == b
  {
    if a != [] {
      var n := |a|;
      var pa, pb := a[..n - 1], b[..n - 1];
      assert BigEndian(a) == BigEndian(pa) * 256 + a[n - 1];
      assert BigEndian(b) == BigEndian(pb) * 256 + b[n - 1];
      assert a[n - 1] == b[n - 1] by {
        assert BigEndian(a) % 256 == a[n - 1];
        assert BigEndian(b) % 256 == b[n - 1];
      }
      assert BigEndian(pa) == BigEndian(pb);
      BigEndianInjective(pa, pb);
      assert a == pa + [a[n - 1]];
      assert b == pb + [b[n - 1]];
    }
  }
}
