/**
  Octets and the fixed-width integer encodings the motor protocols use
  (Python's `struct.pack('>H')`, `struct.pack('>h')` and their inverses).
*/
module Bytes {

  /** One octet on the serial line. */
  type byte = bv8

  /** `n` zero bytes. */
  function Zeros(n: nat): (z: seq<byte>)
    ensures |z| == n
    ensures forall i :: 0 <= i < n ==> z[i] == 0
  {
    if n == 0 then [] else Zeros(n - 1) + [0]
  }

  /** True when every element of `s` is a zero byte. */
  predicate AllZero(s: seq<byte>) {
    forall i :: 0 <= i < |s| ==> s[i] == 0
  }

  /** Converting a value in 0..255 to a byte and back is the identity. */
  lemma ByteRoundTrip(n: int)
    requires 0 <= n < 256
    ensures (n as byte) as int == n
  {
    assert n % 256 == n;
  }

  /** Interprets two bytes as a big-endian unsigned 16-bit value. */
  function DecodeU16(hi: byte, lo: byte): (v: int)
    ensures 0 <= v < 0x1_0000
  {
    hi as int * 256 + lo as int
  }

  /** Interprets two bytes as a big-endian two's-complement 16-bit value. */
  function DecodeS16(hi: byte, lo: byte): (v: int)
    ensures -0x8000 <= v < 0x8000
    ensures v >= 0 <==> hi < 0x80
  {
    var u := DecodeU16(hi, lo);
    if u >= 0x8000 then u - 0x1_0000 else u
  }

  /** `struct.pack('>H', v)`: the inverse of DecodeU16. */
  function BeU16(v: int): (r: seq<byte>)
    requires 0 <= v < 0x1_0000
    ensures |r| == 2
    ensures r[0] as int == v / 256 && r[1] as int == v % 256
    ensures DecodeU16(r[0], r[1]) == v
  {
    ByteRoundTrip(v / 256);
    ByteRoundTrip(v % 256);
    [(v / 256) as byte, (v % 256) as byte]
  }

  /** `struct.pack('>h', v)`: the inverse of DecodeS16. */
  function BeS16(v: int): (r: seq<byte>)
    requires -0x8000 <= v < 0x8000
    ensures |r| == 2
    ensures DecodeS16(r[0], r[1]) == v
  {
    BeU16(if v < 0 then v + 0x1_0000 else v)
  }

  /** Decoding then re-encoding two bytes gives them back unchanged. */
  lemma EncodeDecodeU16(hi: byte, lo: byte)
    ensures BeU16(DecodeU16(hi, lo)) == [hi, lo]
  {
    var v := DecodeU16(hi, lo);
    assert v / 256 == hi as int;
    assert v % 256 == lo as int;
  }

  /** The same for the signed reading. */
  lemma EncodeDecodeS16(hi: byte, lo: byte)
    ensures BeS16(DecodeS16(hi, lo)) == [hi, lo]
  {
    var u := DecodeU16(hi, lo);
    var v := DecodeS16(hi, lo);
    assert (if v < 0 then v + 0x1_0000 else v) == u;
    EncodeDecodeU16(hi, lo);
  }
}
