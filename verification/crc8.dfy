/**
  The Dallas/Maxim 1-Wire CRC-8 (catalogued as CRC-8/MAXIM-DOW, described in
  Maxim Application Note 27): polynomial 0x31, processed reflected as 0x8C,
  initial value 0x00, no final XOR. Both motor variants and the diagnostic
  script checksum the first nine bytes of a frame with it.
*/
module Crc8 {
  import opened Bytes

  /** The reflected generator polynomial. */
  const Poly: byte := 0x8C

  /** One bit step of the reflected shift register. */
  function Shift(c: byte): byte {
    if c & 1 == 1 then (c >> 1) ^ Poly else c >> 1
  }

  /**
    `crc8_update`: folds one byte into the register (eight bit steps). The
    register clears exactly when the byte equals it, which is why a frame
    followed by its own CRC leaves a zero register.
  */
  function Update(crc: byte, b: byte): (r: byte)
    ensures r == 0 <==> crc == b
  {
    var c := crc ^ b;
    assert c == 0 <==> crc == b;
    assert c != 0 ==> Shift(Shift(Shift(Shift(Shift(Shift(Shift(Shift(c)))))))) != 0 by {
      if c != 0 { ShiftsInjective(c, 0); }
    }
    Shift(Shift(Shift(Shift(Shift(Shift(Shift(Shift(c))))))))
  }

  /** The register after folding `data` into `crc`, first byte first. */
  function CrcFrom(crc: byte, data: seq<byte>): byte
    decreases |data|
  {
    if |data| == 0 then crc else CrcFrom(Update(crc, data[0]), data[1..])
  }

  /** `calculate_crc`: the checksum of `data` from the initial value 0. */
  function Crc(data: seq<byte>): (r: byte)
    ensures data == [] ==> r == 0
    ensures data != [] ==> r == Update(CrcFrom(0, data[..|data| - 1]), data[|data| - 1])
  {
    if data == [] then 0
    else
      var k := |data| - 1;
      CrcFromConcat(0, data[..k], [data[k]]);
      assert data == data[..k] + [data[k]];
      CrcFrom(0, data)
  }

  /** Folding a concatenation is folding the parts in turn. */
  lemma {:induction false} CrcFromConcat(crc: byte, a: seq<byte>, b: seq<byte>)
    ensures CrcFrom(crc, a + b) == CrcFrom(CrcFrom(crc, a), b)
    decreases |a|
  {
    if |a| == 0 {
      assert a + b == b;
    } else {
      assert (a + b)[1..] == a[1..] + b;
      CrcFromConcat(Update(crc, a[0]), a[1..], b);
    }
  }

  /** Appending one byte is one more update. */
  lemma CrcAppend(a: seq<byte>, b: byte)
    ensures Crc(a + [b]) == Update(Crc(a), b)
  {
    CrcFromConcat(0, a, [b]);
  }

  /** The catalogue check value: the CRC of the ASCII string "123456789" is 0xA1. */
  lemma CheckValue()
    ensures Crc([0x31, 0x32, 0x33, 0x34, 0x35, 0x36, 0x37, 0x38, 0x39]) == 0xA1
  {
    var s: seq<byte> := [0x31, 0x32, 0x33, 0x34, 0x35, 0x36, 0x37, 0x38, 0x39];
    assert Update(0x00, 0x31) == 0xE0;
    assert Update(0xE0, 0x32) == 0xEB;
    assert Update(0xEB, 0x33) == 0x95;
    assert Update(0x95, 0x34) == 0xF1;
    assert Update(0xF1, 0x35) == 0xAB;
    assert Update(0xAB, 0x36) == 0xEC;
    assert Update(0xEC, 0x37) == 0x77;
    assert Update(0x77, 0x38) == 0x07;
    assert Update(0x07, 0x39) == 0xA1;
    assert s[1..][1..][1..][1..][1..][1..][1..][1..][1..] == [];
    assert CrcFrom(0x07, s[8..]) == 0xA1;
    assert CrcFrom(0x77, s[7..]) == 0xA1;
    assert CrcFrom(0xEC, s[6..]) == 0xA1;
    assert CrcFrom(0xAB, s[5..]) == 0xA1;
    assert CrcFrom(0xF1, s[4..]) == 0xA1;
    assert CrcFrom(0x95, s[3..]) == 0xA1;
    assert CrcFrom(0xEB, s[2..]) == 0xA1;
    assert CrcFrom(0xE0, s[1..]) == 0xA1;
  }

  /** The catalogue residue: any message followed by its own CRC checks to 0x00. */
  lemma Residue(data: seq<byte>)
    ensures Crc(data + [Crc(data)]) == 0
  {
    CrcAppend(data, Crc(data));
  }

  /** A bit step loses no information. */
  lemma ShiftInjective(x: byte, y: byte)
    requires Shift(x) == Shift(y)
    ensures x == y
  {
  }

  /** For a fixed byte, distinct registers stay distinct after an update. */
  lemma UpdateInjectiveInCrc(c: byte, c': byte, b: byte)
    requires c != c'
    ensures Update(c, b) != Update(c', b)
  {
    var x, y := c ^ b, c' ^ b;
    assert x != y;
    ShiftsInjective(x, y);
  }

  /** For a fixed register, distinct bytes give distinct results. */
  lemma UpdateInjectiveInByte(c: byte, b: byte, b': byte)
    requires b != b'
    ensures Update(c, b) != Update(c, b')
  {
    var x, y := c ^ b, c ^ b';
    assert x != y;
    ShiftsInjective(x, y);
  }

  /** Eight bit steps lose no information. */
  lemma ShiftsInjective(x: byte, y: byte)
    requires x != y
    ensures Shift(Shift(Shift(Shift(Shift(Shift(Shift(Shift(x)))))))) != Shift(Shift(Shift(Shift(Shift(Shift(Shift(Shift(y))))))))
  {
    var x1, y1 := Shift(x), Shift(y);
    if x1 == y1 { ShiftInjective(x, y); }
    var x2, y2 := Shift(x1), Shift(y1);
    if x2 == y2 { ShiftInjective(x1, y1); }
    var x3, y3 := Shift(x2), Shift(y2);
    if x3 == y3 { ShiftInjective(x2, y2); }
    var x4, y4 := Shift(x3), Shift(y3);
    if x4 == y4 { ShiftInjective(x3, y3); }
    var x5, y5 := Shift(x4), Shift(y4);
    if x5 == y5 { ShiftInjective(x4, y4); }
    var x6, y6 := Shift(x5), Shift(y5);
    if x6 == y6 { ShiftInjective(x5, y5); }
    var x7, y7 := Shift(x6), Shift(y6);
    if x7 == y7 { ShiftInjective(x6, y6); }
    if Shift(x7) == Shift(y7) { ShiftInjective(x7, y7); }
  }

  /** Two different registers folded over the same data never meet. */
  lemma {:induction false} CrcFromInjective(c: byte, c': byte, data: seq<byte>)
    requires c != c'
    ensures CrcFrom(c, data) != CrcFrom(c', data)
    decreases |data|
  {
    if |data| > 0 {
      UpdateInjectiveInCrc(c, c', data[0]);
      CrcFromInjective(Update(c, data[0]), Update(c', data[0]), data[1..]);
    }
  }

  /**
    Any corruption confined to one byte changes the checksum: two messages
    of equal length that differ in exactly one position have different CRCs.
    (A single flipped bit is one such corruption.)
  */
  lemma {:induction false} SingleByteErrorDetected(a: seq<byte>, b: seq<byte>, k: nat)
    requires |a| == |b| && k < |a|
    requires a[k] != b[k]
    requires forall i :: 0 <= i < |a| && i != k ==> a[i] == b[i]
    ensures Crc(a) != Crc(b)
  {
    assert a[..k] == b[..k];
    assert a[k + 1..] == b[k + 1..];
    assert a == a[..k] + [a[k]] + a[k + 1..];
    assert b == b[..k] + [b[k]] + b[k + 1..];
    var c := Crc(a[..k]);
    CrcFromConcat(0, a[..k] + [a[k]], a[k + 1..]);
    CrcFromConcat(0, b[..k] + [b[k]], b[k + 1..]);
    CrcAppend(a[..k], a[k]);
    CrcAppend(b[..k], b[k]);
    UpdateInjectiveInByte(c, a[k], b[k]);
    CrcFromInjective(Update(c, a[k]), Update(c, b[k]), a[k + 1..]);
  }
}
