/**
  The stand-alone diagnostic tool's packet helpers: its own copy of the
  CRC-8 with the 8-to-9 byte padding, the checked send of a nine-byte
  packet, the mode-switch and drive packets, and the decoding of the error
  byte of a reply. Packets are Python lists of integers, so they are
  `seq<int>` here; `bytes(packet)` is what turns them into octets.
*/
module Diagnostic {
  import opened Wrappers
  import opened Bytes
  import opened Crc8
  import opened Link
  import Ddsm115Codec

  /**
    `calculate_crc`: an eight-byte input is padded with one zero byte, and
    only the first nine bytes are checksummed.
  */
  function PaddedCrc(data: seq<byte>): (c: byte)
    ensures |data| == 8 ==> c == Crc(data + [0])
    ensures |data| >= 9 ==> c == Crc(data[..9])
  {
    var padded := if |data| == 8 then data + [0] else data;
    assert |data| == 9 ==> data[..9] == data;
    Crc(if |padded| > 9 then padded[..9] else padded)
  }

  /**
    The diagnostic checksum agrees with the driver's: on the first nine bytes
    of any frame `send_packet` builds it yields the frame's checksum byte, and
    when byte 8 is zero the first eight bytes alone give the same checksum.
  */
  lemma PaddedCrcMatchesPacket(id: byte, cmd: byte, data: seq<byte>)
    ensures var f := Ddsm115Codec.Packet(id, cmd, data);
      && PaddedCrc(f[..9]) == f[9]
      && (f[8] == 0 ==> PaddedCrc(f[..8]) == f[9])
  {
    var f := Ddsm115Codec.Packet(id, cmd, data);
    assert f[..9][..9] == f[..9];
    if f[8] == 0 {
      assert f[..8] + [0] == f[..9];
    }
  }

  /** `bytes(packet)`: every element must lie in 0..255, otherwise ValueError. */
  function ToBytes(packet: seq<int>): (r: Option<seq<byte>>)
    ensures r.Some? <==> forall i :: 0 <= i < |packet| ==> 0 <= packet[i] < 256
    ensures r.Some? ==> |r.value| == |packet| && forall i :: 0 <= i < |packet| ==> r.value[i] as int == packet[i]
    decreases |packet|
  {
    if |packet| == 0 then Some([])
    else if !(0 <= packet[0] < 256) then None
    else
      var rest := ToBytes(packet[1..]);
      if rest.None? then
        assert !(forall i :: 0 <= i < |packet[1..]| ==> 0 <= packet[1..][i] < 256);
        None
      else
        ByteRoundTrip(packet[0]);
        Some([packet[0] as byte] + rest.value)
  }

  /** The error `send_command` raises (it is not caught inside the function). */
  datatype Error = PacketLength

  /** What a call of `send_command` leaves behind: the response it returns and the port afterwards. */
  datatype Exchange = Exchange(response: Option<seq<byte>>, port: Port)

  /** The frame `send_command` transmits for a nine-byte packet: the octets, then their checksum. */
  function Frame(b: seq<byte>): (f: seq<byte>)
    requires |b| == 9
    ensures |f| == 10 && f[..9] == b && Ddsm115Codec.Accepted(f, None)
  {
    assert (b + [PaddedCrc(b)])[..9] == b;
    b + [PaddedCrc(b)]
  }

  /**
    `send_command`: a packet that is not exactly nine long raises ValueError.
    Otherwise a packet with an element outside 0..255 fails in `bytes()` and,
    like a write that raises, yields None with nothing sent. A sent frame is
    answered by whatever bytes are waiting (None when there are none).
  */
  function SendCommand(p: Port, packet: seq<int>): (r: Result<Exchange, Error>)
    ensures r.Err? <==> |packet| != 9
    ensures r.Ok? && ToBytes(packet).Some? && Writes(p, p.attempts) ==>
      r.value.port.written == p.written + [Frame(ToBytes(packet).value)]
    ensures r.Ok? && !(ToBytes(packet).Some? && Writes(p, p.attempts)) ==>
      r.value.port.written == p.written && r.value.response.None?
    ensures r.Ok? && r.value.response.Some? ==>
      p.attempts in p.replies && r.value.response.value == p.replies[p.attempts] && |r.value.response.value| > 0
    ensures r.Ok? ==> Later(p, r.value.port)
  {
    if |packet| != 9 then Err(PacketLength)
    else
      var b := ToBytes(packet);
      if b.None? then Ok(Exchange(None, p))
      else
        var w := Write(p, Frame(b.value));
        if !w.ok then Ok(Exchange(None, w.port))
        else if p.attempts in p.replies && |p.replies[p.attempts]| > 0 then
          Ok(Exchange(Some(p.replies[p.attempts]), w.port))
        else Ok(Exchange(None, w.port))
  }

  /** `send_mode_switch`'s packet: the mode value at byte 8 (so it is covered by the checksum). */
  function ModeSwitchPacket(motorId: int, modeValue: int): (packet: seq<int>)
    ensures |packet| == 9 && packet[0] == motorId && packet[1] == 0xA0 && packet[8] == modeValue
    ensures forall i :: 2 <= i < 8 ==> packet[i] == 0
  {
    [motorId, 0xA0, 0x00, 0x00, 0x00, 0x00, 0x00, 0x00, modeValue]
  }

  /**
    `send_drive_command`'s packet. `(value >> 8) & 0xFF` and `value & 0xFF`
    on Python's unbounded integers are the floor quotient and the
    non-negative remainder, which Dafny's `/` and `%` by a positive divisor are.
  */
  function DrivePacket(motorId: int, value: int, accelTime: int, brake: int): (packet: seq<int>)
    ensures |packet| == 9 && packet[0] == motorId && packet[1] == 0x64
    ensures 0 <= packet[2] < 256 && 0 <= packet[3] < 256
    ensures packet[6] == accelTime && packet[7] == brake
    ensures packet[4] == 0 && packet[5] == 0 && packet[8] == 0
  {
    [motorId, 0x64, (value / 256) % 256, value % 256, 0x00, 0x00, accelTime, brake, 0x00]
  }

  /** `send_mode_switch` and `send_drive_command` never raise: their packets always have nine elements. */
  lemma HelpersNeverRaise(p: Port, motorId: int, modeValue: int, value: int, accelTime: int, brake: int)
    ensures SendCommand(p, ModeSwitchPacket(motorId, modeValue)).Ok?
    ensures SendCommand(p, DrivePacket(motorId, value, accelTime, brake)).Ok?
  {
  }

  /** `(value >> 8) & 0xFF` and `value & 0xFF` are the two bytes of `struct.pack('>h', value)`. */
  lemma ShiftMaskIsTwosComplement(value: int)
    requires -0x8000 <= value < 0x8000
    ensures BeS16(value)[0] as int == (value / 256) % 256
    ensures BeS16(value)[1] as int == value % 256
  {
    var u := if value < 0 then value + 0x1_0000 else value;
    var r := BeU16(u);
    assert BeS16(value) == r;
    TwosComplementDigits(value);
  }

  /** The base-256 digits of the 16-bit two's-complement pattern of `value`. */
  lemma TwosComplementDigits(value: int)
    requires -0x8000 <= value < 0x8000
    ensures var u := if value < 0 then value + 0x1_0000 else value;
      u / 256 == (value / 256) % 256 && u % 256 == value % 256
  {
    var q := value / 256;
    var r := value % 256;
    assert value == 256 * q + r && 0 <= r < 256;
    if value < 0 {
      assert value + 0x1_0000 == 256 * (q + 256) + r;
      assert -128 <= q < 0;
    } else {
      assert 0 <= q < 128;
    }
  }

  /** The integer reading of each octet: the list a Python caller would pass. */
  function Ints(b: seq<byte>): (r: seq<int>)
    ensures |r| == |b| && forall i :: 0 <= i < |b| ==> r[i] == b[i] as int
  {
    seq(|b|, i requires 0 <= i < |b| => b[i] as int)
  }

  /** `bytes()` of the integer readings of some octets gives those octets back. */
  lemma {:induction false} ToBytesOfInts(b: seq<byte>)
    ensures ToBytes(Ints(b)) == Some(b)
    decreases |b|
  {
    if |b| > 0 {
      ToBytesOfInts(b[1..]);
      assert Ints(b)[1..] == Ints(b[1..]);
      assert (b[0] as int) as byte == b[0];
      assert b == [b[0]] + b[1..];
    }
  }

  /**
    The diagnostic mode switch to mode code `m` is exactly the CRC-framed
    packet the driver's `send_packet` would build for `0xA0` with the mode in
    the last data byte, the layout of the driver's emergency stop rather than
    of its raw `set_mode` frame.
  */
  lemma ModeSwitchMatchesDriver(id: byte, m: byte)
    ensures ToBytes(ModeSwitchPacket(id as int, m as int)).Some?
    ensures Frame(ToBytes(ModeSwitchPacket(id as int, m as int)).value)
      == Ddsm115Codec.Packet(id, Ddsm115Codec.ModeSwitch, [0, 0, 0, 0, 0, 0, m])
    ensures m == 2 ==> Frame(ToBytes(ModeSwitchPacket(id as int, m as int)).value) == Ddsm115Codec.StopModeFrame(id)
  {
    var f := Ddsm115Codec.Packet(id, Ddsm115Codec.ModeSwitch, [0, 0, 0, 0, 0, 0, m]);
    var body := f[..9];
    assert body == [id, 0xA0, 0, 0, 0, 0, 0, 0, m];
    assert Ints(body) == ModeSwitchPacket(id as int, m as int);
    ToBytesOfInts(body);
    PaddedCrcMatchesPacket(id, Ddsm115Codec.ModeSwitch, [0, 0, 0, 0, 0, 0, m]);
    assert f == body + [f[9]];
  }

  /**
    The diagnostic drive packet for a value in the signed 16-bit range, with
    no acceleration time and no brake, is exactly the driver's drive frame
    carrying that value as `struct.pack('>h')`.
  */
  lemma DriveMatchesDriver(id: byte, value: int)
    requires -0x8000 <= value < 0x8000
    ensures ToBytes(DrivePacket(id as int, value, 0, 0)).Some?
    ensures Frame(ToBytes(DrivePacket(id as int, value, 0, 0)).value)
      == Ddsm115Codec.Packet(id, Ddsm115Codec.Drive, BeS16(value) + Zeros(5))
  {
    var v := BeS16(value);
    var data := v + Zeros(5);
    var f := Ddsm115Codec.Packet(id, Ddsm115Codec.Drive, data);
    var body := f[..9];
    assert body == [id, 0x64, v[0], v[1], 0, 0, 0, 0, 0];
    DriveBodyReadsAsPacket(id, value);
    ToBytesOfInts(body);
    PaddedCrcMatchesPacket(id, Ddsm115Codec.Drive, data);
    assert f == body + [f[9]];
  }

  /** The integer reading of the driver's drive body for `value` is the diagnostic drive packet. */
  lemma DriveBodyReadsAsPacket(id: byte, value: int)
    requires -0x8000 <= value < 0x8000
    ensures var v := BeS16(value);
      Ints([id, 0x64, v[0], v[1], 0, 0, 0, 0, 0]) == DrivePacket(id as int, value, 0, 0)
  {
    ShiftMaskIsTwosComplement(value);
  }

  /** The five error bits in bit order, with the names `parse_error_code` reports. */
  const ErrorNames: seq<string> := ["Sensor error", "Overcurrent error", "Phase overcurrent error", "Stall error", "Troubleshooting"]

  /** `code & (1 << k) != 0` for k in 0..4, on Python's unbounded two's-complement integers. */
  predicate Bit(code: int, k: nat)
    requires k < 5
  {
    if k == 0 then code % 2 == 1
    else if k == 1 then (code / 2) % 2 == 1
    else if k == 2 then (code / 4) % 2 == 1
    else if k == 3 then (code / 8) % 2 == 1
    else (code / 16) % 2 == 1
  }

  /** The one-element list naming error bit `k` when it is set, else the empty list. */
  function NameIfSet(code: int, k: nat): (r: seq<string>)
    requires k < 5
  {
    if Bit(code, k) then [ErrorNames[k]] else []
  }

  /** The list `parse_error_code` accumulates: one name per set bit among bits 0-4, in bit order. */
  function ErrorList(code: int): (errors: seq<string>)
    ensures |errors| <= 5
  {
    NameIfSet(code, 0) + NameIfSet(code, 1) + NameIfSet(code, 2) + NameIfSet(code, 3) + NameIfSet(code, 4)
  }

  /** `parse_error_code`: the accumulated list, or "No errors" when it is empty. */
  function ParseErrorCode(code: int): (r: seq<string>)
    ensures 1 <= |r| <= 5
    ensures r == ["No errors"] <==> forall j :: 0 <= j < 5 ==> !Bit(code, j)
    ensures Bit(code, 0) ==> r[0] == "Sensor error"
  {
    var errors := ErrorList(code);
    assert errors == [] <==> forall j :: 0 <= j < 5 ==> !Bit(code, j) by {
      if exists j :: 0 <= j < 5 && Bit(code, j) {
        var j :| 0 <= j < 5 && Bit(code, j);
        assert j == 0 || j == 1 || j == 2 || j == 3 || j == 4;
      }
    }
    assert errors != [] ==> errors[0] != "No errors";
    if errors == [] then ["No errors"] else errors
  }

  /** The names of the set bits among bits `k`..4, in bit order: the reference reading of the error byte. */
  function SetBitNames(code: int, k: nat): (r: seq<string>)
    requires k <= 5
    ensures |r| <= 5 - k
    ensures forall i :: 0 <= i < |r| ==> r[i] in ErrorNames
    decreases 5 - k
  {
    if k == 5 then []
    else NameIfSet(code, k) + SetBitNames(code, k + 1)
  }

  /** The reference list is empty exactly when none of the bits `k`..4 is set. */
  lemma {:induction false} SetBitNamesEmpty(code: int, k: nat)
    requires k <= 5
    ensures SetBitNames(code, k) == [] <==> forall j :: k <= j < 5 ==> !Bit(code, j)
    decreases 5 - k
  {
    if k < 5 {
      SetBitNamesEmpty(code, k + 1);
    }
  }

  /** "No errors" is not the name of an error bit. */
  lemma NoErrorsIsNotAName()
    ensures "No errors" !in ErrorNames
  {
    assert forall i :: 0 <= i < |ErrorNames| ==> ErrorNames[i][0] != 'N';
  }

  /** Five concatenations grouped to the left equal the same grouped to the right. */
  lemma Assoc5(a: seq<string>, b: seq<string>, c: seq<string>, d: seq<string>, e: seq<string>)
    ensures a + b + c + d + e == a + (b + (c + (d + (e + []))))
  {
    assert e + [] == e;
  }

  /** The accumulated list is the reference list of set-bit names. */
  lemma ErrorListIsSetBitNames(code: int)
    ensures ErrorList(code) == SetBitNames(code, 0)
  {
    assert SetBitNames(code, 0) == NameIfSet(code, 0) + (NameIfSet(code, 1) + (NameIfSet(code, 2) + (NameIfSet(code, 3) + (NameIfSet(code, 4) + []))));
    Assoc5(NameIfSet(code, 0), NameIfSet(code, 1), NameIfSet(code, 2), NameIfSet(code, 3), NameIfSet(code, 4));
  }

  /**
    `parse_error_code` returns the names of exactly the set bits among bits
    0-4 in bit order, and "No errors" exactly when none of them is set.
  */
  lemma ParseErrorCodeMeaning(code: int)
    ensures ParseErrorCode(code) == if SetBitNames(code, 0) == [] then ["No errors"] else SetBitNames(code, 0)
    ensures ParseErrorCode(code) == ["No errors"] <==> forall j :: 0 <= j < 5 ==> !Bit(code, j)
  {
    ErrorListIsSetBitNames(code);
    SetBitNamesEmpty(code, 0);
    NoErrorsIsNotAName();
    var names := SetBitNames(code, 0);
    if names != [] {
      assert names[0] in ErrorNames;
      assert names != ["No errors"];
    }
  }

  /** Adding an even number leaves the parity unchanged. */
  lemma EvenShift(a: int, b: int)
    ensures (2 * a + b) % 2 == b % 2
  {
  }

  /** Dividing `32 * q + r` by a divisor `d` of 32 divides both parts. */
  lemma DivSplit(q: int, r: int, d: int)
    requires d == 2 || d == 4 || d == 8 || d == 16
    requires 0 <= r < 32
    ensures (32 * q + r) / d == (32 / d) * q + r / d
  {
    var n := (32 / d) * q + r / d;
    assert d * n <= 32 * q + r < d * n + d;
  }

  /** Bits 0-4 of `code` are those of `code % 32`. */
  lemma LowBits(code: int, k: nat)
    requires k < 5
    ensures Bit(code, k) == Bit(code % 32, k)
  {
    var q := code / 32;
    var r := code % 32;
    assert code == 32 * q + r;
    if k == 0 {
      EvenShift(16 * q, r);
    } else if k == 1 {
      DivSplit(q, r, 2);
      EvenShift(8 * q, r / 2);
    } else if k == 2 {
      DivSplit(q, r, 4);
      EvenShift(4 * q, r / 4);
    } else if k == 3 {
      DivSplit(q, r, 8);
      EvenShift(2 * q, r / 8);
    } else {
      DivSplit(q, r, 16);
      EvenShift(q, r / 16);
    }
  }

  /** The error list depends on the low five bits only: bits 5-7 of the error byte are ignored. */
  lemma ParseErrorCodeLowBits(code: int)
    ensures ParseErrorCode(code) == ParseErrorCode(code % 32)
  {
    LowBits(code, 0);
    LowBits(code, 1);
    LowBits(code, 2);
    LowBits(code, 3);
    LowBits(code, 4);
  }

  /** The error byte with exactly the bits `flags` marks set. */
  function ErrorByte(flags: seq<bool>): (code: int)
    requires |flags| == 5
    ensures 0 <= code < 32
  {
    (if flags[0] then 1 else 0) + (if flags[1] then 2 else 0) + (if flags[2] then 4 else 0)
    + (if flags[3] then 8 else 0) + (if flags[4] then 16 else 0)
  }

  /** 0 or 1 for a flag. */
  function BitValue(b: bool): (v: int)
    ensures v == 0 || v == 1
  {
    if b then 1 else 0
  }

  /** Halving `b + 2 * rest` drops the low bit `b`. */
  lemma Peel(b: bool, rest: int)
    ensures (BitValue(b) + 2 * rest) / 2 == rest
    ensures (BitValue(b) + 2 * rest) % 2 == 1 <==> b
  {
  }

  /** Dividing by 4, 8 or 16 is halving repeatedly. */
  lemma Halves(x: int)
    ensures x / 4 == (x / 2) / 2 && x / 8 == (x / 4) / 2 && x / 16 == (x / 8) / 2
  {
  }

  /** The error byte for `flags` has bit `k` set exactly when `flags[k]` holds. */
  lemma ErrorByteBits(flags: seq<bool>)
    requires |flags| == 5
    ensures forall k :: 0 <= k < 5 ==> Bit(ErrorByte(flags), k) == flags[k]
  {
    var c := ErrorByte(flags);
    var t4 := BitValue(flags[4]);
    var t3 := BitValue(flags[3]) + 2 * t4;
    var t2 := BitValue(flags[2]) + 2 * t3;
    var t1 := BitValue(flags[1]) + 2 * t2;
    assert c == BitValue(flags[0]) + 2 * t1;
    Peel(flags[0], t1);
    Peel(flags[1], t2);
    Peel(flags[2], t3);
    Peel(flags[3], t4);
    Peel(flags[4], 0);
    Halves(c);
  }

  /** Encoding a set of error flags and parsing the byte back names exactly the flagged errors. */
  lemma ErrorByteRoundTrip(flags: seq<bool>)
    requires |flags| == 5
    ensures forall k :: 0 <= k < 5 ==> Bit(ErrorByte(flags), k) == flags[k]
    ensures ParseErrorCode(ErrorByte(flags)) == ["No errors"] <==> forall k :: 0 <= k < 5 ==> !flags[k]
  {
    ErrorByteBits(flags);
    ParseErrorCodeMeaning(ErrorByte(flags));
  }
}
