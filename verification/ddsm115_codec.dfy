/**
  The DDSM115 wire format: 10-byte frames `[id, cmd, 7 data bytes, crc]`,
  the two CRC-less raw frames (mode switch, set-ID), the scaling of the three
  setpoints into big-endian 16-bit fields, and the two feedback layouts.
  Pure functions only; the stateful driver is in module Ddsm115.
*/
module Ddsm115Codec {
  import opened Wrappers
  import opened Bytes
  import opened Numeric
  import Crc8

  /** `MotorMode`: the three control modes and their wire codes. */
  datatype Mode = Current | Velocity | Position

  function ModeCode(m: Mode): (b: byte)
    ensures 1 <= b <= 3
  {
    match m
    case Current => 0x01
    case Velocity => 0x02
    case Position => 0x03
  }

  /** The mode a wire code names, if any (the reverse of ModeCode). */
  function ModeOfCode(b: byte): (r: Option<Mode>)
    ensures r.Some? <==> 1 <= b <= 3
    ensures r.Some? ==> ModeCode(r.value) == b
  {
    if b == 1 then Some(Current)
    else if b == 2 then Some(Velocity)
    else if b == 3 then Some(Position)
    else None
  }

  // Command codes (`CommandType` of the DDSM115 library).
  const EmergencyStop: byte := 0x05
  const ModeSwitch: byte := 0xA0
  const Drive: byte := 0x64
  const FeedbackRequest: byte := 0x74
  const SetId: byte := 0x53
  const QueryId: byte := 0xAA
  const Brake: byte := 0x90
  const ReleaseBrake: byte := 0x91
  const Enable: byte := 0x88
  const Disable: byte := 0x93
  const PositionCalibration: byte := 0x94

  /** The data bytes of a frame: the first seven of `data`, zero-padded. */
  function Pad7(data: seq<byte>): (r: seq<byte>)
    ensures |r| == 7
    ensures forall k :: 0 <= k < 7 ==> r[k] == if k < |data| then data[k] else 0
  {
    if |data| >= 7 then data[..7] else data + Zeros(7 - |data|)
  }

  /** The frame `send_packet` transmits. */
  function Packet(id: byte, cmd: byte, data: seq<byte>): (f: seq<byte>)
    ensures |f| == 10 && f[0] == id && f[1] == cmd
    ensures f[2..9] == Pad7(data)
    ensures f[9] == Crc8.Crc(f[..9])
  {
    var body := [id, cmd] + Pad7(data);
    assert (body + [Crc8.Crc(body)])[..9] == body;
    body + [Crc8.Crc(body)]
  }

  /** The check `read_response` applies: ten bytes, a matching CRC, and the expected id if one is given. */
  predicate Accepted(resp: seq<byte>, expectedId: Option<byte>) {
    && |resp| == 10
    && Crc8.Crc(resp[..9]) == resp[9]
    && (expectedId.None? || resp[0] == expectedId.value)
  }

  /** The fields of an accepted frame. */
  datatype Fields = Fields(id: byte, cmd: byte, data: seq<byte>)

  /** Splits an accepted frame into its fields; anything else is rejected. */
  function Unpack(resp: seq<byte>): (r: Option<Fields>)
    ensures r.Some? <==> Accepted(resp, None)
    ensures r.Some? ==> |r.value.data| == 7 && Packet(r.value.id, r.value.cmd, r.value.data) == resp
  {
    if Accepted(resp, None) then
      var d := resp[2..9];
      assert Pad7(d) == d;
      assert resp[..9] == [resp[0], resp[1]] + d;
      assert resp == resp[..9] + [resp[9]];
      Some(Fields(resp[0], resp[1], d))
    else None
  }

  /**
    Every frame `send_packet` builds passes the receiver's validation for its
    own id, and unpacks to the id, the command and the padded data it was built from.
  */
  lemma PacketRoundTrip(id: byte, cmd: byte, data: seq<byte>)
    ensures Accepted(Packet(id, cmd, data), Some(id))
    ensures Unpack(Packet(id, cmd, data)) == Some(Fields(id, cmd, Pad7(data)))
  {
  }

  /** Any corruption of a single byte of a built frame makes the receiver reject it. */
  lemma CorruptedPacketRejected(id: byte, cmd: byte, data: seq<byte>, g: seq<byte>, k: nat)
    requires |g| == 10 && k < 10
    requires g[k] != Packet(id, cmd, data)[k]
    requires forall i :: 0 <= i < 10 && i != k ==> g[i] == Packet(id, cmd, data)[i]
    ensures !Accepted(g, None)
  {
    var f := Packet(id, cmd, data);
    if k < 9 {
      Crc8.SingleByteErrorDetected(f[..9], g[..9], k);
    } else {
      assert g[..9] == f[..9];
    }
  }

  /** `set_mode`'s raw frame `[id, 0xA0, 0 x 7, mode]`: ten bytes, no CRC. */
  function ModeFrame(id: byte, mode: Mode): (f: seq<byte>)
    ensures |f| == 10 && f[0] == id && f[1] == ModeSwitch && f[9] == ModeCode(mode)
    ensures AllZero(f[2..9])
  {
    [id, ModeSwitch] + Zeros(7) + [ModeCode(mode)]
  }

  /** `set_motor_id`'s raw frame `[0xAA, 0x55, 0x53, new_id, 0 x 6]`. */
  function IdFrame(newId: byte): (f: seq<byte>)
    ensures |f| == 10 && f[..3] == [QueryId, 0x55, SetId] && f[3] == newId
    ensures AllZero(f[4..])
  {
    [QueryId, 0x55, SetId, newId] + Zeros(6)
  }

  /** The CRC-framed mode switch `_safe_emergency_stop` sends: the mode at byte 8, then the CRC. */
  function StopModeFrame(id: byte): (f: seq<byte>)
    ensures f == Packet(id, ModeSwitch, [0, 0, 0, 0, 0, 0, ModeCode(Velocity)])
  {
    Packet(id, ModeSwitch, [0, 0, 0, 0, 0, 0, ModeCode(Velocity)])
  }

  /**
    The two velocity-mode switch frames the library sends differ: the raw one
    carries the mode at byte 9 and byte 8 is zero, the emergency one carries it
    at byte 8.
  */
  lemma ModeSwitchLayoutsDiffer(id: byte)
    ensures ModeFrame(id, Velocity)[8] == 0 && StopModeFrame(id)[8] == ModeCode(Velocity)
    ensures ModeFrame(id, Velocity) != StopModeFrame(id)
  {
    var f := StopModeFrame(id);
    assert f[8] == f[2..9][6];
  }

  /** Velocity setpoint: clamped to [-143, 143] RPM, then `int()`. */
  function VelocityRaw(rpm: real): (v: int)
    ensures -143 <= v <= 143
    ensures -143.0 <= rpm <= 143.0 ==> Trunc(rpm) == v
  {
    Trunc(Clamp(-143.0, 143.0, rpm))
  }

  /** Current setpoint: clamped to [-8, 8] A, then `int(current * 100)` (0.01 A units). */
  function CurrentRaw(amps: real): (v: int)
    ensures -800 <= v <= 800
    ensures -8.0 <= amps <= 8.0 ==> v == Trunc(amps * 100.0)
  {
    Trunc(Clamp(-8.0, 8.0, amps) * 100.0)
  }

  /** Position setpoint: clamped to [0, 360] degrees, then `int(deg / 360 * 32767)`. */
  function PositionRaw(deg: real): (v: int)
    ensures 0 <= v <= 32767
    ensures 0.0 <= deg <= 360.0 ==> v == Trunc(deg / 360.0 * 32767.0)
  {
    Trunc(Clamp(0.0, 360.0, deg) / 360.0 * 32767.0)
  }

  /** The seven data bytes of a drive frame: a 16-bit field in bytes 2-3, then five zeros. */
  function VelocityData(rpm: real): seq<byte> { BeS16(VelocityRaw(rpm)) + Zeros(5) }
  function CurrentData(amps: real): seq<byte> { BeS16(CurrentRaw(amps)) + Zeros(5) }
  function PositionData(deg: real): seq<byte> { BeU16(PositionRaw(deg)) + Zeros(5) }

  /**
    A velocity drive frame decodes, as signed big-endian bytes 2-3, to the
    clamped and truncated RPM, and carries zeros in bytes 4-8.
  */
  lemma VelocityFrameDecodes(id: byte, rpm: real)
    ensures var f := Packet(id, Drive, VelocityData(rpm));
      DecodeS16(f[2], f[3]) == VelocityRaw(rpm) && AllZero(f[4..9])
  {
    var f := Packet(id, Drive, VelocityData(rpm));
    assert f[2..9] == VelocityData(rpm);
    assert f[4..9] == Zeros(5);
  }

  /** The same for a current frame, in 0.01 A units. */
  lemma CurrentFrameDecodes(id: byte, amps: real)
    ensures var f := Packet(id, Drive, CurrentData(amps));
      DecodeS16(f[2], f[3]) == CurrentRaw(amps) && AllZero(f[4..9])
  {
    var f := Packet(id, Drive, CurrentData(amps));
    assert f[2..9] == CurrentData(amps);
    assert f[4..9] == Zeros(5);
  }

  /** The same for a position frame, read unsigned. */
  lemma PositionFrameDecodes(id: byte, deg: real)
    ensures var f := Packet(id, Drive, PositionData(deg));
      DecodeU16(f[2], f[3]) == PositionRaw(deg) && AllZero(f[4..9])
  {
    var f := Packet(id, Drive, PositionData(deg));
    assert f[2..9] == PositionData(deg);
    assert f[4..9] == Zeros(5);
  }

  /** 999 RPM is clamped to 143 = 0x008F, and -999 RPM to -143 = 0xFF71. */
  lemma VelocityExamples()
    ensures VelocityData(999.0)[..2] == [0x00, 0x8F]
    ensures VelocityData(-999.0)[..2] == [0xFF, 0x71]
  {
    assert VelocityRaw(999.0) == 143;
    assert VelocityRaw(-999.0) == -143;
  }

  /** 0 degrees encodes as 0, 360 as 32767 and 180 as 16383 (0x3FFF). */
  lemma PositionExamples()
    ensures PositionRaw(0.0) == 0
    ensures PositionRaw(360.0) == 32767
    ensures PositionRaw(180.0) == 16383
    ensures PositionData(180.0)[..2] == [0x3F, 0xFF]
  {
    assert 180.0 / 360.0 * 32767.0 == 16383.5;
  }

  /** A larger setpoint never encodes to a smaller field, for all three setpoints. */
  lemma SetpointsMonotone(x: real, y: real)
    requires x <= y
    ensures VelocityRaw(x) <= VelocityRaw(y)
    ensures CurrentRaw(x) <= CurrentRaw(y)
    ensures PositionRaw(x) <= PositionRaw(y)
  {
    TruncMonotone(Clamp(-143.0, 143.0, x), Clamp(-143.0, 143.0, y));
    TruncMonotone(Clamp(-8.0, 8.0, x) * 100.0, Clamp(-8.0, 8.0, y) * 100.0);
    TruncMonotone(Clamp(0.0, 360.0, x) / 360.0 * 32767.0, Clamp(0.0, 360.0, y) / 360.0 * 32767.0);
  }

  /** `MotorFeedback` (the receive timestamp is left out). */
  datatype Feedback = Feedback(position: real, velocity: real, torque: real, temperature: int, raw: seq<byte>)

  /** A feedback record with the dataclass defaults. */
  function EmptyFeedback(raw: seq<byte>): Feedback {
    Feedback(0.0, 0.0, 0.0, 0, raw)
  }

  /**
    `parse_feedback`: torque is signed bytes 2-3 / 100 A, velocity signed bytes
    4-5 RPM. After a feedback request (0x74) byte 6 is the temperature and byte 7
    an 8-bit position; otherwise bytes 6-7 are an unsigned 15-bit-scale position
    and the temperature is 0. Shorter input keeps all defaults.
  */
  function ParseFeedback(lastCommand: Option<byte>, data: seq<byte>): (fb: Feedback)
    ensures fb.raw == data
    ensures |data| < 10 ==> fb == EmptyFeedback(data)
    ensures lastCommand == Some(FeedbackRequest) ==> 0.0 <= fb.position <= 360.0 && 0 <= fb.temperature < 256
    ensures lastCommand != Some(FeedbackRequest) ==> 0.0 <= fb.position && fb.temperature == 0
    ensures -327.68 <= fb.torque < 327.68 && -32768.0 <= fb.velocity < 32768.0
  {
    if |data| < 10 then EmptyFeedback(data)
    else
      var torque := DecodeS16(data[2], data[3]) as real / 100.0;
      var velocity := DecodeS16(data[4], data[5]) as real;
      if lastCommand == Some(FeedbackRequest) then
        Feedback(data[7] as int as real / 255.0 * 360.0, velocity, torque, data[6] as int, data)
      else
        Feedback(DecodeU16(data[6], data[7]) as real / 32767.0 * 360.0, velocity, torque, 0, data)
  }

  /** The reply a motor sends to a feedback request (the motor side of the 0x74 layout). */
  function FeedbackReply(id: byte, mode: byte, torque: int, velocity: int, temperature: byte, position: byte, error: byte): (f: seq<byte>)
    requires -0x8000 <= torque < 0x8000 && -0x8000 <= velocity < 0x8000
    ensures |f| == 10
  {
    var body := [id, mode] + BeS16(torque) + BeS16(velocity) + [temperature, position, error];
    body + [Crc8.Crc(body)]
  }

  /** The standard reply layout (any other command): bytes 6-7 an unsigned position. */
  function StandardReply(id: byte, mode: byte, torque: int, velocity: int, position: int, error: byte): (f: seq<byte>)
    requires -0x8000 <= torque < 0x8000 && -0x8000 <= velocity < 0x8000 && 0 <= position < 0x1_0000
    ensures |f| == 10
  {
    var body := [id, mode] + BeS16(torque) + BeS16(velocity) + BeU16(position) + [error];
    body + [Crc8.Crc(body)]
  }

  /** A feedback-request reply is accepted for its id and parses back to the values the motor encoded. */
  lemma FeedbackReplyRoundTrip(id: byte, mode: byte, torque: int, velocity: int, temperature: byte, position: byte, error: byte)
    requires -0x8000 <= torque < 0x8000 && -0x8000 <= velocity < 0x8000
    ensures var f := FeedbackReply(id, mode, torque, velocity, temperature, position, error);
      var fb := ParseFeedback(Some(FeedbackRequest), f);
      && Accepted(f, Some(id))
      && fb.torque == torque as real / 100.0
      && fb.velocity == velocity as real
      && fb.temperature == temperature as int
      && fb.position == position as int as real / 255.0 * 360.0
  {
    var f := FeedbackReply(id, mode, torque, velocity, temperature, position, error);
    var t, v := BeS16(torque), BeS16(velocity);
    assert f[2] == t[0] && f[3] == t[1] && f[4] == v[0] && f[5] == v[1];
    assert f[..9] == [id, mode] + t + v + [temperature, position, error];
  }

  /** A standard reply is accepted for its id and parses back to its values, position scaled by 360/32767. */
  lemma StandardReplyRoundTrip(id: byte, mode: byte, torque: int, velocity: int, position: int, error: byte, lastCommand: Option<byte>)
    requires -0x8000 <= torque < 0x8000 && -0x8000 <= velocity < 0x8000 && 0 <= position < 0x1_0000
    requires lastCommand != Some(FeedbackRequest)
    ensures var f := StandardReply(id, mode, torque, velocity, position, error);
      var fb := ParseFeedback(lastCommand, f);
      && Accepted(f, Some(id))
      && fb.torque == torque as real / 100.0
      && fb.velocity == velocity as real
      && fb.temperature == 0
      && fb.position == position as real / 32767.0 * 360.0
  {
    var f := StandardReply(id, mode, torque, velocity, position, error);
    var t, v, p := BeS16(torque), BeS16(velocity), BeU16(position);
    assert f[2] == t[0] && f[3] == t[1] && f[4] == v[0] && f[5] == v[1] && f[6] == p[0] && f[7] == p[1];
    assert f[..9] == [id, mode] + t + v + p + [error];
  }
}
