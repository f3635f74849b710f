/**
  The DDSM210 driver. The motor answers only at the fixed ID 1 and only in
  velocity mode; most frames are hard-coded byte strings with a precomputed
  checksum. Every raw send swallows I/O errors and keeps a reply only when
  it is exactly ten bytes long. Delays, the monitoring thread, callbacks and
  error reporting are left out.
*/
module Ddsm210 {
  import opened Bytes
  import opened Numeric
  import opened Crc8
  import opened Link
  import opened Wrappers
  import Ddsm115Codec

  type Feedback = Ddsm115Codec.Feedback

  /** The fixed motor ID every frame carries. */
  const MotorId: byte := 0x01
  /** Command bytes (`DDSM210CommandType`) and the velocity-mode code. */
  const ModeSwitch: byte := 0xA0
  const DriveMotor: byte := 0x64
  const ModeQuery: byte := 0x75
  const IdQuery: byte := 0xC8
  const VelocityMode: byte := 0x02
  const BrakeMarker: byte := 0xFF

  /** A nine-byte body followed by its CRC-8/MAXIM checksum (`_calculate_crc` then `append`). */
  function Frame(body: seq<byte>): (f: seq<byte>)
    requires |body| == 9
    ensures |f| == 10 && f[..9] == body && f[9] == Crc(f[..9])
  {
    body + [Crc(body)]
  }

  /**
    The hard-coded frames, checksum included. The lemmas below show that each
    checksum is the one the library's own CRC computes over the first nine
    bytes, so every hard-coded frame is well formed.
  */
  const IdCommand: seq<byte> := [0xAA, 0x55, 0x53, 0x01, 0x00, 0x00, 0x00, 0x00, 0x00, 0xCB]
  const QueryCommand: seq<byte> := [0xC8, 0x64, 0x00, 0x00, 0x00, 0x00, 0x00, 0x00, 0x00, 0xDE]
  const BrakeCommand: seq<byte> := [0x01, 0x64, 0x00, 0x00, 0x00, 0x00, 0x00, 0xFF, 0x00, 0xD1]
  const ModeQueryCommand: seq<byte> := [0x01, 0x75, 0x00, 0x00, 0x00, 0x00, 0x00, 0x00, 0x00, 0x47]

  /** `_set_velocity_mode`'s frame: the velocity-mode code at byte 2, checksum computed. */
  function VelocityModeCommand(): (f: seq<byte>)
    ensures |f| == 10 && f[0] == MotorId && f[1] == ModeSwitch && f[2] == VelocityMode
  {
    Frame([MotorId, ModeSwitch, VelocityMode, 0, 0, 0, 0, 0, 0])
  }

  /** The checksum byte of the hard-coded set-ID frame. */
  lemma IdCommandChecksum()
    ensures IdCommand == Frame(IdCommand[..9]) && Ddsm115Codec.Accepted(IdCommand, None)
  {
    var s := IdCommand[..9];
    assert s == [0xAA, 0x55, 0x53, 0x01, 0x00, 0x00, 0x00, 0x00, 0x00];
    assert Update(0x00, 0xAA) == 0xD1;
    assert Update(0xD1, 0x55) == 0xED;
    assert Update(0xED, 0x53) == 0x2D;
    assert Update(0x2D, 0x01) == 0x80;
    assert Update(0x80, 0x00) == 0x8C;
    assert Update(0x8C, 0x00) == 0x2F;
    assert Update(0x2F, 0x00) == 0x62;
    assert Update(0x62, 0x00) == 0xD9;
    assert Update(0xD9, 0x00) == 0xCB;
    assert s[1..][1..][1..][1..][1..][1..][1..][1..][1..] == [];
    assert CrcFrom(0xD9, s[8..]) == 0xCB;
    assert CrcFrom(0x62, s[7..]) == 0xCB;
    assert CrcFrom(0x2F, s[6..]) == 0xCB;
    assert CrcFrom(0x8C, s[5..]) == 0xCB;
    assert CrcFrom(0x80, s[4..]) == 0xCB;
    assert CrcFrom(0x2D, s[3..]) == 0xCB;
    assert CrcFrom(0xED, s[2..]) == 0xCB;
    assert CrcFrom(0xD1, s[1..]) == 0xCB;
  }

  /** The checksum byte of the hard-coded ID-query frame. */
  lemma QueryCommandChecksum()
    ensures QueryCommand == Frame(QueryCommand[..9]) && Ddsm115Codec.Accepted(QueryCommand, None)
  {
    var s := QueryCommand[..9];
    assert s == [0xC8, 0x64, 0x00, 0x00, 0x00, 0x00, 0x00, 0x00, 0x00];
    assert Update(0x00, 0xC8) == 0x08;
    assert Update(0x08, 0x64) == 0xC6;
    assert Update(0xC6, 0x00) == 0x17;
    assert Update(0x17, 0x00) == 0x1E;
    assert Update(0x1E, 0x00) == 0x82;
    assert Update(0x82, 0x00) == 0x30;
    assert Update(0x30, 0x00) == 0xBE;
    assert Update(0xBE, 0x00) == 0x2D;
    assert Update(0x2D, 0x00) == 0xDE;
    assert s[1..][1..][1..][1..][1..][1..][1..][1..][1..] == [];
    assert CrcFrom(0x2D, s[8..]) == 0xDE;
    assert CrcFrom(0xBE, s[7..]) == 0xDE;
    assert CrcFrom(0x30, s[6..]) == 0xDE;
    assert CrcFrom(0x82, s[5..]) == 0xDE;
    assert CrcFrom(0x1E, s[4..]) == 0xDE;
    assert CrcFrom(0x17, s[3..]) == 0xDE;
    assert CrcFrom(0xC6, s[2..]) == 0xDE;
    assert CrcFrom(0x08, s[1..]) == 0xDE;
  }

  /** The checksum byte of the hard-coded brake frame. */
  lemma BrakeCommandChecksum()
    ensures BrakeCommand == Frame(BrakeCommand[..9]) && Ddsm115Codec.Accepted(BrakeCommand, None)
  {
    var s := BrakeCommand[..9];
    assert s == [0x01, 0x64, 0x00, 0x00, 0x00, 0x00, 0x00, 0xFF, 0x00];
    assert Update(0x00, 0x01) == 0x5E;
    assert Update(0x5E, 0x64) == 0xC0;
    assert Update(0xC0, 0x00) == 0xCA;
    assert Update(0xCA, 0x00) == 0xB4;
    assert Update(0xB4, 0x00) == 0x53;
    assert Update(0x53, 0x00) == 0x39;
    assert Update(0x39, 0x00) == 0x22;
    assert Update(0x22, 0xFF) == 0xAA;
    assert Update(0xAA, 0x00) == 0xD1;
    assert s[1..][1..][1..][1..][1..][1..][1..][1..][1..] == [];
    assert CrcFrom(0xAA, s[8..]) == 0xD1;
    assert CrcFrom(0x22, s[7..]) == 0xD1;
    assert CrcFrom(0x39, s[6..]) == 0xD1;
    assert CrcFrom(0x53, s[5..]) == 0xD1;
    assert CrcFrom(0xB4, s[4..]) == 0xD1;
    assert CrcFrom(0xCA, s[3..]) == 0xD1;
    assert CrcFrom(0xC0, s[2..]) == 0xD1;
    assert CrcFrom(0x5E, s[1..]) == 0xD1;
  }

  /** The checksum byte of the hard-coded mode-query frame. */
  lemma ModeQueryCommandChecksum()
    ensures ModeQueryCommand == Frame(ModeQueryCommand[..9]) && Ddsm115Codec.Accepted(ModeQueryCommand, None)
  {
    var s := ModeQueryCommand[..9];
    assert s == [0x01, 0x75, 0x00, 0x00, 0x00, 0x00, 0x00, 0x00, 0x00];
    assert Update(0x00, 0x01) == 0x5E;
    assert Update(0x5E, 0x75) == 0x03;
    assert Update(0x03, 0x00) == 0xE2;
    assert Update(0xE2, 0x00) == 0x55;
    assert Update(0x55, 0x00) == 0xE4;
    assert Update(0xE4, 0x00) == 0x88;
    assert Update(0x88, 0x00) == 0x4E;
    assert Update(0x4E, 0x00) == 0x59;
    assert Update(0x59, 0x00) == 0x47;
    assert s[1..][1..][1..][1..][1..][1..][1..][1..][1..] == [];
    assert CrcFrom(0x59, s[8..]) == 0x47;
    assert CrcFrom(0x4E, s[7..]) == 0x47;
    assert CrcFrom(0x88, s[6..]) == 0x47;
    assert CrcFrom(0xE4, s[5..]) == 0x47;
    assert CrcFrom(0x55, s[4..]) == 0x47;
    assert CrcFrom(0xE2, s[3..]) == 0x47;
    assert CrcFrom(0x03, s[2..]) == 0x47;
    assert CrcFrom(0x5E, s[1..]) == 0x47;
  }

  /** Driver state; `velocityModeSet` is `motor_id in current_mode` (only ID 1, only velocity mode). */
  datatype Motor210 = Motor210(
    connected: bool,
    initialized: bool,
    velocityModeSet: bool,
    port: Port,
    lastFeedback: Option<Feedback>)

  /** The result of a raw send: the kept reply, if any, and the port after the attempt. */
  datatype Sent = Sent(reply: Option<seq<byte>>, port: Port)

  /**
    `_send_raw_command`: nothing happens when disconnected; a write that raises
    is swallowed and gives no reply; otherwise up to ten bytes are read and
    kept only when exactly ten arrived.
  */
  function SendRaw(m: Motor210, cmd: seq<byte>): (r: Sent)
    ensures r.reply.Some? <==> m.connected && Writes(m.port, m.port.attempts) && |Read(m.port, m.port.attempts)| == 10
    ensures r.reply.Some? ==> r.reply.value == Read(m.port, m.port.attempts) && |r.reply.value| == 10
    ensures !m.connected ==> r.port == m.port
    ensures m.connected ==> r.port.attempts == m.port.attempts + 1
    ensures r.port.written == m.port.written + (if m.connected && Writes(m.port, m.port.attempts) then [cmd] else [])
    ensures Later(m.port, r.port)
  {
    if !m.connected then Sent(None, m.port)
    else
      var w := Write(m.port, cmd);
      if !w.ok then Sent(None, w.port)
      else
        var resp := Read(w.port, m.port.attempts);
        Sent(if |resp| == 10 then Some(resp) else None, w.port)
  }

  /**
    A kept reply answers this very command: `cmd` is the last frame written,
    and the reply is the first ten bytes the device sent on that attempt.
    A write that raises records the attempt, writes nothing and keeps no reply.
  */
  lemma SendRawReplyFollowsCommand(m: Motor210, cmd: seq<byte>)
    ensures var r := SendRaw(m, cmd);
      r.reply.Some? ==>
        && r.port.written == m.port.written + [cmd]
        && m.port.attempts in m.port.replies
        && r.reply.value == m.port.replies[m.port.attempts][..10]
    ensures m.connected && !Writes(m.port, m.port.attempts) ==>
      SendRaw(m, cmd) == Sent(None, m.port.(attempts := m.port.attempts + 1))
  {
    var r := SendRaw(m, cmd);
    if r.reply.Some? {
      var a := m.port.attempts;
      assert a in m.port.replies;
      assert |m.port.replies[a]| >= 10;
    }
  }

  /** One send followed by the sends of `rest` is the sends of `[c] + rest`. */
  lemma SendAllStep(p0: Port, p1: Port, p: Port, c: seq<byte>, rest: seq<seq<byte>>)
    requires Later(p0, p1) && p1.attempts == p0.attempts + 1
    requires p1.written == p0.written + (if Writes(p0, p0.attempts) then [c] else [])
    requires Later(p1, p) && p.attempts == p1.attempts + |rest|
    requires AllWrite(p1, p1.attempts, |rest|) ==> p.written == p1.written + rest
    ensures Later(p0, p) && p.attempts == p0.attempts + |rest| + 1
    ensures AllWrite(p0, p0.attempts, |rest| + 1) ==> p.written == p0.written + ([c] + rest)
  {
    AllWriteStep(p0, p1, |rest|);
    LaterTrans(p0, p1, p);
  }

  /** Raw sends of `cmds` in order, every reply discarded; a failed write does not stop the rest. */
  function SendAll(m: Motor210, cmds: seq<seq<byte>>): (p: Port)
    ensures Later(m.port, p)
    ensures !m.connected ==> p == m.port
    ensures m.connected ==> p.attempts == m.port.attempts + |cmds|
    ensures m.connected && AllWrite(m.port, m.port.attempts, |cmds|) ==> p.written == m.port.written + cmds
    decreases |cmds|
  {
    if |cmds| == 0 || !m.connected then m.port
    else
      var s := SendRaw(m, cmds[0]);
      var p := SendAll(m.(port := s.port), cmds[1..]);
      SendAllStep(m.port, s.port, p, cmds[0], cmds[1..]);
      assert cmds == [cmds[0]] + cmds[1..];
      p
  }

  /** The six frames of `_initialize_motor`: five set-ID frames, then the velocity-mode switch. */
  function InitCommands(): (cs: seq<seq<byte>>)
    ensures |cs| == 6 && cs[5] == VelocityModeCommand()
    ensures forall i :: 0 <= i < 5 ==> cs[i] == IdCommand
  {
    [IdCommand, IdCommand, IdCommand, IdCommand, IdCommand, VelocityModeCommand()]
  }

  /**
    `_initialize_motor`: sends the initialisation frames, ignoring every reply
    and every I/O error, and records velocity mode. It always reports success,
    which the state reflects by `velocityModeSet` being set.
  */
  function Initialize(m: Motor210): (m': Motor210)
    ensures m'.velocityModeSet
    ensures m'.connected == m.connected && m'.initialized == m.initialized && m'.lastFeedback == m.lastFeedback
    ensures m.connected && AllWrite(m.port, m.port.attempts, 6) ==> m'.port.written == m.port.written + InitCommands()
    ensures !m.connected ==> m'.port == m.port
    ensures Later(m.port, m'.port)
  {
    m.(port := SendAll(m, InitCommands()), velocityModeSet := true)
  }

  /**
    `connect`: `portOpened` says whether the serial port could be opened. On
    failure the driver is marked disconnected and `initialized` is left as it
    was; on success it is connected, initialised (initialisation always
    reports success) and returns True.
  */
  function Connect(m: Motor210, portOpened: bool): (r: (bool, Motor210))
    ensures r.0 <==> portOpened
    ensures r.0 ==> r.1.connected && r.1.initialized && r.1.velocityModeSet
    ensures !r.0 ==> r.1 == m.(connected := false)
    ensures Later(m.port, r.1.port)
  {
    if !portOpened then (false, m.(connected := false))
    else (true, Initialize(m.(connected := true)).(initialized := true))
  }

  /** Velocity in 0.1 RPM units: the RPM clamped to [-210, 210], times ten, truncated by `int()`. */
  function VelocityUnits(rpm: real): (u: int)
    ensures -2100 <= u <= 2100
    ensures -210.0 <= rpm <= 210.0 ==> u == Trunc(rpm * 10.0)
  {
    Trunc(Clamp(-210.0, 210.0, rpm) * 10.0)
  }

  /** `units & 0xFFFF`, applied by the source to negative values only. */
  function Mask16(units: int): (w: int)
    requires -0x1_0000 <= units < 0x1_0000
    ensures 0 <= w < 0x1_0000 && w % 0x1_0000 == units % 0x1_0000
  {
    if units < 0 then units + 0x1_0000 else units
  }

  /** `[(w >> 8) & 0xFF, w & 0xFF]`: the same two bytes as `struct.pack('>H', w)`. */
  function HighLow(w: int): (r: seq<byte>)
    requires 0 <= w < 0x1_0000
    ensures r == BeU16(w)
  {
    assert w / 256 % 256 == w / 256;
    [(w / 256 % 256) as byte, (w % 256) as byte]
  }

  /** `set_velocity`'s frame: ID 1, the drive command, the masked velocity, five zeros, the checksum. */
  function VelocityCommand(rpm: real): (f: seq<byte>)
    ensures |f| == 10 && f[0] == MotorId && f[1] == DriveMotor && f[9] == Crc(f[..9])
  {
    Frame([MotorId, DriveMotor] + HighLow(Mask16(VelocityUnits(rpm))) + Zeros(5))
  }

  /**
    The velocity frame reads back, as a signed big-endian field in bytes 2-3,
    as the clamped velocity in 0.1 RPM units: the same encoding as
    `struct.pack('>h')`, and a frame the receiver accepts from ID 1.
  */
  lemma VelocityCommandDecodes(rpm: real)
    ensures var f := VelocityCommand(rpm);
      && DecodeS16(f[2], f[3]) == VelocityUnits(rpm)
      && f[2..4] == BeS16(VelocityUnits(rpm))
      && AllZero(f[4..9])
      && Ddsm115Codec.Accepted(f, Some(MotorId))
  {
    var f := VelocityCommand(rpm);
    var u := VelocityUnits(rpm);
    var body := [MotorId, DriveMotor] + HighLow(Mask16(u)) + Zeros(5);
    assert f[..9] == body;
    assert f[2..4] == body[2..4] == BeS16(u);
    assert f[4..9] == body[4..9] == Zeros(5);
  }

  /** `_parse_feedback`: the reply is kept as raw data; every reading stays at its default. */
  function ParseFeedback(resp: seq<byte>): (fb: Feedback)
    ensures fb == Ddsm115Codec.EmptyFeedback(resp)
  {
    var fb := Ddsm115Codec.EmptyFeedback(resp);
    if |resp| >= 10 && ((resp[1] == ModeQuery && resp[2] == VelocityMode) || resp[1] == ModeSwitch) then
      fb.(velocity := 0.0)
    else fb
  }

  /** The result of a command: the boolean the source returns and the new driver state. */
  datatype Outcome = Outcome(ok: bool, motor: Motor210)

  /**
    `set_velocity`: refused unless connected and initialised; re-initialises
    when velocity mode is not recorded; sends the velocity frame and records
    the parsed reply if ten bytes came back. The motor id argument is ignored
    and the result is True whether or not the frame went out.
  */
  function SetVelocity(m: Motor210, motorId: int, rpm: real): (r: Outcome)
    ensures r.ok <==> m.connected && m.initialized
    ensures !r.ok ==> r.motor == m
    ensures r.ok ==> r.motor.velocityModeSet && r.motor.connected && r.motor.initialized
    ensures Later(m.port, r.motor.port)
  {
    if !m.connected || !m.initialized then Outcome(false, m)
    else
      var m1 := if !m.velocityModeSet then Initialize(m) else m;
      var s := SendRaw(m1, VelocityCommand(rpm));
      LaterTrans(m.port, m1.port, s.port);
      var fb := if s.reply.Some? then Some(ParseFeedback(s.reply.value)) else m1.lastFeedback;
      Outcome(true, m1.(port := s.port, lastFeedback := fb))
  }

  /** The motor id argument of `set_velocity` has no effect. */
  lemma SetVelocityIgnoresId(m: Motor210, a: int, b: int, rpm: real)
    ensures SetVelocity(m, a, rpm) == SetVelocity(m, b, rpm)
  {
  }

  /** The driver invariant: initialisation always leaves velocity mode recorded. */
  predicate Consistent(m: Motor210) {
    m.initialized ==> m.velocityModeSet
  }

  /**
    From a consistent state `set_velocity` never re-initialises: when it is
    accepted and the write goes through, the velocity frame is the only frame
    sent, and the last feedback is replaced exactly when a full reply came back.
  */
  lemma SetVelocityFromConsistent(m: Motor210, motorId: int, rpm: real)
    requires Consistent(m) && m.connected && m.initialized
    ensures var r := SetVelocity(m, motorId, rpm);
      && r.motor.port.written == m.port.written + (if Writes(m.port, m.port.attempts) then [VelocityCommand(rpm)] else [])
      && r.motor.port.attempts == m.port.attempts + 1
      && (r.motor.lastFeedback != m.lastFeedback ==>
            r.motor.lastFeedback == Some(Ddsm115Codec.EmptyFeedback(Read(m.port, m.port.attempts))))
      && (Writes(m.port, m.port.attempts) && |Read(m.port, m.port.attempts)| == 10 ==>
            r.motor.lastFeedback == Some(Ddsm115Codec.EmptyFeedback(Read(m.port, m.port.attempts))))
  {
  }

  /** `emergency_stop`: sends the brake frame; True exactly when a full reply came back. */
  function EmergencyStop(m: Motor210, motorId: int): (r: Outcome)
    ensures r.ok <==> m.connected && Writes(m.port, m.port.attempts) && |Read(m.port, m.port.attempts)| == 10
    ensures r.motor.port.written == m.port.written + (if m.connected && Writes(m.port, m.port.attempts) then [BrakeCommand] else [])
    ensures r.motor == m.(port := r.motor.port) && Later(m.port, r.motor.port)
  {
    if !m.connected then Outcome(false, m)
    else
      var s := SendRaw(m, BrakeCommand);
      Outcome(s.reply.Some?, m.(port := s.port))
  }

  /** The result of a feedback poll. */
  datatype Polled = Polled(feedback: Option<Feedback>, motor: Motor210)

  /** `request_feedback`: sends the mode query; a full reply becomes the (empty) feedback and is recorded. */
  function RequestFeedback(m: Motor210, motorId: int): (r: Polled)
    ensures r.feedback.Some? <==> m.connected && Writes(m.port, m.port.attempts) && |Read(m.port, m.port.attempts)| == 10
    ensures r.feedback.Some? ==> (r.feedback.value == Ddsm115Codec.EmptyFeedback(Read(m.port, m.port.attempts))
                                  && r.motor.lastFeedback == r.feedback)
    ensures r.feedback.None? ==> r.motor.lastFeedback == m.lastFeedback
    ensures r.motor.connected == m.connected && r.motor.initialized == m.initialized
    ensures r.motor.velocityModeSet == m.velocityModeSet && Later(m.port, r.motor.port)
  {
    if !m.connected then Polled(None, m)
    else
      var s := SendRaw(m, ModeQueryCommand);
      if s.reply.None? then Polled(None, m.(port := s.port))
      else
        var fb := ParseFeedback(s.reply.value);
        Polled(Some(fb), m.(port := s.port, lastFeedback := Some(fb)))
  }

  /** `scan_motors`: [1] exactly when the ID query gets a full reply, else []. */
  function ScanMotors(m: Motor210): (r: (seq<int>, Motor210))
    ensures r.0 == [1] <==> m.connected && Writes(m.port, m.port.attempts) && |Read(m.port, m.port.attempts)| == 10
    ensures r.0 == [] || r.0 == [1]
    ensures r.1 == m.(port := r.1.port) && Later(m.port, r.1.port)
    ensures r.1.port.written == m.port.written + (if m.connected && Writes(m.port, m.port.attempts) then [QueryCommand] else [])
  {
    if !m.connected then ([], m)
    else
      var s := SendRaw(m, QueryCommand);
      if s.reply.Some? && |s.reply.value| >= 1 then ([1], m.(port := s.port)) else ([], m.(port := s.port))
  }

  /**
    `disconnect`: brakes the motor when connected, then marks the driver
    disconnected and uninitialised. The recorded mode is kept.
  */
  function Disconnect(m: Motor210): (m': Motor210)
    ensures !m'.connected && !m'.initialized
    ensures m'.velocityModeSet == m.velocityModeSet && m'.lastFeedback == m.lastFeedback
    ensures m'.port.written == m.port.written + (if m.connected && Writes(m.port, m.port.attempts) then [BrakeCommand] else [])
    ensures Later(m.port, m'.port)
  {
    var stopped := if m.connected then EmergencyStop(m, MotorId as int).motor else m;
    stopped.(connected := false, initialized := false)
  }

  /** Every operation keeps the driver invariant, and the freshly constructed driver has it. */
  lemma OperationsKeepConsistent(m: Motor210, portOpened: bool, motorId: int, rpm: real)
    requires Consistent(m)
    ensures Consistent(Motor210(false, false, false, m.port, None))
    ensures Consistent(Connect(m, portOpened).1)
    ensures Consistent(SetVelocity(m, motorId, rpm).motor)
    ensures Consistent(EmergencyStop(m, motorId).motor)
    ensures Consistent(RequestFeedback(m, motorId).motor)
    ensures Consistent(ScanMotors(m).1)
    ensures Consistent(Disconnect(m))
  {
  }
}
