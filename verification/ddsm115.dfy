/**
  The DDSM115 driver: per-motor mode tracking, the drive setters that switch
  mode first when needed, feedback polling with a bounded history, bus scan,
  ID assignment and the best-effort emergency stop. Each operation is a pure
  transition of a `Motor` record over the `Link.Port` oracle; delays, the
  monitoring thread and callbacks are left out.
*/
module Ddsm115 {
  import opened Wrappers
  import opened Bytes
  import opened Link
  import opened Ddsm115Codec
  import Bounded

  /** `_feedback_history_limit`: feedback entries kept per motor. */
  const HistoryLimit: nat := 100

  /** A per-motor feedback history (a `deque(maxlen=100)`). */
  type History = h: seq<Feedback> | |h| <= HistoryLimit witness []

  datatype Motor = Motor(
    connected: bool,
    port: Port,
    currentMode: map<int, Mode>,
    lastCommand: Option<byte>,
    lastFeedback: map<int, Feedback>,
    history: map<int, History>)

  /** The result of a command: the boolean the source returns and the new driver state. */
  datatype Outcome = Outcome(ok: bool, motor: Motor)

  /** The result of a feedback poll. */
  datatype Polled = Polled(feedback: Option<Feedback>, motor: Motor)

  /** The raw mode-switch frame shape (no CRC). */
  predicate IsModeFrame(f: seq<byte>) {
    |f| == 10 && f[1] == ModeSwitch && AllZero(f[2..9]) && 1 <= f[9] <= 3
  }

  /** The raw set-ID frame shape (no CRC). */
  predicate IsIdFrame(f: seq<byte>) {
    |f| == 10 && f[..3] == [QueryId, 0x55, SetId] && AllZero(f[4..])
  }

  /** The three frame shapes the driver ever puts on the wire, all ten bytes long. */
  predicate WireFrame(f: seq<byte>) {
    Accepted(f, None) || IsModeFrame(f) || IsIdFrame(f)
  }

  predicate WireTrace(t: seq<seq<byte>>) {
    forall i :: 0 <= i < |t| ==> WireFrame(t[i])
  }

  /** Everything but the port and the last command is untouched. */
  predicate SameTracking(m: Motor, m': Motor) {
    m'.connected == m.connected && m'.currentMode == m.currentMode
    && m'.lastFeedback == m.lastFeedback && m'.history == m.history
  }

  /** True when attempt `n` goes through and the device answers it with a frame accepted for `id`. */
  predicate Responds(p: Port, n: nat, id: byte) {
    Writes(p, n) && Accepted(Read(p, n), Some(id))
  }

  /**
    Writes `frames` in order and stops at the first write that raises.
    On success every frame went out; otherwise a proper prefix did.
  */
  function WriteEach(p: Port, frames: seq<seq<byte>>): (r: Wrote)
    ensures Later(p, r.port)
    ensures r.ok <==> AllWrite(p, p.attempts, |frames|)
    ensures |p.written| <= |r.port.written| <= |p.written| + |frames|
    ensures r.port.written == p.written + frames[..|r.port.written| - |p.written|]
    ensures r.ok ==> r.port.attempts == p.attempts + |frames| && r.port.written == p.written + frames
    decreases |frames|
  {
    if |frames| == 0 then Wrote(true, p)
    else
      var w := Write(p, frames[0]);
      if !w.ok then w
      else
        var r := WriteEach(w.port, frames[1..]);
        AllWriteStep(p, w.port, |frames| - 1);
        PrefixStep(p.written, frames, r.port.written);
        assert frames == [frames[0]] + frames[1..];
        LaterTrans(p, w.port, r.port);
        r
  }

  /** Writing `frames[0]` and then a prefix of `frames[1..]` writes a prefix of `frames`. */
  lemma PrefixStep(t: seq<seq<byte>>, frames: seq<seq<byte>>, u: seq<seq<byte>>)
    requires |frames| > 0 && |t| + 1 <= |u| <= |t| + |frames|
    requires u == t + [frames[0]] + frames[1..][..|u| - |t| - 1]
    ensures u == t + frames[..|u| - |t|]
  {
    assert frames[..|u| - |t|] == [frames[0]] + frames[1..][..|u| - |t| - 1];
  }

  /**
    `send_packet`: nothing is sent when disconnected; otherwise the command is
    remembered for response parsing and the 10-byte frame `Packet(id, cmd, data)`
    is written, succeeding unless the write raises.
  */
  function SendPacket(m: Motor, id: byte, cmd: byte, data: seq<byte>): (r: Outcome)
    ensures !m.connected ==> r == Outcome(false, m)
    ensures m.connected ==> r.motor.lastCommand == Some(cmd)
    ensures r.ok <==> m.connected && Writes(m.port, m.port.attempts)
    ensures r.motor.port.written == m.port.written + (if r.ok then [Packet(id, cmd, data)] else [])
    ensures Later(m.port, r.motor.port) && SameTracking(m, r.motor)
    ensures m.connected ==> r.motor.port.attempts == m.port.attempts + 1
  {
    if !m.connected then Outcome(false, m)
    else
      var w := Write(m.port, Packet(id, cmd, data));
      Outcome(w.ok, m.(lastCommand := Some(cmd), port := w.port))
  }

  /**
    `set_mode`: writes the raw frame `[id, 0xA0, 0 x 7, mode]` (no CRC).
    The tracked mode changes exactly when that write went through.
  */
  function SetMode(m: Motor, id: byte, mode: Mode): (r: Outcome)
    ensures r.ok <==> m.connected && Writes(m.port, m.port.attempts)
    ensures r.motor.currentMode == if r.ok then m.currentMode[id as int := mode] else m.currentMode
    ensures r.motor.port.written == m.port.written + (if r.ok then [ModeFrame(id, mode)] else [])
    ensures !m.connected ==> r.motor == m
    ensures m.connected ==> r.motor.port.attempts == m.port.attempts + 1
    ensures Later(m.port, r.motor.port)
    ensures r.motor.connected == m.connected && r.motor.lastCommand == m.lastCommand
    ensures r.motor.lastFeedback == m.lastFeedback && r.motor.history == m.history
  {
    if !m.connected then Outcome(false, m)
    else
      var w := Write(m.port, ModeFrame(id, mode));
      var modes := if w.ok then m.currentMode[id as int := mode] else m.currentMode;
      Outcome(w.ok, m.(port := w.port, currentMode := modes))
  }

  /** True when the tracked mode of `id` is not `mode`, so a mode switch must precede a drive frame. */
  predicate NeedsSwitch(m: Motor, id: byte, mode: Mode) {
    id as int !in m.currentMode || m.currentMode[id as int] != mode
  }

  /** Switches `id` to `mode` unless it is already tracked in that mode. */
  function EnsureMode(m: Motor, id: byte, mode: Mode): (r: Outcome)
    ensures r.ok ==> id as int in r.motor.currentMode && r.motor.currentMode[id as int] == mode
    ensures r.ok ==> r.motor.currentMode == m.currentMode[id as int := mode]
    ensures !NeedsSwitch(m, id, mode) ==> r == Outcome(true, m)
    ensures NeedsSwitch(m, id, mode) ==> r == SetMode(m, id, mode)
  {
    if !NeedsSwitch(m, id, mode) then
      assert id as int in m.currentMode && m.currentMode[id as int] == mode;
      MapUpdateSame(m.currentMode, id as int, mode);
      Outcome(true, m)
    else
      SetMode(m, id, mode)
  }

  /** Rebinding a key to the value it already has leaves a map unchanged. */
  lemma MapUpdateSame<K, V>(t: map<K, V>, k: K, v: V)
    requires k in t && t[k] == v
    ensures t[k := v] == t
  {
  }

  /** The frames a successful drive call adds: a mode switch when one was needed, then the drive frame. */
  function DriveFrames(m: Motor, id: byte, mode: Mode, data: seq<byte>): seq<seq<byte>> {
    (if NeedsSwitch(m, id, mode) then [ModeFrame(id, mode)] else []) + [Packet(id, Drive, data)]
  }

  /**
    The common shape of `set_velocity`, `set_current` (with auto-switch) and
    `set_position`: establish the mode, then send the drive frame. A failed
    switch returns False and sends no drive frame; success leaves the motor
    tracked in `mode`.
  */
  function DriveIn(m: Motor, id: byte, mode: Mode, data: seq<byte>): (r: Outcome)
    ensures r.ok <==> (m.connected && Writes(m.port, m.port.attempts)
                       && (NeedsSwitch(m, id, mode) ==> AllWrite(m.port, m.port.attempts, 2)))
    ensures r.ok ==> r.motor.currentMode == m.currentMode[id as int := mode]
    ensures r.ok ==> r.motor.port.written == m.port.written + DriveFrames(m, id, mode, data)
    ensures r.ok ==> r.motor.lastCommand == Some(Drive)
    ensures !r.ok ==> (r.motor.port.written == m.port.written
                       || r.motor.port.written == m.port.written + [ModeFrame(id, mode)])
    ensures Later(m.port, r.motor.port)
    ensures r.motor.connected == m.connected && r.motor.lastFeedback == m.lastFeedback && r.motor.history == m.history
  {
    var e := EnsureMode(m, id, mode);
    if !e.ok then e
    else
      var s := SendPacket(e.motor, id, Drive, data);
      AllWriteTwo(m.port);
      assert NeedsSwitch(m, id, mode) ==> e.motor.port.attempts == m.port.attempts + 1;
      LaterTrans(m.port, e.motor.port, s.motor.port);
      s
  }


  /**
    `set_velocity`: velocity mode, then RPM clamped to [-143, 143] as a signed
    field. True exactly when the switch (if one was needed) and the drive
    frame were both written; those are then exactly the frames added to the
    wire, and the velocity mode is tracked for `id`.
  */
  function SetVelocity(m: Motor, id: byte, rpm: real): (r: Outcome)
    ensures r == DriveIn(m, id, Velocity, VelocityData(rpm))
    ensures r.ok <==> (m.connected && Writes(m.port, m.port.attempts)
                       && (NeedsSwitch(m, id, Velocity) ==> AllWrite(m.port, m.port.attempts, 2)))
    ensures r.ok ==> r.motor.currentMode == m.currentMode[id as int := Velocity]
    ensures r.ok ==> r.motor.port.written == m.port.written + DriveFrames(m, id, Velocity, VelocityData(rpm))
  {
    DriveIn(m, id, Velocity, VelocityData(rpm))
  }

  /**
    `set_current`: current mode (only when `autoSwitch`), then 0.01 A units
    clamped to [-8, 8] A. Without auto-switch the tracked modes are left
    alone and only the drive frame is attempted.
  */
  function SetCurrent(m: Motor, id: byte, amps: real, autoSwitch: bool): (r: Outcome)
    ensures autoSwitch ==> r == DriveIn(m, id, Current, CurrentData(amps))
    ensures !autoSwitch ==> r == SendPacket(m, id, Drive, CurrentData(amps))
    ensures r.ok <==> (m.connected && Writes(m.port, m.port.attempts)
                       && (autoSwitch && NeedsSwitch(m, id, Current) ==> AllWrite(m.port, m.port.attempts, 2)))
    ensures r.ok && autoSwitch ==> r.motor.currentMode == m.currentMode[id as int := Current]
    ensures !autoSwitch ==> r.motor.currentMode == m.currentMode
    ensures r.ok && autoSwitch ==> r.motor.port.written == m.port.written + DriveFrames(m, id, Current, CurrentData(amps))
    ensures r.ok && !autoSwitch ==> r.motor.port.written == m.port.written + [Packet(id, Drive, CurrentData(amps))]
  {
    if autoSwitch then DriveIn(m, id, Current, CurrentData(amps))
    else SendPacket(m, id, Drive, CurrentData(amps))
  }

  /**
    `set_position`: position mode, then degrees clamped to [0, 360] scaled to
    [0, 32767]; on success exactly the switch (when needed) and the drive
    frame are added to the wire.
  */
  function SetPosition(m: Motor, id: byte, deg: real): (r: Outcome)
    ensures r == DriveIn(m, id, Position, PositionData(deg))
    ensures r.ok <==> (m.connected && Writes(m.port, m.port.attempts)
                       && (NeedsSwitch(m, id, Position) ==> AllWrite(m.port, m.port.attempts, 2)))
    ensures r.ok ==> r.motor.currentMode == m.currentMode[id as int := Position]
    ensures r.ok ==> r.motor.port.written == m.port.written + DriveFrames(m, id, Position, PositionData(deg))
  {
    DriveIn(m, id, Position, PositionData(deg))
  }

  /**
    The wire value of a successful `set_velocity` call: the last frame written
    is a drive frame for `id` whose bytes 2-3 read back as the clamped,
    truncated RPM, and a mode switch preceded it exactly when one was needed.
  */
  lemma SetVelocityOnWire(m: Motor, id: byte, rpm: real)
    requires SetVelocity(m, id, rpm).ok
    ensures var w := SetVelocity(m, id, rpm).motor.port.written;
      && |w| > 0 && w[|w| - 1] == Packet(id, Drive, VelocityData(rpm))
      && var f := w[|w| - 1];
      && f[0] == id && f[1] == Drive && Accepted(f, Some(id))
      && DecodeS16(f[2], f[3]) == VelocityRaw(rpm) && -143 <= DecodeS16(f[2], f[3]) <= 143
      && (NeedsSwitch(m, id, Velocity) <==> |w| == |m.port.written| + 2)
  {
    var r := SetVelocity(m, id, rpm);
    var f := Packet(id, Drive, VelocityData(rpm));
    var switch := if NeedsSwitch(m, id, Velocity) then [ModeFrame(id, Velocity)] else [];
    assert r.motor.port.written == m.port.written + switch + [f];
    VelocityFrameDecodes(id, rpm);
  }

  /** The same for `set_position`: bytes 2-3 read back unsigned as the scaled angle in [0, 32767]. */
  lemma SetPositionOnWire(m: Motor, id: byte, deg: real)
    requires SetPosition(m, id, deg).ok
    ensures var w := SetPosition(m, id, deg).motor.port.written;
      && |w| > 0 && w[|w| - 1] == Packet(id, Drive, PositionData(deg))
      && var f := w[|w| - 1];
      && f[0] == id && f[1] == Drive && Accepted(f, Some(id))
      && DecodeU16(f[2], f[3]) == PositionRaw(deg)
      && (NeedsSwitch(m, id, Position) <==> |w| == |m.port.written| + 2)
  {
    var r := SetPosition(m, id, deg);
    var f := Packet(id, Drive, PositionData(deg));
    var switch := if NeedsSwitch(m, id, Position) then [ModeFrame(id, Position)] else [];
    assert r.motor.port.written == m.port.written + switch + [f];
    PositionFrameDecodes(id, deg);
  }

  /** The same for `set_current`: bytes 2-3 read back signed as 0.01 A units in [-800, 800]. */
  lemma SetCurrentOnWire(m: Motor, id: byte, amps: real, autoSwitch: bool)
    requires SetCurrent(m, id, amps, autoSwitch).ok
    ensures var w := SetCurrent(m, id, amps, autoSwitch).motor.port.written;
      && |w| > 0 && w[|w| - 1] == Packet(id, Drive, CurrentData(amps))
      && var f := w[|w| - 1];
      && f[0] == id && f[1] == Drive && Accepted(f, Some(id))
      && DecodeS16(f[2], f[3]) == CurrentRaw(amps)
      && (!autoSwitch || !NeedsSwitch(m, id, Current) <==> |w| == |m.port.written| + 1)
  {
    var r := SetCurrent(m, id, amps, autoSwitch);
    var f := Packet(id, Drive, CurrentData(amps));
    var switch := if autoSwitch && NeedsSwitch(m, id, Current) then [ModeFrame(id, Current)] else [];
    assert r.motor.port.written == m.port.written + switch + [f];
    CurrentFrameDecodes(id, amps);
  }

  /** The history recorded for `id`, empty when there is none yet. */
  function HistoryOf(h: map<int, History>, id: byte): History {
    if id as int in h then h[id as int] else []
  }

  /** The bounded history after appending `fb` for motor `id`: the newest 100 entries. */
  function Remember(h: map<int, History>, id: byte, fb: Feedback): (r: map<int, History>)
    ensures id as int in r && r[id as int] == Bounded.LastN(HistoryOf(h, id) + [fb], HistoryLimit)
    ensures forall k :: k in h && k != id as int ==> k in r && r[k] == h[k]
    ensures r.Keys == h.Keys + {id as int}
  {
    var prior := HistoryOf(h, id);
    Bounded.PushKeepsNewest(prior, fb, HistoryLimit);
    var next: History := Bounded.Push(prior, fb, HistoryLimit);
    h[id as int := next]
  }

  /**
    `request_feedback`: sends a feedback request (0x74) and reads one reply.
    Feedback is produced exactly when the request went out and the reply is an
    accepted frame from `id`; it is then parsed in the 0x74 layout (the request
    just set the last command) and recorded as the last feedback and in the history.
  */
  function RequestFeedback(m: Motor, id: byte): (r: Polled)
    ensures r.feedback.Some? <==> m.connected && Responds(m.port, m.port.attempts, id)
    ensures r.feedback.Some? ==>
      && r.feedback.value == ParseFeedback(Some(FeedbackRequest), Read(m.port, m.port.attempts))
      && r.motor.lastFeedback == m.lastFeedback[id as int := r.feedback.value]
      && r.motor.history == Remember(m.history, id, r.feedback.value)
    ensures r.feedback.None? ==> r.motor.lastFeedback == m.lastFeedback && r.motor.history == m.history
    ensures r.motor.port.written == m.port.written
      + (if m.connected && Writes(m.port, m.port.attempts) then [Packet(id, FeedbackRequest, Zeros(7))] else [])
    ensures Later(m.port, r.motor.port)
    ensures r.motor.port.attempts == m.port.attempts + (if m.connected then 1 else 0)
    ensures r.motor.connected == m.connected && r.motor.currentMode == m.currentMode
  {
    var s := SendPacket(m, id, FeedbackRequest, Zeros(7));
    if !s.ok then Polled(None, s.motor)
    else
      var resp := Read(s.motor.port, m.port.attempts);
      if !Accepted(resp, Some(id)) then Polled(None, s.motor)
      else
        var fb := ParseFeedback(s.motor.lastCommand, resp);
        Polled(Some(fb), s.motor.(lastFeedback := m.lastFeedback[id as int := fb], history := Remember(m.history, id, fb)))
  }

  /**
    True when, in a scan that starts at `start`, the poll of `id` (which is
    attempt `p.attempts + (id - start)`) goes out and is answered for `id`.
  */
  predicate ScanHit(p: Port, start: byte, id: int) {
    start as int <= id < 256 && Responds(p, p.attempts + (id - start as int), id as byte)
  }

  /** `request_feedback` used as a truth value, as `scan_motors` does. */
  method Poll(m: Motor, id: byte) returns (hit: bool, m': Motor)
    ensures hit <==> m.connected && Responds(m.port, m.port.attempts, id)
    ensures Later(m.port, m'.port) && m'.currentMode == m.currentMode && m'.connected == m.connected
    ensures m'.port.attempts == m.port.attempts + (if m.connected then 1 else 0)
  {
    var poll := RequestFeedback(m, id);
    hit := poll.feedback.Some?;
    m' := poll.motor;
  }

  /** Polls id `k` of a scan that started from `m` at id `start` and has reached `cur`. */
  method PollAt(m: Motor, cur: Motor, start: byte, k: int) returns (hit: bool, next: Motor)
    requires start as int <= k < 256
    requires Later(m.port, cur.port) && cur.currentMode == m.currentMode && cur.connected == m.connected
    requires cur.port.attempts == m.port.attempts + (if m.connected then k - start as int else 0)
    ensures hit <==> m.connected && ScanHit(m.port, start, k)
    ensures Later(m.port, next.port) && next.currentMode == m.currentMode && next.connected == m.connected
    ensures next.port.attempts == cur.port.attempts + (if m.connected then 1 else 0)
  {
    ByteRoundTrip(k);
    var id := k as byte;
    SameOracleResponds(m.port, cur.port, cur.port.attempts, id);
    hit, next := Poll(cur, id);
    LaterTrans(m.port, cur.port, next.port);
  }

  /**
    `scan_motors`: polls every id from `start` to `end` inclusive, in order, and
    returns those that answered, in increasing order. Each poll is one write
    attempt, so the id `k` is found exactly when attempt `attempts + (k - start)`
    responds for `k`.
  */
  method ScanMotors(m: Motor, start: byte, end: byte) returns (found: seq<int>, m': Motor)
    ensures forall id: int :: id in found <==> (id <= end as int && m.connected && ScanHit(m.port, start, id))
    ensures forall i, j :: 0 <= i < j < |found| ==> found[i] < found[j]
    ensures Later(m.port, m'.port) && m'.currentMode == m.currentMode && m'.connected == m.connected
  {
    found := [];
    m' := m;
    var k: int := start as int;
    while k <= end as int
      invariant start as int <= k && (k <= end as int + 1 || k == start as int)
      invariant Later(m.port, m'.port) && m'.currentMode == m.currentMode && m'.connected == m.connected
      invariant m'.port.attempts == m.port.attempts + (if m.connected then k - start as int else 0)
      invariant forall id: int {:trigger id in found} :: id in found <==> (id < k && m.connected && ScanHit(m.port, start, id))
      invariant forall i, j :: 0 <= i < j < |found| ==> found[i] < found[j]
      invariant forall i :: 0 <= i < |found| ==> start as int <= found[i] < k
    {
      var hit, next := PollAt(m, m', start, k);
      ghost var before := found;
      if hit {
        found := found + [k];
      }
      forall id: int
        ensures id in found <==> (id in before || (hit && id == k))
      {
      }
      m' := next;
      k := k + 1;
    }
  }

  /** Whether an attempt responds is a property of the oracle alone, not of the trace so far. */
  lemma SameOracleResponds(p: Port, q: Port, n: nat, id: byte)
    requires Later(p, q)
    ensures Responds(p, n, id) == Responds(q, n, id)
  {
  }

  /** Lower and upper bound of an assignable motor ID. */
  const MinId: int := 1
  const MaxId: int := 10

  /** `set_motor_id`'s five raw ID frames. */
  function IdFrames(newId: byte): (fs: seq<seq<byte>>)
    ensures |fs| == 5 && forall i :: 0 <= i < 5 ==> fs[i] == IdFrame(newId)
  {
    seq(5, _ => IdFrame(newId))
  }

  /**
    `set_motor_id`: rejects a new ID outside 1..10 without writing; otherwise
    writes the raw set-ID frame five times (stopping with False at a write that
    raises) and then reports whether the motor answers a feedback request under
    the new ID. `oldId` is not used by the protocol.
  */
  function SetMotorId(m: Motor, oldId: int, newId: int): (r: Outcome)
    ensures !(MinId <= newId <= MaxId) || !m.connected ==> r == Outcome(false, m)
    ensures r.ok <==> (MinId <= newId <= MaxId && m.connected
                       && AllWrite(m.port, m.port.attempts, 5)
                       && Responds(m.port, m.port.attempts + 5, newId as byte))
    ensures MinId <= newId <= MaxId && m.connected && AllWrite(m.port, m.port.attempts, 5) ==>
      r.motor.port.written == m.port.written + IdFrames(newId as byte)
        + (if Writes(m.port, m.port.attempts + 5) then [Packet(newId as byte, FeedbackRequest, Zeros(7))] else [])
    ensures Later(m.port, r.motor.port) && r.motor.currentMode == m.currentMode
  {
    if !(MinId <= newId <= MaxId) || !m.connected then Outcome(false, m)
    else
      ByteRoundTrip(newId);
      var id := newId as byte;
      var w := WriteEach(m.port, IdFrames(id));
      if !w.ok then Outcome(false, m.(port := w.port))
      else
        var poll := RequestFeedback(m.(port := w.port), id);
        LaterTrans(m.port, w.port, poll.motor.port);
        assert w.port.attempts == m.port.attempts + 5;
        SameOracleResponds(m.port, w.port, m.port.attempts + 5, id);
        assert poll.feedback.Some? <==> Responds(m.port, m.port.attempts + 5, id);
        Outcome(poll.feedback.Some?, poll.motor)
  }

  /** The three frames of `_safe_emergency_stop`: emergency stop, velocity mode (CRC layout), zero drive. */
  function StopFrames(id: byte): (fs: seq<seq<byte>>)
    ensures |fs| == 3
    ensures forall i :: 0 <= i < 3 ==> |fs[i]| == 10 && Accepted(fs[i], Some(id))
    ensures fs[0][1] == EmergencyStop && fs[1][1] == ModeSwitch && fs[2][1] == Drive
  {
    [Packet(id, EmergencyStop, Zeros(7)), StopModeFrame(id), Packet(id, Drive, Zeros(7))]
  }

  /**
    `_safe_emergency_stop`: writes the three stop frames directly (not through
    `send_packet`, so the last command is kept), giving up silently at the first
    write that raises. Tracked modes are not changed.
  */
  function SafeEmergencyStop(m: Motor, id: byte): (m': Motor)
    ensures !m.connected ==> m' == m
    ensures m'.currentMode == m.currentMode && m'.lastCommand == m.lastCommand && SameTracking(m, m')
    ensures |m'.port.written| - |m.port.written| <= 3
    ensures 0 <= |m'.port.written| - |m.port.written|
    ensures m'.port.written == m.port.written + StopFrames(id)[..|m'.port.written| - |m.port.written|]
    ensures m.connected && AllWrite(m.port, m.port.attempts, 3) ==>
      m'.port.written == m.port.written + StopFrames(id) && m'.port.attempts == m.port.attempts + 3
    ensures Later(m.port, m'.port) && m'.connected == m.connected
  {
    if !m.connected then m
    else m.(port := WriteEach(m.port, StopFrames(id)).port)
  }

  /** Every frame `send_packet` can emit has one of the three wire shapes. */
  lemma PacketIsWireFrame(id: byte, cmd: byte, data: seq<byte>)
    ensures WireFrame(Packet(id, cmd, data))
  {
  }

  /** Appending wire frames keeps a wire trace. */
  lemma WireTraceAppend(t: seq<seq<byte>>, u: seq<seq<byte>>)
    requires WireTrace(t) && WireTrace(u)
    ensures WireTrace(t + u)
  {
  }

  /** Raw mode-switch frames have the mode-frame shape. */
  lemma ModeFrameIsWireFrame(id: byte, mode: Mode)
    ensures IsModeFrame(ModeFrame(id, mode)) && WireFrame(ModeFrame(id, mode))
  {
    assert ModeFrame(id, mode)[2..9] == Zeros(7);
  }

  /** Raw set-ID frames have the set-ID shape. */
  lemma IdFrameIsWireFrame(newId: byte)
    ensures IsIdFrame(IdFrame(newId)) && WireFrame(IdFrame(newId))
  {
    assert IdFrame(newId)[4..] == Zeros(6);
  }

  /** Writing a prefix of wire frames keeps a wire trace. */
  lemma WritePrefixKeepsWireTrace(t: seq<seq<byte>>, fs: seq<seq<byte>>, k: int)
    requires WireTrace(t) && WireTrace(fs) && 0 <= k <= |fs|
    ensures WireTrace(t + fs[..k])
  {
  }

  /** Attempts `n`..`n + a + b - 1` all go through iff the first `a` and the next `b` do. */
  lemma AllWriteSplit(p: Port, q: Port, n: nat, a: nat, b: nat)
    requires q.failAt == p.failAt
    ensures AllWrite(p, n, a + b) <==> AllWrite(p, n, a) && AllWrite(q, n + a, b)
  {
    if AllWrite(p, n, a) && AllWrite(q, n + a, b) {
      forall k | n <= k < n + a + b
        ensures k !in p.failAt
      {
        if k >= n + a {
          assert n + a <= k < n + a + b;
        }
      }
    }
  }

  /** The stop frames for each id of `ids` in turn. */
  function StopFramesFor(ids: seq<byte>): (fs: seq<seq<byte>>)
    ensures |fs| == 3 * |ids|
    decreases |ids|
  {
    if |ids| == 0 then [] else StopFrames(ids[0]) + StopFramesFor(ids[1..])
  }

  /** `_safe_emergency_stop` for each id of `ids` in turn, every failure swallowed. */
  function StopAll(m: Motor, ids: seq<byte>): (m': Motor)
    ensures !m.connected ==> m' == m
    ensures m'.currentMode == m.currentMode && m'.lastCommand == m.lastCommand && SameTracking(m, m')
    ensures Later(m.port, m'.port)
    ensures m.connected && AllWrite(m.port, m.port.attempts, 3 * |ids|) ==>
      m'.port.written == m.port.written + StopFramesFor(ids) && m'.port.attempts == m.port.attempts + 3 * |ids|
    decreases |ids|
  {
    if |ids| == 0 || !m.connected then m
    else
      var m1 := SafeEmergencyStop(m, ids[0]);
      var m2 := StopAll(m1, ids[1..]);
      LaterTrans(m.port, m1.port, m2.port);
      StopAllStep(m.port, m1.port, m2.port, StopFrames(ids[0]), StopFramesFor(ids[1..]), 3 * (|ids| - 1));
      m2
  }

  /** Three frames written in full followed by `rest` written in full is `f + rest` written in full. */
  lemma StopAllStep(p: Port, p1: Port, p2: Port, f: seq<seq<byte>>, rest: seq<seq<byte>>, k: nat)
    requires p1.failAt == p.failAt
    requires AllWrite(p, p.attempts, 3) ==> p1.written == p.written + f && p1.attempts == p.attempts + 3
    requires AllWrite(p1, p1.attempts, k) ==> p2.written == p1.written + rest && p2.attempts == p1.attempts + k
    ensures AllWrite(p, p.attempts, 3 + k) ==> p2.written == p.written + (f + rest) && p2.attempts == p.attempts + 3 + k
  {
    AllWriteSplit(p, p1, p.attempts, 3, k);
  }

  /** The broadcast ids `_emergency_stop_all` always stops: 1 to 10. */
  const CommonIds: seq<byte> := [1, 2, 3, 4, 5, 6, 7, 8, 9, 10]

  /**
    `disconnect` (`_emergency_stop_all`): when connected, the safe stop for
    every motor with a tracked mode and then for ids 1-10; the port is closed
    in every case. `known` lists each tracked id exactly once, in the
    dictionary's order.
  */
  function Disconnect(m: Motor, known: seq<byte>): (m': Motor)
    requires forall i :: 0 <= i < |known| ==> known[i] as int in m.currentMode
    requires forall k :: k in m.currentMode ==> exists i :: 0 <= i < |known| && known[i] as int == k
    requires |known| == |m.currentMode|
    ensures !m'.connected
    ensures !m.connected ==> m' == m.(connected := false)
    ensures m'.currentMode == m.currentMode && Later(m.port, m'.port)
    ensures m.connected && AllWrite(m.port, m.port.attempts, 3 * (|known| + 10)) ==>
      m'.port.written == m.port.written + StopFramesFor(known + CommonIds)
  {
    StopAll(m, known + CommonIds).(connected := false)
  }

  /**
    `emergency_stop`: the stop packet through `send_packet`; only when it was
    written do a switch to velocity mode and a zero velocity command follow,
    their results ignored. The result is that of the stop packet alone.
  */
  function EmergencyStopMotor(m: Motor, id: byte): (r: Outcome)
    ensures r.ok <==> m.connected && Writes(m.port, m.port.attempts)
    ensures !r.ok ==> r.motor.port.written == m.port.written && r.motor.currentMode == m.currentMode
    ensures Later(m.port, r.motor.port)
    ensures r.motor.connected == m.connected && r.motor.lastFeedback == m.lastFeedback && r.motor.history == m.history
  {
    var s := SendPacket(m, id, EmergencyStop, Zeros(7));
    if !s.ok then s
    else
      var a := SetMode(s.motor, id, Velocity);
      var b := SetVelocity(a.motor, id, 0.0);
      LaterTrans(m.port, s.motor.port, a.motor.port);
      LaterTrans(m.port, a.motor.port, b.motor.port);
      Outcome(true, b.motor)
  }

  /** A zero velocity is seven zero data bytes. */
  lemma ZeroVelocityData()
    ensures VelocityData(0.0) == Zeros(7)
  {
    assert VelocityRaw(0.0) == 0;
    assert BeS16(0) == [0, 0];
  }

  /**
    When all three writes go through, `emergency_stop` puts exactly the stop
    packet, the raw switch to velocity mode and a zero drive packet on the
    wire, and the motor is then tracked in velocity mode.
  */
  lemma EmergencyStopMotorOnWire(m: Motor, id: byte)
    requires m.connected && AllWrite(m.port, m.port.attempts, 3)
    ensures var r := EmergencyStopMotor(m, id);
      && r.ok
      && r.motor.port.written == m.port.written + [Packet(id, EmergencyStop, Zeros(7)), ModeFrame(id, Velocity), Packet(id, Drive, Zeros(7))]
      && r.motor.currentMode == m.currentMode[id as int := Velocity]
  {
    StopThenSwitch(m, id);
    var a := SetMode(SendPacket(m, id, EmergencyStop, Zeros(7)).motor, id, Velocity);
    ZeroVelocityData();
    DriveInSettled(a.motor, id, Velocity, Zeros(7));
    EmergencyStopMotorUnfold(m, id);
    AppendThree(m.port.written, Packet(id, EmergencyStop, Zeros(7)), ModeFrame(id, Velocity), Packet(id, Drive, Zeros(7)));
  }

  /**
    The first two writes of `emergency_stop` when they go through: the stop
    packet, then the raw velocity switch, after which the motor is tracked in
    velocity mode and the next write goes through.
  */
  lemma StopThenSwitch(m: Motor, id: byte)
    requires m.connected && AllWrite(m.port, m.port.attempts, 3)
    ensures var s := SendPacket(m, id, EmergencyStop, Zeros(7));
      var a := SetMode(s.motor, id, Velocity);
      && s.ok && a.motor.connected && Writes(a.motor.port, a.motor.port.attempts)
      && !NeedsSwitch(a.motor, id, Velocity)
      && a.motor.currentMode == m.currentMode[id as int := Velocity]
      && a.motor.port.written == m.port.written + [Packet(id, EmergencyStop, Zeros(7))] + [ModeFrame(id, Velocity)]
  {
    var n := m.port.attempts;
    assert n !in m.port.failAt && n + 1 !in m.port.failAt && n + 2 !in m.port.failAt;
    var s := SendPacket(m, id, EmergencyStop, Zeros(7));
    assert s.ok && s.motor.port.attempts == n + 1 && s.motor.connected;
  }

  /** Appending three elements one at a time equals appending them as one display. */
  lemma AppendThree<T>(w: seq<T>, x: T, y: T, z: T)
    ensures w + [x] + [y] + [z] == w + [x, y, z]
  {
  }

  /** After a written stop packet, `emergency_stop` ends with the zero velocity command's motor state. */
  lemma EmergencyStopMotorUnfold(m: Motor, id: byte)
    requires SendPacket(m, id, EmergencyStop, Zeros(7)).ok
    ensures var a := SetMode(SendPacket(m, id, EmergencyStop, Zeros(7)).motor, id, Velocity);
      EmergencyStopMotor(m, id) == Outcome(true, DriveIn(a.motor, id, Velocity, VelocityData(0.0)).motor)
  {
  }

  /** Once `id` is tracked in `mode`, a drive call whose write goes through adds the drive frame alone. */
  lemma DriveInSettled(m: Motor, id: byte, mode: Mode, data: seq<byte>)
    requires m.connected && Writes(m.port, m.port.attempts) && !NeedsSwitch(m, id, mode)
    ensures var r := DriveIn(m, id, mode, data);
      r.ok && r.motor.port.written == m.port.written + [Packet(id, Drive, data)] && r.motor.currentMode == m.currentMode
  {
    MapUpdateSame(m.currentMode, id as int, mode);
  }

  /*
    The driver only ever emits ten-byte frames of three shapes: CRC-checked
    packets, raw mode switches and raw set-ID frames. Each lemma below shows
    that one operation keeps that property of the write trace.
  */

  lemma SetModeKeepsWireTrace(m: Motor, id: byte, mode: Mode)
    requires WireTrace(m.port.written)
    ensures WireTrace(SetMode(m, id, mode).motor.port.written)
  {
    ModeFrameIsWireFrame(id, mode);
  }

  lemma DriveInKeepsWireTrace(m: Motor, id: byte, mode: Mode, data: seq<byte>)
    requires WireTrace(m.port.written)
    ensures WireTrace(DriveIn(m, id, mode, data).motor.port.written)
  {
    var r := DriveIn(m, id, mode, data);
    ModeFrameIsWireFrame(id, mode);
    PacketIsWireFrame(id, Drive, data);
    if r.ok {
      var fs := DriveFrames(m, id, mode, data);
      assert WireTrace(fs);
      WireTraceAppend(m.port.written, fs);
    } else if r.motor.port.written != m.port.written {
      WireTraceAppend(m.port.written, [ModeFrame(id, mode)]);
    }
  }

  lemma SetVelocityKeepsWireTrace(m: Motor, id: byte, rpm: real)
    requires WireTrace(m.port.written)
    ensures WireTrace(SetVelocity(m, id, rpm).motor.port.written)
  {
    DriveInKeepsWireTrace(m, id, Velocity, VelocityData(rpm));
  }

  lemma SetCurrentKeepsWireTrace(m: Motor, id: byte, amps: real, autoSwitch: bool)
    requires WireTrace(m.port.written)
    ensures WireTrace(SetCurrent(m, id, amps, autoSwitch).motor.port.written)
  {
    if autoSwitch {
      DriveInKeepsWireTrace(m, id, Current, CurrentData(amps));
    } else {
      PacketIsWireFrame(id, Drive, CurrentData(amps));
    }
  }

  lemma SetPositionKeepsWireTrace(m: Motor, id: byte, deg: real)
    requires WireTrace(m.port.written)
    ensures WireTrace(SetPosition(m, id, deg).motor.port.written)
  {
    DriveInKeepsWireTrace(m, id, Position, PositionData(deg));
  }

  lemma RequestFeedbackKeepsWireTrace(m: Motor, id: byte)
    requires WireTrace(m.port.written)
    ensures WireTrace(RequestFeedback(m, id).motor.port.written)
  {
    PacketIsWireFrame(id, FeedbackRequest, Zeros(7));
  }

  lemma SetMotorIdKeepsWireTrace(m: Motor, oldId: int, newId: int)
    requires WireTrace(m.port.written)
    ensures WireTrace(SetMotorId(m, oldId, newId).motor.port.written)
  {
    if MinId <= newId <= MaxId && m.connected {
      ByteRoundTrip(newId);
      var nid := newId as byte;
      IdFrameIsWireFrame(nid);
      var fs := IdFrames(nid);
      var ww := WriteEach(m.port, fs);
      WritePrefixKeepsWireTrace(m.port.written, fs, |ww.port.written| - |m.port.written|);
      if ww.ok {
        RequestFeedbackKeepsWireTrace(m.(port := ww.port), nid);
      }
    }
  }

  lemma SafeEmergencyStopKeepsWireTrace(m: Motor, id: byte)
    requires WireTrace(m.port.written)
    ensures WireTrace(SafeEmergencyStop(m, id).port.written)
  {
    var m' := SafeEmergencyStop(m, id);
    var fs := StopFrames(id);
    assert WireFrame(fs[0]) && WireFrame(fs[1]) && WireFrame(fs[2]);
    WritePrefixKeepsWireTrace(m.port.written, StopFrames(id), |m'.port.written| - |m.port.written|);
  }

  lemma EmergencyStopMotorKeepsWireTrace(m: Motor, id: byte)
    requires WireTrace(m.port.written)
    ensures WireTrace(EmergencyStopMotor(m, id).motor.port.written)
  {
    var s := SendPacket(m, id, EmergencyStop, Zeros(7));
    PacketIsWireFrame(id, EmergencyStop, Zeros(7));
    if s.ok {
      WireTraceAppend(m.port.written, [Packet(id, EmergencyStop, Zeros(7))]);
      SetModeKeepsWireTrace(s.motor, id, Velocity);
      SetVelocityKeepsWireTrace(SetMode(s.motor, id, Velocity).motor, id, 0.0);
    }
  }

  lemma {:induction false} StopAllKeepsWireTrace(m: Motor, ids: seq<byte>)
    requires WireTrace(m.port.written)
    ensures WireTrace(StopAll(m, ids).port.written)
    decreases |ids|
  {
    if |ids| > 0 {
      SafeEmergencyStopKeepsWireTrace(m, ids[0]);
      StopAllKeepsWireTrace(SafeEmergencyStop(m, ids[0]), ids[1..]);
    }
  }

  lemma DisconnectKeepsWireTrace(m: Motor, known: seq<byte>)
    requires forall i :: 0 <= i < |known| ==> known[i] as int in m.currentMode
    requires forall k :: k in m.currentMode ==> exists i :: 0 <= i < |known| && known[i] as int == k
    requires |known| == |m.currentMode|
    requires WireTrace(m.port.written)
    ensures WireTrace(Disconnect(m, known).port.written)
  {
    StopAllKeepsWireTrace(m, known + CommonIds);
  }
}
