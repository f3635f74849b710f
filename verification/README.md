# DDSM115 / DDSM210 motor control core in Dafny

This project models the sequential core of a desktop controller for Waveshare
DDSM115 and DDSM210 hub motors, and proves properties of that model. The motors
are driven over an RS-485 serial link.

The model covers five parts of the controller:

- **DDSM115 codec** (`crc8.dfy`, `ddsm115_codec.dfy`).
  - The 10-byte frame `[id, cmd, 7 data bytes, crc]`, checked by the Dallas/Maxim 1-Wire CRC-8 (CRC-8/MAXIM-DOW): reflected polynomial 0x8C, init 0, no final XOR.
  - The raw mode-switch frame and the raw set-ID frame, neither of which carries a CRC.
  - Set-point scaling into 16-bit big-endian fields.
  - The two feedback layouts.
- **DDSM115 driver** (`ddsm115.dfy`).
  - A `Motor` record over the serial port: the connection flag, the per-motor tracked mode, the last command, and the last and recent feedback.
  - Every driver operation is a pure transition: `send_packet`, `set_mode`, the three drive setters, feedback polling, bus scan, ID assignment, the emergency stops and `disconnect`.
- **DDSM210 driver** (`ddsm210.dfy`): the fixed-ID variant. It has the same CRC, velocity in 0.1 RPM units masked to 16 bits, a feedback parser that never reports motion, and a presence scan.
- **Command queue** (`command_queue.dfy`).
  - Commands are coalesced per `(motor, command type)`, so only the newest of each is pending.
  - A priority list for commands of priority 3 or more, counters, and one worker iteration as a pure `Step`.
  - The out-of-band stop that purges one motor, and the statistics report.
  - The motor driver underneath is abstract: it records calls, and an oracle says which calls report failure and which raise.
- **Data manager** (`data_manager.dfy`).
  - Listener filters and bounded non-blocking listener queues.
  - A name-unique listener registry, broadcast counting, and connected/disconnected tracking.
  - The 200-point plot series of the graph listener.
- **Diagnostic helpers** (`diagnostic.dfy`): the standalone tool's CRC with padding, the 9-byte check in `send_command`, the drive and mode packet builders, and the error-code bitmask decoder.

The serial port is an oracle (`link.dfy`):

- Write attempts are numbered.
- The attempts in `failAt` raise an I/O error.
- `replies[n]` is what the device sends back after attempt `n`.
- `written` is the trace of frames that went out.

Every property is stated over all oracles, so it holds for every pattern of I/O failures and replies.

Points where the code differs from its own documentation are modelled as the code behaves:

- `get_stats` reports `queue_size` as the size of the priority queue only. `pending_commands` counts the coalesced store.
- A command of priority 3 or more is stored in both structures, so one worker drains it twice (`CommandQueue.UrgentCommandRunsTwice`). No public method creates such a command.
- A STOP that reaches the worker through the coalesced store is counted twice and notifies its callback twice (`CommandQueue.QueuedStopCountsTwice`).
- DDSM210 `set_velocity` returns True whenever the driver is connected and initialised, even if the write fails, and whether or not a reply arrives. When `connect` fails, the `initialized` flag keeps its old value, while `connected` becomes False.
- `_safe_emergency_stop` sends its velocity-mode switch as a CRC packet with the mode in byte 8. `set_mode` sends it as a raw frame with the mode in byte 9 (`Ddsm115Codec.ModeSwitchLayoutsDiffer`).
- In the standard feedback layout, the position is an unsigned 16-bit value scaled by 360/32767, so it can exceed 360 degrees.

## Model

| member | source | states |
|---|---|---|
| Crc8.Update | src/ddsm115.py:212-223 | folding a byte into the register clears it exactly when the byte equals the register |
| Crc8.Crc | src/ddsm115.py:225-230 | the CRC of no data is 0, and the CRC of a non-empty message is its last byte folded into the register left by the rest |
| Crc8.CheckValue | src/ddsm115.py:212-230 | the CRC of the ASCII digits "123456789" is 0xA1, the catalogued check value of CRC-8/MAXIM-DOW |
| Crc8.Residue | src/ddsm115.py:212-230 | appending a message's CRC to it gives a CRC of 0, the catalogued residue |
| Crc8.CrcFromConcat | src/ddsm115.py:225-230 | the CRC register folds a concatenation part by part |
| Crc8.CrcFromInjective | src/ddsm115.py:212-223 | distinct register values stay distinct after folding in the same data |
| Crc8.SingleByteErrorDetected | src/ddsm115.py:309-317 | two equal-length messages that differ in one byte have different CRCs |
| Ddsm115Codec.Packet | src/ddsm115.py:244-256 | a frame is 10 bytes: id, command, the data truncated or zero-padded to 7 bytes, then the CRC of the first nine |
| Ddsm115Codec.PacketRoundTrip | src/ddsm115.py:244-256 | every frame `send_packet` builds passes `read_response`'s length, CRC and id check, and unpacks to its id, command and padded data |
| Ddsm115Codec.Unpack | src/ddsm115.py:290-349 | a response is accepted exactly when it is 10 bytes with a matching CRC, and an accepted response is the frame `send_packet` would build from its unpacked id, command and 7 data bytes |
| Ddsm115Codec.CorruptedPacketRejected | src/ddsm115.py:309-317 | a packet with any single byte changed is rejected |
| Ddsm115Codec.ModeOfCode | src/ddsm115.py:39-44 | codes 1, 2 and 3 are exactly the three modes, and the mapping inverts the mode's code |
| Ddsm115Codec.ModeFrame | src/ddsm115.py:367-371 | the raw mode switch is `[id, 0xA0, 0 x 7, mode]` with no CRC |
| Ddsm115Codec.IdFrame | src/ddsm115.py:617-618 | the set-ID frame is `[0xAA, 0x55, 0x53, new_id, 0 x 6]` |
| Ddsm115Codec.ModeSwitchLayoutsDiffer | src/ddsm115.py:187-210 | the emergency stop's mode switch puts the mode in byte 8 under a CRC, unlike `set_mode`'s raw frame |
| Ddsm115Codec.VelocityRaw | src/ddsm115.py:398-400 | the velocity field lies in [-143, 143] and equals the truncated RPM inside that range |
| Ddsm115Codec.CurrentRaw | src/ddsm115.py:427-429 | the current field, in 0.01 A units, lies in [-800, 800] and equals the truncated amps times 100 inside [-8, 8] A |
| Ddsm115Codec.PositionRaw | src/ddsm115.py:454-456 | the position field lies in [0, 32767] and equals the truncated deg/360 times 32767 inside [0, 360] degrees |
| Ddsm115Codec.VelocityFrameDecodes | src/ddsm115.py:398-406 | bytes 2-3 of a velocity frame read back, signed big-endian, as the clamped truncated RPM, and bytes 4-8 are zero |
| Ddsm115Codec.CurrentFrameDecodes | src/ddsm115.py:427-435 | bytes 2-3 of a current frame read back signed as the clamped 0.01 A value, and bytes 4-8 are zero |
| Ddsm115Codec.PositionFrameDecodes | src/ddsm115.py:454-462 | bytes 2-3 of a position frame read back unsigned as the scaled angle, and bytes 4-8 are zero |
| Ddsm115Codec.VelocityExamples | src/ddsm115.py:398-406 | 999 RPM encodes as 0x00 0x8F and -999 RPM as 0xFF 0x71 |
| Ddsm115Codec.PositionExamples | src/ddsm115.py:454-462 | 0, 360 and 180 degrees encode as 0, 32767 and 16383 (0x3F 0xFF) |
| Ddsm115Codec.SetpointsMonotone | src/ddsm115.py:398-462 | all three scalings are monotone in their input |
| Ddsm115Codec.ParseFeedback | src/ddsm115.py:526-579 | short input keeps every default; after 0x74 the temperature is a byte and the position lies in [0, 360]; otherwise the temperature is 0; torque and velocity stay within their 16-bit ranges |
| Ddsm115Codec.FeedbackReplyRoundTrip | src/ddsm115.py:553-571 | a feedback-request reply built from given fields parses back to torque/100, velocity, the temperature byte and byte/255 times 360 |
| Ddsm115Codec.StandardReplyRoundTrip | src/ddsm115.py:553-577 | a reply after any other command parses back to torque/100, velocity, temperature 0 and a 16-bit position/32767 times 360 |
| Bytes.EncodeDecodeS16 | src/ddsm115.py:398-406 | signed big-endian 16-bit encoding inverts decoding |
| Bytes.EncodeDecodeU16 | src/ddsm115.py:454-462 | unsigned big-endian 16-bit encoding inverts decoding |
| Numeric.TruncMonotone | src/ddsm115.py:398-406 | `int()` truncation toward zero is monotone |
| Ddsm115.WriteEach | src/ddsm115.py:614-631 | writing several frames stops at the first write that raises; exactly a prefix goes out, and all of it when every attempt succeeds |
| Ddsm115.SendPacket | src/ddsm115.py:232-288 | nothing is sent and False is returned when disconnected; otherwise the command is remembered and the frame is written, succeeding exactly when the write does |
| Ddsm115.SetMode | src/ddsm115.py:350-379 | the raw mode frame is written, and the tracked mode changes exactly when that write succeeds |
| Ddsm115.EnsureMode | src/ddsm115.py:393-396 | no frame is sent when the motor is already tracked in the mode; otherwise this is `set_mode` |
| Ddsm115.DriveIn | src/ddsm115.py:381-462 | a drive succeeds exactly when the needed switch and the drive frame are both written; a failed switch sends no drive frame; success leaves the motor tracked in the mode |
| Ddsm115.SetVelocity | src/ddsm115.py:381-406 | `set_velocity` succeeds exactly when the needed velocity switch and the drive frame are both written; success adds exactly those frames and tracks velocity mode |
| Ddsm115.SetCurrent | src/ddsm115.py:408-435 | `set_current` succeeds exactly when its frames are written; without auto-switch only the drive frame is attempted and the tracked modes never change; with it, success tracks current mode |
| Ddsm115.SetPosition | src/ddsm115.py:437-462 | `set_position` succeeds exactly when the needed position switch and the drive frame are both written; success adds exactly those frames and tracks position mode |
| Ddsm115.SetVelocityOnWire | src/ddsm115.py:381-406 | after a successful `set_velocity` the last frame is a CRC-valid drive frame for the motor carrying the clamped RPM, preceded by a switch exactly when one was needed |
| Ddsm115.SetCurrentOnWire | src/ddsm115.py:408-435 | the same for `set_current`, where no switch is made without auto-switch |
| Ddsm115.SetPositionOnWire | src/ddsm115.py:437-462 | the same for `set_position`, with the unsigned scaled angle |
| Ddsm115.Remember | src/ddsm115.py:512-517 | the motor's history becomes the newest 100 entries of the old history plus the new feedback; other motors' histories are unchanged |
| Bounded.PushAllKeepsNewest | src/ddsm115.py:512-517 | appending to a bounded deque one at a time keeps the newest `cap` items |
| Ddsm115.RequestFeedback | src/ddsm115.py:497-524 | feedback is returned exactly when the request is written and a valid reply for that motor comes back; it is parsed in the feedback-request layout and stored as last feedback and in the history; nothing is stored otherwise |
| Ddsm115.ScanMotors | src/ddsm115.py:581-600 | the scan returns, in increasing order, exactly the ids in the range that answered their own poll |
| Ddsm115.SetMotorId | src/ddsm115.py:602-637 | ids outside 1..10 and a disconnected driver are rejected without writing; otherwise the set-ID frame goes out five times and then a feedback request, and success means all five writes went through and the new id answered |
| Ddsm115.SafeEmergencyStop | src/ddsm115.py:187-210 | the stop, velocity-switch and zero-drive packets are written in order until a write raises; tracked modes are untouched |
| Ddsm115.EmergencyStopMotor | src/ddsm115.py:464-475 | the result is that of the stop packet alone; when it fails, nothing is written and the modes are unchanged |
| Ddsm115.EmergencyStopMotorOnWire | src/ddsm115.py:464-475 | when all writes go through, the stop packet, the raw velocity switch and a zero drive packet go out, and the motor is tracked in velocity mode |
| Ddsm115.StopThenSwitch | src/ddsm115.py:464-471 | when the writes go through, `emergency_stop` first sends the stop packet and then the raw velocity switch, leaving the motor tracked in velocity mode |
| Ddsm115.StopAll | src/ddsm115.py:158-170 | each listed motor receives its three stop packets in turn; modes are untouched; nothing is sent when disconnected |
| Ddsm115.Disconnect | src/ddsm115.py:147-185 | the driver always ends disconnected with its modes kept; when connected and every write succeeds, each motor with a tracked mode, and then ids 1-10, receives the three stop packets |
| Ddsm115.SetModeKeepsWireTrace | src/ddsm115.py:364-379 | only well-formed frames reach the wire: a CRC packet, a raw mode frame or a raw set-ID frame |
| Ddsm115.DriveInKeepsWireTrace | src/ddsm115.py:381-462 | drive calls keep the wire trace well formed |
| Ddsm115.SetVelocityKeepsWireTrace | src/ddsm115.py:381-406 | `set_velocity` keeps the wire trace well formed |
| Ddsm115.SetCurrentKeepsWireTrace | src/ddsm115.py:408-435 | `set_current` keeps the wire trace well formed |
| Ddsm115.SetPositionKeepsWireTrace | src/ddsm115.py:437-462 | `set_position` keeps the wire trace well formed |
| Ddsm115.RequestFeedbackKeepsWireTrace | src/ddsm115.py:497-524 | `request_feedback` keeps the wire trace well formed |
| Ddsm115.SetMotorIdKeepsWireTrace | src/ddsm115.py:602-637 | `set_motor_id` keeps the wire trace well formed |
| Ddsm115.SafeEmergencyStopKeepsWireTrace | src/ddsm115.py:187-210 | `_safe_emergency_stop` keeps the wire trace well formed |
| Ddsm115.EmergencyStopMotorKeepsWireTrace | src/ddsm115.py:464-475 | `emergency_stop` keeps the wire trace well formed |
| Ddsm115.StopAllKeepsWireTrace | src/ddsm115.py:158-170 | stopping a list of motors keeps the wire trace well formed |
| Ddsm115.DisconnectKeepsWireTrace | src/ddsm115.py:147-185 | `disconnect` keeps the wire trace well formed |
| Ddsm210.Frame | src/ddsm210.py:165-178 | the DDSM210 checksum is the same CRC-8 appended to the 9-byte body |
| Ddsm210.IdCommandChecksum | src/ddsm210.py:133 | the hard-coded trailing byte 0xCB of the ID command is its CRC |
| Ddsm210.QueryCommandChecksum | src/ddsm210.py:211 | the hard-coded trailing byte 0xDE of the ID query is its CRC |
| Ddsm210.BrakeCommandChecksum | src/ddsm210.py:294 | the hard-coded trailing byte 0xD1 of the brake command is its CRC |
| Ddsm210.ModeQueryCommandChecksum | src/ddsm210.py:318 | the hard-coded trailing byte 0x47 of the mode query is its CRC |
| Ddsm210.VelocityModeCommand | src/ddsm210.py:146-163 | the velocity-mode command is a CRC frame for motor 1 with command 0xA0 and mode 2 |
| Ddsm210.SendRaw | src/ddsm210.py:180-197 | a reply is returned exactly when connected, the write succeeds and exactly 10 bytes come back; the command is written exactly when connected and the write succeeds |
| Ddsm210.SendRawReplyFollowsCommand | src/ddsm210.py:180-197 | a kept reply is the first ten bytes answered to this very command, written last; a write that raises writes nothing and keeps no reply |
| Ddsm210.SendAll | src/ddsm210.py:129-144 | a command sequence is written in order whenever every attempt succeeds |
| Ddsm210.Initialize | src/ddsm210.py:129-144 | initialisation sends the ID command five times and then the velocity-mode command, and marks velocity mode set |
| Ddsm210.Connect | src/ddsm210.py:91-127 | success exactly when the port opens, leaving the driver connected and initialised; failure only clears `connected` |
| Ddsm210.VelocityUnits | src/ddsm210.py:240-248 | the command value is the RPM clamped to [-210, 210] in 0.1 RPM units, truncated |
| Ddsm210.Mask16 | src/ddsm210.py:248-251 | masking to 16 bits keeps the value modulo 65536 |
| Ddsm210.VelocityCommand | src/ddsm210.py:240-259 | the velocity frame is 10 bytes for motor 1 with the drive command and a valid CRC |
| Ddsm210.VelocityCommandDecodes | src/ddsm210.py:240-259 | bytes 2-3 of the velocity frame read back, signed, as the units, the rest of the body is zero, and the frame is CRC-valid for motor 1 |
| Ddsm210.SetVelocity | src/ddsm210.py:225-277 | the call succeeds exactly when connected and initialised; a rejected call changes nothing |
| Ddsm210.SetVelocityIgnoresId | src/ddsm210.py:225-277 | the motor-id argument never influences the outcome |
| Ddsm210.SetVelocityFromConsistent | src/ddsm210.py:225-277 | from a consistent state only the velocity frame is sent, and the last feedback is replaced by the parsed reply exactly when a full reply came back |
| Ddsm210.EmergencyStop | src/ddsm210.py:279-301 | the brake frame is written when connected; success needs a full 10-byte reply; only the port changes |
| Ddsm210.RequestFeedback | src/ddsm210.py:303-331 | feedback exactly when a full reply arrives, and then it is stored; flags are unchanged |
| Ddsm210.ParseFeedback | src/ddsm210.py:333-351 | the parser reports no motion and keeps every default field |
| Ddsm210.ScanMotors | src/ddsm210.py:199-223 | the scan returns [1] exactly when the query is written and answered with 10 bytes, and [] otherwise |
| Ddsm210.Disconnect | src/ddsm210.py:396-413 | after disconnecting, neither `connected` nor `initialized` holds; the brake frame is sent when connected |
| Ddsm210.OperationsKeepConsistent | src/ddsm210.py:91-413 | every operation keeps "initialised implies velocity mode set" |
| Diagnostic.PaddedCrc | src/motor_diagnostic.py:20-28 | an 8-byte input is padded with one zero; only the first nine bytes are used |
| Diagnostic.PaddedCrcMatchesPacket | src/motor_diagnostic.py:10-28 | the diagnostic CRC agrees with the driver's frame CRC |
| Diagnostic.ToBytes | src/motor_diagnostic.py:44 | `bytes()` accepts the list exactly when every value lies in 0..255, and keeps them in order |
| Diagnostic.SendCommand | src/motor_diagnostic.py:30-57 | the call fails exactly when the packet is not 9 bytes; otherwise those bytes plus their CRC are written |
| Diagnostic.ModeSwitchPacket | src/motor_diagnostic.py:60-63 | the mode packet is nine values: the id, 0xA0, six zeros and the mode value last |
| Diagnostic.DrivePacket | src/motor_diagnostic.py:65-70 | the drive packet is nine values: the id, 0x64, the two value bytes in 0..255, two zeros, the acceleration time, the brake and a zero |
| Diagnostic.ModeSwitchMatchesDriver | src/motor_diagnostic.py:60-63 | the mode packet equals the driver's CRC mode-switch packet, and with mode 2 it is the emergency stop's switch |
| Diagnostic.DriveMatchesDriver | src/motor_diagnostic.py:65-70 | the drive packet with no acceleration or brake equals the driver's drive packet for the signed 16-bit value |
| Diagnostic.ShiftMaskIsTwosComplement | src/motor_diagnostic.py:67-68 | `(v >> 8) & 0xFF` and `v & 0xFF` are the two's-complement bytes of v |
| Diagnostic.HelpersNeverRaise | src/motor_diagnostic.py:60-70 | both packet builders always pass the 9-byte check |
| Diagnostic.ParseErrorCode | src/motor_diagnostic.py:77-90 | the decoder returns one to five names, ["No errors"] exactly when none of bits 0-4 is set, and names the sensor error first when bit 0 is set |
| Diagnostic.ParseErrorCodeMeaning | src/motor_diagnostic.py:77-90 | the decoder lists the names of the set bits 0-4 in bit order, and returns ["No errors"] exactly when none is set |
| Diagnostic.ErrorListIsSetBitNames | src/motor_diagnostic.py:79-88 | the five fixed tests list exactly the names of the set bits |
| Diagnostic.SetBitNamesEmpty | src/motor_diagnostic.py:79-90 | no name is listed exactly when none of the bits is set |
| Diagnostic.ParseErrorCodeLowBits | src/motor_diagnostic.py:77-90 | bits 5-7 are ignored |
| Diagnostic.ErrorByteRoundTrip | src/motor_diagnostic.py:77-90 | a code built from five flags decodes to those flags, and reads "No errors" exactly when all are clear |
| CommandQueue.Enqueue | src/motor_command_queue.py:383-399 | a command with an existing key replaces it in place and counts one drop; a new key is appended; only priority 3 or more also enters the priority list |
| CommandQueue.EnqueueKeepsInv | src/motor_command_queue.py:383-399 | enqueueing keeps one pending command per key and a sorted priority list |
| CommandQueue.EnqueueReplacesOnlyItsKey | src/motor_command_queue.py:386-394 | commands with other keys survive, and the new command is the only one with its key |
| CommandQueue.Insert | src/motor_command_queue.py:397-399 | `put` adds exactly the command to the priority list |
| CommandQueue.InsertKeepsSorted | src/motor_command_queue.py:397-399 | the priority list stays ordered by descending priority, then timestamp |
| CommandQueue.PendingIsDistinctKeys | src/motor_command_queue.py:370-371 | with unique keys the store holds exactly as many commands as distinct keys |
| CommandQueue.PriorityOf | src/motor_command_queue.py:191-209 | the public setters use priority 1, except `set_mode`, which uses 2 |
| CommandQueue.Submit | src/motor_command_queue.py:191-209 | a public command never reaches the priority list; it counts a drop exactly when its key was pending, and then is the only pending command of its key while other keys stay pending |
| CommandQueue.ThreeVelocitiesCoalesce | src/motor_command_queue.py:191-194 | three `set_velocity` calls leave one entry holding the last value, with two drops |
| CommandQueue.DistinctKeysAccumulate | src/motor_command_queue.py:386-394 | commands with new, distinct keys never replace each other and drop nothing |
| CommandQueue.OldestIndex | src/motor_command_queue.py:430-434 | `min` by timestamp picks a minimal entry, the first among ties |
| CommandQueue.Select | src/motor_command_queue.py:411-434 | the head of the priority list comes first; otherwise the oldest pending command is popped from the store |
| CommandQueue.SelectKeepsInv | src/motor_command_queue.py:411-434 | selection keeps the queue invariant |
| CommandQueue.SwitchMode | src/motor_command_queue.py:587-600 | the tracked mode changes exactly when the driver's `set_mode` returns True |
| CommandQueue.DriveIn | src/motor_command_queue.py:522-535 | velocity and current commands switch only when the mode differs, fail with no drive call when the switch fails, and leave the mode tracked on success |
| CommandQueue.ExecPosition | src/motor_command_queue.py:537-559 | a motor already in position mode gets the position directly; one of unknown mode switches and then drives without a ramp |
| CommandQueue.PositionRampScenario | src/motor_command_queue.py:545-559 | a motor moving at 10 RPM or more in velocity or current mode is switched to velocity, set to 0, switched to position and then positioned |
| CommandQueue.PositionRampFailureStops | src/motor_command_queue.py:545-553 | when the ramp fails, no position switch or position command is issued |
| CommandQueue.Execute | src/motor_command_queue.py:519-585 | a non-stop command changes only the driver's call log and the tracked modes; the log only grows, and only REQUEST_FEEDBACK makes no driver call |
| CommandQueue.ExecuteTracksMode | src/motor_command_queue.py:519-585 | a successful command leaves its motor in the mode it needs, and never touches other motors' modes or the feedback |
| CommandQueue.Purge | src/motor_command_queue.py:283-304 | purging keeps exactly the entries of the other motors |
| CommandQueue.PurgeKeepsUnique | src/motor_command_queue.py:283-289 | purging keeps one command per key |
| CommandQueue.PurgeKeepsSorted | src/motor_command_queue.py:291-304 | purging keeps the priority list ordered |
| CommandQueue.StopDirect | src/motor_command_queue.py:279-332 | stop purges the motor's entries, adding one drop per entry removed; it issues the velocity switch and zero velocity unconditionally; success means both succeed; it counts once and notifies once unless a call raises |
| CommandQueue.StopSparesOtherMotors | src/motor_command_queue.py:283-326 | other motors' commands and tracked modes survive a stop |
| CommandQueue.StopKeepsInv | src/motor_command_queue.py:279-332 | stop keeps the queue invariant |
| CommandQueue.StopDominates | src/motor_command_queue.py:275-332 | after set, stop and set for one motor, only the second set is pending for it and nothing of it is urgent |
| CommandQueue.Step | src/motor_command_queue.py:401-517 | the worker idles exactly when nothing is queued; a non-stop command adds one to processed or failed, drops nothing, and appends `on_command_sent` on success and then the callback's notice |
| CommandQueue.StepKeepsInv | src/motor_command_queue.py:401-517 | one worker iteration keeps the queue invariant |
| CommandQueue.StepReportsExecute | src/motor_command_queue.py:459-486 | the worker counts a non-stop command as processed exactly when executing it succeeded, and keeps the driver and modes the execution left |
| CommandQueue.QueuedStopCountsTwice | src/motor_command_queue.py:459-486 | a STOP executed by the worker is counted and notified both inside `_emergency_stop_direct` and again by the worker |
| CommandQueue.UrgentCommandRunsTwice | src/motor_command_queue.py:383-434 | a priority-3 command is selected from the priority list and then again from the store |
| CommandQueue.RequestFeedbackNow | src/motor_command_queue.py:211-273 | a rate-limited request does nothing; otherwise a reply is stored and counted and updates the tracked mode from its byte 1 when that is a mode code; the callback is told only about a reply; the pending commands are untouched |
| CommandQueue.SetMotorId | src/motor_command_queue.py:344-359 | nothing is done when disconnected; otherwise one driver call decides the result and the callback is notified with it; nothing else in the queue changes |
| CommandQueue.OutOfBandKeepsQueue | src/motor_command_queue.py:211-359 | a feedback request and a motor-id change keep the queue invariant and the pending commands; the id change also keeps counters, modes and feedback |
| CommandQueue.RegisterScanned | src/motor_command_queue.py:178-189 | scanned ids gain an unknown mode entry, and existing entries keep theirs |
| CommandQueue.GetStats | src/motor_command_queue.py:365-381 | the success rate is processed/(processed+failed) times 100, or 0 with no commands; `pending_commands` is the store size and `queue_size` the priority-list size |
| CommandQueue.SuccessRateFull | src/motor_command_queue.py:367-368 | the rate is 100 exactly when something was processed and nothing failed |
| CommandQueue.PendingCountsKeys | src/motor_command_queue.py:370-371 | `pending_commands` is the number of distinct keys |
| DataManager.NewListener | src/motor_data_manager.py:45-50 | a new listener is active with an empty queue |
| DataManager.ShouldReceive | src/motor_data_manager.py:60-71 | an event passes exactly when the listener is active and each non-empty filter contains it |
| DataManager.UnfilteredReceivesAll | src/motor_data_manager.py:60-71 | with no filter, or an empty one, an active listener accepts every event |
| DataManager.MotorFilterExcludes | src/motor_data_manager.py:64-66 | a non-empty motor filter rejects ids outside it |
| DataManager.PutEvent | src/motor_data_manager.py:73-79 | `put_nowait` appends exactly when the queue is not full, and otherwise changes nothing |
| DataManager.PutEventKeepsBound | src/motor_data_manager.py:45-79 | a queue never exceeds its capacity, and a full one rejects |
| DataManager.Register | src/motor_data_manager.py:154-160 | registration succeeds exactly for a new name, appending the listener, and keeps names unique |
| DataManager.Unregister | src/motor_data_manager.py:162-169 | an unknown name returns False and changes nothing; a known one is deactivated and removed, and the others stay |
| DataManager.RegisterUnregisterRoundTrip | src/motor_data_manager.py:154-169 | registering then unregistering a new listener restores the manager |
| DataManager.ReceiversAreNames | src/motor_data_manager.py:248-255 | every receiver is a listener that passed the filter and had room |
| DataManager.InactiveNeverReceives | src/motor_data_manager.py:60-62 | an inactive listener never receives a broadcast |
| DataManager.Broadcast | src/motor_data_manager.py:239-256 | each listener gets the event exactly when it passes the filter and has room; `events_distributed` rises by the number of receivers |
| DataManager.DeliveredKeepsBounds | src/motor_data_manager.py:248-255 | broadcast never overfills a listener queue |
| DataManager.GetConnectedMotors | src/motor_data_manager.py:389-392 | the result is exactly the ids marked connected |
| DataManager.PresenceChange | src/motor_data_manager.py:206-237 | setting one motor's presence changes no other motor's |
| DataManager.HandleFeedback | src/motor_data_manager.py:206-223 | feedback always marks the motor connected, stores the feedback and time, counts it and broadcasts it |
| DataManager.HandleNoResponse | src/motor_data_manager.py:225-237 | a motor that was not connected is left alone; otherwise it is marked disconnected and every listener is handed the status-change event carrying its last-seen time |
| DataManager.NoResponseTwice | src/motor_data_manager.py:225-237 | a second silent poll changes nothing, so the status change is emitted once |
| DataManager.NewGraph | src/motor_data_manager.py:405-415 | the graph listener filters on feedback events, with a 200-event queue |
| DataManager.GraphTakesOnlyFeedback | src/motor_data_manager.py:408-410 | the graph listener accepts exactly the feedback events |
| DataManager.ProcessEvents | src/motor_data_manager.py:417-442 | draining the queue leaves each motor's series as the newest 200 of its old points plus its new samples, in order |

## Left out

- Serial port opening, timeouts and byte timing are the port oracle (`Link.Port`). `connect` of both drivers is reduced to whether the port opened.
- Threads, locks, sleeps and the monitoring loops are not modelled. The worker loop and its consecutive-error backoff are reduced to one `Step`, and the feedback worker and monitor loops are left out.
- The rate limiters are left out. The feedback limiter is the `tooSoon` parameter of `CommandQueue.RequestFeedbackNow`.
- Floating point is modelled as exact reals, with Python `int()` as truncation toward zero. IEEE rounding is not modelled.
- DDSM115 motor ids are bytes. Out-of-range ids, which Python rejects when building `bytes`, are not modelled.
- `brake`, `release_brake`, `enable`, `disable` and `calibrate_position` are not modelled separately. Each is one `send_packet` with a fixed command byte and zero data, so `Ddsm115.SendPacket` covers them.
- Ddsm115.Disconnect: the known motor ids are a parameter that must list each tracked id once. Their order, which is the dictionary order of `current_mode`, is not fixed by the model.
- Ddsm115.SetMotorId: the per-write `serial_port.is_open` test is modelled by the driver's connection flag, which cannot change during the five writes. A port closing part-way is not modelled; it returns False, as a write that raises does.
- Callback and `on_error` exceptions are not modelled. Only `on_command_sent` and the per-call callbacks are recorded, as notices; the `on_feedback(motor_id, feedback)` hook (src/motor_command_queue.py:252-254) and the `on_error` messages are not, because they report to the user interface and change no queue state.
- A tie in the priority queue's sort key would make Python compare commands and raise. It is modelled as insertion after equal keys.
- `connect`, `disconnect` and `_detect_motor_type` of the queue are not modelled: they depend on hardware auto-detection.
- The DDSM210 has no `set_mode`, `set_current` or `enable`. A queue stop on a DDSM210 raises, which is the `Raised` outcome of the abstract driver.
- CommandQueue.RequestFeedbackNow: the driver's reply is a parameter rather than derived from the port.
- The data manager's command methods, `connect`/`disconnect`, uptime, `get_event`/`get_all_events`, `clear_data`, `get_plot_data` and `UIStatusListener` are not modelled. Of these, `stop_motor` calls a `stop` method that the DDSM115 driver does not define, so it would always fail.
- The diagnostic tool's `send_feedback_request` and `main` are not modelled: they only print replies.
- The GUI, documentation loader, scripts and tests are outside this model.
