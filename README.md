# A verified model of the PX4 SITL Gazebo MAVLink interface plugin

The plugin `GazeboMavlinkInterface` connects a Gazebo simulation of a
quadrotor to an autopilot running hardware-in-the-loop. It has three jobs:

- It receives HIL_CONTROLS messages (MAVLink id 91), either from a UDP
  socket in `handle_message` or from the Gazebo transport in
  `HilControlCallback`. Each one becomes four motor speed references,
  `u * 150 + 600`, and the plugin is armed from then on.
- On every world update (`OnUpdate`) it polls the socket. Once armed, it
  publishes the references and, at the GPS rate, sends a HIL_GPS message
  (id 113).
- On every IMU message (`ImuCallback`) it sends a HIL_SENSOR message
  (id 107).

With MAVLink over UDP, the HIL messages are packed C structs that
`send_mavlink_message` frames by hand as MAVLink v1. The frame has a
6-byte header, the payload, and an X.25 checksum over the header tail, the
payload and the message's CRC extra byte.

The model is split into one module per part of the plugin:

- `Bytes`: little-endian storage of integer fields (the plugin copies
  structs with `memcpy` on a little-endian host).
- `Checksum`: the X.25 / CRC-16/MCRF4XX accumulation that
  `send_mavlink_message` calls (`crc_init`, `crc_accumulate_buffer`,
  `crc_accumulate`).
- `Framing`: the frame builder, written as imperative code over a byte
  array as `send_mavlink_message` writes it. It is proved against `Frame`,
  a function on sequences, and against `Decode`, the frame test of a
  MAVLink v1 receiver.
- `Messages`: the HIL_GPS and HIL_SENSOR records, what the plugin stores
  in them, their wire payloads and decoders, and the `time_usec`
  computation.
- `Control`: the control path as functions. It covers the eight channels,
  the affine reference map, the armed flag, a batch of parsed messages, and
  the agreement between the two control paths.
- `Gating`: the armed gate and GPS-rate gate of `OnUpdate` as functions,
  with lemmas about whole runs.
- `MavlinkInterface`: the plugin object as a class. Its fields are the
  control array, the reference vector, the armed flag and the two clocks.
  Its methods update that state in place, and each is proved against the
  functions of the modules above. Outbound traffic is appended to logs: the
  datagrams handed to `sendto`, the published motor speed messages, and the
  protobuf GPS and sensor messages.

## Model

| member | source | states |
|---|---|---|
| Bytes.FromLittleEndianInverse | src/gazebo_mavlink_interface.cpp:228 | reading back an n-byte little-endian store of x gives x whenever x fits in n bytes; this is why a receiver recovers every copied field |
| Checksum.Accumulate | src/gazebo_mavlink_interface.cpp:234 | one crc_accumulate step, computed the library's way (table entry from the scrambled low byte), equals the bit-serial X.25 update: the data byte xored into the register, then eight shift-and-xor steps with the reflected polynomial 0x8408 |
| Checksum.AccumulateBuffer | src/gazebo_mavlink_interface.cpp:233 | crc_accumulate_buffer over `length` bytes of the buffer from `start` leaves the register that accumulating that slice byte by byte gives |
| Checksum.AccumulateInjectiveInData | src/gazebo_mavlink_interface.cpp:234 | for a fixed register, two different data bytes give two different registers after one crc_accumulate |
| Checksum.AccumulateInjectiveInRegister | src/gazebo_mavlink_interface.cpp:234 | for a fixed data byte, crc_accumulate maps different registers to different registers |
| Checksum.SingleByteChangeDetected | src/gazebo_mavlink_interface.cpp:232-233 | two byte sequences of equal length that differ in exactly one position accumulate to different checksums from the same start |
| Checksum.CheckValue | src/gazebo_mavlink_interface.cpp:232-233 | from crc_init's 0xFFFF, the bytes "123456789" give 0x6F91, the published check value of CRC-16/MCRF4XX |
| Framing.Frame | src/gazebo_mavlink_interface.cpp:211-237 | the frame built for a message is the table length + 8 bytes long, and starts with 0xFE, the payload length and, at byte 5, the message id |
| Framing.FrameHeader | src/gazebo_mavlink_interface.cpp:212-225 | a frame is table length + 8 bytes (at most 263) and starts 0xFE, the payload length, sequence 100, system 0, component 0, the message id |
| Framing.FrameBody | src/gazebo_mavlink_interface.cpp:228-237 | bytes 6 .. 5+len are the first len bytes of the struct; then come the low and the high byte of the checksum over bytes 1 .. 5+len and the CRC extra byte |
| Framing.DecodeFrame | src/gazebo_mavlink_interface.cpp:211-237 | a receiver using the same tables accepts every frame the plugin builds and recovers sequence 100, system 0, component 0, the message id and exactly the copied payload |
| Framing.FrameIntact | src/gazebo_mavlink_interface.cpp:219-237 | every frame the plugin builds has a good start byte, a length consistent with its size and its table entry, and a matching checksum trailer |
| Framing.RejectsChangedLength | src/gazebo_mavlink_interface.cpp:220 | in an intact frame, changing the length byte to any other value makes a receiver reject the frame |
| Framing.RejectsChangedCovered | src/gazebo_mavlink_interface.cpp:222-234 | in an intact frame, changing any one byte among sequence, system, component and payload makes a receiver reject the frame |
| Framing.RejectsChangedTrailer | src/gazebo_mavlink_interface.cpp:236-237 | in an intact frame, changing either checksum byte makes a receiver reject the frame |
| Framing.CorruptionDetected | src/gazebo_mavlink_interface.cpp:211-237 | changing any one byte of a built frame other than the message id (start byte, length, header, payload or trailer) makes a receiver reject the frame |
| Framing.CopyPayload | src/gazebo_mavlink_interface.cpp:228 | the memcpy leaves the header bytes alone, puts the first len bytes of the struct at 6 .. 5+len, and leaves everything after them alone |
| Framing.WriteHeader | src/gazebo_mavlink_interface.cpp:219-225 | buf[0..6] becomes 0xFE, length, 100, 0, component, msgid and nothing else changes |
| Framing.WriteTrailer | src/gazebo_mavlink_interface.cpp:236-237 | the checksum's low byte and then its high byte are written at the offset, and nothing else changes |
| Framing.WriteChecksum | src/gazebo_mavlink_interface.cpp:231-237 | given the start byte and the covered bytes in the buffer, the checksum steps and the trailer writes leave the assembled frame, and nothing past it changes |
| Framing.WriteHeaderAndPayload | src/gazebo_mavlink_interface.cpp:212-228 | with component_ID forced to 0, the header writes and the memcpy leave the start byte followed by the covered bytes |
| Framing.WriteFrame | src/gazebo_mavlink_interface.cpp:218-237 | the buffer's first len + 8 bytes become exactly `Frame`, and the rest of the buffer is untouched |
| Framing.BuildFrame | src/gazebo_mavlink_interface.cpp:211-239 | packet_len is the table length + 8, the first packet_len bytes of the stack buffer are the frame whatever component id was passed, and the bytes past it are the buffer's prior contents |
| Messages.TimeUsec | src/gazebo_mavlink_interface.cpp:143 | the corrected timestamp: the whole microseconds of the simulation time (t * 1000 <= now < t * 1000 + 1000) |
| Messages.TimeUsecMonotone | src/gazebo_mavlink_interface.cpp:143 | the corrected timestamp never decreases as simulation time advances |
| Messages.TimeUsecAsWritten | src/gazebo_mavlink_interface.cpp:143 | the code's timestamp is the nanoseconds into the current second times 1000 whenever that product fits an int |
| Messages.TimeUsecAsWrittenRunsBackwards | src/gazebo_mavlink_interface.cpp:143 | from 1 ms to 1 s of simulation time the code's timestamp drops from 10^9 to 0, while the corrected one rises from 1000 to 10^6 |
| Messages.TimeUsecAsWrittenOverflows | src/gazebo_mavlink_interface.cpp:261 | at 3 ms the int product 3 * 10^9 wraps, and the uint64 field gets 18446744072414584320 instead of 3000 |
| Messages.Wrap32 | src/gazebo_mavlink_interface.cpp:143 | the 32-bit two's complement result of an int computation is congruent to the exact value modulo 2^32 |
| Messages.Int32ToUint64 | src/gazebo_mavlink_interface.cpp:143 | storing an int in the uint64 time_usec keeps a non-negative value and adds 2^64 to a negative one |
| Messages.Signed16Unsigned16 | src/gazebo_mavlink_interface.cpp:151-153 | the two's complement bit pattern of an int16 velocity field reads back as the same value |
| Messages.Signed32Unsigned32 | src/gazebo_mavlink_interface.cpp:145-147 | the two's complement bit pattern of an int32 position field reads back as the same value |
| Messages.GpsRecord | src/gazebo_mavlink_interface.cpp:142-155 | the HIL_GPS record has fix_type 3, eph = epv = 100 and 10 visible satellites, the given timestamp, and exactly the given position and velocity fields |
| Messages.SensorRecord | src/gazebo_mavlink_interface.cpp:260-275 | the HIL_SENSOR record has a zero abs_pressure, a zero temperature and fields_updated 4095, the given timestamp, and exactly the given IMU, magnetic, pressure and altitude fields |
| Messages.EncodeGps | src/gazebo_mavlink_interface.cpp:142-157 | the HIL_GPS payload the memcpy reads is 36 bytes, the table length of id 113 |
| Messages.EncodeSensor | src/gazebo_mavlink_interface.cpp:260-277 | the HIL_SENSOR payload the memcpy reads is 64 bytes, the table length of id 107 |
| Messages.GpsLayout | src/gazebo_mavlink_interface.cpp:142-155 | each of the 13 HIL_GPS fields lies at its wire offset, little-endian, signed fields as two's complement |
| Messages.SensorLayout | src/gazebo_mavlink_interface.cpp:260-275 | each of the 15 HIL_SENSOR fields lies at its wire offset, little-endian |
| Messages.GpsRoundTrip | src/gazebo_mavlink_interface.cpp:142-157 | a receiver's HIL_GPS decoder recovers every field of the record from its payload |
| Messages.SensorRoundTrip | src/gazebo_mavlink_interface.cpp:260-277 | a receiver's HIL_SENSOR decoder recovers every field of the record from its payload |
| Messages.GpsConstantBytes | src/gazebo_mavlink_interface.cpp:144-155 | every HIL_GPS payload OnUpdate sends carries eph = epv = 100 at bytes 20 .. 23, fix_type 3 at byte 34 and 10 satellites at byte 35, whatever the simulator state |
| Messages.SensorConstantBytes | src/gazebo_mavlink_interface.cpp:271-275 | every HIL_SENSOR payload ImuCallback sends has a zero abs_pressure at bytes 44 .. 47, a zero temperature at 56 .. 59 and fields_updated 4095 at 60 .. 63 |
| Control.Channels | src/gazebo_mavlink_interface.cpp:326-333 | the control assignments fill exactly the eight channels of inputs.control |
| Control.MotorSpeedInverse | src/gazebo_mavlink_interface.cpp:336-342 | the map u * 150 + 600 is invertible: the control input can be read back from each reference |
| Control.MotorSpeedIncreasing | src/gazebo_mavlink_interface.cpp:336-342 | a larger control input gives a strictly larger motor speed reference |
| Control.Reference | src/gazebo_mavlink_interface.cpp:339-343 | input_reference_ has exactly one entry per rotor |
| Control.ReferenceRecoversChannels | src/gazebo_mavlink_interface.cpp:339-343 | reference entry i corresponds to channel i for every rotor i |
| Control.ReferenceDependsOnRotorChannels | src/gazebo_mavlink_interface.cpp:339-343 | two control vectors give the same references if and only if they agree on the first rotor-count channels; the other channels are discarded |
| Control.Apply | src/gazebo_mavlink_interface.cpp:326-345 | applying HIL_CONTROLS leaves eight channels and an armed plugin |
| Control.ApplyExample | src/gazebo_mavlink_interface.cpp:336-343 | with four rotors, roll 0.1 and throttle 0.5 give references 615, 600, 600, 675 |
| Control.Handle | src/gazebo_mavlink_interface.cpp:320-347 | handle_message leaves the plugin armed if and only if it was armed or the message is HIL_CONTROLS; it keeps eight channels; any other message id changes nothing |
| Control.HandleEffect | src/gazebo_mavlink_interface.cpp:322-347 | a HIL_CONTROLS message sets the channels from its fields, arms the plugin and sets one reference per rotor from its channel; any other message id leaves the state unchanged |
| Control.HandleIdempotent | src/gazebo_mavlink_interface.cpp:322-347 | handling the same message twice has the effect of handling it once |
| Control.HandleAll | src/gazebo_mavlink_interface.cpp:308-315 | handling a poll's messages in order never disarms the plugin and keeps eight channels |
| Control.HandleAllArmed | src/gazebo_mavlink_interface.cpp:308-315 | after a poll's messages the plugin is armed if and only if it was armed before or the batch held a HIL_CONTROLS; the flag never goes back |
| Control.HandleAllIgnoresOthers | src/gazebo_mavlink_interface.cpp:308-315 | a batch without HIL_CONTROLS leaves the control state unchanged |
| Control.HandleAllLastControlsWins | src/gazebo_mavlink_interface.cpp:308-345 | after a batch, the control state is the one its last HIL_CONTROLS sets, whatever came before it |
| Control.Callback | src/gazebo_mavlink_interface.cpp:181-209 | with MAVLink UDP on, HilControlCallback changes nothing; otherwise it arms the plugin, sets the eight channels from the message and one reference per rotor |
| Control.CallbackMatchesHandle | src/gazebo_mavlink_interface.cpp:181-209 | HilControlCallback does nothing with MAVLink UDP on and otherwise has the effect of handle_message on HIL_CONTROLS with the same fields |
| Gating.Step | src/gazebo_mavlink_interface.cpp:100-177 | an update publishes exactly when armed; it sends GPS only when it publishes, and then moves the GPS clock to now; a publishing update records now as last_time_; an unarmed one changes neither clock |
| Gating.StepUnarmedInert | src/gazebo_mavlink_interface.cpp:100-101 | before the first reference an update publishes nothing, sends no GPS and records no time |
| Gating.StepArmed | src/gazebo_mavlink_interface.cpp:108-177 | once armed, every update publishes and records its time; it sends GPS if and only if more than the period has passed since the last GPS; it then moves the GPS clock to now, otherwise it keeps the clock |
| Gating.StepStrictAtPeriod | src/gazebo_mavlink_interface.cpp:138 | exactly one period after the last GPS message none is sent; one nanosecond later one is |
| Gating.StepsSpacing | src/gazebo_mavlink_interface.cpp:138-177 | over any armed run, consecutive GPS messages are more than one period apart, the first is more than a period after the starting GPS time, and the GPS clock ends at the last one sent |
| Gating.StepsWithinPeriod | src/gazebo_mavlink_interface.cpp:136-177 | after every armed update the GPS clock is at most one period behind the update time, and last_time_ is the update time |
| MavlinkInterface.Resize | src/gazebo_mavlink_interface.cpp:339 | std::vector resize: n entries, the old ones kept and new ones 0.0 |
| MavlinkInterface.GazeboMavlinkInterface.constructor | src/gazebo_mavlink_interface.cpp:65-67 | four rotors, both clocks at the start time, not armed, no reference, nothing emitted |
| MavlinkInterface.GazeboMavlinkInterface.SetControls | src/gazebo_mavlink_interface.cpp:326-333 | inputs.control holds the eight channels of the message |
| MavlinkInterface.GazeboMavlinkInterface.HandleMessage | src/gazebo_mavlink_interface.cpp:320-348 | the control state becomes `Handle` of the old one, and clocks and outputs are unchanged |
| MavlinkInterface.GazeboMavlinkInterface.HilControlCallback | src/gazebo_mavlink_interface.cpp:181-209 | the control state becomes `Callback` of the old one (the speeds collected in the message and copied back), and clocks and outputs are unchanged |
| MavlinkInterface.GazeboMavlinkInterface.PollForMavlinkMessages | src/gazebo_mavlink_interface.cpp:299-318 | handling the parsed messages in order takes the control state to `HandleAll` of the batch, and nothing else changes |
| MavlinkInterface.GazeboMavlinkInterface.SendMavlinkMessage | src/gazebo_mavlink_interface.cpp:211-243 | exactly the frame of the message is appended to the datagrams sent, and nothing else changes |
| MavlinkInterface.GazeboMavlinkInterface.ImuCallback | src/gazebo_mavlink_interface.cpp:245-297 | one HIL_SENSOR record with the corrected timestamp, zero pressure and temperature, and fields 4095 goes out, framed over UDP or as a protobuf message, and nothing else changes |
| MavlinkInterface.GazeboMavlinkInterface.SendGps | src/gazebo_mavlink_interface.cpp:140-175 | one HIL_GPS record with fix 3, eph = epv = 100 and 10 satellites goes out, framed over UDP or as a protobuf message, and nothing else changes |
| MavlinkInterface.GazeboMavlinkInterface.PublishAndGate | src/gazebo_mavlink_interface.cpp:105-178 | the references are published, the clocks move as `Step` says, and a GPS message goes out exactly when `Step` says so |
| MavlinkInterface.GazeboMavlinkInterface.OnUpdate | src/gazebo_mavlink_interface.cpp:96-179 | the poll takes the control state to `HandleAll` of its messages; then publishing, the clocks and GPS follow `Step` on the resulting armed flag, and sensor output is untouched |
| MavlinkInterface.SensorDatagramDecodes | src/gazebo_mavlink_interface.cpp:259-277 | a receiver accepts every HIL_SENSOR datagram as id 107 with sequence 100, system 0, component 0, and its payload decodes to the record sent |
| MavlinkInterface.GpsDatagramDecodes | src/gazebo_mavlink_interface.cpp:140-157 | a receiver accepts every HIL_GPS datagram as id 113 with sequence 100, system 0, component 0, and its payload decodes to the record sent |

## Left out

- The socket and the transport: socket creation, `poll`, `recvfrom`,
  `sendto` and its error message, and the Gazebo publish/subscribe calls.
  A poll's delivered messages are a parameter, and what is sent or
  published is appended to logs in the class.
- The MAVLink library is not part of this model. `mavlink_parse_char`,
  `mavlink_msg_hil_controls_decode`, the message tables and the checksum
  routines are outside it. The parser is abstracted to the sequence of
  messages it yields. The tables are a parameter that must hold the HIL
  entries (91: 42/63, 107: 64/108, 113: 36/124). The checksum is written
  out from the X.25 definition and pinned down by its standard check
  value.
- Floating point: the GPS projection, the velocity and course conversions,
  the magnetic field rotation and the dynamic pressure. The model takes
  their results as given: integers for the GPS fields, IEEE bit patterns
  for the sensor floats. Control values and references are reals, which
  ignores double rounding. The protobuf course-over-ground, computed from
  unrounded velocities, is not distinguished from the UDP one, computed
  from the rounded integers.
- In `Load`, the local `gps_update_interval_` shadows the member, and
  `common::Time` reads its double as seconds. So the period the gate
  compares against is a constructor parameter. The rest of `Load` is left
  out: topics, namespace, gravity, magnetic field and socket setup,
  including its early return after a failed `socket`.
- `inputs.control` starts as eight zeros. Its initial value is not set in
  this file.
- The uninitialised stack buffer of `send_mavlink_message` is a parameter
  of `BuildFrame`. `SendMavlinkMessage` passes zeros. Only bytes past the
  frame depend on it, and only the frame is sent.
- The motor speed message allocated with `new` in `HilControlCallback` is
  never freed. The model does not represent the leak.
- `ImuCallback` is not gated by the armed flag, and the model follows the
  code.
- The GPS gate compares with a strict `>`. An elapsed time of exactly one
  period sends nothing (`Gating.StepStrictAtPeriod`).
- Messages.TimeUsec: the records use the corrected timestamp (see
  Findings). The code's value is modelled separately as
  `Messages.TimeUsecAsWritten`. The corrected value wraps modulo 2^64
  beyond 2^64 microseconds, and its contract is stated only below that
  bound.
- ImuCallback: the HIL_SENSOR record it sends, over UDP or protobuf, is
  stamped with the corrected `TimeUsec(now)`, not the code's `nsec*1000`
  (`Messages.TimeUsecAsWritten`, see Findings).
- SendGps: the HIL_GPS record it sends, over UDP or protobuf, is stamped
  with the corrected `TimeUsec(now)`, not the code's `nsec*1000`.
- PublishAndGate: the GPS datagram or record its contract states carries
  the corrected `TimeUsec(now)`, not the code's `nsec*1000`.
- OnUpdate: the GPS datagram or record its contract states carries the
  corrected `TimeUsec(now)`, not the code's `nsec*1000`.
- HilControlCallback: the speeds pass through the `motor_speed` field of a
  `CommandMotorSpeed` message before they reach `input_reference_`. If
  that field is single precision, the callback path rounds the references
  to float, while `handle_message` keeps them in double. The message
  definition is not part of this model, and the narrowing is not modelled:
  both paths are proved to give the same real-valued references.
- Messages.Wrap32: signed int overflow is undefined behaviour in C++. The
  model takes the two's complement wrap-around that the usual compilers
  produce.

## Findings

| source | as written | input that shows it | evidently intended | confidence | as-written member | corrected member |
|---|---|---|---|---|---|---|
| src/gazebo_mavlink_interface.cpp:143 | HIL_GPS `time_usec` is `current_time.nsec*1000`: the nanoseconds into the current second multiplied (not divided) by 1000 in int arithmetic | simulation time 1 ms gives 10^9, and 1 s gives 0: the timestamp runs backwards (`Messages.TimeUsecAsWrittenRunsBackwards`) | microseconds since the simulation started, `now / 1000`, never decreasing | not executed | Messages.TimeUsecAsWritten | Messages.TimeUsec |
| src/gazebo_mavlink_interface.cpp:261 | HIL_SENSOR `time_usec` is the same product; once the nanoseconds into the current second exceed 2147483 (about 2.15 ms) it overflows int | simulation time 3 ms gives 18446744072414584320 instead of 3000 (`Messages.TimeUsecAsWrittenOverflows`) | microseconds since the simulation started, 3000 | not executed | Messages.TimeUsecAsWritten | Messages.TimeUsec |
| src/gazebo_mavlink_interface.cpp:160 | the protobuf HIL_GPS timestamp uses the same product | simulation time 1 s gives 0, as on line 143 | microseconds since the simulation started | not executed | Messages.TimeUsecAsWritten | Messages.TimeUsec |
| src/gazebo_mavlink_interface.cpp:279 | the protobuf HIL_SENSOR timestamp uses the same product | simulation time 3 ms overflows, as on line 261 | microseconds since the simulation started | not executed | Messages.TimeUsecAsWritten | Messages.TimeUsec |
