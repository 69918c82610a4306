/** The plugin object, GazeboMavlinkInterface: its control state, its two
    clocks and the messages it emits, updated in place by its callbacks.
    The simulator, the sockets and the Gazebo transport are outside: the
    simulation time, the messages the MAVLink parser delivers and the
    values derived from the simulator's state come in as parameters, and
    what goes out is appended to logs: the datagrams handed to sendto, the
    motor speed messages and the protobuf HIL_GPS and HIL_SENSOR messages. */
module MavlinkInterface {
  import opened Bytes
  import opened Framing
  import opened Messages
  import opened Control
  import opened Gating

  /** std::vector<double>::resize: keeps the first n entries, pads with 0.0. */
  function Resize(s: seq<real>, n: nat): (r: seq<real>)
    ensures |r| == n
    ensures forall i :: 0 <= i < n && i < |s| ==> r[i] == s[i]
    ensures forall i :: |s| <= i < n ==> r[i] == 0.0
  {
    if n <= |s| then s[..n] else s + seq(n - |s|, _ => 0.0)
  }

  /** Everything the plugin has emitted so far. */
  datatype Outputs = Outputs(
    datagrams: seq<seq<byte>>, motorSpeeds: seq<seq<real>>, gps: seq<HilGps>, sensor: seq<HilSensor>)

  class GazeboMavlinkInterface {
    /** mavlink_message_lengths and mavlink_message_crcs. */
    const tables: Tables
    /** use_mavlink_udp: MAVLink over UDP, or protobuf over the Gazebo transport. */
    const useMavlinkUdp: bool
    /** gps_update_interval_, in nanoseconds. */
    const gpsPeriod: nat
    /** _rotor_count. */
    const rotorCount: nat
    /** inputs.control. */
    const control: array<real>

    var inputReference: seq<real>
    var receivedFirstReference: bool
    var lastTime: nat
    var lastGpsTime: nat

    var datagrams: seq<seq<byte>>
    var motorSpeeds: seq<seq<real>>
    var gpsMessages: seq<HilGps>
    var sensorMessages: seq<HilSensor>

    ghost predicate Valid()
      reads this
    {
      control.Length == NUM_CONTROLS && rotorCount <= NUM_CONTROLS && HasHilEntries(tables)
    }

    function ControlView(): ControlState
      reads this, control
    {
      ControlState(control[..], inputReference, receivedFirstReference)
    }

    function GateView(): Gate
      reads this
    {
      Gate(lastTime, lastGpsTime)
    }

    function OutputsView(): Outputs
      reads this
    {
      Outputs(datagrams, motorSpeeds, gpsMessages, sensorMessages)
    }

    /** The parts of Load this model covers: four rotors, both clocks at
        the current simulation time, not armed, nothing emitted. */
    constructor(tables: Tables, useMavlinkUdp: bool, gpsPeriod: nat, start: nat)
      requires HasHilEntries(tables)
      ensures Valid() && fresh(control)
      ensures this.tables == tables && this.useMavlinkUdp == useMavlinkUdp && this.gpsPeriod == gpsPeriod
      ensures rotorCount == 4
      ensures control[..] == seq(NUM_CONTROLS, _ => 0.0)
      ensures inputReference == [] && !receivedFirstReference
      ensures GateView() == Gate(start, start)
      ensures OutputsView() == Outputs([], [], [], [])
    {
      this.tables := tables;
      this.useMavlinkUdp := useMavlinkUdp;
      this.gpsPeriod := gpsPeriod;
      rotorCount := 4;
      control := new real[NUM_CONTROLS](_ => 0.0);
      inputReference := [];
      receivedFirstReference := false;
      lastTime := start;
      lastGpsTime := start;
      datagrams := [];
      motorSpeeds := [];
      gpsMessages := [];
      sensorMessages := [];
    }

    /** The eight assignments to inputs.control. */
    method SetControls(c: HilControls)
      requires Valid()
      modifies control
      ensures control[..] == Channels(c)
    {
      control[0] := c.rollAilerons;
      control[1] := c.pitchElevator;
      control[2] := c.yawRudder;
      control[3] := c.throttle;
      control[4] := c.aux1;
      control[5] := c.aux2;
      control[6] := c.aux3;
      control[7] := c.aux4;
    }

    /** handle_message. */
    method HandleMessage(m: Message)
      requires Valid()
      modifies this, control
      ensures Valid()
      ensures ControlView() == Handle(old(ControlView()), m, rotorCount)
      ensures GateView() == old(GateView()) && OutputsView() == old(OutputsView())
    {
      if m.msgid == MAVLINK_MSG_ID_HIL_CONTROLS {
        SetControls(m.controls);
        inputReference := Resize(inputReference, rotorCount);
        var i := 0;
        while i < rotorCount
          invariant 0 <= i <= rotorCount && |inputReference| == rotorCount
          invariant control[..] == Channels(m.controls)
          invariant forall j :: 0 <= j < i ==> inputReference[j] == MotorSpeed(control[j])
          invariant GateView() == old(GateView()) && OutputsView() == old(OutputsView())
        {
          inputReference := inputReference[i := control[i] * SCALING + OFFSET];
          i := i + 1;
        }
        assert inputReference == Reference(control[..], rotorCount);
        receivedFirstReference := true;
      }
    }

    /** HilControlCallback: the same update from the Gazebo transport, only
        when MAVLink UDP is off. The speeds are first collected in a motor
        speed message, then copied into input_reference_. */
    method HilControlCallback(rmsg: HilControls)
      requires Valid()
      modifies this, control
      ensures Valid()
      ensures ControlView() == Callback(old(ControlView()), rmsg, rotorCount, useMavlinkUdp)
      ensures GateView() == old(GateView()) && OutputsView() == old(OutputsView())
    {
      if !useMavlinkUdp {
        SetControls(rmsg);
        var speeds: seq<real> := [];
        for i := 0 to rotorCount
          invariant |speeds| == i
          invariant forall j :: 0 <= j < i ==> speeds[j] == MotorSpeed(control[j])
          invariant control[..] == Channels(rmsg)
          invariant GateView() == old(GateView()) && OutputsView() == old(OutputsView())
        {
          speeds := speeds + [control[i] * SCALING + OFFSET];
        }
        inputReference := Resize(inputReference, |speeds|);
        for i := 0 to |speeds|
          invariant |inputReference| == |speeds|
          invariant forall j :: 0 <= j < i ==> inputReference[j] == speeds[j]
          invariant control[..] == Channels(rmsg)
          invariant GateView() == old(GateView()) && OutputsView() == old(OutputsView())
        {
          inputReference := inputReference[i := speeds[i]];
        }
        assert inputReference == Reference(control[..], rotorCount);
        receivedFirstReference := true;
      }
    }

    /** pollForMAVLinkMessages, from the messages the parser delivers out of
        one received datagram. */
    method PollForMavlinkMessages(msgs: seq<Message>)
      requires Valid()
      modifies this, control
      ensures Valid()
      ensures ControlView() == HandleAll(old(ControlView()), msgs, rotorCount)
      ensures GateView() == old(GateView()) && OutputsView() == old(OutputsView())
    {
      var i := 0;
      while i < |msgs|
        invariant 0 <= i <= |msgs| && Valid()
        invariant ControlView() == HandleAll(old(ControlView()), msgs[..i], rotorCount)
        invariant GateView() == old(GateView()) && OutputsView() == old(OutputsView())
      {
        assert msgs[..i + 1][..i] == msgs[..i];
        HandleMessage(msgs[i]);
        i := i + 1;
      }
      assert msgs[..i] == msgs;
    }

    /** send_mavlink_message: the datagram handed to sendto is the frame. */
    method SendMavlinkMessage(msgid: byte, msg: seq<byte>, componentId: byte)
      requires Valid() && tables.lengths[msgid] as nat <= |msg|
      modifies this
      ensures datagrams == old(datagrams) + [Frame(tables, msgid, msg)]
      ensures motorSpeeds == old(motorSpeeds) && gpsMessages == old(gpsMessages)
      ensures sensorMessages == old(sensorMessages)
      ensures ControlView() == old(ControlView()) && GateView() == old(GateView())
    {
      var stack := seq(MAVLINK_MAX_PACKET_LEN, _ => 0 as byte);
      var buffer, packetLen := BuildFrame(tables, msgid, msg, componentId, stack);
      datagrams := datagrams + [buffer[..packetLen]];
    }

    /** ImuCallback, at simulation time now. */
    method ImuCallback(now: nat, r: SensorReadings)
      requires Valid()
      modifies this
      ensures var m := SensorRecord(TimeUsec(now), r);
        OutputsView() == if useMavlinkUdp
          then old(OutputsView()).(datagrams := old(datagrams) + [Frame(tables, MAVLINK_MSG_ID_HIL_SENSOR, EncodeSensor(m))])
          else old(OutputsView()).(sensor := old(sensorMessages) + [m])
      ensures ControlView() == old(ControlView()) && GateView() == old(GateView())
    {
      var m := SensorRecord(TimeUsec(now), r);
      if useMavlinkUdp {
        SendMavlinkMessage(MAVLINK_MSG_ID_HIL_SENSOR, EncodeSensor(m), 200);
      } else {
        sensorMessages := sensorMessages + [m];
      }
    }

    /** The GPS branch of OnUpdate. */
    method SendGps(now: nat, k: GpsKinematics)
      requires Valid()
      modifies this
      ensures var m := GpsRecord(TimeUsec(now), k);
        OutputsView() == if useMavlinkUdp
          then old(OutputsView()).(datagrams := old(datagrams) + [Frame(tables, MAVLINK_MSG_ID_HIL_GPS, EncodeGps(m))])
          else old(OutputsView()).(gps := old(gpsMessages) + [m])
      ensures ControlView() == old(ControlView()) && GateView() == old(GateView())
    {
      var m := GpsRecord(TimeUsec(now), k);
      if useMavlinkUdp {
        SendMavlinkMessage(MAVLINK_MSG_ID_HIL_GPS, EncodeGps(m), 200);
      } else {
        gpsMessages := gpsMessages + [m];
      }
    }

    /** What OnUpdate does once armed: publish the motor speeds, record the
        step time, and send HIL_GPS when the GPS period has passed. */
    method PublishAndGate(now: nat, k: GpsKinematics)
      requires Valid()
      modifies this
      ensures var o := Step(old(GateView()), true, now, gpsPeriod);
        && GateView() == o.gate
        && motorSpeeds == old(motorSpeeds) + [inputReference]
        && sensorMessages == old(sensorMessages)
        && (!o.gpsSent ==> datagrams == old(datagrams) && gpsMessages == old(gpsMessages))
        && (o.gpsSent && useMavlinkUdp ==>
              datagrams == old(datagrams) + [Frame(tables, MAVLINK_MSG_ID_HIL_GPS, EncodeGps(GpsRecord(TimeUsec(now), k)))]
              && gpsMessages == old(gpsMessages))
        && (o.gpsSent && !useMavlinkUdp ==>
              gpsMessages == old(gpsMessages) + [GpsRecord(TimeUsec(now), k)] && datagrams == old(datagrams))
      ensures ControlView() == old(ControlView())
    {
      motorSpeeds := motorSpeeds + [inputReference];
      var currentTime := now;
      lastTime := currentTime;
      if currentTime as int - lastGpsTime as int > gpsPeriod as int {
        SendGps(currentTime, k);
        lastGpsTime := currentTime;
      }
    }

    /** OnUpdate at simulation time now, with the messages the poll delivers
        and the GPS quantities derived from the model's pose. */
    method OnUpdate(now: nat, msgs: seq<Message>, k: GpsKinematics)
      requires Valid()
      modifies this, control
      ensures Valid()
      ensures ControlView() == HandleAll(old(ControlView()), msgs, rotorCount)
      ensures var o := Step(old(GateView()), receivedFirstReference, now, gpsPeriod);
        && GateView() == o.gate
        && motorSpeeds == old(motorSpeeds) + (if o.published then [inputReference] else [])
        && sensorMessages == old(sensorMessages)
        && (!o.gpsSent ==> datagrams == old(datagrams) && gpsMessages == old(gpsMessages))
        && (o.gpsSent && useMavlinkUdp ==>
              datagrams == old(datagrams) + [Frame(tables, MAVLINK_MSG_ID_HIL_GPS, EncodeGps(GpsRecord(TimeUsec(now), k)))]
              && gpsMessages == old(gpsMessages))
        && (o.gpsSent && !useMavlinkUdp ==>
              gpsMessages == old(gpsMessages) + [GpsRecord(TimeUsec(now), k)] && datagrams == old(datagrams))
    {
      PollForMavlinkMessages(msgs);
      if !receivedFirstReference {
        return;
      }
      PublishAndGate(now, k);
    }
  }

  /** A HIL_SENSOR datagram from ImuCallback is accepted by a MAVLink
      receiver as a message with id 107 whose payload decodes to the record. */
  lemma SensorDatagramDecodes(t: Tables, m: HilSensor)
    requires HasHilEntries(t)
    ensures Decode(t, Frame(t, MAVLINK_MSG_ID_HIL_SENSOR, EncodeSensor(m)))
            == Some(Packet(FRAME_SEQUENCE, FRAME_SYSTEM_ID, FRAME_COMPONENT_ID, MAVLINK_MSG_ID_HIL_SENSOR, EncodeSensor(m)))
    ensures DecodeSensor(EncodeSensor(m)) == m
  {
    var p := EncodeSensor(m);
    DecodeFrame(t, MAVLINK_MSG_ID_HIL_SENSOR, p);
    assert p[..t.lengths[MAVLINK_MSG_ID_HIL_SENSOR]] == p;
    SensorRoundTrip(m);
  }

  /** A HIL_GPS datagram from OnUpdate is accepted by a MAVLink receiver as
      a message with id 113 whose payload decodes to the record. */
  lemma GpsDatagramDecodes(t: Tables, m: HilGps)
    requires HasHilEntries(t)
    ensures Decode(t, Frame(t, MAVLINK_MSG_ID_HIL_GPS, EncodeGps(m)))
            == Some(Packet(FRAME_SEQUENCE, FRAME_SYSTEM_ID, FRAME_COMPONENT_ID, MAVLINK_MSG_ID_HIL_GPS, EncodeGps(m)))
    ensures DecodeGps(EncodeGps(m)) == m
  {
    var p := EncodeGps(m);
    DecodeFrame(t, MAVLINK_MSG_ID_HIL_GPS, p);
    assert p[..t.lengths[MAVLINK_MSG_ID_HIL_GPS]] == p;
    GpsRoundTrip(m);
  }
}
