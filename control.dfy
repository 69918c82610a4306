/** The control path: a HIL_CONTROLS message (from the MAVLink socket, in
    handle_message, or from the Gazebo transport, in HilControlCallback)
    sets the eight control channels, turns the first rotor-count channels
    into motor speed references by the affine map u * 150 + 600, and arms
    the plugin for good. */
module Control {
  import opened Bytes
  import opened Framing

  /** Number of control channels, the size of inputs.control. */
  const NUM_CONTROLS: nat := 8

  const SCALING: real := 150.0
  const OFFSET: real := 600.0

  /** The fields of mavlink_hil_controls_t the plugin reads, widened to double. */
  datatype HilControls = HilControls(
    rollAilerons: real, pitchElevator: real, yawRudder: real, throttle: real,
    aux1: real, aux2: real, aux3: real, aux4: real)

  /** A message delivered by the MAVLink parser: its id, and the fields that
      mavlink_msg_hil_controls_decode reads from it, which the plugin only
      looks at when the id is HIL_CONTROLS. */
  datatype Message = Message(msgid: byte, controls: HilControls)

  /** What the control path keeps: inputs.control, input_reference_ and
      received_first_referenc_. */
  datatype ControlState = ControlState(control: seq<real>, reference: seq<real>, armed: bool)

  predicate ValidState(s: ControlState)
  {
    |s.control| == NUM_CONTROLS
  }

  /** inputs.control after the eight assignments, channel i from field i. */
  function Channels(c: HilControls): (v: seq<real>)
    ensures |v| == NUM_CONTROLS
  {
    [c.rollAilerons, c.pitchElevator, c.yawRudder, c.throttle, c.aux1, c.aux2, c.aux3, c.aux4]
  }

  /** Motor speed reference for one control input. */
  function MotorSpeed(u: real): real
  {
    u * SCALING + OFFSET
  }

  /** The control input that a motor speed reference stands for. */
  function ControlInput(speed: real): real
  {
    (speed - OFFSET) / SCALING
  }

  /** The reference map is invertible: each reference determines its input. */
  lemma MotorSpeedInverse(u: real, speed: real)
    ensures ControlInput(MotorSpeed(u)) == u
    ensures MotorSpeed(ControlInput(speed)) == speed
  {
  }

  /** The reference map is strictly increasing. */
  lemma MotorSpeedIncreasing(u: real, v: real)
    requires u < v
    ensures MotorSpeed(u) < MotorSpeed(v)
  {
  }

  /** input_reference_ for rotorCount rotors: the first rotorCount channels
      mapped to motor speeds. */
  function Reference(control: seq<real>, rotorCount: nat): (r: seq<real>)
    requires rotorCount <= |control|
    ensures |r| == rotorCount
  {
    seq(rotorCount, i requires 0 <= i < rotorCount => MotorSpeed(control[i]))
  }

  /** Every reference entry gives back its channel: reading the references
      through ControlInput yields the first rotorCount channels. */
  lemma ReferenceRecoversChannels(control: seq<real>, rotorCount: nat)
    requires rotorCount <= |control|
    ensures forall i :: 0 <= i < rotorCount ==> ControlInput(Reference(control, rotorCount)[i]) == control[i]
  {
    forall i | 0 <= i < rotorCount
      ensures ControlInput(Reference(control, rotorCount)[i]) == control[i]
    {
      MotorSpeedInverse(control[i], 0.0);
    }
  }

  /** Channels from rotorCount on do not affect the reference; the first
      rotorCount do (two controls with the same references agree on them). */
  lemma ReferenceDependsOnRotorChannels(c1: seq<real>, c2: seq<real>, rotorCount: nat)
    requires rotorCount <= |c1| && rotorCount <= |c2|
    ensures Reference(c1, rotorCount) == Reference(c2, rotorCount) <==> c1[..rotorCount] == c2[..rotorCount]
  {
    if Reference(c1, rotorCount) == Reference(c2, rotorCount) {
      ReferenceRecoversChannels(c1, rotorCount);
      ReferenceRecoversChannels(c2, rotorCount);
      assert forall i :: 0 <= i < rotorCount ==> c1[..rotorCount][i] == c2[..rotorCount][i];
    }
    if c1[..rotorCount] == c2[..rotorCount] {
      assert forall i :: 0 <= i < rotorCount ==> c1[i] == c1[..rotorCount][i];
    }
  }

  /** The state after HIL_CONTROLS with fields c, for rotorCount rotors. */
  function Apply(c: HilControls, rotorCount: nat): (s: ControlState)
    requires rotorCount <= NUM_CONTROLS
    ensures ValidState(s) && s.armed
  {
    var control := Channels(c);
    ControlState(control, Reference(control, rotorCount), true)
  }

  /** The quadrotor case: roll 0.1 and throttle 0.5 give references 615 for
      rotor 0, 600 for rotors 1 and 2 and 675 for rotor 3. */
  lemma ApplyExample()
    ensures Apply(HilControls(0.1, 0.0, 0.0, 0.5, 0.0, 0.0, 0.0, 0.0), 4).reference == [615.0, 600.0, 600.0, 675.0]
  {
  }

  /** handle_message: HIL_CONTROLS is applied, every other message is ignored. */
  function Handle(s: ControlState, m: Message, rotorCount: nat): (r: ControlState)
    requires rotorCount <= NUM_CONTROLS
    ensures r.armed <==> s.armed || m.msgid == MAVLINK_MSG_ID_HIL_CONTROLS
    ensures ValidState(s) ==> ValidState(r)
    ensures m.msgid != MAVLINK_MSG_ID_HIL_CONTROLS ==> r == s
  {
    if m.msgid == MAVLINK_MSG_ID_HIL_CONTROLS then Apply(m.controls, rotorCount) else s
  }

  /** Handling one message: a HIL_CONTROLS message yields the applied state,
      whatever came before; any other leaves the state as it was. */
  lemma HandleEffect(s: ControlState, m: Message, rotorCount: nat)
    requires rotorCount <= NUM_CONTROLS
    ensures m.msgid == MAVLINK_MSG_ID_HIL_CONTROLS ==>
      Handle(s, m, rotorCount).armed && Handle(s, m, rotorCount).control == Channels(m.controls)
      && |Handle(s, m, rotorCount).reference| == rotorCount
      && forall i :: 0 <= i < rotorCount ==>
           Handle(s, m, rotorCount).reference[i] == MotorSpeed(Channels(m.controls)[i])
    ensures m.msgid != MAVLINK_MSG_ID_HIL_CONTROLS ==> Handle(s, m, rotorCount) == s
  {
  }

  /** Handling the same message twice is handling it once. */
  lemma HandleIdempotent(s: ControlState, m: Message, rotorCount: nat)
    requires rotorCount <= NUM_CONTROLS
    ensures Handle(Handle(s, m, rotorCount), m, rotorCount) == Handle(s, m, rotorCount)
  {
  }

  /** pollForMAVLinkMessages: the messages one poll parses, handled in order. */
  function HandleAll(s: ControlState, msgs: seq<Message>, rotorCount: nat): (r: ControlState)
    requires rotorCount <= NUM_CONTROLS
    ensures s.armed ==> r.armed
    ensures ValidState(s) ==> ValidState(r)
    decreases |msgs|
  {
    if msgs == [] then s else Handle(HandleAll(s, msgs[..|msgs| - 1], rotorCount), msgs[|msgs| - 1], rotorCount)
  }

  predicate HasControls(msgs: seq<Message>)
  {
    exists i :: 0 <= i < |msgs| && msgs[i].msgid == MAVLINK_MSG_ID_HIL_CONTROLS
  }

  lemma HasControlsPrefix(msgs: seq<Message>)
    requires msgs != []
    ensures HasControls(msgs) <==>
      HasControls(msgs[..|msgs| - 1]) || msgs[|msgs| - 1].msgid == MAVLINK_MSG_ID_HIL_CONTROLS
  {
    var n := |msgs| - 1;
    if HasControls(msgs) && msgs[n].msgid != MAVLINK_MSG_ID_HIL_CONTROLS {
      var i :| 0 <= i < |msgs| && msgs[i].msgid == MAVLINK_MSG_ID_HIL_CONTROLS;
      assert msgs[..n][i].msgid == MAVLINK_MSG_ID_HIL_CONTROLS;
    }
    if HasControls(msgs[..n]) {
      var i :| 0 <= i < n && msgs[..n][i].msgid == MAVLINK_MSG_ID_HIL_CONTROLS;
      assert msgs[i].msgid == MAVLINK_MSG_ID_HIL_CONTROLS;
    }
  }

  /** The armed flag is one-way: after a batch of messages the plugin is
      armed exactly when it was armed before or the batch held a HIL_CONTROLS. */
  lemma {:induction false} HandleAllArmed(s: ControlState, msgs: seq<Message>, rotorCount: nat)
    requires rotorCount <= NUM_CONTROLS
    ensures HandleAll(s, msgs, rotorCount).armed <==> s.armed || HasControls(msgs)
  {
    if msgs != [] {
      HandleAllArmed(s, msgs[..|msgs| - 1], rotorCount);
      HasControlsPrefix(msgs);
    }
  }

  /** A batch without HIL_CONTROLS changes nothing. */
  lemma {:induction false} HandleAllIgnoresOthers(s: ControlState, msgs: seq<Message>, rotorCount: nat)
    requires rotorCount <= NUM_CONTROLS
    requires !HasControls(msgs)
    ensures HandleAll(s, msgs, rotorCount) == s
  {
    if msgs != [] {
      HasControlsPrefix(msgs);
      HandleAllIgnoresOthers(s, msgs[..|msgs| - 1], rotorCount);
    }
  }

  /** After a batch holding a HIL_CONTROLS, the state is the one the last
      HIL_CONTROLS of the batch sets: earlier messages and the prior state
      are forgotten. */
  lemma {:induction false} HandleAllLastControlsWins(s: ControlState, msgs: seq<Message>, k: nat, rotorCount: nat)
    requires rotorCount <= NUM_CONTROLS
    requires k < |msgs| && msgs[k].msgid == MAVLINK_MSG_ID_HIL_CONTROLS
    requires !HasControls(msgs[k + 1..])
    ensures HandleAll(s, msgs, rotorCount) == Apply(msgs[k].controls, rotorCount)
  {
    var n := |msgs| - 1;
    if k == n {
    } else {
      assert msgs[..n][k + 1..] == msgs[k + 1..n];
      HandleAllLastControlsWins(s, msgs[..n], k, rotorCount);
      assert msgs[k + 1..][n - (k + 1)] == msgs[n];
    }
  }

  /** HilControlCallback: on the Gazebo transport path (no MAVLink UDP) the
      controls are applied as handle_message applies them; with MAVLink UDP
      the callback does nothing. */
  function Callback(s: ControlState, c: HilControls, rotorCount: nat, useMavlinkUdp: bool): (r: ControlState)
    requires rotorCount <= NUM_CONTROLS
    ensures useMavlinkUdp ==> r == s
    ensures !useMavlinkUdp ==> r.armed && r.control == Channels(c) && |r.reference| == rotorCount
  {
    if useMavlinkUdp then s else Apply(c, rotorCount)
  }

  /** The two control paths agree: the callback's result is that of
      handle_message on a HIL_CONTROLS message with the same fields. */
  lemma CallbackMatchesHandle(s: ControlState, c: HilControls, rotorCount: nat, useMavlinkUdp: bool)
    requires rotorCount <= NUM_CONTROLS
    ensures Callback(s, c, rotorCount, useMavlinkUdp)
            == if useMavlinkUdp then s else Handle(s, Message(MAVLINK_MSG_ID_HIL_CONTROLS, c), rotorCount)
  {
  }
}
