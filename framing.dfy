/** MAVLink v1 framing as send_mavlink_message performs it: a 6-byte header,
    the payload copied verbatim, and the X.25 checksum, low byte first.
    The receiving side (Decode) is the check a MAVLink v1 parser applies to a
    complete frame; it is the partner against which the builder is proved. */
module Framing {
  import opened Bytes
  import opened Checksum

  const MAVLINK_STX: byte := 0xFE
  const MAVLINK_CORE_HEADER_LEN: nat := 5
  const MAVLINK_NUM_HEADER_BYTES: nat := 6
  const MAVLINK_NUM_CHECKSUM_BYTES: nat := 2
  const MAVLINK_NUM_NON_PAYLOAD_BYTES: nat := 8
  const MAVLINK_MAX_PAYLOAD_LEN: nat := 255
  const MAVLINK_MAX_PACKET_LEN: nat := 263

  /** The fixed header values the plugin writes: sequence 100, system 0,
      and component 0 whatever component id the caller passes. */
  const FRAME_SEQUENCE: byte := 100
  const FRAME_SYSTEM_ID: byte := 0
  const FRAME_COMPONENT_ID: byte := 0

  const MAVLINK_MSG_ID_HIL_CONTROLS: byte := 91
  const MAVLINK_MSG_ID_HIL_SENSOR: byte := 107
  const MAVLINK_MSG_ID_HIL_GPS: byte := 113

  /** mavlink_message_lengths[] and mavlink_message_crcs[]: one entry per
      8-bit message id. */
  datatype Tables = Tables(lengths: seq<byte>, crcs: seq<byte>)

  predicate WellFormed(t: Tables)
  {
    |t.lengths| == 256 && |t.crcs| == 256
  }

  /** The entries of the MAVLink common message set for the three HIL
      messages: payload length and CRC extra byte. */
  predicate HasHilEntries(t: Tables)
  {
    WellFormed(t)
    && t.lengths[91] == 42 && t.crcs[91] == 63
    && t.lengths[107] == 64 && t.crcs[107] == 108
    && t.lengths[113] == 36 && t.crcs[113] == 124
  }

  function Lo(crc: bv16): byte
  {
    (crc & 0xFF) as byte
  }

  function Hi(crc: bv16): byte
  {
    (crc >> 8) as byte
  }

  /** The frame checksum: crc_init, then the covered bytes, then the
      message's CRC extra byte. */
  function FrameChecksum(covered: seq<byte>, extra: byte): bv16
  {
    Accumulate(extra, AccumulateAll(covered, X25_INIT_CRC))
  }

  /** The bytes the checksum covers: length, sequence, system, component,
      message id, then the payload. */
  function Covered(len: byte, msgid: byte, payload: seq<byte>): seq<byte>
  {
    [len, FRAME_SEQUENCE, FRAME_SYSTEM_ID, FRAME_COMPONENT_ID, msgid] + payload
  }

  /** The frame for message msgid whose struct occupies the bytes of msg;
      only the table's payload length of them is copied. */
  function Frame(t: Tables, msgid: byte, msg: seq<byte>): (f: seq<byte>)
    requires WellFormed(t) && t.lengths[msgid] as nat <= |msg|
    ensures |f| == t.lengths[msgid] as nat + MAVLINK_NUM_NON_PAYLOAD_BYTES
    ensures f[0] == MAVLINK_STX && f[1] == t.lengths[msgid] && f[5] == msgid
  {
    var covered := Covered(t.lengths[msgid], msgid, msg[..t.lengths[msgid]]);
    Assemble(covered, FrameChecksum(covered, t.crcs[msgid]))
  }

  /** The start byte, the covered bytes, and the checksum low byte first. */
  function Assemble(covered: seq<byte>, crc: bv16): seq<byte>
  {
    [MAVLINK_STX] + covered + [Lo(crc), Hi(crc)]
  }

  /** What a receiver recovers from a frame. */
  datatype Packet = Packet(sequence: byte, systemId: byte, componentId: byte, msgid: byte, payload: seq<byte>)

  datatype Option<T> = None | Some(value: T)

  /** Accepts a complete MAVLink v1 frame: start byte, a length that matches
      both the frame size and the table entry for the message id, and a
      checksum trailer that matches the covered bytes and the CRC extra. */
  function Decode(t: Tables, f: seq<byte>): Option<Packet>
    requires WellFormed(t)
  {
    if |f| < MAVLINK_NUM_NON_PAYLOAD_BYTES || f[0] != MAVLINK_STX
       || |f| != f[1] as nat + MAVLINK_NUM_NON_PAYLOAD_BYTES
       || t.lengths[f[5]] != f[1]
    then None
    else
      var len := f[1] as nat;
      var crc := FrameChecksum(f[1..6 + len], t.crcs[f[5]]);
      if f[6 + len] != Lo(crc) || f[7 + len] != Hi(crc) then None
      else Some(Packet(f[2], f[3], f[4], f[5], f[6..6 + len]))
  }

  lemma AssembleLayout(covered: seq<byte>, crc: bv16)
    ensures |Assemble(covered, crc)| == |covered| + 3
    ensures Assemble(covered, crc)[0] == MAVLINK_STX
    ensures Assemble(covered, crc)[1..|covered| + 1] == covered
    ensures Assemble(covered, crc)[|covered| + 1] == Lo(crc)
    ensures Assemble(covered, crc)[|covered| + 2] == Hi(crc)
  {
    var f := Assemble(covered, crc);
    assert f == [MAVLINK_STX] + (covered + [Lo(crc), Hi(crc)]);
    assert f[1..] == covered + [Lo(crc), Hi(crc)];
  }

  lemma CoveredLayout(len: byte, msgid: byte, payload: seq<byte>)
    ensures |Covered(len, msgid, payload)| == |payload| + MAVLINK_CORE_HEADER_LEN
    ensures Covered(len, msgid, payload)[0] == len && Covered(len, msgid, payload)[1] == FRAME_SEQUENCE
    ensures Covered(len, msgid, payload)[2] == FRAME_SYSTEM_ID && Covered(len, msgid, payload)[3] == FRAME_COMPONENT_ID
    ensures Covered(len, msgid, payload)[4] == msgid
    ensures Covered(len, msgid, payload)[MAVLINK_CORE_HEADER_LEN..] == payload
  {
  }

  /** A frame's size and header: start byte, payload length, sequence 100,
      system 0, component 0 and the message id. */
  lemma FrameHeader(t: Tables, msgid: byte, msg: seq<byte>)
    requires WellFormed(t) && t.lengths[msgid] as nat <= |msg|
    ensures |Frame(t, msgid, msg)| == t.lengths[msgid] as nat + MAVLINK_NUM_NON_PAYLOAD_BYTES
    ensures |Frame(t, msgid, msg)| <= MAVLINK_MAX_PACKET_LEN
    ensures Frame(t, msgid, msg)[..MAVLINK_NUM_HEADER_BYTES] == [MAVLINK_STX, t.lengths[msgid], 100, 0, 0, msgid]
  {
    var covered := Covered(t.lengths[msgid], msgid, msg[..t.lengths[msgid]]);
    var crc := FrameChecksum(covered, t.crcs[msgid]);
    CoveredLayout(t.lengths[msgid], msgid, msg[..t.lengths[msgid]]);
    AssembleLayout(covered, crc);
    var f := Assemble(covered, crc);
    assert f[..6] == [f[0]] + f[1..6];
    assert f[1..6] == covered[..5];
  }

  /** The payload sits at bytes 6 .. 5 + len, followed by the checksum over
      bytes 1 .. 5 + len and the CRC extra, low byte first. */
  lemma FrameBody(t: Tables, msgid: byte, msg: seq<byte>, len: nat)
    requires WellFormed(t) && len == t.lengths[msgid] as nat && len <= |msg|
    ensures |Frame(t, msgid, msg)| == len + MAVLINK_NUM_NON_PAYLOAD_BYTES
    ensures Frame(t, msgid, msg)[MAVLINK_NUM_HEADER_BYTES..MAVLINK_NUM_HEADER_BYTES + len] == msg[..len]
    ensures Frame(t, msgid, msg)[MAVLINK_NUM_HEADER_BYTES + len]
            == Lo(FrameChecksum(Frame(t, msgid, msg)[1..MAVLINK_NUM_HEADER_BYTES + len], t.crcs[msgid]))
    ensures Frame(t, msgid, msg)[MAVLINK_NUM_HEADER_BYTES + len + 1]
            == Hi(FrameChecksum(Frame(t, msgid, msg)[1..MAVLINK_NUM_HEADER_BYTES + len], t.crcs[msgid]))
  {
    var covered := Covered(t.lengths[msgid], msgid, msg[..len]);
    var crc := FrameChecksum(covered, t.crcs[msgid]);
    CoveredLayout(t.lengths[msgid], msgid, msg[..len]);
    AssembleLayout(covered, crc);
    var f := Assemble(covered, crc);
    assert f[1..6 + len] == covered;
    assert f[6..6 + len] == covered[5..];
  }

  lemma LoHiInjective(c1: bv16, c2: bv16)
    requires c1 != c2
    ensures Lo(c1) != Lo(c2) || Hi(c1) != Hi(c2)
  {
  }

  /** Every frame the plugin builds is accepted by a receiver that uses the
      same tables, which recovers exactly the copied payload and the fixed
      header fields. */
  lemma DecodeFrame(t: Tables, msgid: byte, msg: seq<byte>)
    requires WellFormed(t) && t.lengths[msgid] as nat <= |msg|
    ensures Decode(t, Frame(t, msgid, msg))
            == Some(Packet(FRAME_SEQUENCE, FRAME_SYSTEM_ID, FRAME_COMPONENT_ID, msgid, msg[..t.lengths[msgid]]))
  {
    var f := Frame(t, msgid, msg);
    FrameHeader(t, msgid, msg);
    FrameBody(t, msgid, msg, t.lengths[msgid] as nat);
    assert f[0] == f[..6][0] && f[1] == f[..6][1] && f[2] == f[..6][2];
    assert f[3] == f[..6][3] && f[4] == f[..6][4] && f[5] == f[..6][5];
  }

  /** Decode rejects a frame whose header is well formed but whose trailer
      does not match the checksum of its covered bytes. */
  lemma RejectsBadTrailer(t: Tables, g: seq<byte>, len: nat)
    requires WellFormed(t)
    requires |g| == len + MAVLINK_NUM_NON_PAYLOAD_BYTES && g[1] as nat == len
    requires g[6 + len] != Lo(FrameChecksum(g[1..6 + len], t.crcs[g[5]]))
             || g[7 + len] != Hi(FrameChecksum(g[1..6 + len], t.crcs[g[5]]))
    ensures Decode(t, g) == None
  {
  }

  /** The frame checksum changes whenever one covered byte does. */
  lemma ChecksumDetectsChange(s: seq<byte>, j: nat, b: byte, extra: byte)
    requires j < |s| && b != s[j]
    ensures FrameChecksum(s[j := b], extra) != FrameChecksum(s, extra)
  {
    var s' := s[j := b];
    assert forall i :: 0 <= i < |s| && i != j ==> s[i] == s'[i];
    SingleByteChangeDetected(s, s', j, X25_INIT_CRC);
    AccumulateInjectiveInRegister(extra, AccumulateAll(s, X25_INIT_CRC), AccumulateAll(s', X25_INIT_CRC));
  }

  /** A frame that Decode accepts: start byte, consistent length, and a
      trailer matching the checksum of its covered bytes. */
  predicate Intact(t: Tables, f: seq<byte>)
    requires WellFormed(t)
  {
    && |f| >= MAVLINK_NUM_NON_PAYLOAD_BYTES && f[0] == MAVLINK_STX
    && |f| == f[1] as nat + MAVLINK_NUM_NON_PAYLOAD_BYTES && t.lengths[f[5]] == f[1]
    && f[6 + f[1] as nat] == Lo(FrameChecksum(f[1..6 + f[1] as nat], t.crcs[f[5]]))
    && f[7 + f[1] as nat] == Hi(FrameChecksum(f[1..6 + f[1] as nat], t.crcs[f[5]]))
  }

  /** Every frame the plugin builds is intact. */
  lemma FrameIntact(t: Tables, msgid: byte, msg: seq<byte>)
    requires WellFormed(t) && t.lengths[msgid] as nat <= |msg|
    ensures Intact(t, Frame(t, msgid, msg))
  {
    var f := Frame(t, msgid, msg);
    FrameHeader(t, msgid, msg);
    FrameBody(t, msgid, msg, t.lengths[msgid] as nat);
    assert f[0] == f[..6][0] && f[1] == f[..6][1] && f[5] == f[..6][5];
  }

  lemma WidenInjective(a: byte, b: byte)
    requires a != b
    ensures a as nat != b as nat
  {
  }

  /** A changed length byte: the frame size no longer matches it. */
  lemma RejectsChangedLength(t: Tables, f: seq<byte>, b: byte)
    requires WellFormed(t) && Intact(t, f) && b != f[1]
    ensures Decode(t, f[1 := b]) == None
  {
    WidenInjective(b, f[1]);
  }

  /** A changed byte among sequence, system, component and payload: the
      trailer no longer matches the checksum. */
  lemma RejectsChangedCovered(t: Tables, f: seq<byte>, k: nat, b: byte)
    requires WellFormed(t) && Intact(t, f)
    requires 2 <= k < MAVLINK_NUM_HEADER_BYTES + f[1] as nat && k != 5 && b != f[k]
    ensures Decode(t, f[k := b]) == None
  {
    var len := f[1] as nat;
    var g := f[k := b];
    var s := f[1..6 + len];
    assert g[1] == f[1] && g[5] == f[5] && g[6 + len] == f[6 + len] && g[7 + len] == f[7 + len];
    assert s[k - 1] == f[k];
    assert g[1..6 + len] == s[k - 1 := b];
    ChecksumDetectsChange(s, k - 1, b, t.crcs[f[5]]);
    LoHiInjective(FrameChecksum(s, t.crcs[f[5]]), FrameChecksum(s[k - 1 := b], t.crcs[f[5]]));
    RejectsBadTrailer(t, g, len);
  }

  /** A changed checksum byte: the covered bytes are as before, so their
      checksum no longer matches the trailer. */
  lemma RejectsChangedTrailer(t: Tables, f: seq<byte>, k: nat, b: byte)
    requires WellFormed(t) && Intact(t, f)
    requires MAVLINK_NUM_HEADER_BYTES + f[1] as nat <= k < |f| && b != f[k]
    ensures Decode(t, f[k := b]) == None
  {
    var len := f[1] as nat;
    var g := f[k := b];
    var crc := FrameChecksum(f[1..6 + len], t.crcs[f[5]]);
    assert g[1..6 + len] == f[1..6 + len] && g[5] == f[5];
    assert g[6 + len] != Lo(crc) || g[7 + len] != Hi(crc);
    RejectsBadTrailer(t, g, len);
  }

  /** Changing any one byte of a frame the plugin builds, other than the
      message id, makes a receiver reject it. (A changed message id also
      selects another CRC extra byte, so two changes meet in the checksum.) */
  lemma CorruptionDetected(t: Tables, msgid: byte, msg: seq<byte>, k: nat, b: byte)
    requires WellFormed(t) && t.lengths[msgid] as nat <= |msg|
    requires k < |Frame(t, msgid, msg)| && k != 5 && b != Frame(t, msgid, msg)[k]
    ensures Decode(t, Frame(t, msgid, msg)[k := b]) == None
  {
    var f := Frame(t, msgid, msg);
    FrameIntact(t, msgid, msg);
    if k == 0 {
    } else if k == 1 {
      RejectsChangedLength(t, f, b);
    } else if k < MAVLINK_NUM_HEADER_BYTES + f[1] as nat {
      RejectsChangedCovered(t, f, k, b);
    } else {
      RejectsChangedTrailer(t, f, k, b);
    }
  }

  /** The payload copy: the first len bytes of the struct go to buf[6 ..]. */
  method CopyPayload(buf: array<byte>, msg: seq<byte>, len: nat)
    requires len <= |msg| && MAVLINK_NUM_HEADER_BYTES + len <= buf.Length
    modifies buf
    ensures buf[..MAVLINK_NUM_HEADER_BYTES] == old(buf[..MAVLINK_NUM_HEADER_BYTES])
    ensures buf[MAVLINK_NUM_HEADER_BYTES..MAVLINK_NUM_HEADER_BYTES + len] == msg[..len]
    ensures buf[MAVLINK_NUM_HEADER_BYTES + len..] == old(buf[MAVLINK_NUM_HEADER_BYTES + len..])
  {
    var i := 0;
    while i < len
      invariant 0 <= i <= len
      invariant buf[..6] == old(buf[..6])
      invariant buf[6..6 + i] == msg[..i]
      invariant buf[6 + i..] == old(buf[6 + i..])
    {
      buf[6 + i] := msg[i];
      i := i + 1;
    }
  }

  /** The six header writes buf[0] .. buf[5]. */
  method WriteHeader(buf: array<byte>, payloadLen: byte, componentId: byte, msgid: byte)
    requires MAVLINK_NUM_HEADER_BYTES <= buf.Length
    modifies buf
    ensures buf[..MAVLINK_NUM_HEADER_BYTES] == [MAVLINK_STX, payloadLen, 100, 0, componentId, msgid]
    ensures buf[MAVLINK_NUM_HEADER_BYTES..] == old(buf[MAVLINK_NUM_HEADER_BYTES..])
  {
    buf[0] := MAVLINK_STX;
    buf[1] := payloadLen;
    buf[2] := 100;
    buf[3] := 0;
    buf[4] := componentId;
    buf[5] := msgid;
  }

  /** The two trailer writes: checksum low byte, then high byte, at offset. */
  method WriteTrailer(buf: array<byte>, offset: nat, checksum: bv16)
    requires offset + MAVLINK_NUM_CHECKSUM_BYTES <= buf.Length
    modifies buf
    ensures buf[..offset] == old(buf[..offset])
    ensures buf[offset] == Lo(checksum) && buf[offset + 1] == Hi(checksum)
    ensures buf[offset + 2..] == old(buf[offset + 2..])
  {
    buf[offset] := Lo(checksum);
    buf[offset + 1] := Hi(checksum);
  }

  /** A buffer holding the header and the payload holds the covered bytes
      at 1 .. 5 + len. */
  lemma HeaderAndPayload(s: seq<byte>, payloadLen: byte, msgid: byte, payload: seq<byte>)
    requires |payload| == payloadLen as nat && MAVLINK_NUM_HEADER_BYTES + |payload| <= |s|
    requires s[..MAVLINK_NUM_HEADER_BYTES] == [MAVLINK_STX, payloadLen, 100, 0, 0, msgid]
    requires s[MAVLINK_NUM_HEADER_BYTES..MAVLINK_NUM_HEADER_BYTES + |payload|] == payload
    ensures s[1..MAVLINK_NUM_HEADER_BYTES + |payload|] == Covered(payloadLen, msgid, payload)
    ensures s[..MAVLINK_NUM_HEADER_BYTES + |payload|] == [MAVLINK_STX] + Covered(payloadLen, msgid, payload)
  {
    var n := 6 + |payload|;
    assert s[1..n] == s[1..6] + s[6..n];
    assert s[..n] == [s[0]] + s[1..n];
  }

  /** A buffer holding the start byte, the covered bytes and the checksum
      trailer holds the assembled frame. */
  lemma AssembledPrefix(s: seq<byte>, covered: seq<byte>, crc: bv16)
    requires |covered| + 3 <= |s|
    requires s[..|covered| + 1] == [MAVLINK_STX] + covered
    requires s[|covered| + 1] == Lo(crc) && s[|covered| + 2] == Hi(crc)
    ensures s[..|covered| + 3] == Assemble(covered, crc)
  {
    var n := |covered| + 1;
    assert s[..n + 2] == s[..n] + [s[n], s[n + 1]];
  }

  /** The checksum part of send_mavlink_message: crc_init, crc_accumulate_buffer
      over the covered bytes at 1 .. n, crc_accumulate of the CRC extra byte,
      then the two trailer writes. */
  method WriteChecksum(buf: array<byte>, n: nat, extra: byte, ghost covered: seq<byte>)
    requires 1 <= n && n + MAVLINK_NUM_CHECKSUM_BYTES <= buf.Length
    requires buf[..n] == [MAVLINK_STX] + covered
    modifies buf
    ensures buf[..n + MAVLINK_NUM_CHECKSUM_BYTES] == Assemble(covered, FrameChecksum(covered, extra))
    ensures buf[n + MAVLINK_NUM_CHECKSUM_BYTES..] == old(buf[n + MAVLINK_NUM_CHECKSUM_BYTES..])
  {
    assert buf[1..n] == covered;
    var checksum := AccumulateBuffer(X25_INIT_CRC, buf, 1, n - 1);
    checksum := Accumulate(extra, checksum);
    ghost var before := buf[..];
    WriteTrailer(buf, n, checksum);
    assert buf[..n] == before[..n];
    AssembledPrefix(buf[..], covered, checksum);
    assert buf[n + 2..] == before[n..][2..];
  }

  /** The header writes, with component id 0, and the payload copy. */
  method WriteHeaderAndPayload(buf: array<byte>, payloadLen: byte, msgid: byte, msg: seq<byte>)
    requires payloadLen as nat <= |msg| && MAVLINK_NUM_HEADER_BYTES + payloadLen as nat <= buf.Length
    modifies buf
    ensures buf[..MAVLINK_NUM_HEADER_BYTES + payloadLen as nat]
            == [MAVLINK_STX] + Covered(payloadLen, msgid, msg[..payloadLen])
    ensures buf[MAVLINK_NUM_HEADER_BYTES + payloadLen as nat..]
            == old(buf[MAVLINK_NUM_HEADER_BYTES + payloadLen as nat..])
  {
    var component: byte := 0;
    WriteHeader(buf, payloadLen, component, msgid);
    ghost var afterHeader := buf[..];
    CopyPayload(buf, msg, payloadLen as nat);
    HeaderAndPayload(buf[..], payloadLen, msgid, msg[..payloadLen]);
    assert afterHeader[6 + payloadLen as nat..] == old(buf[6..])[payloadLen..];
  }

  /** The writes of send_mavlink_message into its buffer: header, payload,
      checksum trailer. */
  method WriteFrame(buf: array<byte>, t: Tables, msgid: byte, msg: seq<byte>, len: nat)
    requires WellFormed(t) && len == t.lengths[msgid] as nat && len <= |msg|
    requires len + MAVLINK_NUM_NON_PAYLOAD_BYTES <= buf.Length
    modifies buf
    ensures buf[..len + MAVLINK_NUM_NON_PAYLOAD_BYTES] == Frame(t, msgid, msg)
    ensures buf[len + MAVLINK_NUM_NON_PAYLOAD_BYTES..] == old(buf[len + MAVLINK_NUM_NON_PAYLOAD_BYTES..])
  {
    WriteHeaderAndPayload(buf, t.lengths[msgid], msgid, msg);
    ghost var before := buf[..];
    WriteChecksum(buf, MAVLINK_NUM_HEADER_BYTES + len, t.crcs[msgid], Covered(t.lengths[msgid], msgid, msg[..len]));
    assert buf[len + 8..] == before[6 + len..][2..];
    assert old(buf[len + 8..]) == old(buf[6 + len..])[2..];
  }

  /** send_mavlink_message: builds the frame in a MAVLINK_MAX_PACKET_LEN
      stack buffer whose prior contents are `stack`, and returns the buffer
      and the packet length handed to sendto. The component id argument is
      overwritten with 0 before use; no byte past the trailer is written. */
  method BuildFrame(t: Tables, msgid: byte, msg: seq<byte>, componentId: byte, stack: seq<byte>)
    returns (buffer: seq<byte>, packetLen: nat)
    requires WellFormed(t) && t.lengths[msgid] as nat <= |msg|
    requires |stack| == MAVLINK_MAX_PACKET_LEN
    ensures packetLen == t.lengths[msgid] as nat + MAVLINK_NUM_NON_PAYLOAD_BYTES
    ensures |buffer| == MAVLINK_MAX_PACKET_LEN && packetLen <= |buffer|
    ensures buffer[..packetLen] == Frame(t, msgid, msg)
    ensures buffer[packetLen..] == stack[packetLen..]
  {
    packetLen := t.lengths[msgid] as nat + MAVLINK_NUM_NON_PAYLOAD_BYTES;
    var buf := new byte[MAVLINK_MAX_PACKET_LEN](i requires 0 <= i < MAVLINK_MAX_PACKET_LEN => stack[i]);
    assert buf[..] == stack;
    WriteFrame(buf, t, msgid, msg, t.lengths[msgid] as nat);
    buffer := buf[..];
  }
}
