/**
 * The firmware's CAN frames (src/main.cpp): the fixed heartbeat frame written
 * into the shared message object, and the telemetry frame that carries a
 * sequence number and the four bytes of a temperature.
 */
module CanFrames {
  import opened Options

  /** `uint8_t` and `int16_t`. */
  newtype uint8 = x: int | 0 <= x < 0x100
  newtype int16 = x: int | -0x8000 <= x < 0x8000

  /** Payload capacity of a classic CAN frame. */
  const Capacity: nat := 8
  /** `sizeof(uint8_t)` and `sizeof(float)` on the target. */
  const SequenceSize: nat := 1
  const FloatSize: nat := 4

  const TelemetryId: nat := 0x245
  const TelemetryLength: nat := SequenceSize + FloatSize

  const HeartbeatId: nat := 0x007
  const HeartbeatPayload: seq<uint8> := [0x26, 0x42, 0x00]

  /** The in-memory bytes of a `float`, copied without interpretation. */
  type FloatBytes = s: seq<uint8> | |s| == FloatSize witness [0, 0, 0, 0]

  /** `struct Message`. */
  datatype Message = Message(sequenceNumber: uint8, temperature: FloatBytes)

  /** The observable content of a frame: identifier, length and the whole buffer. */
  datatype FrameState = FrameState(id: nat, len: nat, payload: seq<uint8>)

  predicate WellFormed(s: FrameState) {
    |s.payload| == Capacity && s.len <= Capacity
  }

  // ---------------------------------------------------------------------------
  // The two frame layouts, as functions of the frame before the write

  /** `sendCan()`: id 0x007, length 3, the first three bytes fixed; the rest of the buffer kept. */
  function HeartbeatState(s: FrameState): (t: FrameState)
    requires |s.payload| == Capacity
    ensures WellFormed(t)
    ensures t.id == HeartbeatId && t.len == |HeartbeatPayload|
    ensures t.payload[..t.len] == HeartbeatPayload
    ensures t.payload[t.len..] == s.payload[t.len..]
  {
    FrameState(HeartbeatId, |HeartbeatPayload|, HeartbeatPayload + s.payload[|HeartbeatPayload|..])
  }

  /** The bytes `sendCan(const Message&)` puts in front of the buffer. */
  function TelemetryPayload(m: Message): (p: seq<uint8>)
    ensures |p| == TelemetryLength <= Capacity
    ensures p[0] == m.sequenceNumber && p[SequenceSize..] == m.temperature
  {
    [m.sequenceNumber] + m.temperature
  }

  /** `sendCan(const Message&)`: id 0x245, length 1 + sizeof(float), bytes 0..4 the message. */
  function TelemetryState(s: FrameState, m: Message): (t: FrameState)
    requires |s.payload| == Capacity
    ensures WellFormed(t)
    ensures t.id == TelemetryId && t.len == TelemetryLength
    ensures t.payload[..t.len] == TelemetryPayload(m)
    ensures t.payload[t.len..] == s.payload[t.len..]
  {
    FrameState(TelemetryId, TelemetryLength, TelemetryPayload(m) + s.payload[TelemetryLength..])
  }

  /** Reads a telemetry message back from the used part of a payload. */
  function DecodeTelemetry(payload: seq<uint8>): Option<Message> {
    if |payload| < TelemetryLength then None
    else Some(Message(payload[0], payload[SequenceSize..TelemetryLength]))
  }

  /** Writing the heartbeat frame twice leaves the same frame as writing it once. */
  lemma HeartbeatIdempotent(s: FrameState)
    requires |s.payload| == Capacity
    ensures HeartbeatState(HeartbeatState(s)) == HeartbeatState(s)
  {
  }

  /** The used bytes of a telemetry frame decode to exactly the message that was encoded. */
  lemma TelemetryRoundTrip(s: FrameState, m: Message)
    requires |s.payload| == Capacity
    ensures var t := TelemetryState(s, m); DecodeTelemetry(t.payload[..t.len]) == Some(m)
  {
    var p := TelemetryPayload(m);
    assert p[SequenceSize..TelemetryLength] == m.temperature;
  }

  /** A payload decodes to `m` exactly when it starts with the telemetry bytes of `m`. */
  lemma TelemetryDecodes(payload: seq<uint8>, m: Message)
    ensures DecodeTelemetry(payload) == Some(m) <==>
      TelemetryLength <= |payload| && payload[..TelemetryLength] == TelemetryPayload(m)
  {
  }

  // ---------------------------------------------------------------------------
  // The sequence number of the demo loop

  /** `static_cast<uint8_t>` of the loop's `int16_t` counter: the value modulo 256. */
  function ToUint8(x: int16): (r: uint8)
    ensures (r as int - x as int) % 256 == 0
    ensures 0 <= x < 256 ==> r as int == x as int
  {
    (x as int % 256) as uint8
  }

  // ---------------------------------------------------------------------------
  // The frame object

  /** A `CAN_message_t` reduced to the fields the two routines write. */
  class Frame {
    var id: nat
    var len: nat
    const buf: array<uint8>

    predicate Valid()
      reads this
    {
      buf.Length == Capacity && len <= Capacity
    }

    function State(): (s: FrameState)
      reads this, buf
      requires Valid()
      ensures WellFormed(s)
    {
      FrameState(id, len, buf[..])
    }

    /** A frame as the bus library constructs it; its initial contents are not relied on. */
    constructor ()
      ensures Valid() && fresh(buf)
    {
      id := 0;
      len := 0;
      buf := new uint8[Capacity](_ => 0);
    }

    /**
     * `sendCan()` on the shared `msg`: the heartbeat fields are written; the
     * frame is then handed to the bus, whose result is ignored.
     */
    method SendHeartbeat()
      requires Valid()
      modifies this`id, this`len, buf
      ensures Valid()
      ensures State() == HeartbeatState(old(State()))
    {
      len := 3;
      id := 0x007;
      buf[0] := 0x26;
      buf[1] := 0x42;
      buf[2] := 0x00;
      assert buf[..] == HeartbeatPayload + old(buf[..])[3..];
    }

    /** The field writes of `sendCan(const Message&)`, the `memcpy` as a byte-wise copy. */
    method WriteTelemetry(message: Message)
      requires Valid()
      modifies this`id, this`len, buf
      ensures Valid()
      ensures State() == TelemetryState(old(State()), message)
    {
      id := 0x245;
      len := SequenceSize + FloatSize;
      buf[0] := message.sequenceNumber;
      forall k | 0 <= k < FloatSize {
        buf[SequenceSize + k] := message.temperature[k];
      }
      assert buf[..] == TelemetryPayload(message) + old(buf[..])[TelemetryLength..];
    }
  }

  // ---------------------------------------------------------------------------
  // The telemetry send routine and the demo loop

  /**
   * `sendCan(const Message&)`: a fresh local frame is filled and handed to the
   * bus; `writeStatus` is what the bus reports, and a negative one is logged.
   */
  method SendTelemetry(message: Message, writeStatus: int) returns (frame: Frame, logged: bool)
    ensures fresh(frame) && fresh(frame.buf) && frame.Valid()
    ensures frame.id == TelemetryId && frame.len == TelemetryLength
    ensures frame.buf[..TelemetryLength] == TelemetryPayload(message)
    ensures DecodeTelemetry(frame.buf[..frame.len]) == Some(message)
    ensures logged <==> writeStatus < 0
  {
    frame := new Frame();
    ghost var initial := frame.State();
    frame.WriteTelemetry(message);
    TelemetryRoundTrip(initial, message);
    logged := writeStatus < 0;
  }

  /**
   * The bus traffic of one pass of `loop()`: for x = 0 .. 127, the heartbeat
   * on the shared `msg`, then a telemetry message numbered `x` on a fresh
   * frame. `heartbeats[x]` and `telemetry[x]` are the two frames handed to the
   * bus on pass `x`, in that order. The temperatures and the bus results are
   * given as inputs; `logged[x]` says whether the failure line was printed for
   * message `x`.
   */
  method LoopTraffic(msg: Frame, temperatures: seq<FloatBytes>, writeStatuses: seq<int>)
    returns (heartbeats: seq<FrameState>, telemetry: seq<FrameState>, logged: seq<bool>)
    requires msg.Valid()
    requires |temperatures| == 128 && |writeStatuses| == 128
    modifies msg`id, msg`len, msg.buf
    ensures msg.Valid()
    ensures msg.State() == HeartbeatState(old(msg.State()))
    ensures |heartbeats| == 128 && |telemetry| == 128 && |logged| == 128
    ensures forall x :: 0 <= x < 128 ==> heartbeats[x] == HeartbeatState(old(msg.State()))
    ensures forall x :: 0 <= x < 128 ==>
      WellFormed(telemetry[x]) && telemetry[x].id == TelemetryId && telemetry[x].len == TelemetryLength &&
      telemetry[x].payload[..TelemetryLength] == TelemetryPayload(Message(x as uint8, temperatures[x])) &&
      DecodeTelemetry(telemetry[x].payload[..telemetry[x].len]) == Some(Message(x as uint8, temperatures[x]))
    ensures forall x :: 0 <= x < 128 ==> (logged[x] <==> writeStatuses[x] < 0)
  {
    heartbeats, telemetry, logged := [], [], [];
    ghost var before := msg.State();
    for x := 0 to 128
      invariant msg.Valid()
      invariant msg.State() == if x == 0 then before else HeartbeatState(before)
      invariant |heartbeats| == x && |telemetry| == x && |logged| == x
      invariant forall y :: 0 <= y < x ==> heartbeats[y] == HeartbeatState(before)
      invariant forall y :: 0 <= y < x ==>
        WellFormed(telemetry[y]) && telemetry[y].id == TelemetryId && telemetry[y].len == TelemetryLength &&
        telemetry[y].payload[..TelemetryLength] == TelemetryPayload(Message(y as uint8, temperatures[y])) &&
        DecodeTelemetry(telemetry[y].payload[..telemetry[y].len]) == Some(Message(y as uint8, temperatures[y]))
      invariant forall y :: 0 <= y < x ==> (logged[y] <==> writeStatuses[y] < 0)
    {
      msg.SendHeartbeat();
      if x > 0 {
        HeartbeatIdempotent(before);
      }
      heartbeats := heartbeats + [msg.State()];
      var message := Message(ToUint8(x as int16), temperatures[x]);
      assert message.sequenceNumber == x as uint8;
      var frame, failed := SendTelemetry(message, writeStatuses[x]);
      telemetry, logged := telemetry + [frame.State()], logged + [failed];
    }
  }
}
