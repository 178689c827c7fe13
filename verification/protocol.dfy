/**
 * The radio vocabulary shared by the coordinator and the buzzer nodes
 * (src/protocol.h): message-type codes, LED-state codes, the four-field
 * frame and its fixed-length byte encoding, and the per-node lock bit.
 *
 * Frame fields are kept as raw bytes exactly as the C struct holds them:
 * a receiver compares `msgType` against a code and may cast `value`
 * without checking it, so an unknown code must be representable.
 */
module Protocol {
  import opened Wrappers
  import Config

  /** A buzzer node identity as fixed at build time (1..NUM_BUZZERS). */
  type NodeId = x: bv8 | 1 <= x as int <= Config.NUM_BUZZERS witness 1

  // ---------------------------------------------------------------------
  // Message types
  // ---------------------------------------------------------------------

  /**
   * The message types on the link.  The header declares the first three;
   * the node firmware also uses heartbeat, state request and state sync,
   * which are given the codes 4, 5 and 6.
   */
  datatype MessageType = ButtonPress | LedCommand | Ack | Heartbeat | StateRequest | StateSync

  function MessageTypeOf(b: bv8): (r: Option<MessageType>)
    ensures r.Some? <==> 1 <= b <= 6
  {
    if b == 1 then Some(ButtonPress)
    else if b == 2 then Some(LedCommand)
    else if b == 3 then Some(Ack)
    else if b == 4 then Some(Heartbeat)
    else if b == 5 then Some(StateRequest)
    else if b == 6 then Some(StateSync)
    else None
  }

  /** The wire code of a message type; decoding the code gives the type back. */
  function MessageCode(t: MessageType): (b: bv8)
    ensures 1 <= b <= 6
    ensures MessageTypeOf(b) == Some(t)
  {
    match t
    case ButtonPress => 1
    case LedCommand => 2
    case Ack => 3
    case Heartbeat => 4
    case StateRequest => 5
    case StateSync => 6
  }

  /** Distinct message types have distinct codes, and every known code decodes to the type that encodes it. */
  lemma MessageCodesInvertible()
    ensures forall t, u :: MessageCode(t) == MessageCode(u) ==> t == u
    ensures forall b :: MessageTypeOf(b).Some? ==> MessageCode(MessageTypeOf(b).value) == b
  {
  }

  // ---------------------------------------------------------------------
  // LED states
  // ---------------------------------------------------------------------

  datatype LedState = Off | On | Blink

  function LedStateOf(b: bv8): (r: Option<LedState>)
    ensures r.None? <==> b >= 3
  {
    if b == 0 then Some(Off)
    else if b == 1 then Some(On)
    else if b == 2 then Some(Blink)
    else None
  }

  /** The wire code of an LED state; decoding it gives the state back. */
  function LedCode(s: LedState): (b: bv8)
    ensures b < 3
    ensures LedStateOf(b) == Some(s)
  {
    match s
    case Off => 0
    case On => 1
    case Blink => 2
  }

  /** LED codes are injective and every code below 3 comes from exactly one state. */
  lemma LedCodesInvertible()
    ensures forall s, t :: LedCode(s) == LedCode(t) ==> s == t
    ensures forall b :: LedStateOf(b).Some? ==> LedCode(LedStateOf(b).value) == b
  {
  }

  // ---------------------------------------------------------------------
  // Frames
  // ---------------------------------------------------------------------

  /** One radio message: sender or addressee id, type code, payload byte, sender clock. */
  datatype Frame = Frame(nodeId: bv8, msgType: bv8, value: bv8, timestamp: bv32)

  /** The packed frame length: three single bytes and a 32-bit timestamp. */
  const FRAME_SIZE: nat := 7

  datatype DecodeError = WrongSize(length: nat)

  /** The sender's millisecond clock as stored in the 32-bit timestamp field. */
  function Stamp(now: nat): bv32
  {
    (now % 0x1_0000_0000) as bv32
  }

  /** Lay a frame out as bytes; the timestamp is little-endian. */
  function Encode(f: Frame): (bytes: seq<bv8>)
    ensures |bytes| == FRAME_SIZE
    ensures bytes[0] == f.nodeId && bytes[1] == f.msgType && bytes[2] == f.value
  {
    [ f.nodeId, f.msgType, f.value,
      (f.timestamp & 0xFF) as bv8,
      ((f.timestamp >> 8) & 0xFF) as bv8,
      ((f.timestamp >> 16) & 0xFF) as bv8,
      ((f.timestamp >> 24) & 0xFF) as bv8 ]
  }

  /** Reassemble a little-endian 32-bit value from four bytes. */
  function Word(b0: bv8, b1: bv8, b2: bv8, b3: bv8): bv32
  {
    (b0 as bv32) | ((b1 as bv32) << 8) | ((b2 as bv32) << 16) | ((b3 as bv32) << 24)
  }

  /** Read a frame; any byte string whose length is not the frame size is rejected. */
  function Decode(bytes: seq<bv8>): (r: Result<Frame, DecodeError>)
    ensures r.Failure? <==> |bytes| != FRAME_SIZE
    ensures r.Failure? ==> r.error == WrongSize(|bytes|)
    ensures r.Success? ==> r.value.nodeId == bytes[0] && r.value.msgType == bytes[1] && r.value.value == bytes[2]
  {
    if |bytes| != FRAME_SIZE then Failure(WrongSize(|bytes|))
    else Success(Frame(bytes[0], bytes[1], bytes[2], Word(bytes[3], bytes[4], bytes[5], bytes[6])))
  }

  /** Decoding an encoded frame gives back every field, including any 32-bit timestamp. */
  lemma DecodeEncode(f: Frame)
    ensures Decode(Encode(f)) == Success(f)
  {
  }

  /** Every byte string of the frame size decodes, and re-encoding it gives the same bytes. */
  lemma EncodeDecode(bytes: seq<bv8>)
    requires |bytes| == FRAME_SIZE
    ensures Decode(bytes).Success?
    ensures Encode(Decode(bytes).value) == bytes
  {
  }

  // ---------------------------------------------------------------------
  // Lock mask bits
  // ---------------------------------------------------------------------

  /**
   * The mask bit of node `id`: `1 << (id - 1)` truncated to a byte.
   * Ids above 8 shift the bit out of the byte (the firmware never
   * stores such an id).
   */
  function Bit(id: bv8): (b: bv8)
    ensures 1 <= id <= 8 ==> b != 0 && b & (b - 1) == 0
    ensures 1 <= id as int <= Config.NUM_BUZZERS ==> b & 0xF0 == 0
  {
    if 1 <= id <= 8 then (1 as bv8) << (id - 1) as int else 0
  }

  /** Whether node `id`'s bit is set in `mask`. */
  predicate IsLocked(mask: bv8, id: bv8)
  {
    mask & Bit(id) != 0
  }

  /** Distinct node ids own distinct bits. */
  lemma BitsDistinct(i: bv8, j: bv8)
    requires 1 <= i <= 8 && 1 <= j <= 8 && i != j
    ensures Bit(i) & Bit(j) == 0
  {
  }
}
