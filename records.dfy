/**
 * The record types of the mesh routing engine (ZHNetwork.h): the routed
 * packet as it goes over the air, the three queue records wrapped around it,
 * the routing-table and confirmation entries, the message-type enum and the
 * default configuration values.
 */
module Records {
  import opened Wrappers
  import MemoryPool

  type byte = bv8
  type uint8 = x: int | 0 <= x < 0x100
  type uint16 = x: int | 0 <= x < 0x1_0000
  type uint32 = x: int | 0 <= x < 0x1_0000_0000
  type uint64 = x: int | 0 <= x < 0x1_0000_0000_0000_0000

  /** A six-byte node identifier. */
  type Mac = s: seq<byte> | |s| == 6 witness [0, 0, 0, 0, 0, 0]

  const NET_NAME_SIZE := 20
  const MESSAGE_CAPACITY := 200
  /** The hop budget every originator writes into a new packet. */
  const MAX_LAYERS: uint8 := 5
  const BROADCAST_MAC: Mac := [0xFF, 0xFF, 0xFF, 0xFF, 0xFF, 0xFF]

  // Status values returned where the source returns error_code_t or an esp_err_t.
  const ERROR: uint16 := 0
  const SUCCESS: uint16 := 1
  const ESP_ERR_INVALID_SIZE: uint16 := 0x104

  // Default values of the engine's configuration fields.
  const DEFAULT_MAX_NUMBER_OF_ATTEMPTS: uint8 := 3
  const DEFAULT_MAX_WAITING_TIME_BETWEEN_TRANSMISSIONS: uint8 := 5
  const DEFAULT_NUMBER_OF_ATTEMPTS_TO_SEND: uint8 := 1
  const DEFAULT_MAX_TIME_FOR_ROUTING_INFO_WAITING: uint16 := 500

  /** message_type_t: the kind of a routed packet. */
  datatype MessageType =
    | Broadcast
    | Unicast
    | UnicastWithConfirm
    | DeliveryConfirmResponse
    | SearchRequest
    | SearchResponse

  /** The wire value of each kind: BROADCAST = 1, the others following in declaration order. */
  function Code(t: MessageType): (c: uint8)
    ensures 1 <= c <= 6
  {
    match t
    case Broadcast => 1
    case Unicast => 2
    case UnicastWithConfirm => 3
    case DeliveryConfirmResponse => 4
    case SearchRequest => 5
    case SearchResponse => 6
  }

  /** The kind a received type byte stands for; other byte values match no case of the dispatch switch. */
  function TypeOf(c: uint8): (t: Option<MessageType>)
    ensures t.Some? <==> 1 <= c <= 6
    ensures t.Some? ==> Code(t.value) == c
  {
    if c == 1 then Some(Broadcast)
    else if c == 2 then Some(Unicast)
    else if c == 3 then Some(UnicastWithConfirm)
    else if c == 4 then Some(DeliveryConfirmResponse)
    else if c == 5 then Some(SearchRequest)
    else if c == 6 then Some(SearchResponse)
    else None
  }

  lemma TypeCodeRoundTrip(t: MessageType)
    ensures TypeOf(Code(t)) == Some(t)
  {
  }

  lemma TypeCodesInDeclarationOrder()
    ensures Code(Broadcast) == 1 && Code(Unicast) == 2 && Code(UnicastWithConfirm) == 3
    ensures Code(DeliveryConfirmResponse) == 4 && Code(SearchRequest) == 5 && Code(SearchResponse) == 6
  {
  }

  /**
   * transmitted_data_t: the routed packet. The source reads and writes a
   * `ttl` field that its struct declaration lacks; this model adds it as one
   * byte placed after the payload.
   */
  datatype Transmitted = Transmitted(
    messageType: uint8,
    messageSize: uint8,
    messageId: uint16,
    netName: seq<byte>,
    originalTarget: Mac,
    originalSender: Mac,
    message: seq<byte>,
    ttl: uint8)

  /** The fixed-size arrays of the packet have their declared sizes. */
  predicate WellFormed(t: Transmitted) {
    |t.netName| == NET_NAME_SIZE && |t.message| == MESSAGE_CAPACITY
  }

  /** outgoing_data_t: a packet and the next hop it is handed to. */
  datatype Outgoing = Outgoing(intermediateTarget: Mac, data: Transmitted)

  /** incoming_data_t: a packet and the neighbour that physically transmitted it. */
  datatype Incoming = Incoming(intermediateSender: Mac, data: Transmitted)

  /** waiting_data_t: a packet parked until a route to its target is known. */
  datatype Waiting = Waiting(time: uint64, intermediateTarget: Mac, data: Transmitted)

  /** routing_table_t: the next hop towards a destination. */
  datatype Route = Route(originalTarget: Mac, intermediateTarget: Mac)

  /** confirmation_waiting_data_t: a delivered confirmed unicast awaiting its acknowledgement. */
  datatype ConfirmationWaiting = ConfirmationWaiting(time: uint64, target: Mac, messageId: uint16)

  // ---- Sizes of the C structures (byte-aligned fields, 16-bit ID, 64-bit times) ----

  /** The packet's fields; the struct is padded to an even size for its 16-bit ID. */
  const TRANSMITTED_FIELDS := 1 + 1 + 2 + NET_NAME_SIZE + 6 + 6 + MESSAGE_CAPACITY + 1
  const TRANSMITTED_SIZE := TRANSMITTED_FIELDS + TRANSMITTED_FIELDS % 2
  const OUTGOING_SIZE := 6 + TRANSMITTED_SIZE
  const INCOMING_SIZE := 6 + TRANSMITTED_SIZE
  /** waiting_data_t starts with a 64-bit time, so it is padded to a multiple of 8. */
  const WAITING_SIZE := 8 + 6 + TRANSMITTED_SIZE + (8 - (6 + TRANSMITTED_SIZE) % 8) % 8
  /** confirmation_id_t: a 16-bit ID padded with 198 zero bytes. */
  const CONFIRMATION_ID_SIZE := 2 + 198

  /** The queue records fit the 261-byte pool slot and the two wire-level records stay under 256 bytes. */
  lemma RecordsFitPoolSlot()
    ensures TRANSMITTED_SIZE == 238
    ensures OUTGOING_SIZE < 256 && INCOMING_SIZE < 256
    ensures WAITING_SIZE < MemoryPool.MAX_MESSAGE_SIZE
    ensures CONFIRMATION_ID_SIZE == MESSAGE_CAPACITY
  {
  }

  // ---- Wire layout: the bytes `esp_now_send` is handed for a packet ----
  //   0 type | 1 size | 2-3 ID (little-endian) | 4-23 net name | 24-29 target |
  //   30-35 sender | 36-235 payload | 236 ttl | 237 padding

  function Zeros(n: nat): (z: seq<byte>)
    ensures |z| == n && forall i :: 0 <= i < n ==> z[i] == 0
  {
    seq(n, _ => 0)
  }

  function LittleEndian16(v: uint16): (b: seq<byte>)
    ensures |b| == 2
  {
    [(v % 0x100) as byte, (v / 0x100) as byte]
  }

  function FromLittleEndian16(lo: byte, hi: byte): uint16 {
    lo as int + 0x100 * hi as int
  }

  /**
   * A value below 256 survives the conversion to a byte and back. The proof
   * splits the range into pieces with constant bounds, which the solver
   * handles much faster than the whole range at once.
   */
  lemma ByteRoundTrip(x: uint8)
    ensures (x as byte) as int == x
  {
    if x < 8 {} else if x < 16 {} else if x < 24 {} else if x < 32 {}
    else if x < 40 {} else if x < 48 {} else if x < 56 {} else if x < 64 {}
    else if x < 72 {} else if x < 80 {} else if x < 88 {} else if x < 96 {}
    else if x < 104 {} else if x < 112 {} else if x < 120 {} else if x < 128 {}
    else if x < 136 {} else if x < 144 {} else if x < 152 {} else if x < 160 {}
    else if x < 168 {} else if x < 176 {} else if x < 184 {} else if x < 192 {}
    else if x < 200 {} else if x < 208 {} else if x < 216 {} else if x < 224 {}
    else if x < 232 {} else if x < 240 {} else if x < 248 {} else {}
  }

  lemma IntRoundTrip(b: byte)
    ensures (b as int) as byte == b
  {
  }

  lemma LittleEndian16RoundTrip(v: uint16)
    ensures FromLittleEndian16(LittleEndian16(v)[0], LittleEndian16(v)[1]) == v
  {
    ByteRoundTrip(v % 0x100);
    ByteRoundTrip(v / 0x100);
  }

  lemma FromLittleEndian16RoundTrip(lo: byte, hi: byte)
    ensures LittleEndian16(FromLittleEndian16(lo, hi)) == [lo, hi]
  {
    SplitLittleEndian16(lo, hi);
    IntRoundTrip(lo);
    IntRoundTrip(hi);
  }

  lemma SplitLittleEndian16(lo: byte, hi: byte)
    ensures FromLittleEndian16(lo, hi) % 0x100 == lo as int
    ensures FromLittleEndian16(lo, hi) / 0x100 == hi as int
  {
  }

  function Encode(t: Transmitted): (d: seq<byte>)
    ensures WellFormed(t) ==> |d| == TRANSMITTED_SIZE
  {
    [t.messageType as byte, t.messageSize as byte] + LittleEndian16(t.messageId)
    + t.netName + t.originalTarget + t.originalSender + t.message + [t.ttl as byte, 0]
  }

  function Decode(d: seq<byte>): (t: Transmitted)
    requires |d| == TRANSMITTED_SIZE
    ensures WellFormed(t)
  {
    Transmitted(d[0] as int, d[1] as int, FromLittleEndian16(d[2], d[3]),
                d[4..24], d[24..30], d[30..36], d[36..236], d[236] as int)
  }

  /** A packet survives the trip through the wire bytes unchanged. */
  lemma DecodeEncode(t: Transmitted)
    requires WellFormed(t)
    ensures Decode(Encode(t)) == t
  {
    var d := Encode(t);
    LittleEndian16RoundTrip(t.messageId);
    ByteRoundTrip(t.messageType);
    ByteRoundTrip(t.messageSize);
    ByteRoundTrip(t.ttl);
    assert d[0] == t.messageType as byte && d[1] == t.messageSize as byte && d[236] == t.ttl as byte;
    assert d[2..4] == LittleEndian16(t.messageId);
    assert d[4..24] == t.netName;
    assert d[24..30] == t.originalTarget;
    assert d[30..36] == t.originalSender;
    assert d[36..236] == t.message;
  }

  /** Re-encoding a received datagram reproduces every byte but the padding byte. */
  lemma EncodeDecode(d: seq<byte>)
    requires |d| == TRANSMITTED_SIZE
    ensures Encode(Decode(d)) == d[..237] + [0]
  {
    var t := Decode(d);
    FromLittleEndian16RoundTrip(d[2], d[3]);
    IntRoundTrip(d[0]);
    IntRoundTrip(d[1]);
    IntRoundTrip(d[236]);
    assert LittleEndian16(t.messageId) == d[2..4];
    assert d[..4] == [d[0], d[1]] + d[2..4];
    assert d[..24] == d[..4] + d[4..24];
    assert d[..30] == d[..24] + d[24..30];
    assert d[..36] == d[..30] + d[30..36];
    assert d[..236] == d[..36] + d[36..236];
    assert d[..237] == d[..236] + [d[236]];
  }
}
