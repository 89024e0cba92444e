/**
 * The routing engine (ZHNetwork.cpp) as a state machine on values: `Net` is
 * the engine's whole state, and each function below is what one entry point
 * or one phase of `maintenance` does to it. The class in network.dfy is
 * proved to change its fields exactly as these functions say.
 *
 * Transport calls into esp_now and the user callbacks are recorded as
 * `Event`s; the pool is seen through its free list `free`; message IDs come
 * from `ids`, one per construction, numbered by `draws`.
 */
module NetSpec {
  import opened Wrappers
  import opened Records
  import opened Crypt
  import opened Routing
  import MemoryPool

  type BufId = MemoryPool.BufId

  const POOL_SIZE := MemoryPool.MAX_NUMBER_OF_MESSAGE
  /** Entries of the recent-message-ID window lastMessageID. */
  const ID_WINDOW := 10
  /** Capacity of the key buffer key_. */
  const KEY_CAPACITY := 20
  /** The transmit status esp_now reports for a delivered frame. */
  const SEND_SUCCESS := 0

  /** A queued record together with the pool buffer that holds it. */
  datatype Owned<T> = Owned(buf: BufId, item: T)

  /** A call out of the engine: into esp_now, or into a user callback. */
  datatype Event =
    | AddPeer(peer: Mac)
    | DelPeer(peer: Mac)
    | Send(peer: Mac, datagram: seq<byte>)
    | BroadcastReceived(message: seq<byte>, size: uint8, sender: Mac)
    | UnicastReceived(message: seq<byte>, size: uint8, sender: Mac)
    | Confirmed(peer: Mac, messageId: uint16, delivered: bool)

  datatype Net = Net(
    localMac: Mac,
    netName: seq<byte>,
    key: seq<byte>,
    routingVector: seq<Route>,
    confirmationVector: seq<ConfirmationWaiting>,
    incomingQueue: seq<Owned<Incoming>>,
    outgoingQueue: seq<Owned<Outgoing>>,
    waitingQueue: seq<Owned<Waiting>>,
    criticalProcessSemaphore: bool,
    sentMessageSemaphore: bool,
    confirmReceivingSemaphore: bool,
    confirmReceiving: bool,
    lastMessageId: seq<uint16>,
    maxNumberOfAttempts: uint8,
    maxWaitingTimeBetweenTransmissions: uint8,
    numberOfAttemptsToSend: uint8,
    maxTimeForRoutingInfoWaiting: uint16,
    onBroadcast: bool,
    onUnicast: bool,
    onConfirm: bool,
    free: seq<BufId>,
    draws: nat,
    events: seq<Event>)

  /** Pool buffers accounted for: free ones plus those holding queued records. */
  function Buffers(s: Net): nat {
    |s.free| + |s.outgoingQueue| + |s.incomingQueue| + |s.waitingQueue|
  }

  /**
   * What every entry point relies on: fixed-size fields have their sizes,
   * received records their declared layout, a send in flight is the head of
   * the outgoing queue, and the routing table has one entry per destination.
   */
  ghost predicate Shape(s: Net) {
    && |s.netName| == NET_NAME_SIZE
    && |s.key| <= KEY_CAPACITY && 0 !in s.key
    && |s.lastMessageId| == ID_WINDOW
    && AllWellFormed(s.incomingQueue)
    && (s.sentMessageSemaphore ==> |s.outgoingQueue| > 0)
    && UniqueTargets(s.routingVector)
  }

  /** Every received record has the declared layout. */
  ghost predicate AllWellFormed(q: seq<Owned<Incoming>>) {
    forall i :: 0 <= i < |q| ==> WellFormed(q[i].item.data)
  }

  /** The fields the receive path reads and writes are the same in `s` and `r`. */
  ghost predicate SameReceiver(s: Net, r: Net) {
    && r.incomingQueue == s.incomingQueue
    && r.criticalProcessSemaphore == s.criticalProcessSemaphore
    && r.lastMessageId == s.lastMessageId
    && r.localMac == s.localMac && r.netName == s.netName && r.key == s.key
  }

  lemma WellFormedAppended(q: seq<Owned<Incoming>>, x: Owned<Incoming>)
    requires AllWellFormed(q) && WellFormed(x.item.data)
    ensures AllWellFormed(q + [x])
  {
    assert forall i :: 0 <= i < |q| ==> (q + [x])[i] == q[i];
  }

  /** The engine's invariant while `held` buffers sit in local variables of the running code. */
  ghost predicate Inv(s: Net, held: nat) {
    Shape(s) && Buffers(s) + held == POOL_SIZE
  }

  function Last<T>(q: seq<T>): T
    requires |q| > 0
  {
    q[|q| - 1]
  }

  /** Milliseconds since `stamp`: a 32-bit tick reading minus a 64-bit stamp, in 64-bit unsigned arithmetic. */
  function Elapsed(now: uint32, stamp: uint64): (e: uint64)
    ensures stamp <= now ==> e == now - stamp
    ensures stamp > now ==> e == 0x1_0000_0000_0000_0000 + now - stamp
  {
    (now - stamp) % 0x1_0000_0000_0000_0000
  }

  // ---- Receive admission ----

  /** The net name as a C string: the bytes before the first zero. */
  function CString(a: seq<byte>): (c: seq<byte>)
    ensures |c| <= |a| && 0 !in c
  {
    if |a| == 0 || a[0] == 0 then [] else [a[0]] + CString(a[1..])
  }

  /** strncmp over the whole of two equally long names reports them equal. */
  function NamesMatch(a: seq<byte>, b: seq<byte>): bool
    requires |a| == |b|
  {
    |a| == 0 || (a[0] == b[0] && (a[0] == 0 || NamesMatch(a[1..], b[1..])))
  }

  /** Bytes without a zero are their own C string. */
  lemma {:induction false} CStringOfPlain(a: seq<byte>)
    ensures 0 !in a ==> CString(a) == a
  {
    if |a| > 0 && 0 !in a {
      assert a[0] != 0 && 0 !in a[1..];
      CStringOfPlain(a[1..]);
      assert a == [a[0]] + a[1..];
    }
  }

  /** The comparison sees exactly the two C strings. */
  lemma {:induction false} NamesMatchIffSameString(a: seq<byte>, b: seq<byte>)
    requires |a| == |b|
    ensures NamesMatch(a, b) <==> CString(a) == CString(b)
  {
    if |a| > 0 && a[0] == b[0] && a[0] != 0 {
      NamesMatchIffSameString(a[1..], b[1..]);
      assert CString(a) == [a[0]] + CString(a[1..]);
      assert CString(b) == [b[0]] + CString(b[1..]);
      if CString(a) == CString(b) {
        assert CString(a)[1..] == CString(a[1..]);
        assert CString(b)[1..] == CString(b[1..]);
      }
    } else if |a| > 0 && a[0] != b[0] {
      if a[0] != 0 && b[0] != 0 {
        assert CString(a)[0] != CString(b)[0];
      }
    }
  }

  /** The three drop filters all pass: the record comes from another node, carries this node's net name (when one is set) and has an ID not seen recently. */
  predicate Accepts(s: Net, t: Transmitted)
    requires |s.netName| == NET_NAME_SIZE && |t.netName| == NET_NAME_SIZE
  {
    && t.originalSender != s.localMac
    && (s.netName[0] != 0 ==> NamesMatch(t.netName, s.netName))
    && t.messageId !in s.lastMessageId
  }

  /** The conditions under which a received datagram is queued. */
  predicate Admitted(s: Net, data: seq<byte>)
    requires |s.netName| == NET_NAME_SIZE
  {
    |data| == TRANSMITTED_SIZE && Accepts(s, Decode(data))
  }

  /** The drop filters applied to a decoded record, with a buffer at hand. */
  function Filter(s: Net, info: Mac, t: Transmitted): (r: Net)
    requires Shape(s) && |s.free| > 0 && WellFormed(t)
    ensures Buffers(r) == Buffers(s) && Shape(r)
    ensures Accepts(s, t) ==>
              r == s.(free := s.free[1..],
                      lastMessageId := [t.messageId] + s.lastMessageId[..ID_WINDOW - 1],
                      incomingQueue := s.incomingQueue + [Owned(s.free[0], Incoming(info, t))])
    ensures !Accepts(s, t) ==> r == s.(free := s.free[1..] + [s.free[0]])
  {
    var b := s.free[0];
    if Accepts(s, t) then
      WellFormedAppended(s.incomingQueue, Owned(b, Incoming(info, t)));
      s.(free := s.free[1..],
         lastMessageId := [t.messageId] + s.lastMessageId[..ID_WINDOW - 1],
         incomingQueue := s.incomingQueue + [Owned(b, Incoming(info, t))])
    else s.(free := s.free[1..] + [b])
  }

  /**
   * onDataReceive: ignored while the dispatcher is busy; otherwise a
   * datagram of the record size is copied into a pool buffer and queued,
   * tagged with the neighbour it came from, unless one of the drop filters
   * applies. A queued ID enters the front of the window and pushes its oldest
   * entry out. An empty pool leaves the busy flag set.
   */
  function OnDataReceive(s: Net, info: Mac, data: seq<byte>): (r: Net)
    requires Shape(s)
    ensures Buffers(r) == Buffers(s) && Shape(r)
    ensures s.criticalProcessSemaphore || |data| != TRANSMITTED_SIZE ==> r == s
    ensures !s.criticalProcessSemaphore && |data| == TRANSMITTED_SIZE && |s.free| == 0 ==>
              r == s.(criticalProcessSemaphore := true)
    ensures !s.criticalProcessSemaphore && |data| == TRANSMITTED_SIZE && |s.free| > 0 ==>
              r == Filter(s, info, Decode(data))
  {
    if s.criticalProcessSemaphore || |data| != TRANSMITTED_SIZE then s
    else if |s.free| == 0 then s.(criticalProcessSemaphore := true)
    else Filter(s, info, Decode(data))
  }

  /**
   * A datagram that arrives while the dispatcher is idle and a buffer is free
   * is queued exactly when it is admitted; it is then queued as decoded,
   * tagged with the sending neighbour, and its ID becomes the newest entry of
   * the window. A datagram that is not admitted changes nothing but the
   * position of the free buffer in the pool's ring.
   */
  lemma ReceiveAdmission(s: Net, info: Mac, data: seq<byte>)
    requires Shape(s) && !s.criticalProcessSemaphore && |s.free| > 0
    ensures var r := OnDataReceive(s, info, data);
      && (|r.incomingQueue| == |s.incomingQueue| + 1 <==> Admitted(s, data))
      && (Admitted(s, data) ==>
            && Last(r.incomingQueue) == Owned(s.free[0], Incoming(info, Decode(data)))
            && r.lastMessageId[0] == Decode(data).messageId
            && r.lastMessageId[1..] == s.lastMessageId[..ID_WINDOW - 1])
      && (!Admitted(s, data) ==> r.incomingQueue == s.incomingQueue && multiset(r.free) == multiset(s.free))
  {
    var r := OnDataReceive(s, info, data);
    if |data| == TRANSMITTED_SIZE && !Admitted(s, data) {
      assert r.free == s.free[1..] + [s.free[0]];
      assert s.free == [s.free[0]] + s.free[1..];
    }
  }

  /** onDataSent: records that the transmission finished and whether it was delivered. */
  function OnDataSent(s: Net, status: int): (r: Net)
    ensures r.confirmReceivingSemaphore && (r.confirmReceiving <==> status == SEND_SUCCESS)
    ensures r.(confirmReceivingSemaphore := s.confirmReceivingSemaphore, confirmReceiving := s.confirmReceiving) == s
  {
    s.(confirmReceivingSemaphore := true, confirmReceiving := status == SEND_SUCCESS)
  }

  // ---- Message construction ----

  /** The payload copied into a fresh buffer: `size` bytes of `data`, the rest zero. */
  function Payload(data: seq<byte>, size: nat): (p: seq<byte>)
    requires size <= |data| && size <= MESSAGE_CAPACITY
    ensures |p| == MESSAGE_CAPACITY && p[..size] == data[..size]
  {
    data[..size] + Zeros(MESSAGE_CAPACITY - size)
  }

  /** The steps shared by broadcastMessage and unicastMessage, given the next hop and whether to obfuscate. */
  function Construct(s: Net, ids: nat -> uint16, data: seq<byte>, size: uint8, target: Mac, sender: Mac,
                     t: MessageType, encrypt: bool, hop: Mac): (r: (Net, uint16))
    requires size <= MESSAGE_CAPACITY ==> size <= |data|
    requires encrypt ==> |s.key| > 0
    ensures Buffers(r.0) == Buffers(s) && (Shape(s) ==> Shape(r.0))
    ensures Enqueued(s, r.0)
    ensures |s.free| > 0 && size <= MESSAGE_CAPACITY ==>
      r.0.outgoingQueue == s.outgoingQueue +
        [Owned(s.free[0], Outgoing(hop, Transmitted(Code(t), size, ids(s.draws), s.netName, target, sender,
           if encrypt then Xored(Payload(data, size), size, s.key) else Payload(data, size), MAX_LAYERS)))]
  {
    if |s.free| == 0 then (s, ERROR)
    else
      var b := s.free[0];
      var id := ids(s.draws);
      if size > MESSAGE_CAPACITY then (s.(free := s.free[1..] + [b], draws := s.draws + 1), ESP_ERR_INVALID_SIZE)
      else
        var plain := Payload(data, size);
        var message := if encrypt then Xored(plain, size, s.key) else plain;
        var d := Transmitted(Code(t), size, id, s.netName, target, sender, message, MAX_LAYERS);
        (s.(free := s.free[1..], draws := s.draws + 1, outgoingQueue := s.outgoingQueue + [Owned(b, Outgoing(hop, d))]), id)
  }

  /** Construction touches only the pool, the ID draws and the tail of the outgoing queue. */
  ghost predicate Enqueued(s: Net, r: Net) {
    && r == s.(free := r.free, draws := r.draws, outgoingQueue := r.outgoingQueue)
    && s.outgoingQueue <= r.outgoingQueue
  }

  /** `r` is `s` with one ID drawn and one record appended to the outgoing queue in the first free buffer. */
  ghost predicate PushedOne(s: Net, r: Net) {
    && |s.free| > 0
    && |r.outgoingQueue| == |s.outgoingQueue| + 1
    && r.outgoingQueue[..|s.outgoingQueue|] == s.outgoingQueue
    && Last(r.outgoingQueue).buf == s.free[0]
    && r == s.(free := s.free[1..], draws := s.draws + 1, outgoingQueue := r.outgoingQueue)
  }

  /** Nothing queued: the empty pool changes nothing and returns ERROR; an oversized payload draws an ID, returns its buffer to the pool and reports ESP_ERR_INVALID_SIZE. */
  ghost predicate Rejected(s: Net, size: uint8, r: (Net, uint16)) {
    && (|s.free| == 0 ==> r == (s, ERROR))
    && (|s.free| > 0 && size > MESSAGE_CAPACITY ==>
          r == (s.(free := s.free[1..] + [s.free[0]], draws := s.draws + 1), ESP_ERR_INVALID_SIZE))
  }

  /**
   * broadcastMessage: a record from this node with a fresh ID and the full hop
   * budget, addressed to the broadcast MAC; the payload is obfuscated only
   * for a BROADCAST-type message when a key is set.
   */
  function BroadcastMessage(s: Net, ids: nat -> uint16, data: seq<byte>, size: uint8, target: Mac, t: MessageType): (r: (Net, uint16))
    requires size <= MESSAGE_CAPACITY ==> size <= |data|
    ensures Buffers(r.0) == Buffers(s) && (Shape(s) ==> Shape(r.0))
    ensures Rejected(s, size, r) && Enqueued(s, r.0)
    ensures |s.free| > 0 && size <= MESSAGE_CAPACITY ==>
      r.0.outgoingQueue == s.outgoingQueue +
        [Owned(s.free[0], Outgoing(BROADCAST_MAC, Transmitted(Code(t), size, ids(s.draws), s.netName, target, s.localMac,
           if |s.key| > 0 && t == Broadcast then Xored(Payload(data, size), size, s.key) else Payload(data, size),
           MAX_LAYERS)))]
    ensures |s.free| > 0 && size <= MESSAGE_CAPACITY ==>
      && r.1 == ids(s.draws)
      && PushedOne(s, r.0)
      && Last(r.0.outgoingQueue).item.intermediateTarget == BROADCAST_MAC
      && Last(r.0.outgoingQueue).item.data ==
           Transmitted(Code(t), size, r.1, s.netName, target, s.localMac,
                       if |s.key| > 0 && t == Broadcast then Xored(Payload(data, size), size, s.key)
                       else Payload(data, size),
                       MAX_LAYERS)
  {
    Construct(s, ids, data, size, target, s.localMac, t, |s.key| > 0 && t == Broadcast, BROADCAST_MAC)
  }

  /**
   * unicastMessage: a record from `sender` with a fresh ID and the full hop
   * budget, handed to the next hop the routing table gives for the target, or
   * to the target itself; the payload is obfuscated when a key is set, the
   * message originates here and it is not a delivery confirmation.
   */
  function UnicastMessage(s: Net, ids: nat -> uint16, data: seq<byte>, size: uint8, target: Mac, sender: Mac, t: MessageType): (r: (Net, uint16))
    requires size <= MESSAGE_CAPACITY ==> size <= |data|
    ensures Buffers(r.0) == Buffers(s) && (Shape(s) ==> Shape(r.0))
    ensures Rejected(s, size, r) && Enqueued(s, r.0)
    ensures |s.free| > 0 && size <= MESSAGE_CAPACITY ==>
      && r.1 == ids(s.draws)
      && PushedOne(s, r.0)
      && Last(r.0.outgoingQueue).item.intermediateTarget == Lookup(s.routingVector, target).GetOr(target)
      && Last(r.0.outgoingQueue).item.data ==
           Transmitted(Code(t), size, r.1, s.netName, target, sender,
                       if |s.key| > 0 && sender == s.localMac && t != DeliveryConfirmResponse
                       then Xored(Payload(data, size), size, s.key)
                       else Payload(data, size),
                       MAX_LAYERS)
  {
    var encrypt := |s.key| > 0 && sender == s.localMac && t != DeliveryConfirmResponse;
    Construct(s, ids, data, size, target, sender, t, encrypt, Lookup(s.routingVector, target).GetOr(target))
  }

  /**
   * sendBroadcastMessage: a BROADCAST from this node to everyone, queued for
   * the broadcast MAC with a fresh ID and the full hop budget; the payload is
   * obfuscated when a key is set. The new ID is returned.
   */
  function SendBroadcastMessage(s: Net, ids: nat -> uint16, data: seq<byte>, size: uint8): (r: (Net, uint16))
    requires size <= MESSAGE_CAPACITY ==> size <= |data|
    ensures Buffers(r.0) == Buffers(s) && (Shape(s) ==> Shape(r.0))
    ensures Rejected(s, size, r) && Enqueued(s, r.0)
    ensures |s.free| > 0 && size <= MESSAGE_CAPACITY ==>
      && r.1 == ids(s.draws)
      && PushedOne(s, r.0)
      && Last(r.0.outgoingQueue).item.intermediateTarget == BROADCAST_MAC
      && Last(r.0.outgoingQueue).item.data ==
           Transmitted(Code(Broadcast), size, r.1, s.netName, BROADCAST_MAC, s.localMac,
                       if |s.key| > 0 then Xored(Payload(data, size), size, s.key) else Payload(data, size),
                       MAX_LAYERS)
  {
    BroadcastMessage(s, ids, data, size, BROADCAST_MAC, Broadcast)
  }

  /**
   * sendUnicastMessage: a UNICAST, or a UNICAST_WITH_CONFIRM when confirmation
   * is asked for, from this node to `target`, queued for the next hop the
   * routing table knows or else for the target itself, with a fresh ID and
   * the full hop budget; the payload is obfuscated when a key is set. The new
   * ID is returned.
   */
  function SendUnicastMessage(s: Net, ids: nat -> uint16, data: seq<byte>, size: uint8, target: Mac, confirm: bool): (r: (Net, uint16))
    requires size <= MESSAGE_CAPACITY ==> size <= |data|
    ensures Buffers(r.0) == Buffers(s) && (Shape(s) ==> Shape(r.0))
    ensures Rejected(s, size, r) && Enqueued(s, r.0)
    ensures |s.free| > 0 && size <= MESSAGE_CAPACITY ==>
      && r.1 == ids(s.draws)
      && PushedOne(s, r.0)
      && Last(r.0.outgoingQueue).item.intermediateTarget == Lookup(s.routingVector, target).GetOr(target)
      && Last(r.0.outgoingQueue).item.data ==
           Transmitted(Code(if confirm then UnicastWithConfirm else Unicast), size, r.1, s.netName, target, s.localMac,
                       if |s.key| > 0 then Xored(Payload(data, size), size, s.key) else Payload(data, size),
                       MAX_LAYERS)
  {
    UnicastMessage(s, ids, data, size, target, s.localMac, if confirm then UnicastWithConfirm else Unicast)
  }

  // ---- maintenance, phase 1: completion of the send in flight ----

  /** The single payload byte handed over for an empty search packet. */
  const EMPTY: seq<byte> := [0]

  /**
   * Delivery of the head of the outgoing queue: it is popped and its peer
   * removed; a BROADCAST from this node is reported confirmed and a
   * UNICAST_WITH_CONFIRM from this node starts waiting for its
   * acknowledgement, stamped `now`.
   */
  function Delivered(s: Net, now: uint32): (r: Net)
    requires Shape(s) && |s.outgoingQueue| > 0 && !s.sentMessageSemaphore
    ensures Buffers(r) == Buffers(s) && Shape(r)
    ensures SameReceiver(s, r)
    ensures
      var h := s.outgoingQueue[0].item;
      var own := h.data.originalSender == s.localMac;
      && r.outgoingQueue == s.outgoingQueue[1..]
      && r.events == s.events + [DelPeer(h.intermediateTarget)] +
           (if s.onConfirm && own && h.data.messageType == Code(Broadcast)
            then [Confirmed(h.data.originalTarget, h.data.messageId, true)] else [])
      && r.confirmationVector == s.confirmationVector +
           (if own && h.data.messageType == Code(UnicastWithConfirm)
            then [ConfirmationWaiting(now, h.data.originalTarget, h.data.messageId)] else [])
      && r.routingVector == s.routingVector && r.waitingQueue == s.waitingQueue
    ensures r.sentMessageSemaphore == s.sentMessageSemaphore && r.confirmReceivingSemaphore == s.confirmReceivingSemaphore
  {
    var head := s.outgoingQueue[0];
    s.(outgoingQueue := s.outgoingQueue[1..],
       free := s.free + [head.buf],
       events := s.events + DeliveryReports(head.item, s.localMac, s.onConfirm),
       confirmationVector := s.confirmationVector + DeliveryAwaits(head.item, s.localMac, now))
  }

  /** The peer of a delivered record removed, and a BROADCAST from this node reported delivered. */
  function DeliveryReports(h: Outgoing, localMac: Mac, onConfirm: bool): seq<Event> {
    [DelPeer(h.intermediateTarget)] +
    if onConfirm && h.data.originalSender == localMac && h.data.messageType == Code(Broadcast)
    then [Confirmed(h.data.originalTarget, h.data.messageId, true)] else []
  }

  /** The acknowledgement a delivered UNICAST_WITH_CONFIRM from this node starts waiting for. */
  function DeliveryAwaits(h: Outgoing, localMac: Mac, now: uint32): seq<ConfirmationWaiting> {
    if h.data.originalSender == localMac && h.data.messageType == Code(UnicastWithConfirm)
    then [ConfirmationWaiting(now, h.data.originalTarget, h.data.messageId)] else []
  }

  /**
   * The last failed attempt: the head is dropped and its peer removed, the
   * attempt counter starts over, every route to the head's target is erased,
   * and, when a buffer is free, the record is parked (stamped `now`) and a
   * SEARCH_REQUEST for the target is broadcast. The dropped head's buffer
   * goes back to the pool last, so a pool with one free buffer parks the
   * record but cannot build the search packet.
   */
  function Failed(s: Net, ids: nat -> uint16, now: uint32): (r: Net)
    requires Shape(s) && |s.outgoingQueue| > 0 && !s.sentMessageSemaphore
    ensures Buffers(r) == Buffers(s) && Shape(r)
    ensures SameReceiver(s, r)
    ensures r.sentMessageSemaphore == s.sentMessageSemaphore && r.confirmReceivingSemaphore == s.confirmReceivingSemaphore
  {
    var head := s.outgoingQueue[0];
    var parked := Parked(Dropped(s), ids, now, head.item);
    parked.(free := parked.free + [head.buf])
  }

  /** The failed head popped with its peer removed, the attempt counter reset and every route to its target erased. */
  function Dropped(s: Net): (r: Net)
    requires Shape(s) && |s.outgoingQueue| > 0 && !s.sentMessageSemaphore
    ensures Buffers(r) + 1 == Buffers(s) && Shape(r)
    ensures SameReceiver(s, r)
    ensures r.sentMessageSemaphore == s.sentMessageSemaphore && r.confirmReceivingSemaphore == s.confirmReceivingSemaphore
    ensures var h := s.outgoingQueue[0].item;
      && r.outgoingQueue == s.outgoingQueue[1..]
      && r.events == s.events + [DelPeer(h.intermediateTarget)]
      && r.routingVector == EraseFrom(s.routingVector, 0, RouteTo(h.data.originalTarget))
      && Lookup(r.routingVector, h.data.originalTarget) == None
      && r.numberOfAttemptsToSend == FIRST_ATTEMPT
      && r.free == s.free && r.waitingQueue == s.waitingQueue && r.confirmationVector == s.confirmationVector
  {
    var h := s.outgoingQueue[0].item;
    InvalidateUnique(s.routingVector, h.data.originalTarget);
    s.(outgoingQueue := s.outgoingQueue[1..], numberOfAttemptsToSend := FIRST_ATTEMPT,
       routingVector := EraseFrom(s.routingVector, 0, RouteTo(h.data.originalTarget)),
       events := s.events + [DelPeer(h.intermediateTarget)])
  }

  /**
   * A record put aside, stamped `now`, in a fresh buffer to wait for a route
   * to its target, and a SEARCH_REQUEST for that target broadcast; nothing
   * happens when the pool is empty.
   */
  function Parked(s: Net, ids: nat -> uint16, now: uint32, h: Outgoing): (r: Net)
    ensures Buffers(r) == Buffers(s) && (Shape(s) ==> Shape(r))
    ensures SameReceiver(s, r)
    ensures r.sentMessageSemaphore == s.sentMessageSemaphore && r.confirmReceivingSemaphore == s.confirmReceivingSemaphore
  {
    if |s.free| == 0 then s
    else
      var waiting := s.(free := s.free[1..], waitingQueue := s.waitingQueue + [Owned(s.free[0], Waiting(now, h.intermediateTarget, h.data))]);
      BroadcastMessage(waiting, ids, EMPTY, 0, h.data.originalTarget, SearchRequest).0
  }

  /**
   * The completion branch: runs once a send is in flight and its result has
   * come back, and clears both flags. Delivery is handled by `Delivered`;
   * a failure is retried, with the head left in place, until the attempts
   * run out, and is then handled by `Failed`.
   */
  function Completion(s: Net, ids: nat -> uint16, now: uint32): (r: Net)
    requires Shape(s)
    ensures Buffers(r) == Buffers(s) && Shape(r)
    ensures SameReceiver(s, r)
    ensures !(s.sentMessageSemaphore && s.confirmReceivingSemaphore) ==> r == s
    ensures s.sentMessageSemaphore && s.confirmReceivingSemaphore ==>
      !r.sentMessageSemaphore && !r.confirmReceivingSemaphore
    ensures s.sentMessageSemaphore && s.confirmReceivingSemaphore && s.confirmReceiving ==>
      r == Delivered(s.(sentMessageSemaphore := false, confirmReceivingSemaphore := false), now)
    ensures s.sentMessageSemaphore && s.confirmReceivingSemaphore && !s.confirmReceiving &&
            s.numberOfAttemptsToSend < s.maxNumberOfAttempts ==>
      r == s.(sentMessageSemaphore := false, confirmReceivingSemaphore := false,
              numberOfAttemptsToSend := s.numberOfAttemptsToSend + 1)
    ensures s.sentMessageSemaphore && s.confirmReceivingSemaphore && !s.confirmReceiving &&
            s.numberOfAttemptsToSend >= s.maxNumberOfAttempts ==>
      r == Failed(s.(sentMessageSemaphore := false, confirmReceivingSemaphore := false), ids, now)
  {
    if !(s.sentMessageSemaphore && s.confirmReceivingSemaphore) then s
    else
      var s0 := s.(sentMessageSemaphore := false, confirmReceivingSemaphore := false);
      if s.confirmReceiving then Delivered(s0, now)
      else if s.numberOfAttemptsToSend < s.maxNumberOfAttempts then
        s0.(numberOfAttemptsToSend := s.numberOfAttemptsToSend + 1)
      else Failed(s0, ids, now)
  }
  // ---- maintenance, phase 2: send the head of the outgoing queue ----

  /** With nothing in flight, the head of the outgoing queue goes to its next hop and becomes the send in flight. */
  function SendPhase(s: Net): (r: Net)
    ensures Buffers(r) == Buffers(s) && (Shape(s) ==> Shape(r))
    ensures SameReceiver(s, r)
    ensures r.sentMessageSemaphore <==> s.sentMessageSemaphore || |s.outgoingQueue| > 0
    ensures !s.sentMessageSemaphore && |s.outgoingQueue| > 0 ==>
      var o := s.outgoingQueue[0].item;
      r == s.(sentMessageSemaphore := true,
              events := s.events + [AddPeer(o.intermediateTarget), Send(o.intermediateTarget, Encode(o.data))])
    ensures s.sentMessageSemaphore || |s.outgoingQueue| == 0 ==> r == s
  {
    if |s.outgoingQueue| > 0 && !s.sentMessageSemaphore then
      var o := s.outgoingQueue[0].item;
      s.(sentMessageSemaphore := true,
         events := s.events + [AddPeer(o.intermediateTarget), Send(o.intermediateTarget, Encode(o.data))])
    else s
  }

  // ---- maintenance, phase 3: dispatch of one received record ----

  /** The payload as the receiving callback sees it: de-obfuscated in place when a key is set. */
  function Decoded(s: Net, t: Transmitted): (d: Transmitted)
    ensures WellFormed(t) ==> WellFormed(d)
    ensures d.(message := t.message) == t
  {
    if |s.key| > 0 then t.(message := Xored(t.message, t.messageSize, s.key)) else t
  }

  /**
   * Relaying: while the hop budget is not used up, the record goes back out
   * to everyone in a fresh buffer with one hop fewer; it is dropped when the
   * pool is empty.
   */
  function Relay(s: Net, t: Transmitted): (r: Net)
    ensures Buffers(r) == Buffers(s) && (Shape(s) ==> Shape(r))
    ensures Enqueued(s, r)
  {
    if t.ttl == 0 || |s.free| == 0 then s
    else s.(free := s.free[1..], outgoingQueue := s.outgoingQueue + [Owned(s.free[0], Outgoing(BROADCAST_MAC, t.(ttl := t.ttl - 1)))])
  }

  /** The acknowledgement payload: the 16-bit ID, little-endian, then zeros to the full payload size. */
  function ConfirmationPayload(id: uint16): (p: seq<byte>)
    ensures |p| == MESSAGE_CAPACITY
  {
    LittleEndian16(id) + Zeros(MESSAGE_CAPACITY - 2)
  }

  /** Handling a received record touches only the routing state, the outgoing side and the pool. */
  ghost predicate Handled(s: Net, r: Net) {
    r == s.(routingVector := r.routingVector, confirmationVector := r.confirmationVector,
            outgoingQueue := r.outgoingQueue, free := r.free, draws := r.draws, events := r.events)
  }

  function HasId(id: uint16): ConfirmationWaiting -> bool {
    (c: ConfirmationWaiting) => c.messageId == id
  }

  function HandleBroadcast(s: Net, t: Transmitted): (r: Net)
    requires WellFormed(t)
    ensures Buffers(r) == Buffers(s) && (Shape(s) ==> Shape(r))
    ensures Handled(s, r)
  {
    var t1 := if s.onBroadcast then Decoded(s, t) else t;
    Relay(s.(events := s.events + if s.onBroadcast then [BroadcastReceived(t1.message, t1.messageSize, t1.originalSender)] else []), t1)
  }

  function HandleUnicast(s: Net, ids: nat -> uint16, t: Transmitted): (r: Net)
    requires WellFormed(t)
    ensures Buffers(r) == Buffers(s) && (Shape(s) ==> Shape(r))
    ensures Handled(s, r)
  {
    if t.originalTarget == s.localMac then
      if s.onUnicast then
        var t1 := Decoded(s, t);
        s.(events := s.events + [UnicastReceived(t1.message, t1.messageSize, t1.originalSender)])
      else s
    else UnicastMessage(s, ids, t.message, t.messageSize, t.originalTarget, t.originalSender, Unicast).0
  }

  function HandleUnicastWithConfirm(s: Net, ids: nat -> uint16, t: Transmitted): (r: Net)
    requires WellFormed(t)
    ensures Buffers(r) == Buffers(s) && (Shape(s) ==> Shape(r))
    ensures Handled(s, r)
  {
    if t.originalTarget == s.localMac then
      var t1 := Decoded(s, t);
      var s1 := s.(events := s.events + if s.onUnicast then [UnicastReceived(t1.message, t1.messageSize, t1.originalSender)] else []);
      UnicastMessage(s1, ids, ConfirmationPayload(t.messageId), MESSAGE_CAPACITY as uint8, t.originalSender, s.localMac, DeliveryConfirmResponse).0
    else UnicastMessage(s, ids, t.message, t.messageSize, t.originalTarget, t.originalSender, UnicastWithConfirm).0
  }

  function HandleConfirmResponse(s: Net, ids: nat -> uint16, t: Transmitted): (r: Net)
    requires WellFormed(t)
    ensures Buffers(r) == Buffers(s) && (Shape(s) ==> Shape(r))
    ensures Handled(s, r)
  {
    if t.originalTarget == s.localMac then
      if s.onConfirm then
        var id := FromLittleEndian16(t.message[0], t.message[1]);
        s.(confirmationVector := EraseFrom(s.confirmationVector, 0, HasId(id)), events := s.events + [Confirmed(t.originalSender, id, true)])
      else s
    else UnicastMessage(s, ids, t.message, t.messageSize, t.originalTarget, t.originalSender, DeliveryConfirmResponse).0
  }

  function HandleSearchRequest(s: Net, ids: nat -> uint16, inc: Incoming): (r: Net)
    ensures Buffers(r) == Buffers(s) && (Shape(s) ==> Shape(r))
    ensures Handled(s, r)
  {
    var t := inc.data;
    var s1 := if t.originalTarget == s.localMac then BroadcastMessage(s, ids, EMPTY, 0, t.originalSender, SearchResponse).0
              else Relay(s, t);
    s1.(routingVector := Learn(s1.routingVector, t.originalSender, inc.intermediateSender))
  }

  function HandleSearchResponse(s: Net, inc: Incoming): (r: Net)
    ensures Buffers(r) == Buffers(s) && (Shape(s) ==> Shape(r))
    ensures Handled(s, r)
  {
    var t := inc.data;
    var s1 := if t.originalTarget != s.localMac then Relay(s, t) else s;
    s1.(routingVector := Learn(s1.routingVector, t.originalSender, inc.intermediateSender))
  }

  /** One received record, handled according to its type byte; an unknown type is ignored. */
  function Handle(s: Net, ids: nat -> uint16, inc: Incoming): (r: Net)
    requires WellFormed(inc.data)
    ensures Buffers(r) == Buffers(s) && (Shape(s) ==> Shape(r))
    ensures Handled(s, r)
  {
    match TypeOf(inc.data.messageType)
    case None => s
    case Some(Broadcast) => HandleBroadcast(s, inc.data)
    case Some(Unicast) => HandleUnicast(s, ids, inc.data)
    case Some(UnicastWithConfirm) => HandleUnicastWithConfirm(s, ids, inc.data)
    case Some(DeliveryConfirmResponse) => HandleConfirmResponse(s, ids, inc.data)
    case Some(SearchRequest) => HandleSearchRequest(s, ids, inc)
    case Some(SearchResponse) => HandleSearchResponse(s, inc)
  }

  /** The dispatch branch: pops the oldest received record, handles it, then returns its buffer. */
  function Dispatch(s: Net, ids: nat -> uint16): (r: Net)
    requires Shape(s)
    ensures Buffers(r) == Buffers(s) && Shape(r)
    ensures |s.incomingQueue| == 0 ==> r == s
    ensures |s.incomingQueue| > 0 ==> !r.criticalProcessSemaphore && r.incomingQueue == s.incomingQueue[1..]
  {
    if |s.incomingQueue| == 0 then s
    else
      var head := s.incomingQueue[0];
      var handled := Handle(s.(incomingQueue := s.incomingQueue[1..], criticalProcessSemaphore := false), ids, head.item);
      handled.(free := handled.free + [head.buf])
  }

  // ---- maintenance, phase 4: records waiting for a route ----

  /** A route has turned up for the oldest parked record: it moves to the outgoing queue for the route's next hop, or is dropped when the pool has no buffer for the copy. */
  function Promote(s: Net, hop: Mac): (r: Net)
    requires Shape(s) && |s.waitingQueue| > 0
    ensures Buffers(r) == Buffers(s) && Shape(r)
    ensures SameReceiver(s, r)
    ensures r.waitingQueue == s.waitingQueue[1..]
    ensures r.outgoingQueue == s.outgoingQueue +
              (if |s.free| > 0 then [Owned(s.free[0], Outgoing(hop, s.waitingQueue[0].item.data))] else [])
    ensures r.events == s.events && r.routingVector == s.routingVector && r.confirmationVector == s.confirmationVector
  {
    var head := s.waitingQueue[0];
    if |s.free| == 0 then s.(waitingQueue := s.waitingQueue[1..], free := s.free + [head.buf])
    else s.(waitingQueue := s.waitingQueue[1..], free := s.free[1..] + [head.buf],
            outgoingQueue := s.outgoingQueue + [Owned(s.free[0], Outgoing(hop, head.item.data))])
  }

  /** The oldest parked record has waited too long: it is dropped, and a UNICAST_WITH_CONFIRM from this node is reported undelivered. */
  function Expire(s: Net): (r: Net)
    requires Shape(s) && |s.waitingQueue| > 0
    ensures Buffers(r) == Buffers(s) && Shape(r)
    ensures SameReceiver(s, r)
    ensures r.waitingQueue == s.waitingQueue[1..] && r.outgoingQueue == s.outgoingQueue
    ensures
      var w := s.waitingQueue[0].item;
      r.events == s.events +
        (if w.data.messageType == Code(UnicastWithConfirm) && w.data.originalSender == s.localMac && s.onConfirm
         then [Confirmed(w.data.originalTarget, w.data.messageId, false)] else [])
  {
    var head := s.waitingQueue[0];
    var w := head.item;
    var report := w.data.messageType == Code(UnicastWithConfirm) && w.data.originalSender == s.localMac && s.onConfirm;
    s.(waitingQueue := s.waitingQueue[1..], free := s.free + [head.buf],
       events := s.events + if report then [Confirmed(w.data.originalTarget, w.data.messageId, false)] else [])
  }

  /**
   * The waiting branch: looks up a route for the oldest parked record's
   * target. A known route promotes the record and ends the tick (the flag
   * returned); a record that has waited longer than the routing-info timeout
   * expires; otherwise nothing changes.
   */
  function WaitingPhase(s: Net, now: uint32): (r: (Net, bool))
    requires Shape(s)
    ensures Buffers(r.0) == Buffers(s) && Shape(r.0)
    ensures SameReceiver(s, r.0)
    ensures r.1 <==> |s.waitingQueue| > 0 && Lookup(s.routingVector, s.waitingQueue[0].item.data.originalTarget).Some?
    ensures r.1 ==> r.0 == Promote(s, Lookup(s.routingVector, s.waitingQueue[0].item.data.originalTarget).value)
    ensures !r.1 ==>
      if |s.waitingQueue| > 0 && Elapsed(now, s.waitingQueue[0].item.time) > s.maxTimeForRoutingInfoWaiting
      then r.0 == Expire(s) else r.0 == s
  {
    if |s.waitingQueue| == 0 then (s, false)
    else
      var w := s.waitingQueue[0].item;
      match Lookup(s.routingVector, w.data.originalTarget)
      case Some(hop) => (Promote(s, hop), true)
      case None =>
        if Elapsed(now, w.time) > s.maxTimeForRoutingInfoWaiting then (Expire(s), false)
        else (s, false)
  }
  // ---- maintenance, phase 5: the confirmation-timeout sweep ----

  function Expired(now: uint32, timeout: uint16): ConfirmationWaiting -> bool {
    (c: ConfirmationWaiting) => Elapsed(now, c.time) > timeout
  }

  /**
   * One pass of the sweep loop at index `i`: an acknowledgement that has
   * waited too long is erased, a SEARCH_REQUEST for its target is broadcast
   * and the message is reported undelivered.
   */
  function SweepStep(s: Net, ids: nat -> uint16, now: uint32, i: nat): (r: Net)
    requires i < |s.confirmationVector|
    ensures Buffers(r) == Buffers(s) && (Shape(s) ==> Shape(r))
    ensures SameReceiver(s, r)
    ensures r.confirmationVector ==
      if Expired(now, s.maxTimeForRoutingInfoWaiting)(s.confirmationVector[i])
      then s.confirmationVector[..i] + s.confirmationVector[i + 1..] else s.confirmationVector
    ensures r.maxTimeForRoutingInfoWaiting == s.maxTimeForRoutingInfoWaiting && r.onConfirm == s.onConfirm
    ensures !Expired(now, s.maxTimeForRoutingInfoWaiting)(s.confirmationVector[i]) ==> r == s
    ensures var c := s.confirmationVector[i];
      Expired(now, s.maxTimeForRoutingInfoWaiting)(c) ==>
        r.events == s.events + if s.onConfirm then [Confirmed(c.target, c.messageId, false)] else []
  {
    if Elapsed(now, s.confirmationVector[i].time) > s.maxTimeForRoutingInfoWaiting then GiveUpWaiting(s, ids, i) else s
  }

  /** The acknowledgement at index `i` is no longer awaited: erased, searched for and reported undelivered. */
  function GiveUpWaiting(s: Net, ids: nat -> uint16, i: nat): (r: Net)
    requires i < |s.confirmationVector|
    ensures Buffers(r) == Buffers(s) && (Shape(s) ==> Shape(r))
    ensures SameReceiver(s, r)
    ensures r.confirmationVector == s.confirmationVector[..i] + s.confirmationVector[i + 1..]
    ensures r.maxTimeForRoutingInfoWaiting == s.maxTimeForRoutingInfoWaiting && r.onConfirm == s.onConfirm
    ensures var c := s.confirmationVector[i];
      r.events == s.events + if s.onConfirm then [Confirmed(c.target, c.messageId, false)] else []
    ensures |s.free| == 0 ==> r.outgoingQueue == s.outgoingQueue && r.free == s.free
    ensures |s.free| > 0 ==> r.free == s.free[1..]
    ensures r.waitingQueue == s.waitingQueue && r.routingVector == s.routingVector
    ensures var c := s.confirmationVector[i];
      |s.free| > 0 ==>
        r.outgoingQueue == s.outgoingQueue +
          [Owned(s.free[0], Outgoing(BROADCAST_MAC,
             Transmitted(Code(SearchRequest), 0, ids(s.draws), s.netName, c.target, s.localMac, Payload(EMPTY, 0), MAX_LAYERS)))]
  {
    var c := s.confirmationVector[i];
    var erased := s.(confirmationVector := s.confirmationVector[..i] + s.confirmationVector[i + 1..]);
    var searched := BroadcastMessage(erased, ids, EMPTY, 0, c.target, SearchRequest).0;
    searched.(events := searched.events + if s.onConfirm then [Confirmed(c.target, c.messageId, false)] else [])
  }

  /**
   * The sweep loop from index `i` on; the index advances past the entry
   * that slides into an erased position.
   */
  function SweepFrom(s: Net, ids: nat -> uint16, now: uint32, i: nat): (r: Net)
    ensures Buffers(r) == Buffers(s) && (Shape(s) ==> Shape(r))
    ensures SameReceiver(s, r)
    ensures r.confirmationVector == EraseFrom(s.confirmationVector, i, Expired(now, s.maxTimeForRoutingInfoWaiting))
    ensures r.maxTimeForRoutingInfoWaiting == s.maxTimeForRoutingInfoWaiting
    decreases |s.confirmationVector| - i
  {
    if i >= |s.confirmationVector| then s
    else SweepFrom(SweepStep(s, ids, now, i), ids, now, i + 1)
  }

  // ---- maintenance ----

  /** One maintenance tick: the five phases in order; a promoted waiting record ends the tick before the sweep. */
  function Maintenance(s: Net, ids: nat -> uint16, now: uint32): (r: Net)
    requires Shape(s)
    ensures Buffers(r) == Buffers(s) && Shape(r)
  {
    var (s1, stop) := WaitingPhase(Dispatch(SendPhase(Completion(s, ids, now)), ids), now);
    if stop then s1 else SweepFrom(s1, ids, now, 0)
  }

  // ---- Start-up and configuration ----

  /** The attempt counter's starting value. */
  const FIRST_ATTEMPT: uint8 := DEFAULT_NUMBER_OF_ATTEMPTS_TO_SEND

  /**
   * The engine after construction and begin: empty queues and tables, the
   * header's defaults, a full pool, and the net name copied in when it has
   * 1 to 20 characters (otherwise the name stays empty, all zero bytes).
   */
  function Initial(localMac: Mac, name: seq<byte>): (s: Net)
    requires 0 !in name
    ensures Shape(s) && Buffers(s) == POOL_SIZE
    ensures CString(s.netName) == if 1 <= |name| <= NET_NAME_SIZE then name else []
    ensures s.maxNumberOfAttempts == DEFAULT_MAX_NUMBER_OF_ATTEMPTS && s.numberOfAttemptsToSend == FIRST_ATTEMPT
    ensures s.maxTimeForRoutingInfoWaiting == DEFAULT_MAX_TIME_FOR_ROUTING_INFO_WAITING
    ensures !s.sentMessageSemaphore && !s.criticalProcessSemaphore && s.events == []
    ensures s.incomingQueue == [] && s.outgoingQueue == [] && s.waitingQueue == []
    ensures s.routingVector == [] && s.confirmationVector == [] && s.key == []
    ensures s.free == seq(POOL_SIZE, i => i) && s.draws == 0
    ensures s.lastMessageId == seq(ID_WINDOW, _ => 0)
    ensures !s.onBroadcast && !s.onUnicast && !s.onConfirm && s.localMac == localMac
    ensures s.maxWaitingTimeBetweenTransmissions == DEFAULT_MAX_WAITING_TIME_BETWEEN_TRANSMISSIONS
  {
    var netName := if 1 <= |name| <= NET_NAME_SIZE then
                     CStringOfPadded(name, NET_NAME_SIZE - |name|);
                     name + Zeros(NET_NAME_SIZE - |name|)
                   else Zeros(NET_NAME_SIZE);
    Net(localMac, netName, [], [], [], [], [], [],
        false, false, false, false,
        seq(ID_WINDOW, _ => 0),
        DEFAULT_MAX_NUMBER_OF_ATTEMPTS, DEFAULT_MAX_WAITING_TIME_BETWEEN_TRANSMISSIONS,
        FIRST_ATTEMPT, DEFAULT_MAX_TIME_FOR_ROUTING_INFO_WAITING,
        false, false, false,
        seq(POOL_SIZE, i => i), 0, [])
  }

  lemma {:induction false} CStringOfPadded(name: seq<byte>, n: nat)
    requires 0 !in name
    ensures CString(name + Zeros(n)) == name
  {
    if |name| == 0 {
      if n > 0 {
        assert (name + Zeros(n))[0] == 0;
      }
    } else {
      assert (name + Zeros(n))[1..] == name[1..] + Zeros(n);
      CStringOfPadded(name[1..], n);
    }
  }


  function SetMaxNumberOfAttempts(s: Net, n: uint8): (r: (Net, uint16))
    ensures r.1 == SUCCESS <==> 1 <= n <= 10
    ensures r.1 == SUCCESS ==> r.0 == s.(maxNumberOfAttempts := n)
    ensures r.1 != SUCCESS ==> r == (s, ERROR)
  {
    if n < 1 || n > 10 then (s, ERROR) else (s.(maxNumberOfAttempts := n), SUCCESS)
  }

  function SetMaxWaitingTimeBetweenTransmissions(s: Net, n: uint8): (r: (Net, uint16))
    ensures r.1 == SUCCESS <==> 50 <= n <= 250
    ensures r.1 == SUCCESS ==> r.0 == s.(maxWaitingTimeBetweenTransmissions := n)
    ensures r.1 != SUCCESS ==> r == (s, ERROR)
  {
    if n < 50 || n > 250 then (s, ERROR) else (s.(maxWaitingTimeBetweenTransmissions := n), SUCCESS)
  }

  function SetMaxWaitingTimeForRoutingInfo(s: Net, n: uint16): (r: (Net, uint16))
    ensures r.1 == SUCCESS <==> 500 <= n <= 5000
    ensures r.1 == SUCCESS ==> r.0 == s.(maxTimeForRoutingInfoWaiting := n)
    ensures r.1 != SUCCESS ==> r == (s, ERROR)
  {
    if n < 500 || n > 5000 then (s, ERROR) else (s.(maxTimeForRoutingInfoWaiting := n), SUCCESS)
  }

  /**
   * setCryptKey: the key is a C string, so only the bytes before its first
   * zero count; a key of 1 to 20 such characters replaces the current one.
   * The result is always SUCCESS.
   */
  function SetCryptKey(s: Net, key: seq<byte>): (r: (Net, uint16))
    ensures r.1 == SUCCESS
    ensures 1 <= |CString(key)| <= KEY_CAPACITY ==> r.0 == s.(key := CString(key))
    ensures !(1 <= |CString(key)| <= KEY_CAPACITY) ==> r.0 == s
    ensures 0 !in key && 1 <= |key| <= KEY_CAPACITY ==> r.0.key == key
    ensures Shape(s) ==> Shape(r.0)
  {
    CStringOfPlain(key);
    var c := CString(key);
    if 1 <= |c| <= KEY_CAPACITY then (s.(key := c), SUCCESS) else (s, SUCCESS)
  }
}
