/**
 * Properties of the routing engine that relate several of its operations,
 * or follow one operation into its consequences: receive admission and
 * replay suppression, the stuck busy flag, the single send in flight, route
 * invalidation and rediscovery, delivery to the application, replies,
 * forwarding and relaying under the hop budget, route learning, end-to-end
 * payload obfuscation, and what the sweep erases, searches for and reports.
 */
module NetProps {
  import opened Wrappers
  import opened Records
  import opened Crypt
  import opened Routing
  import opened NetSpec

  // ---- Receiving ----

  /** Once admitted, the same datagram is not admitted again: a replay is dropped. */
  lemma ReplayDropped(s: Net, info: Mac, info2: Mac, data: seq<byte>)
    requires Shape(s) && !s.criticalProcessSemaphore && |s.free| > 0 && Admitted(s, data)
    ensures var r := OnDataReceive(s, info, data);
      && !r.criticalProcessSemaphore
      && !Admitted(r, data)
      && OnDataReceive(r, info2, data).incomingQueue == r.incomingQueue
  {
    ReceiveAdmission(s, info, data);
    var r := OnDataReceive(s, info, data);
    assert r.lastMessageId[0] == Decode(data).messageId;
  }

  /**
   * What happens to the engine between two observations: a maintenance tick,
   * a datagram from the radio, the radio's send report, or one of the
   * application's calls.
   */
  datatype Input =
    | Tick(now: uint32)
    | Receive(info: Mac, data: seq<byte>)
    | SendDone(status: int)
    | SendBroadcast(data: seq<byte>, size: uint8)
    | SendUnicast(data: seq<byte>, size: uint8, target: Mac, confirm: bool)
    | SetKey(key: seq<byte>)
    | SetAttempts(attempts: uint8)
    | SetGap(gap: uint8)
    | SetRoutingWait(wait: uint16)
    | SetCallbacks(broadcast: bool, unicast: bool, confirm: bool)

  /**
   * One input applied to the engine. A send whose buffer is shorter than the
   * size it claims is a caller error the engine cannot see; it is left out.
   */
  function Step(s: Net, ids: nat -> uint16, input: Input): (r: Net)
    requires Shape(s)
    ensures Shape(r) && Buffers(r) == Buffers(s)
    ensures !input.Tick? && !input.Receive? ==>
      r.criticalProcessSemaphore == s.criticalProcessSemaphore && r.incomingQueue == s.incomingQueue
  {
    match input
    case Tick(now) => Maintenance(s, ids, now)
    case Receive(info, data) => OnDataReceive(s, info, data)
    case SendDone(status) => OnDataSent(s, status)
    case SendBroadcast(data, size) =>
      if size <= MESSAGE_CAPACITY ==> size <= |data| then SendBroadcastMessage(s, ids, data, size).0 else s
    case SendUnicast(data, size, target, confirm) =>
      if size <= MESSAGE_CAPACITY ==> size <= |data| then SendUnicastMessage(s, ids, data, size, target, confirm).0 else s
    case SetKey(key) => SetCryptKey(s, key).0
    case SetAttempts(n) => SetMaxNumberOfAttempts(s, n).0
    case SetGap(n) => SetMaxWaitingTimeBetweenTransmissions(s, n).0
    case SetRoutingWait(n) => SetMaxWaitingTimeForRoutingInfo(s, n).0
    case SetCallbacks(b, u, c) => s.(onBroadcast := b, onUnicast := u, onConfirm := c)
  }

  /** The engine after a run of inputs, with `ids` supplying message IDs. */
  function Run(s: Net, ids: nat -> uint16, inputs: seq<Input>): (r: Net)
    requires Shape(s)
    ensures Shape(r) && Buffers(r) == Buffers(s)
    decreases |inputs|
  {
    if |inputs| == 0 then s else Run(Step(s, ids, inputs[0]), ids, inputs[1..])
  }

  /** A tick with nothing received to dispatch leaves the receive side as it was. */
  lemma IdleTickKeepsReceiver(s: Net, ids: nat -> uint16, now: uint32)
    requires Shape(s) && |s.incomingQueue| == 0
    ensures SameReceiver(s, Maintenance(s, ids, now))
  {
    var s1 := Completion(s, ids, now);
    var s2 := SendPhase(s1);
    assert Dispatch(s2, ids) == s2;
  }

  /**
   * An empty pool at reception leaves the busy flag set. With nothing
   * received waiting for dispatch, no tick clears it, so from then on every
   * datagram is ignored, whatever the radio and the application do.
   */
  lemma {:induction false} StuckReceiverStaysDeaf(s: Net, ids: nat -> uint16, inputs: seq<Input>)
    requires Shape(s) && s.criticalProcessSemaphore && |s.incomingQueue| == 0
    ensures Run(s, ids, inputs).criticalProcessSemaphore
    ensures Run(s, ids, inputs).incomingQueue == []
    decreases |inputs|
  {
    if |inputs| > 0 {
      if inputs[0].Tick? {
        IdleTickKeepsReceiver(s, ids, inputs[0].now);
      }
      StuckReceiverStaysDeaf(Step(s, ids, inputs[0]), ids, inputs[1..]);
    }
  }

  /** How the node gets stuck: a datagram of the record size arriving while every buffer is in use. */
  lemma PoolExhaustionSetsBusy(s: Net, info: Mac, data: seq<byte>)
    requires Shape(s) && !s.criticalProcessSemaphore && |s.free| == 0 && |s.incomingQueue| == 0
    requires |data| == TRANSMITTED_SIZE
    ensures var r := OnDataReceive(s, info, data);
      r.criticalProcessSemaphore && r.incomingQueue == [] && Shape(r)
  {
  }

  // ---- Sending ----

  /** While a send is in flight nothing else is sent; the next send needs a completion first. */
  lemma OneSendInFlight(s: Net)
    ensures SendPhase(SendPhase(s)) == SendPhase(s)
    ensures |s.outgoingQueue| > 0 ==> SendPhase(s).sentMessageSemaphore
  {
  }

  /**
   * The transmit report decides the next completion: a delivered frame pops
   * the head, a failed one keeps it for another attempt until the attempts
   * run out, and then pops it and forgets the route to its target.
   */
  lemma SendOutcome(s: Net, ids: nat -> uint16, now: uint32, status: int)
    requires Shape(s) && s.sentMessageSemaphore
    ensures var r := Completion(OnDataSent(s, status), ids, now);
      && !r.sentMessageSemaphore && !r.confirmReceivingSemaphore
      && (status == SEND_SUCCESS ==> r.outgoingQueue == s.outgoingQueue[1..])
      && (status != SEND_SUCCESS && s.numberOfAttemptsToSend < s.maxNumberOfAttempts ==>
            r.outgoingQueue == s.outgoingQueue && r.numberOfAttemptsToSend == s.numberOfAttemptsToSend + 1)
      && (status != SEND_SUCCESS && s.numberOfAttemptsToSend >= s.maxNumberOfAttempts ==>
            r.numberOfAttemptsToSend == FIRST_ATTEMPT &&
            Lookup(r.routingVector, s.outgoingQueue[0].item.data.originalTarget) == None)
  {
    var s0 := OnDataSent(s, status).(sentMessageSemaphore := false, confirmReceivingSemaphore := false);
    if status != SEND_SUCCESS && s.numberOfAttemptsToSend >= s.maxNumberOfAttempts {
      RetriesExhausted(s0, ids, now);
    }
  }

  /**
   * The last failed attempt: the head is dropped and its peer removed, every
   * route to its target is erased, and, when a buffer is free, the record is
   * parked (stamped `now`) and, when a second buffer is free, a
   * SEARCH_REQUEST for the target is queued.
   */
  lemma RetriesExhausted(s: Net, ids: nat -> uint16, now: uint32)
    requires Shape(s) && |s.outgoingQueue| > 0 && !s.sentMessageSemaphore
    ensures var r := Failed(s, ids, now);
      var h := s.outgoingQueue[0].item;
      && r.numberOfAttemptsToSend == FIRST_ATTEMPT
      && r.events == s.events + [DelPeer(h.intermediateTarget)]
      && r.routingVector == EraseFrom(s.routingVector, 0, RouteTo(h.data.originalTarget))
      && Lookup(r.routingVector, h.data.originalTarget) == None
      && r.confirmationVector == s.confirmationVector
      && s.outgoingQueue[1..] <= r.outgoingQueue
      && (|s.free| == 0 ==> r.waitingQueue == s.waitingQueue)
      && (|s.free| > 0 ==> r.waitingQueue == s.waitingQueue + [Owned(s.free[0], Waiting(now, h.intermediateTarget, h.data))])
      && (|s.free| <= 1 ==> r.outgoingQueue == s.outgoingQueue[1..])
      && (|s.free| > 1 ==>
            && |r.outgoingQueue| == |s.outgoingQueue|
            && Last(r.outgoingQueue).item.intermediateTarget == BROADCAST_MAC
            && Last(r.outgoingQueue).item.data.messageType == Code(SearchRequest)
            && Last(r.outgoingQueue).item.data.originalTarget == h.data.originalTarget
            && Last(r.outgoingQueue).item.data.originalSender == s.localMac)
  {
    var h := s.outgoingQueue[0].item;
    InvalidateUnique(s.routingVector, h.data.originalTarget);
  }

  /**
   * Obfuscation round trip: a payload this node sends under a key arrives, at
   * a node holding the same key, as the original bytes, for a BROADCAST and
   * for a unicast of either kind.
   */
  lemma PayloadRoundTrip(s: Net, ids: nat -> uint16, data: seq<byte>, size: uint8, target: Mac, confirm: bool, broadcast: bool, q: Net)
    requires Shape(s) && |s.free| > 0 && size <= MESSAGE_CAPACITY && size <= |data|
    requires q.key == s.key
    ensures var sent := if broadcast then SendBroadcastMessage(s, ids, data, size)
                        else SendUnicastMessage(s, ids, data, size, target, confirm);
      var t := Last(sent.0.outgoingQueue).item.data;
      Decoded(q, Decode(Encode(t))).message[..size] == data[..size]
  {
    var sent := if broadcast then SendBroadcastMessage(s, ids, data, size)
                else SendUnicastMessage(s, ids, data, size, target, confirm);
    var t := Last(sent.0.outgoingQueue).item.data;
    DecodeEncode(t);
    if |s.key| > 0 {
      XoredInvolution(Payload(data, size), size, s.key);
    }
  }

  /** A delivery confirmation is never obfuscated, so any node reads its ID, key or no key. */
  lemma ConfirmationCarriesId(s: Net, ids: nat -> uint16, id: uint16, target: Mac)
    requires |s.free| > 0
    ensures var t := Last(UnicastMessage(s, ids, ConfirmationPayload(id), MESSAGE_CAPACITY as uint8, target, s.localMac, DeliveryConfirmResponse).0.outgoingQueue).item.data;
      FromLittleEndian16(t.message[0], t.message[1]) == id
  {
    var p := ConfirmationPayload(id);
    assert Payload(p, MESSAGE_CAPACITY)[..2] == p[..2] == LittleEndian16(id);
    LittleEndian16RoundTrip(id);
  }

  // ---- Dispatch ----

  predicate Relayable(s: Net, t: Transmitted) {
    TypeOf(t.messageType) == Some(Broadcast) ||
    ((TypeOf(t.messageType) == Some(SearchRequest) || TypeOf(t.messageType) == Some(SearchResponse)) &&
     t.originalTarget != s.localMac)
  }

  /** A relayable record whose hop budget is used up is never sent on. */
  lemma SpentTtlNotRelayed(s: Net, ids: nat -> uint16, inc: Incoming)
    requires WellFormed(inc.data) && Relayable(s, inc.data) && inc.data.ttl == 0
    ensures Handle(s, ids, inc).outgoingQueue == s.outgoingQueue
  {
  }

  /** A search packet for another node is sent on to everyone with one hop fewer, every other field copied. */
  lemma SearchRelayed(s: Net, ids: nat -> uint16, inc: Incoming)
    requires WellFormed(inc.data) && Relayable(s, inc.data) && TypeOf(inc.data.messageType) != Some(Broadcast)
    requires inc.data.ttl > 0 && |s.free| > 0
    ensures Handle(s, ids, inc).outgoingQueue ==
              s.outgoingQueue + [Owned(s.free[0], Outgoing(BROADCAST_MAC, inc.data.(ttl := inc.data.ttl - 1)))]
  {
  }

  /**
   * A BROADCAST is relayed with the payload as this node's receive callback
   * saw it: decoded in place first when a callback and a key are set.
   */
  lemma BroadcastRelayed(s: Net, ids: nat -> uint16, inc: Incoming)
    requires WellFormed(inc.data) && TypeOf(inc.data.messageType) == Some(Broadcast)
    requires inc.data.ttl > 0 && |s.free| > 0
    ensures var t := if s.onBroadcast then Decoded(s, inc.data) else inc.data;
      Handle(s, ids, inc).outgoingQueue == s.outgoingQueue + [Owned(s.free[0], Outgoing(BROADCAST_MAC, t.(ttl := t.ttl - 1)))]
  {
  }

  /** So the relayed copy differs from the received one wherever the key changed a byte. */
  lemma RelayedBroadcastDecoded(s: Net, ids: nat -> uint16, inc: Incoming, i: nat)
    requires WellFormed(inc.data) && TypeOf(inc.data.messageType) == Some(Broadcast)
    requires inc.data.ttl > 0 && |s.free| > 0 && s.onBroadcast && |s.key| > 0
    requires i < inc.data.messageSize && i < MESSAGE_CAPACITY && s.key[i % |s.key|] != 0
    ensures Last(Handle(s, ids, inc).outgoingQueue).item.data.message[i] != inc.data.message[i]
  {
    BroadcastRelayed(s, ids, inc);
    XoredChangesPrefixOnly(inc.data.message, inc.data.messageSize, s.key, i);
  }

  /**
   * A unicast of any of the three kinds for another node is rebuilt rather
   * than relayed: it keeps its type, origin, target and the payload bytes in
   * use, gets a fresh ID and the full hop budget, and goes to the next hop for
   * its target.
   */
  lemma UnicastForwarded(s: Net, ids: nat -> uint16, inc: Incoming)
    requires WellFormed(inc.data)
    requires TypeOf(inc.data.messageType) in {Some(Unicast), Some(UnicastWithConfirm), Some(DeliveryConfirmResponse)}
    requires inc.data.originalTarget != s.localMac && inc.data.originalSender != s.localMac
    requires |s.free| > 0 && inc.data.messageSize <= MESSAGE_CAPACITY
    ensures var r := Handle(s, ids, inc);
      var o := Last(r.outgoingQueue).item;
      && PushedOne(s, r)
      && o.data.messageType == inc.data.messageType
      && o.data.messageId == ids(s.draws)
      && o.data.ttl == MAX_LAYERS
      && o.data.originalSender == inc.data.originalSender
      && o.data.originalTarget == inc.data.originalTarget
      && o.data.message[..inc.data.messageSize] == inc.data.message[..inc.data.messageSize]
      && o.intermediateTarget == Lookup(s.routingVector, inc.data.originalTarget).GetOr(inc.data.originalTarget)
  {
  }

  /** Search traffic teaches the route back to its origin: via the neighbour it came from. */
  lemma SearchTeachesRoute(s: Net, ids: nat -> uint16, inc: Incoming)
    requires WellFormed(inc.data)
    requires TypeOf(inc.data.messageType) == Some(SearchRequest) || TypeOf(inc.data.messageType) == Some(SearchResponse)
    requires Known(s.routingVector, inc.data.originalSender) || inc.data.originalSender != inc.intermediateSender
    ensures Lookup(Handle(s, ids, inc).routingVector, inc.data.originalSender) == Some(inc.intermediateSender)
  {
    SearchLearns(s, ids, inc);
    LearnTeaches(s.routingVector, inc.data.originalSender, inc.intermediateSender);
  }

  /** Handling search traffic changes the routing table only by learning from it. */
  lemma SearchLearns(s: Net, ids: nat -> uint16, inc: Incoming)
    requires WellFormed(inc.data)
    requires TypeOf(inc.data.messageType) == Some(SearchRequest) || TypeOf(inc.data.messageType) == Some(SearchResponse)
    ensures Handle(s, ids, inc).routingVector == Learn(s.routingVector, inc.data.originalSender, inc.intermediateSender)
  {
    if TypeOf(inc.data.messageType) == Some(SearchRequest) {
      assert Handle(s, ids, inc) == HandleSearchRequest(s, ids, inc);
    } else {
      assert Handle(s, ids, inc) == HandleSearchResponse(s, inc);
    }
  }

  /** An acknowledgement addressed here ends the wait for every entry with its ID and reports the delivery. */
  lemma AcknowledgementClearsWait(s: Net, ids: nat -> uint16, inc: Incoming)
    requires WellFormed(inc.data) && TypeOf(inc.data.messageType) == Some(DeliveryConfirmResponse)
    requires inc.data.originalTarget == s.localMac && s.onConfirm
    ensures var id := FromLittleEndian16(inc.data.message[0], inc.data.message[1]);
      var r := Handle(s, ids, inc);
      && r.confirmationVector == EraseFrom(s.confirmationVector, 0, HasId(id))
      && r.events == s.events + [Confirmed(inc.data.originalSender, id, true)]
  {
  }

  /**
   * A BROADCAST is reported to the application, with its payload decoded, its
   * size and its origin, exactly when a broadcast callback is set; relaying it
   * adds no further event.
   */
  lemma BroadcastDelivered(s: Net, ids: nat -> uint16, inc: Incoming)
    requires WellFormed(inc.data) && TypeOf(inc.data.messageType) == Some(Broadcast)
    ensures var t := inc.data;
      Handle(s, ids, inc).events ==
        s.events + if s.onBroadcast then [BroadcastReceived(Decoded(s, t).message, t.messageSize, t.originalSender)] else []
  {
  }

  /**
   * A unicast of either kind addressed here is reported to the application,
   * decoded, exactly when a unicast callback is set; the acknowledgement a
   * UNICAST_WITH_CONFIRM also gets adds no event.
   */
  lemma UnicastDelivered(s: Net, ids: nat -> uint16, inc: Incoming)
    requires WellFormed(inc.data)
    requires TypeOf(inc.data.messageType) in {Some(Unicast), Some(UnicastWithConfirm)}
    requires inc.data.originalTarget == s.localMac
    ensures var t := inc.data;
      Handle(s, ids, inc).events ==
        s.events + if s.onUnicast then [UnicastReceived(Decoded(s, t).message, t.messageSize, t.originalSender)] else []
  {
  }

  /**
   * End to end over one hop: a unicast this node sends to a neighbour sharing
   * its key reaches that neighbour's unicast callback with the bytes it was
   * given, its size and this node as origin.
   */
  lemma UnicastArrivesIntact(s: Net, ids: nat -> uint16, data: seq<byte>, size: uint8, confirm: bool,
                             q: Net, ids2: nat -> uint16, info: Mac)
    requires Shape(s) && |s.free| > 0 && size <= MESSAGE_CAPACITY && size <= |data|
    requires q.key == s.key && q.onUnicast
    ensures var t := Last(SendUnicastMessage(s, ids, data, size, q.localMac, confirm).0.outgoingQueue).item.data;
      var e := Handle(q, ids2, Incoming(info, Decode(Encode(t)))).events;
      && |e| == |q.events| + 1
      && Last(e).UnicastReceived?
      && |Last(e).message| == MESSAGE_CAPACITY
      && Last(e).message[..size] == data[..size]
      && Last(e).size == size
      && Last(e).sender == s.localMac
  {
    var t := Last(SendUnicastMessage(s, ids, data, size, q.localMac, confirm).0.outgoingQueue).item.data;
    SentUnicastHeader(s, ids, data, size, q.localMac, confirm);
    PayloadRoundTrip(s, ids, data, size, q.localMac, confirm, false, q);
    DecodeEncode(t);
    UnicastDelivered(q, ids2, Incoming(info, t));
  }

  /** The header of a unicast this node sends: its kind, size, target and origin. */
  lemma SentUnicastHeader(s: Net, ids: nat -> uint16, data: seq<byte>, size: uint8, target: Mac, confirm: bool)
    requires Shape(s) && |s.free| > 0 && size <= MESSAGE_CAPACITY && size <= |data|
    ensures var t := Last(SendUnicastMessage(s, ids, data, size, target, confirm).0.outgoingQueue).item.data;
      && WellFormed(t)
      && TypeOf(t.messageType) == Some(if confirm then UnicastWithConfirm else Unicast)
      && t.messageSize == size && t.originalTarget == target && t.originalSender == s.localMac
  {
    TypeCodeRoundTrip(if confirm then UnicastWithConfirm else Unicast);
  }

  /**
   * A UNICAST_WITH_CONFIRM addressed here is answered with a
   * DELIVERY_CONFIRM_RESPONSE from this node to the message's origin, queued
   * for the next hop towards it, carrying the acknowledged ID.
   */
  lemma ConfirmationReplied(s: Net, ids: nat -> uint16, inc: Incoming)
    requires WellFormed(inc.data) && TypeOf(inc.data.messageType) == Some(UnicastWithConfirm)
    requires inc.data.originalTarget == s.localMac && |s.free| > 0
    ensures var t := inc.data;
      var r := Handle(s, ids, inc);
      var o := Last(r.outgoingQueue).item;
      && |r.outgoingQueue| == |s.outgoingQueue| + 1
      && r.outgoingQueue[..|s.outgoingQueue|] == s.outgoingQueue
      && o.intermediateTarget == Lookup(s.routingVector, t.originalSender).GetOr(t.originalSender)
      && TypeOf(o.data.messageType) == Some(DeliveryConfirmResponse)
      && o.data.originalTarget == t.originalSender
      && o.data.originalSender == s.localMac
      && o.data.messageId == ids(s.draws)
      && o.data.ttl == MAX_LAYERS
      && FromLittleEndian16(o.data.message[0], o.data.message[1]) == t.messageId
  {
    var t := inc.data;
    var t1 := Decoded(s, t);
    var s1 := s.(events := s.events + if s.onUnicast then [UnicastReceived(t1.message, t1.messageSize, t1.originalSender)] else []);
    ConfirmationCarriesId(s1, ids, t.messageId, t.originalSender);
    TypeCodeRoundTrip(DeliveryConfirmResponse);
  }

  /**
   * A SEARCH_REQUEST addressed here is answered with an empty SEARCH_RESPONSE
   * from this node, sent to everyone and meant for the node that searched.
   */
  lemma SearchReplied(s: Net, ids: nat -> uint16, inc: Incoming)
    requires WellFormed(inc.data) && TypeOf(inc.data.messageType) == Some(SearchRequest)
    requires inc.data.originalTarget == s.localMac && |s.free| > 0
    ensures Handle(s, ids, inc).outgoingQueue ==
      s.outgoingQueue + [Owned(s.free[0], Outgoing(BROADCAST_MAC,
        Transmitted(Code(SearchResponse), 0, ids(s.draws), s.netName, inc.data.originalSender, s.localMac,
                    Payload(EMPTY, 0), MAX_LAYERS)))]
  {
  }

  // ---- Waiting and sweeping ----

  /** A tick that promotes a parked record ends before the sweep: an expired acknowledgement wait survives it. */
  lemma PromotionSkipsSweep(s: Net, ids: nat -> uint16, now: uint32)
    requires Shape(s)
    ensures var s3 := Dispatch(SendPhase(Completion(s, ids, now)), ids);
      WaitingPhase(s3, now).1 ==> Maintenance(s, ids, now).confirmationVector == s3.confirmationVector
  {
  }

  /** Two adjacent expired waits: the sweep erases the first and steps over the second. */
  lemma SweepSkipsNeighbour(s: Net, ids: nat -> uint16, now: uint32, a: ConfirmationWaiting, b: ConfirmationWaiting)
    requires s.confirmationVector == [a, b]
    requires Elapsed(now, a.time) > s.maxTimeForRoutingInfoWaiting && Elapsed(now, b.time) > s.maxTimeForRoutingInfoWaiting
    ensures SweepFrom(s, ids, now, 0).confirmationVector == [b]
  {
    EraseFromSkipsNeighbour(a, b, Expired(now, s.maxTimeForRoutingInfoWaiting));
  }

  /** The undelivered reports for acknowledgement waits given up, in order. */
  function Undelivered(cs: seq<ConfirmationWaiting>): (e: seq<Event>)
    ensures |e| == |cs|
  {
    if |cs| == 0 then [] else [Confirmed(cs[0].target, cs[0].messageId, false)] + Undelivered(cs[1..])
  }

  /** The k-th undelivered report names the k-th wait's target and message ID. */
  lemma {:induction false} UndeliveredInOrder(cs: seq<ConfirmationWaiting>, k: nat)
    requires k < |cs|
    ensures Undelivered(cs)[k] == Confirmed(cs[k].target, cs[k].messageId, false)
  {
    if k > 0 {
      UndeliveredInOrder(cs[1..], k - 1);
    }
  }

  /**
   * The sweep reports every wait it erases, and only those, as undelivered,
   * in the order it erases them, when a confirmation callback is set; it
   * reports nothing otherwise.
   */
  lemma {:induction false} SweepReportsErased(s: Net, ids: nat -> uint16, now: uint32, i: nat)
    ensures var p := Expired(now, s.maxTimeForRoutingInfoWaiting);
      SweepFrom(s, ids, now, i).events ==
        s.events + if s.onConfirm then Undelivered(Erased(s.confirmationVector, i, p)) else []
    decreases |s.confirmationVector| - i, 1
  {
    var p := Expired(now, s.maxTimeForRoutingInfoWaiting);
    var v := s.confirmationVector;
    if i >= |v| {
      assert s.events + [] == s.events;
    } else if p(v[i]) {
      SweepReportsFromExpired(s, ids, now, i);
    } else {
      assert SweepStep(s, ids, now, i) == s;
      SweepReportsErased(s, ids, now, i + 1);
    }
  }

  /** The sweep's reports when the entry at `i` has expired: its own first, then the rest. */
  lemma {:induction false} SweepReportsFromExpired(s: Net, ids: nat -> uint16, now: uint32, i: nat)
    requires i < |s.confirmationVector| && Expired(now, s.maxTimeForRoutingInfoWaiting)(s.confirmationVector[i])
    ensures var p := Expired(now, s.maxTimeForRoutingInfoWaiting);
      SweepFrom(s, ids, now, i).events ==
        s.events + if s.onConfirm then Undelivered(Erased(s.confirmationVector, i, p)) else []
    decreases |s.confirmationVector| - i, 0
  {
    var p := Expired(now, s.maxTimeForRoutingInfoWaiting);
    var v := s.confirmationVector;
    var rest := Erased(v[..i] + v[i + 1..], i + 1, p);
    assert Erased(v, i, p) == [v[i]] + rest;
    var s1 := SweepStep(s, ids, now, i);
    SweepReportsErased(s1, ids, now, i + 1);
    assert SweepFrom(s, ids, now, i) == SweepFrom(s1, ids, now, i + 1);
    ReportsCompose(s.events, s1.events, SweepFrom(s1, ids, now, i + 1).events, v[i], rest, s.onConfirm);
  }

  /** A report for `c` followed by the reports for `rest` are the reports for `[c] + rest`. */
  lemma ReportsCompose(e0: seq<Event>, e1: seq<Event>, e2: seq<Event>, c: ConfirmationWaiting,
                       rest: seq<ConfirmationWaiting>, on: bool)
    requires e1 == e0 + if on then [Confirmed(c.target, c.messageId, false)] else []
    requires e2 == e1 + if on then Undelivered(rest) else []
    ensures e2 == e0 + if on then Undelivered([c] + rest) else []
  {
    if on {
      var x := Confirmed(c.target, c.messageId, false);
      assert ([c] + rest)[1..] == rest;
      assert Undelivered([c] + rest) == [x] + Undelivered(rest);
      assert e2 == (e0 + [x]) + Undelivered(rest);
      assert (e0 + [x]) + Undelivered(rest) == e0 + ([x] + Undelivered(rest));
    } else {
      assert e0 + [] == e0;
    }
  }

  /** The final destinations of queued records, in queue order. */
  function Destinations(q: seq<Owned<Outgoing>>): (d: seq<Mac>)
    ensures |d| == |q|
  {
    if |q| == 0 then [] else [q[0].item.data.originalTarget] + Destinations(q[1..])
  }

  /** The targets of acknowledgement waits, in order. */
  function TargetsOf(cs: seq<ConfirmationWaiting>): (d: seq<Mac>)
    ensures |d| == |cs|
  {
    if |cs| == 0 then [] else [cs[0].target] + TargetsOf(cs[1..])
  }

  /** Every record is a SEARCH_REQUEST from `origin`, queued for the broadcast MAC. */
  ghost predicate AllSearches(q: seq<Owned<Outgoing>>, origin: Mac) {
    forall k :: 0 <= k < |q| ==>
      q[k].item.intermediateTarget == BROADCAST_MAC && q[k].item.data.messageType == Code(SearchRequest) &&
      q[k].item.data.originalSender == origin
  }

  /**
   * With a free buffer for each, the sweep queues one SEARCH_REQUEST from
   * this node per erased wait, for that wait's target, in the order erased.
   */
  lemma {:induction false} SweepSearchesErased(s: Net, ids: nat -> uint16, now: uint32, i: nat)
    requires |s.free| >= |Erased(s.confirmationVector, i, Expired(now, s.maxTimeForRoutingInfoWaiting))|
    ensures var e := Erased(s.confirmationVector, i, Expired(now, s.maxTimeForRoutingInfoWaiting));
      var r := SweepFrom(s, ids, now, i);
      && s.outgoingQueue <= r.outgoingQueue
      && AllSearches(r.outgoingQueue[|s.outgoingQueue|..], s.localMac)
      && Destinations(r.outgoingQueue[|s.outgoingQueue|..]) == TargetsOf(e)
    decreases |s.confirmationVector| - i, 1
  {
    var p := Expired(now, s.maxTimeForRoutingInfoWaiting);
    var v := s.confirmationVector;
    if i >= |v| {
      assert s.outgoingQueue[|s.outgoingQueue|..] == [];
    } else if p(v[i]) {
      SweepSearchesFromExpired(s, ids, now, i);
    } else {
      assert SweepStep(s, ids, now, i) == s;
      SweepSearchesErased(s, ids, now, i + 1);
    }
  }

  /** The sweep's searches when the entry at `i` has expired: its own first, then the rest. */
  lemma {:induction false} SweepSearchesFromExpired(s: Net, ids: nat -> uint16, now: uint32, i: nat)
    requires i < |s.confirmationVector| && Expired(now, s.maxTimeForRoutingInfoWaiting)(s.confirmationVector[i])
    requires |s.free| >= |Erased(s.confirmationVector, i, Expired(now, s.maxTimeForRoutingInfoWaiting))|
    ensures var e := Erased(s.confirmationVector, i, Expired(now, s.maxTimeForRoutingInfoWaiting));
      var r := SweepFrom(s, ids, now, i);
      && s.outgoingQueue <= r.outgoingQueue
      && AllSearches(r.outgoingQueue[|s.outgoingQueue|..], s.localMac)
      && Destinations(r.outgoingQueue[|s.outgoingQueue|..]) == TargetsOf(e)
    decreases |s.confirmationVector| - i, 0
  {
    var p := Expired(now, s.maxTimeForRoutingInfoWaiting);
    var v := s.confirmationVector;
    var rest := Erased(v[..i] + v[i + 1..], i + 1, p);
    assert Erased(v, i, p) == [v[i]] + rest;
    var s1 := SweepStep(s, ids, now, i);
    ExpiredStepSearches(s, ids, now, i);
    SweepSearchesErased(s1, ids, now, i + 1);
    var r := SweepFrom(s1, ids, now, i + 1);
    assert SweepFrom(s, ids, now, i) == r;
    SearchPrepended(s.outgoingQueue, Last(s1.outgoingQueue), r.outgoingQueue, s.localMac);
    assert ([v[i]] + rest)[1..] == rest;
  }

  /** An expired wait, with a buffer free: the step queues one search from this node for the wait's target. */
  lemma ExpiredStepSearches(s: Net, ids: nat -> uint16, now: uint32, i: nat)
    requires i < |s.confirmationVector| && |s.free| > 0
    requires Expired(now, s.maxTimeForRoutingInfoWaiting)(s.confirmationVector[i])
    ensures var r := SweepStep(s, ids, now, i);
      var x := Last(r.outgoingQueue).item;
      && |r.outgoingQueue| > 0
      && r.outgoingQueue == s.outgoingQueue + [Last(r.outgoingQueue)]
      && x.intermediateTarget == BROADCAST_MAC && x.data.messageType == Code(SearchRequest)
      && x.data.originalSender == s.localMac && x.data.originalTarget == s.confirmationVector[i].target
      && r.localMac == s.localMac && |r.free| == |s.free| - 1
      && r.confirmationVector == s.confirmationVector[..i] + s.confirmationVector[i + 1..]
      && r.maxTimeForRoutingInfoWaiting == s.maxTimeForRoutingInfoWaiting
  {
    assert SweepStep(s, ids, now, i) == GiveUpWaiting(s, ids, i);
  }

  /** One more search in front of the searches appended after `q0`. */
  lemma SearchPrepended(q0: seq<Owned<Outgoing>>, x: Owned<Outgoing>, r: seq<Owned<Outgoing>>, origin: Mac)
    requires q0 + [x] <= r && AllSearches(r[|q0| + 1..], origin)
    requires x.item.intermediateTarget == BROADCAST_MAC && x.item.data.messageType == Code(SearchRequest)
    requires x.item.data.originalSender == origin
    ensures q0 <= r && AllSearches(r[|q0|..], origin)
    ensures Destinations(r[|q0|..]) == [x.item.data.originalTarget] + Destinations(r[|q0| + 1..])
  {
    assert r[|q0|] == (q0 + [x])[|q0|];
    assert r[|q0|..][1..] == r[|q0| + 1..];
  }

  /** Without adjacent expired waits the sweep removes every expired one and keeps the rest in order. */
  lemma SweepRemovesIsolated(s: Net, ids: nat -> uint16, now: uint32)
    requires NoAdjacentMatches(s.confirmationVector, 0, Expired(now, s.maxTimeForRoutingInfoWaiting))
    ensures var p := Expired(now, s.maxTimeForRoutingInfoWaiting);
      SweepFrom(s, ids, now, 0).confirmationVector == Remove(s.confirmationVector, p)
  {
    EraseFromRemovesAll(s.confirmationVector, 0, Expired(now, s.maxTimeForRoutingInfoWaiting));
    assert s.confirmationVector[0..] == s.confirmationVector;
  }

  // ---- Start-up ----

  /** The header's defaults against their setters: 3 attempts and 500 ms pass, the 5 ms transmission gap does not. */
  lemma DefaultsAgainstSetters(localMac: Mac, name: seq<byte>)
    requires 0 !in name
    ensures var s := Initial(localMac, name);
      && SetMaxNumberOfAttempts(s, s.maxNumberOfAttempts).1 == SUCCESS
      && SetMaxWaitingTimeForRoutingInfo(s, s.maxTimeForRoutingInfoWaiting).1 == SUCCESS
      && SetMaxWaitingTimeBetweenTransmissions(s, s.maxWaitingTimeBetweenTransmissions).1 == ERROR
  {
  }
}
