/**
 * The routing engine object (ZHNetwork.cpp): the class whose fields the
 * entry points and the maintenance tick update in place. Every method is
 * proved to leave the object in the state the matching function of NetSpec
 * computes from the state before the call, so the properties proved about
 * those functions (net_props.dfy) hold of the object.
 *
 * Pool buffers are the handles of a `MemoryPool.Pool`; a record sits in the
 * buffer it was copied into, and the buffer goes back to the pool when the
 * record's handle is dropped. The ten-entry ID window is an array shifted in
 * place. Calls into esp_now and the user callbacks are appended to `events`;
 * message IDs come from `ids`, one per constructed message.
 */
module Network {
  import opened Wrappers
  import opened Records
  import opened Crypt
  import opened Routing
  import opened NetSpec
  import MacText
  import MemoryPool

  class ZHNetwork {
    /** The buffer pool the queued records live in. */
    const pool: MemoryPool.Pool
    /** lastMessageID: the IDs of the last ten admitted packets, newest first. */
    const lastMessageId: array<uint16>
    /** The random source behind message IDs: the value of the n-th draw. */
    const ids: nat -> uint16

    var localMac: Mac
    var netName: seq<byte>
    var key: seq<byte>
    var routingVector: seq<Route>
    var confirmationVector: seq<ConfirmationWaiting>
    var incomingQueue: seq<Owned<Incoming>>
    var outgoingQueue: seq<Owned<Outgoing>>
    var waitingQueue: seq<Owned<Waiting>>
    var criticalProcessSemaphore: bool
    var sentMessageSemaphore: bool
    var confirmReceivingSemaphore: bool
    var confirmReceiving: bool
    var maxNumberOfAttempts: uint8
    var maxWaitingTimeBetweenTransmissions: uint8
    var numberOfAttemptsToSend: uint8
    var maxTimeForRoutingInfoWaiting: uint16
    /** Whether each of the three user callbacks is registered. */
    var onBroadcast: bool
    var onUnicast: bool
    var onConfirm: bool
    /** IDs drawn so far. */
    var draws: nat
    /** The calls made so far into esp_now and the callbacks. */
    var events: seq<Event>

    /** The object's state as a value. */
    ghost function State(): Net
      reads this, pool, lastMessageId
    {
      Net(localMac, netName, key, routingVector, confirmationVector,
          incomingQueue, outgoingQueue, waitingQueue,
          criticalProcessSemaphore, sentMessageSemaphore, confirmReceivingSemaphore, confirmReceiving,
          lastMessageId[..],
          maxNumberOfAttempts, maxWaitingTimeBetweenTransmissions, numberOfAttemptsToSend, maxTimeForRoutingInfoWaiting,
          onBroadcast, onUnicast, onConfirm,
          pool.Free, draws, events)
    }

    /** The pool is consistent and has the engine's size, and the ID window has its ten entries. */
    ghost predicate Ready()
      reads pool, pool.slots
    {
      pool.Valid() && pool.N == POOL_SIZE && lastMessageId.Length == ID_WINDOW
    }

    /** The object invariant while the running code holds `held` buffers in local handles. */
    ghost predicate Valid(held: nat)
      reads this, pool, pool.slots, lastMessageId
    {
      Ready() && Inv(State(), held)
    }

    /** Dropping the handle of buffer `b`: the buffer goes back to the pool. */
    method GiveBack(b: BufId)
      requires Ready() && |pool.Free| < POOL_SIZE
      modifies pool, pool.slots
      ensures Ready() && pool.Free == old(pool.Free) + [b]
    {
      var _ := pool.Give(b);
    }

    /** pool_.take: the first free buffer, or nothing when the pool is empty. */
    method TakeBuffer() returns (b: Option<BufId>)
      requires Ready()
      modifies pool, pool.slots
      ensures Ready()
      ensures b.Some? <==> |old(pool.Free)| > 0
      ensures b.Some? ==> b.value == old(pool.Free)[0] && pool.Free == old(pool.Free)[1..]
      ensures b.None? ==> pool.Free == old(pool.Free)
    {
      b := pool.Take();
    }

    /** The calls `e` into esp_now and the callbacks, made in order. */
    method Report(e: seq<Event>)
      modifies this`events
      ensures State() == old(State()).(events := old(events) + e)
    {
      events := events + e;
    }

    /** A record queued for sending. */
    method Push(o: Owned<Outgoing>)
      modifies this`outgoingQueue
      ensures outgoingQueue == old(outgoingQueue) + [o]
    {
      outgoingQueue := outgoingQueue + [o];
    }

    /** The constructor with its defaults, followed by begin with the net name `name`. */
    constructor (mac: Mac, name: seq<byte>, ids: nat -> uint16)
      requires 0 !in name
      ensures Valid(0) && State() == Initial(mac, name) && this.ids == ids
      ensures fresh(pool) && fresh(pool.slots) && fresh(lastMessageId)
    {
      this.ids := ids;
      pool := new MemoryPool.Pool(MemoryPool.MAX_NUMBER_OF_MESSAGE);
      lastMessageId := new uint16[ID_WINDOW](_ => 0);
      localMac := mac;
      netName := if 1 <= |name| <= NET_NAME_SIZE then name + Zeros(NET_NAME_SIZE - |name|) else Zeros(NET_NAME_SIZE);
      key := [];
      routingVector, confirmationVector := [], [];
      incomingQueue, outgoingQueue, waitingQueue := [], [], [];
      criticalProcessSemaphore, sentMessageSemaphore := false, false;
      confirmReceivingSemaphore, confirmReceiving := false, false;
      maxNumberOfAttempts := DEFAULT_MAX_NUMBER_OF_ATTEMPTS;
      maxWaitingTimeBetweenTransmissions := DEFAULT_MAX_WAITING_TIME_BETWEEN_TRANSMISSIONS;
      numberOfAttemptsToSend := DEFAULT_NUMBER_OF_ATTEMPTS_TO_SEND;
      maxTimeForRoutingInfoWaiting := DEFAULT_MAX_TIME_FOR_ROUTING_INFO_WAITING;
      onBroadcast, onUnicast, onConfirm := false, false, false;
      draws, events := 0, [];
      new;
      assert lastMessageId[..] == seq(ID_WINDOW, _ => 0);
      assert pool.Free == seq(POOL_SIZE, i => i);
    }

    // ---- Callback registration and configuration ----

    method SetOnBroadcastReceivingCallback(present: bool)
      modifies this
      ensures State() == old(State()).(onBroadcast := present)
    {
      onBroadcast := present;
    }

    method SetOnUnicastReceivingCallback(present: bool)
      modifies this
      ensures State() == old(State()).(onUnicast := present)
    {
      onUnicast := present;
    }

    method SetOnConfirmReceivingCallback(present: bool)
      modifies this
      ensures State() == old(State()).(onConfirm := present)
    {
      onConfirm := present;
    }

    method SetCryptKey(k: seq<byte>) returns (code: uint16)
      requires Valid(0)
      modifies this
      ensures (State(), code) == NetSpec.SetCryptKey(old(State()), k) && Valid(0)
    {
      var c := CString(k);
      if 1 <= |c| <= KEY_CAPACITY {
        key := c;
      }
      return SUCCESS;
    }

    method SetMaxNumberOfAttempts(n: uint8) returns (code: uint16)
      requires Valid(0)
      modifies this
      ensures (State(), code) == NetSpec.SetMaxNumberOfAttempts(old(State()), n) && Valid(0)
    {
      if n < 1 || n > 10 {
        return ERROR;
      }
      maxNumberOfAttempts := n;
      return SUCCESS;
    }

    method SetMaxWaitingTimeBetweenTransmissions(n: uint8) returns (code: uint16)
      requires Valid(0)
      modifies this
      ensures (State(), code) == NetSpec.SetMaxWaitingTimeBetweenTransmissions(old(State()), n) && Valid(0)
    {
      if n < 50 || n > 250 {
        return ERROR;
      }
      maxWaitingTimeBetweenTransmissions := n;
      return SUCCESS;
    }

    method SetMaxWaitingTimeForRoutingInfo(n: uint16) returns (code: uint16)
      requires Valid(0)
      modifies this
      ensures (State(), code) == NetSpec.SetMaxWaitingTimeForRoutingInfo(old(State()), n) && Valid(0)
    {
      if n < 500 || n > 5000 {
        return ERROR;
      }
      maxTimeForRoutingInfoWaiting := n;
      return SUCCESS;
    }

    method GetMaxNumberOfAttempts() returns (n: uint8)
      ensures n == maxNumberOfAttempts
    {
      return maxNumberOfAttempts;
    }

    method GetMaxWaitingTimeBetweenTransmissions() returns (n: uint8)
      ensures n == maxWaitingTimeBetweenTransmissions
    {
      return maxWaitingTimeBetweenTransmissions;
    }

    method GetMaxWaitingTimeForRoutingInfo() returns (n: uint16)
      ensures n == maxTimeForRoutingInfoWaiting
    {
      return maxTimeForRoutingInfoWaiting;
    }

    /** getNodeMac: this node's MAC as twelve uppercase hex digits, which parse back to the MAC. */
    method GetNodeMac() returns (text: string)
      ensures text == MacText.HexOf(localMac)
      ensures |text| == 12 && MacText.Parsable(text) && MacText.ParsedMac(text) == localMac
    {
      text := MacText.MacToString(localMac);
      MacText.ParseFormatRoundTrip(localMac);
    }

    // ---- The esp_now callbacks ----

    /** onDataSent: the transmit result of the send in flight. */
    method OnDataSent(status: int)
      requires Valid(0)
      modifies this
      ensures State() == NetSpec.OnDataSent(old(State()), status) && Valid(0)
    {
      confirmReceivingSemaphore := true;
      confirmReceiving := status == SEND_SUCCESS;
    }

    /** The duplicate-ID scan of onDataReceive. */
    method SeenRecently(id: uint16) returns (seen: bool)
      requires lastMessageId.Length == ID_WINDOW
      ensures seen <==> id in lastMessageId[..]
    {
      for i := 0 to ID_WINDOW
        invariant id !in lastMessageId[..i]
      {
        if lastMessageId[i] == id {
          return true;
        }
      }
      assert lastMessageId[..ID_WINDOW] == lastMessageId[..];
      return false;
    }

    /** The window shift of onDataReceive: every entry moves one place back and `id` becomes the first. */
    method RememberId(id: uint16)
      requires lastMessageId.Length == ID_WINDOW
      modifies lastMessageId
      ensures lastMessageId[..] == [id] + old(lastMessageId[..])[..ID_WINDOW - 1]
    {
      var i := ID_WINDOW - 1;
      while i >= 1
        invariant 0 <= i <= ID_WINDOW - 1
        invariant forall j :: 0 <= j <= i ==> lastMessageId[j] == old(lastMessageId[j])
        invariant forall j :: i < j < ID_WINDOW ==> lastMessageId[j] == old(lastMessageId[j - 1])
      {
        lastMessageId[i] := lastMessageId[i - 1];
        i := i - 1;
      }
      lastMessageId[0] := id;
    }

    /** onDataReceive: a datagram `data` from neighbour `info`. */
    method OnDataReceive(info: Mac, data: seq<byte>)
      requires Valid(0)
      modifies this, pool, pool.slots, lastMessageId
      ensures State() == NetSpec.OnDataReceive(old(State()), info, data) && Valid(0)
    {
      if criticalProcessSemaphore {
        return;
      }
      SetBusy(true);
      if |data| != TRANSMITTED_SIZE {
        SetBusy(false);
        return;
      }
      var b := TakeBuffer();
      if b.None? {
        return;
      }
      ghost var s := old(State());
      Admit(info, Decode(data), b.value);
      assert s.free == [b.value] + s.free[1..];
    }

    /** criticalProcessSemaphore set or cleared. */
    method SetBusy(busy: bool)
      modifies this`criticalProcessSemaphore
      ensures criticalProcessSemaphore == busy
    {
      criticalProcessSemaphore := busy;
    }

    /** The drop filters of onDataReceive, for a decoded record copied into buffer `b`; the record is queued when they all pass. */
    method Admit(info: Mac, t: Transmitted, b: BufId)
      requires Ready() && WellFormed(t) && |netName| == NET_NAME_SIZE && |pool.Free| < POOL_SIZE
      modifies this`criticalProcessSemaphore, this`incomingQueue, pool, pool.slots, lastMessageId
      ensures Ready() && !criticalProcessSemaphore
      ensures Accepts(old(State()), t) ==>
        && incomingQueue == old(incomingQueue) + [Owned(b, Incoming(info, t))]
        && lastMessageId[..] == [t.messageId] + old(lastMessageId[..])[..ID_WINDOW - 1]
        && pool.Free == old(pool.Free)
      ensures !Accepts(old(State()), t) ==>
        && incomingQueue == old(incomingQueue)
        && lastMessageId[..] == old(lastMessageId[..])
        && pool.Free == old(pool.Free) + [b]
    {
      // The three drop filters, in the source's order; each runs only when the ones before it passed.
      var admit := !MacText.CompareMac(t.originalSender, localMac);
      if admit && netName[0] != 0 {
        admit := NamesMatch(t.netName, netName);
      }
      if admit {
        var seen := SeenRecently(t.messageId);
        admit := !seen;
      }
      if !admit {
        criticalProcessSemaphore := false;
        GiveBack(b);
        return;
      }
      RememberId(t.messageId);
      incomingQueue := incomingQueue + [Owned(b, Incoming(info, t))];
      criticalProcessSemaphore := false;
    }

    // ---- Message construction ----

    /** broadcastMessage: queues a packet from this node for everyone and returns its ID, or an error code. */
    method BroadcastMessage(data: seq<byte>, size: uint8, target: Mac, t: MessageType) returns (code: uint16)
      requires Ready() && (size <= MESSAGE_CAPACITY ==> size <= |data|)
      modifies this`outgoingQueue, this`draws, pool, pool.slots
      ensures Ready()
      ensures (State(), code) == NetSpec.BroadcastMessage(old(State()), ids, data, size, target, t)
    {
      code := Build(data, size, target, localMac, t, |key| > 0 && t == Broadcast, BROADCAST_MAC);
    }

    /** unicastMessage: queues a packet from `sender` for the next hop towards `target` and returns its ID, or an error code. */
    method UnicastMessage(data: seq<byte>, size: uint8, target: Mac, sender: Mac, t: MessageType) returns (code: uint16)
      requires Ready() && (size <= MESSAGE_CAPACITY ==> size <= |data|)
      modifies this`outgoingQueue, this`draws, pool, pool.slots
      ensures Ready()
      ensures (State(), code) == NetSpec.UnicastMessage(old(State()), ids, data, size, target, sender, t)
    {
      var encrypt := |key| > 0 && MacText.CompareMac(sender, localMac) && t != DeliveryConfirmResponse;
      var hop := FindRoute(routingVector, target);
      code := Build(data, size, target, sender, t, encrypt, hop.GetOr(target));
    }

    /**
     * The steps the two constructors share: a buffer from the pool, a fresh
     * ID, the size check, the zero-padded payload, optionally obfuscated, and
     * the packet queued for `hop`.
     */
    method Build(data: seq<byte>, size: uint8, target: Mac, sender: Mac, t: MessageType, encrypt: bool, hop: Mac)
      returns (code: uint16)
      requires Ready() && (size <= MESSAGE_CAPACITY ==> size <= |data|) && (encrypt ==> |key| > 0)
      modifies this`outgoingQueue, this`draws, pool, pool.slots
      ensures Ready()
      ensures (State(), code) == Construct(old(State()), ids, data, size, target, sender, t, encrypt, hop)
    {
      var b := TakeBuffer();
      if b.None? {
        return ERROR;
      }
      var id := Draw();
      if size > MESSAGE_CAPACITY {
        GiveBack(b.value);
        return ESP_ERR_INVALID_SIZE;
      }
      var message := Payload(data, size);
      if encrypt {
        message := Xor(message, size, key);
      }
      var d := Transmitted(Code(t), size, id, netName, target, sender, message, MAX_LAYERS);
      Push(Owned(b.value, Outgoing(hop, d)));
      return id;
    }

    /** A fresh message ID from the random source. */
    method Draw() returns (id: uint16)
      modifies this`draws
      ensures id == ids(old(draws))
      ensures draws == old(draws) + 1
    {
      id := ids(draws);
      draws := draws + 1;
    }

    /** sendBroadcastMessage. */
    method SendBroadcastMessage(data: seq<byte>, size: uint8) returns (code: uint16)
      requires Valid(0) && (size <= MESSAGE_CAPACITY ==> size <= |data|)
      modifies this, pool, pool.slots
      ensures (State(), code) == NetSpec.SendBroadcastMessage(old(State()), ids, data, size)
      ensures Valid(0)
    {
      code := BroadcastMessage(data, size, BROADCAST_MAC, Broadcast);
    }

    /** sendUnicastMessage. */
    method SendUnicastMessage(data: seq<byte>, size: uint8, target: Mac, confirm: bool) returns (code: uint16)
      requires Valid(0) && (size <= MESSAGE_CAPACITY ==> size <= |data|)
      modifies this, pool, pool.slots
      ensures (State(), code) == NetSpec.SendUnicastMessage(old(State()), ids, data, size, target, confirm)
      ensures Valid(0)
    {
      code := UnicastMessage(data, size, target, localMac, if confirm then UnicastWithConfirm else Unicast);
    }

    // ---- maintenance ----

    /** One maintenance tick at time `now`. */
    method Maintenance(now: uint32)
      requires Valid(0)
      modifies this, pool, pool.slots
      ensures State() == NetSpec.Maintenance(old(State()), ids, now) && Valid(0)
    {
      CompletionPhase(now);
      SendPhase();
      DispatchPhase();
      var stop := WaitingPhase(now);
      if stop {
        return;
      }
      Sweep(now);
    }

    /** The completion branch: the result of the send in flight. */
    method CompletionPhase(now: uint32)
      requires Valid(0)
      modifies this, pool, pool.slots
      ensures State() == Completion(old(State()), ids, now) && Valid(0)
    {
      if !(sentMessageSemaphore && confirmReceivingSemaphore) {
        return;
      }
      ClearSendFlags();
      if confirmReceiving {
        DeliverHead(now);
      } else if numberOfAttemptsToSend < maxNumberOfAttempts {
        Retry();
      } else {
        DropHead(now);
      }
    }

    /** The send in flight and its result both consumed. */
    method ClearSendFlags()
      modifies this`sentMessageSemaphore, this`confirmReceivingSemaphore
      ensures State() == old(State()).(sentMessageSemaphore := false, confirmReceivingSemaphore := false)
    {
      sentMessageSemaphore := false;
      confirmReceivingSemaphore := false;
    }

    /** One more attempt for the head of the outgoing queue. */
    method Retry()
      requires numberOfAttemptsToSend < 255
      modifies this`numberOfAttemptsToSend
      ensures State() == old(State()).(numberOfAttemptsToSend := old(numberOfAttemptsToSend) + 1)
    {
      numberOfAttemptsToSend := numberOfAttemptsToSend + 1;
    }

    /** The delivered head of the outgoing queue. */
    method DeliverHead(now: uint32)
      requires Valid(0) && |outgoingQueue| > 0 && !sentMessageSemaphore
      modifies this`outgoingQueue, this`events, this`confirmationVector, pool, pool.slots
      ensures Ready() && State() == Delivered(old(State()), now)
    {
      var head := outgoingQueue[0];
      outgoingQueue := outgoingQueue[1..];
      events := events + DeliveryReports(head.item, localMac, onConfirm);
      confirmationVector := confirmationVector + DeliveryAwaits(head.item, localMac, now);
      GiveBack(head.buf);
    }

    /** The head of the outgoing queue after its last failed attempt. */
    method DropHead(now: uint32)
      requires Valid(0) && |outgoingQueue| > 0 && !sentMessageSemaphore
      modifies this`outgoingQueue, this`events, this`numberOfAttemptsToSend, this`routingVector, this`waitingQueue, this`draws
      modifies pool, pool.slots
      ensures Ready() && State() == Failed(old(State()), ids, now)
    {
      var head := outgoingQueue[0];
      Drop();
      Park(now, head.item);
      GiveBack(head.buf);
    }

    /** The failed head popped, its peer removed, the counter reset and the routes to its target erased. */
    method Drop()
      requires Valid(0) && |outgoingQueue| > 0 && !sentMessageSemaphore
      modifies this`outgoingQueue, this`events, this`numberOfAttemptsToSend, this`routingVector
      ensures State() == Dropped(old(State()))
    {
      var o := outgoingQueue[0].item;
      var routes := EraseWhere(routingVector, RouteTo(o.data.originalTarget));
      outgoingQueue := outgoingQueue[1..];
      events := events + [DelPeer(o.intermediateTarget)];
      numberOfAttemptsToSend := FIRST_ATTEMPT;
      routingVector := routes;
    }

    /** The record of a dropped send, parked to wait for a route, and the search for one. */
    method Park(now: uint32, o: Outgoing)
      requires Ready()
      modifies this`waitingQueue, this`outgoingQueue, this`draws, pool, pool.slots
      ensures Ready() && State() == Parked(old(State()), ids, now, o)
    {
      var w := TakeBuffer();
      if w.Some? {
        Wait(Owned(w.value, Waiting(now, o.intermediateTarget, o.data)));
        var _ := BroadcastMessage(EMPTY, 0, o.data.originalTarget, SearchRequest);
      }
    }

    /** A record parked to wait for a route. */
    method Wait(w: Owned<Waiting>)
      modifies this`waitingQueue
      ensures State() == old(State()).(waitingQueue := old(waitingQueue) + [w])
    {
      waitingQueue := waitingQueue + [w];
    }

    /** The send branch: with nothing in flight, the head of the outgoing queue goes out. */
    method SendPhase()
      requires Valid(0)
      modifies this
      ensures State() == NetSpec.SendPhase(old(State())) && Valid(0)
    {
      if |outgoingQueue| > 0 && !sentMessageSemaphore {
        var o := outgoingQueue[0].item;
        events := events + [AddPeer(o.intermediateTarget)];
        events := events + [Send(o.intermediateTarget, Encode(o.data))];
        sentMessageSemaphore := true;
      }
    }

    /** The dispatch branch: the oldest received record is taken off its queue and handled. */
    method DispatchPhase()
      requires Valid(0)
      modifies this, pool, pool.slots
      ensures State() == Dispatch(old(State()), ids) && Valid(0)
    {
      if |incomingQueue| == 0 {
        return;
      }
      var head := PopIncoming();
      HandleRecord(head.item);
      GiveBack(head.buf);
    }

    /** The oldest received record taken off its queue, inside the busy section. */
    method PopIncoming() returns (head: Owned<Incoming>)
      requires |incomingQueue| > 0
      modifies this`incomingQueue, this`criticalProcessSemaphore
      ensures head == old(incomingQueue[0])
      ensures State() == old(State()).(incomingQueue := old(incomingQueue[1..]), criticalProcessSemaphore := false)
    {
      criticalProcessSemaphore := true;
      head := incomingQueue[0];
      incomingQueue := incomingQueue[1..];
      criticalProcessSemaphore := false;
    }

    /** The switch on the type of a received record. */
    method HandleRecord(inc: Incoming)
      requires Ready() && WellFormed(inc.data)
      modifies this`routingVector, this`confirmationVector, this`outgoingQueue, this`draws, this`events, pool, pool.slots
      ensures Ready() && State() == Handle(old(State()), ids, inc)
    {
      match TypeOf(inc.data.messageType) {
        case None =>
        case Some(Broadcast) => ReceiveBroadcast(inc.data);
        case Some(Unicast) => ReceiveUnicast(inc.data);
        case Some(UnicastWithConfirm) => ReceiveUnicastWithConfirm(inc.data);
        case Some(DeliveryConfirmResponse) => ReceiveConfirmResponse(inc.data);
        case Some(SearchRequest) => ReceiveSearchRequest(inc);
        case Some(SearchResponse) => ReceiveSearchResponse(inc);
      }
    }

    /** The forwarding step after the switch: while hops remain, a copy with one hop fewer to everyone, when a buffer is free. */
    method RelayRecord(t: Transmitted)
      requires Ready()
      modifies this`outgoingQueue, pool, pool.slots
      ensures Ready() && State() == Relay(old(State()), t)
    {
      if t.ttl > 0 {
        var b := TakeBuffer();
        if b.Some? {
          Push(Owned(b.value, Outgoing(BROADCAST_MAC, t.(ttl := t.ttl - 1))));
        }
      }
    }

    /** The payload as the callbacks see it, de-obfuscated in place when a key is set. */
    method Plain(t: Transmitted) returns (d: Transmitted)
      ensures d == Decoded(State(), t)
    {
      d := t;
      if |key| > 0 {
        var m := Xor(t.message, t.messageSize, key);
        d := d.(message := m);
      }
    }

    method ReceiveBroadcast(t: Transmitted)
      requires Ready() && WellFormed(t)
      modifies this`events, this`outgoingQueue, pool, pool.slots
      ensures Ready() && State() == HandleBroadcast(old(State()), t)
    {
      var d := t;
      if onBroadcast {
        d := Plain(t);
        Report([BroadcastReceived(d.message, d.messageSize, d.originalSender)]);
      }
      RelayRecord(d);
    }

    method ReceiveUnicast(t: Transmitted)
      requires Ready() && WellFormed(t)
      modifies this`events, this`outgoingQueue, this`draws, pool, pool.slots
      ensures Ready() && State() == HandleUnicast(old(State()), ids, t)
    {
      if MacText.CompareMac(t.originalTarget, localMac) {
        if onUnicast {
          var d := Plain(t);
          Report([UnicastReceived(d.message, d.messageSize, d.originalSender)]);
        }
      } else {
        var _ := UnicastMessage(t.message, t.messageSize, t.originalTarget, t.originalSender, Unicast);
      }
    }

    method ReceiveUnicastWithConfirm(t: Transmitted)
      requires Ready() && WellFormed(t)
      modifies this`events, this`outgoingQueue, this`draws, pool, pool.slots
      ensures Ready() && State() == HandleUnicastWithConfirm(old(State()), ids, t)
    {
      if MacText.CompareMac(t.originalTarget, localMac) {
        if onUnicast {
          var d := Plain(t);
          Report([UnicastReceived(d.message, d.messageSize, d.originalSender)]);
        }
        var _ := UnicastMessage(ConfirmationPayload(t.messageId), MESSAGE_CAPACITY as uint8, t.originalSender, localMac, DeliveryConfirmResponse);
      } else {
        var _ := UnicastMessage(t.message, t.messageSize, t.originalTarget, t.originalSender, UnicastWithConfirm);
      }
    }

    method ReceiveConfirmResponse(t: Transmitted)
      requires Ready() && WellFormed(t)
      modifies this`events, this`confirmationVector, this`outgoingQueue, this`draws, pool, pool.slots
      ensures Ready() && State() == HandleConfirmResponse(old(State()), ids, t)
    {
      if MacText.CompareMac(t.originalTarget, localMac) {
        if onConfirm {
          var id := FromLittleEndian16(t.message[0], t.message[1]);
          confirmationVector := EraseWhere(confirmationVector, HasId(id));
          events := events + [Confirmed(t.originalSender, id, true)];
        }
      } else {
        var _ := UnicastMessage(t.message, t.messageSize, t.originalTarget, t.originalSender, DeliveryConfirmResponse);
      }
    }

    method ReceiveSearchRequest(inc: Incoming)
      requires Ready()
      modifies this`routingVector, this`outgoingQueue, this`draws, pool, pool.slots
      ensures Ready() && State() == HandleSearchRequest(old(State()), ids, inc)
    {
      var t := inc.data;
      if MacText.CompareMac(t.originalTarget, localMac) {
        var _ := BroadcastMessage(EMPTY, 0, t.originalSender, SearchResponse);
      } else {
        RelayRecord(t);
      }
      Learned(t.originalSender, inc.intermediateSender);
    }

    /** The route to `target` through the neighbour `via` learned from a search packet. */
    method Learned(target: Mac, via: Mac)
      modifies this`routingVector
      ensures State() == old(State()).(routingVector := Learn(old(routingVector), target, via))
    {
      routingVector := LearnRoute(routingVector, target, via);
    }

    method ReceiveSearchResponse(inc: Incoming)
      requires Ready()
      modifies this`routingVector, this`outgoingQueue, pool, pool.slots
      ensures Ready() && State() == HandleSearchResponse(old(State()), inc)
    {
      var t := inc.data;
      if !MacText.CompareMac(t.originalTarget, localMac) {
        RelayRecord(t);
      }
      Learned(t.originalSender, inc.intermediateSender);
    }

    /** The waiting branch; `stop` reports the early return after a promotion. */
    method WaitingPhase(now: uint32) returns (stop: bool)
      requires Valid(0)
      modifies this`waitingQueue, this`outgoingQueue, this`events, pool, pool.slots
      ensures (State(), stop) == NetSpec.WaitingPhase(old(State()), now) && Valid(0)
    {
      if |waitingQueue| == 0 {
        return false;
      }
      var w := waitingQueue[0].item;
      var hop := FindRoute(routingVector, w.data.originalTarget);
      if hop.Some? {
        PromoteHead(hop.value);
        return true;
      }
      if Elapsed(now, w.time) > maxTimeForRoutingInfoWaiting {
        ExpireHead();
      }
      return false;
    }

    /** The oldest parked record, sent on now that a route to its target is known. */
    method PromoteHead(hop: Mac)
      requires Valid(0) && |waitingQueue| > 0
      modifies this`waitingQueue, this`outgoingQueue, pool, pool.slots
      ensures State() == Promote(old(State()), hop) && Valid(0)
    {
      var head := waitingQueue[0];
      waitingQueue := waitingQueue[1..];
      var b := TakeBuffer();
      if b.Some? {
        outgoingQueue := outgoingQueue + [Owned(b.value, Outgoing(hop, head.item.data))];
      }
      GiveBack(head.buf);
    }

    /** The oldest parked record, dropped after waiting too long for a route. */
    method ExpireHead()
      requires Valid(0) && |waitingQueue| > 0
      modifies this`waitingQueue, this`events, pool, pool.slots
      ensures State() == Expire(old(State())) && Valid(0)
    {
      var head := waitingQueue[0];
      waitingQueue := waitingQueue[1..];
      var d := head.item.data;
      var report := d.messageType == Code(UnicastWithConfirm) && MacText.CompareMac(d.originalSender, localMac) && onConfirm;
      events := events + if report then [Confirmed(d.originalTarget, d.messageId, false)] else [];
      GiveBack(head.buf);
    }

    /** The acknowledgements still awaited replaced by `cv`. */
    method SetAwaited(cv: seq<ConfirmationWaiting>)
      modifies this`confirmationVector
      ensures State() == old(State()).(confirmationVector := cv)
    {
      confirmationVector := cv;
    }

    /** The confirmation sweep: the erase-inside-an-index-loop over the acknowledgements still awaited. */
    method Sweep(now: uint32)
      requires Valid(0)
      modifies this`confirmationVector, this`outgoingQueue, this`draws, this`events, pool, pool.slots
      ensures State() == SweepFrom(old(State()), ids, now, 0) && Valid(0)
    {
      ghost var s0 := State();
      var i := 0;
      while i < |confirmationVector|
        invariant Valid(0)
        invariant SweepFrom(State(), ids, now, i) == SweepFrom(s0, ids, now, 0)
        decreases |confirmationVector| - i
      {
        SweepAt(now, i);
        i := i + 1;
      }
    }

    /** One pass of the sweep loop, at index `i`. */
    method SweepAt(now: uint32, i: nat)
      requires Ready() && i < |confirmationVector|
      modifies this`confirmationVector, this`outgoingQueue, this`draws, this`events, pool, pool.slots
      ensures Ready() && State() == SweepStep(old(State()), ids, now, i)
    {
      if Elapsed(now, confirmationVector[i].time) > maxTimeForRoutingInfoWaiting {
        GiveUp(i);
      }
    }

    /** The erase, search and report for an acknowledgement that has waited too long. */
    method GiveUp(i: nat)
      requires Ready() && i < |confirmationVector|
      modifies this`confirmationVector, this`outgoingQueue, this`draws, this`events, pool, pool.slots
      ensures Ready() && State() == GiveUpWaiting(old(State()), ids, i)
    {
      var c := confirmationVector[i];
      SetAwaited(confirmationVector[..i] + confirmationVector[i + 1..]);
      var _ := BroadcastMessage(EMPTY, 0, c.target, SearchRequest);
      Report(if onConfirm then [Confirmed(c.target, c.messageId, false)] else []);
    }
  }
}
