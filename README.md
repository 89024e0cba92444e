# ZH mesh routing engine: a verified model in Dafny

This project models the core of the ESP-NOW mesh example in
`examples/mesh/internal_communication`. The core has three parts.

1. **The ZHNetwork routing engine** (`ZHNetwork.cpp`, `ZHNetwork.h`). A node
   keeps four queues:
   - received records waiting for dispatch;
   - records waiting to be sent;
   - records parked until a route to their target is known;
   - acknowledgements still awaited.

   It also keeps a routing table of next hops and a ten-entry window of
   recently seen message IDs. Datagrams enter through the `onDataReceive`
   callback, which applies the drop filters. A periodic `maintenance` tick
   drives everything else, in five phases:
   - completes the send in flight (retry, give up, rediscover the route);
   - sends the next record;
   - dispatches one received record by type (deliver, relay while hops
     remain, acknowledge, learn routes from search traffic);
   - promotes or expires the oldest parked record;
   - sweeps expired acknowledgement waits.
2. **The fixed buffer pool** (`memory_pool.hpp`). It is a ring of slot
   handles. `_take` hands out the buffer at `_tail`; `_give` puts one back at
   `_head`. Every queued record lives in one of its buffers.
3. **The command helpers** (`command.hpp`): `to_bool`, `from_bool` and
   `type_to_name`.

Layout, one module per file:

| file | module | models |
|---|---|---|
| `wrappers.dfy` | `Wrappers` | `Option`, for null handles and failed lookups |
| `command.dfy` | `Command` | `command.hpp` |
| `memory_pool.dfy` | `MemoryPool` | class `Pool` over an `array<Option<BufId>>`, with `_take`, `_give`, `_next_index` and the `AutoGiver` return |
| `records.dfy` | `Records` | the record types and constants of `ZHNetwork.h`, and the byte layout handed to `esp_now_send` |
| `mac_text.dfy` | `MacText` | `compare_mac`, `macToString`, `stringToMac` |
| `crypt.dfy` | `Crypt` | the repeating-key XOR applied to payloads |
| `routing.dfy` | `Routing` | routing-table lookup, learning from search traffic, and the erase-inside-an-index-loop used at three places |
| `net_spec.dfy` | `NetSpec` | the engine's state as a value `Net`, and one function per entry point and per phase of `maintenance` |
| `network.dfy` | `Network` | class `ZHNetwork`: the fields the source updates in place, and one method per entry point and phase |
| `net_props.dfy` | `NetProps` | properties that span several operations |

Every state-changing method of `Network.ZHNetwork` is proved to leave the
object in the state that the matching `NetSpec` function computes from the state before the
call. The properties proved about the functions therefore hold of the object.

Each method also keeps the object invariant `Valid`:
- the pool's ring is consistent;
- the free buffers and the buffers held by the incoming, outgoing and
  waiting queues number 500 in all (the awaited acknowledgements hold IDs,
  not buffers);
- received records have the declared layout;
- a send in flight is the head of the outgoing queue;
- the routing table has at most one entry per destination.

Keeping `Valid` includes showing that the pool's `_give` abort never fires.

Outside effects become parameters or an event log:
- Calls into esp_now (add peer, delete peer, send) and into the three user
  callbacks are appended to the `events` log.
- The current tick time is the `now` parameter of `Maintenance`.
- The random source is the function `ids`; the n-th message built gets
  `ids(n)`.

Where the header and the implementation disagree, the model follows the
implementation:
- `transmitted_data_t` (`ZHNetwork.h:27-36`) has no `ttl` field, but
  `ZHNetwork.cpp` reads and writes one. The model adds it as one byte after
  the payload, so the record is 238 bytes on the wire.
- The header declares the incoming and waiting queues as queues of structs.
  The implementation pushes pool handles onto them, so in the model they hold
  pool buffers, as the outgoing queue does.

A unicast sent to a destination with no known route goes straight to the
destination (`ZHNetwork.cpp:674-759`). Route discovery (a SEARCH_REQUEST)
starts only after the attempts run out (`ZHNetwork.cpp:131-164`).

## Model

| member | source | states |
|---|---|---|
| Command.ToBool | examples/mesh/internal_communication/main/include/command.hpp:24-26 | any non-zero byte reads as true |
| Command.FromBool | examples/mesh/internal_communication/main/include/command.hpp:28-33 | true maps to TRUE (1) and false to FALSE (0) |
| Command.ToBoolFromBool | examples/mesh/internal_communication/main/include/command.hpp:24-33 | `to_bool(from_bool(b)) == b` for both booleans |
| Command.FromBoolToBool | examples/mesh/internal_communication/main/include/command.hpp:19-33 | `from_bool(to_bool(m)) == m` exactly when `m` is one of the two named values |
| Command.TypeToName | examples/mesh/internal_communication/main/include/command.hpp:35-47 | each of the four enum values 0-3 gets its name; every other value gets "invalid_type" |
| Command.TypeNamesDistinct | examples/mesh/internal_communication/main/include/command.hpp:11-47 | the four values get four distinct names, none of them "invalid_type" |
| MemoryPool.Pool.constructor | examples/mesh/internal_communication/main/include/memory_pool.hpp:48-51 | a fresh pool is full: `size == N`, `head == tail == 0`, slot `i` holds buffer `i`, and the ring invariant holds |
| MemoryPool.Pool.NextIndex | examples/mesh/internal_communication/main/include/memory_pool.hpp:77-79 | the successor is always a slot index, and it wraps from `N - 1` to 0 |
| MemoryPool.Pool.Take | examples/mesh/internal_communication/main/include/memory_pool.hpp:54-65 | an empty pool returns null and changes nothing; otherwise returns the oldest free buffer (the one at `tail`), empties that slot, advances `tail` and decrements `size`; the invariant is kept |
| MemoryPool.Pool.Give | examples/mesh/internal_communication/main/include/memory_pool.hpp:68-75 | aborts, changing nothing, when the pool is full or the head slot is occupied, and these are the same condition; otherwise stores the buffer at `head`, advances `head`, increments `size` and appends the buffer to the free list |
| MemoryPool.Pool.Release | examples/mesh/internal_communication/main/include/memory_pool.hpp:29-35 | releasing a null handle changes nothing; any other handle is given back |
| MemoryPool.TailHoldsOldest | examples/mesh/internal_communication/main/include/memory_pool.hpp:59-61 | a non-empty pool has its oldest free buffer at `tail`, so `_take`'s null-slot abort is unreachable |
| MemoryPool.HeadEmptyUnlessFull | examples/mesh/internal_communication/main/include/memory_pool.hpp:69-70 | the slot at `head` is occupied exactly when the pool is full |
| MemoryPool.HeadFollowsOccupiedRun | examples/mesh/internal_communication/main/include/memory_pool.hpp:72-73 | `head == (tail + size) % N` |
| MemoryPool.Conservation | examples/mesh/internal_communication/main/include/memory_pool.hpp:56-74 | the buffers held outside the pool number takes minus gives; with all `N` of them out, the pool's size is 0, so `_take` returns null |
| Records.Code | examples/mesh/internal_communication/main/include/ZHNetwork.h:79-87 | every message type has a wire value in 1..6 |
| Records.TypeOf | examples/mesh/internal_communication/main/include/ZHNetwork.h:79-87 | a type byte names a message type exactly when it is in 1..6, and then it is that type's code |
| Records.TypeCodeRoundTrip | examples/mesh/internal_communication/main/include/ZHNetwork.h:79-87 | reading back a type's code gives the type |
| Records.TypeCodesInDeclarationOrder | examples/mesh/internal_communication/main/include/ZHNetwork.h:79-87 | BROADCAST = 1 through SEARCH_RESPONSE = 6, in declaration order |
| Records.RecordsFitPoolSlot | examples/mesh/internal_communication/main/include/ZHNetwork.h:50-51 | the packet is 238 bytes; outgoing and incoming records are under 256 bytes; a waiting record fits the 261-byte pool slot; the confirmation ID record fills the 200-byte payload exactly |
| Records.Zeros | examples/mesh/internal_communication/main/include/ZHNetwork.h:35 | `n` zero bytes |
| Records.LittleEndian16 | examples/mesh/internal_communication/main/include/ZHNetwork.h:31 | a 16-bit ID occupies two bytes |
| Records.LittleEndian16RoundTrip | examples/mesh/internal_communication/main/include/ZHNetwork.h:31 | decoding the two bytes of an ID gives the ID back |
| Records.FromLittleEndian16RoundTrip | examples/mesh/internal_communication/main/include/ZHNetwork.h:31 | encoding a decoded pair of bytes gives the pair back |
| Records.Encode | examples/mesh/internal_communication/main/include/ZHNetwork.h:27-36 | a well-formed packet encodes to exactly the record size |
| Records.Decode | examples/mesh/internal_communication/main/include/ZHNetwork.h:27-36 | a record-size datagram decodes to a packet whose net name and payload have their declared sizes |
| Records.DecodeEncode | examples/mesh/internal_communication/main/include/ZHNetwork.h:27-36 | every well-formed packet survives encoding and decoding unchanged |
| Records.EncodeDecode | examples/mesh/internal_communication/main/include/ZHNetwork.h:27-36 | re-encoding a decoded datagram reproduces every byte except the padding byte, which becomes zero |
| MacText.CompareMac | examples/mesh/internal_communication/main/ZHNetwork.cpp:30-32 | true exactly when the two MACs are equal |
| MacText.HexPair | examples/mesh/internal_communication/main/ZHNetwork.cpp:505-506 | two uppercase hex digits per byte |
| MacText.HexOf | examples/mesh/internal_communication/main/ZHNetwork.cpp:503-507 | twice as many characters as bytes, all of them uppercase hex digits |
| MacText.MacToString | examples/mesh/internal_communication/main/ZHNetwork.cpp:499-509 | the loop yields the text of the MAC: 12 uppercase hex characters |
| MacText.Counting | examples/mesh/internal_communication/main/ZHNetwork.cpp:513-515 | a run of table entries counting up from a start value |
| MacText.Blank | examples/mesh/internal_communication/main/ZHNetwork.cpp:513-515 | a run of zero table entries |
| MacText.DigitTable | examples/mesh/internal_communication/main/ZHNetwork.cpp:513-515 | the 75-entry table maps digits to 0-9, both letter cases to 10-35, and the punctuation between them to 0 |
| MacText.DigitValue | examples/mesh/internal_communication/main/ZHNetwork.cpp:513-517 | the table lookup gives a digit's value, and a letter's value in either case |
| MacText.StringToMac | examples/mesh/internal_communication/main/ZHNetwork.cpp:511-519 | the loop fills the six-byte array with the parsed MAC, byte `k` from characters `2k` and `2k+1` |
| MacText.HexPairParses | examples/mesh/internal_communication/main/ZHNetwork.cpp:505-517 | the two digits written for a byte parse back to that byte |
| MacText.ParseFormatRoundTrip | examples/mesh/internal_communication/main/ZHNetwork.cpp:499-519 | `stringToMac(macToString(m)) == m` for every MAC |
| MacText.FormatParseRoundTrip | examples/mesh/internal_communication/main/ZHNetwork.cpp:499-519 | formatting the MAC parsed from 12 uppercase hex digits gives those digits back |
| MacText.LowercaseParses | examples/mesh/internal_communication/main/ZHNetwork.cpp:513-517 | lowercase hex digits parse to the same MAC as their uppercase forms |
| Crypt.Xored | examples/mesh/internal_communication/main/ZHNetwork.cpp:644-646 | obfuscation keeps the length and leaves the bytes from `messageSize` on untouched |
| Crypt.Xor | examples/mesh/internal_communication/main/ZHNetwork.cpp:692-694 | the in-place loop computes `Xored` |
| Crypt.XoredInvolution | examples/mesh/internal_communication/main/ZHNetwork.cpp:236-238 | decoding with the same key undoes encoding |
| Crypt.XoredChangesPrefixOnly | examples/mesh/internal_communication/main/ZHNetwork.cpp:645-646 | a byte changes exactly when it lies before `messageSize` and its key byte is non-zero |
| Routing.Lookup | examples/mesh/internal_communication/main/ZHNetwork.cpp:695-700 | finds a next hop exactly when the destination is known, and then it is the first entry for that destination |
| Routing.LookupUnique | examples/mesh/internal_communication/main/ZHNetwork.cpp:695-700 | with unique destinations, every entry is the one found for its destination |
| Routing.Redirected | examples/mesh/internal_communication/main/ZHNetwork.cpp:380-383 | redirecting keeps the table's length |
| Routing.Learn | examples/mesh/internal_communication/main/ZHNetwork.cpp:371-407 | a known origin is redirected to the neighbour; an unknown origin is appended unless it is the neighbour itself; routes to other destinations are unchanged; unique destinations stay unique |
| Routing.RedirectedLookup | examples/mesh/internal_communication/main/ZHNetwork.cpp:374-391 | after redirection a known origin is reached via the neighbour, and lookups of other destinations are unchanged |
| Routing.AppendLookup | examples/mesh/internal_communication/main/ZHNetwork.cpp:392-406 | an appended entry for a new destination is found, and other lookups are unchanged |
| Routing.LearnTeaches | examples/mesh/internal_communication/main/ZHNetwork.cpp:371-407 | after learning, the origin is reached through the neighbour the packet came from |
| Routing.LearnIdempotent | examples/mesh/internal_communication/main/ZHNetwork.cpp:371-407 | seeing the same observation twice leaves the table as the first sighting left it |
| Routing.EraseFrom | examples/mesh/internal_communication/main/ZHNetwork.cpp:140-151 | the erase-and-advance loop never grows the vector and leaves the already-scanned prefix alone |
| Routing.Remove | examples/mesh/internal_communication/main/ZHNetwork.cpp:140-151 | the reference filter never grows the vector |
| Routing.Erased | examples/mesh/internal_communication/main/ZHNetwork.cpp:474-484 | the elements the loop erases, in order: all match, and with what the loop keeps they account for the whole vector |
| Routing.RemoveMembers | examples/mesh/internal_communication/main/ZHNetwork.cpp:140-151 | the reference filter keeps exactly the elements that do not match |
| Routing.EraseFromRemovesAll | examples/mesh/internal_communication/main/ZHNetwork.cpp:140-151 | when no two matches are adjacent, the loop erases every match and keeps the rest in order |
| Routing.EraseFromSkipsNeighbour | examples/mesh/internal_communication/main/ZHNetwork.cpp:145 | of two adjacent matches, the loop erases the first and steps over the second |
| Routing.InvalidateUnique | examples/mesh/internal_communication/main/ZHNetwork.cpp:140-151 | in a table with unique destinations, invalidation removes the entry for the target, so it is no longer found, and keeps the rest unique |
| Routing.RemoveKeepsUnique | examples/mesh/internal_communication/main/ZHNetwork.cpp:140-151 | filtering keeps destinations unique |
| Routing.EraseFromKeepsUnique | examples/mesh/internal_communication/main/ZHNetwork.cpp:140-151 | erasing keeps destinations unique, whatever is erased |
| Routing.FindRoute | examples/mesh/internal_communication/main/ZHNetwork.cpp:415-418 | the scanning loop returns the lookup's result |
| Routing.LearnRoute | examples/mesh/internal_communication/main/ZHNetwork.cpp:371-407 | the routing-update loop computes `Learn` |
| Routing.EraseWhere | examples/mesh/internal_communication/main/ZHNetwork.cpp:474-479 | the erase-inside-index-loop computes `EraseFrom` from index 0 |
| NetSpec.WellFormedAppended | examples/mesh/internal_communication/main/ZHNetwork.cpp:623 | appending a well-formed record keeps the queue well formed |
| NetSpec.Elapsed | examples/mesh/internal_communication/main/ZHNetwork.cpp:439 | the 64-bit unsigned difference between the tick reading and a stamp, wrapping when the stamp is later |
| NetSpec.CString | examples/mesh/internal_communication/main/ZHNetwork.cpp:605-607 | the bytes before the first zero, which hold no zero |
| NetSpec.CStringOfPlain | examples/mesh/internal_communication/main/ZHNetwork.cpp:521-525 | a byte string with no zero reads back whole as a C string |
| NetSpec.NamesMatchIffSameString | examples/mesh/internal_communication/main/ZHNetwork.cpp:607 | the 20-byte `strncmp` reports equality exactly when the two C strings are equal |
| NetSpec.Filter | examples/mesh/internal_communication/main/ZHNetwork.cpp:600-624 | an accepted record is queued in the taken buffer, tagged with its neighbour, and its ID enters the window; a rejected one only returns the buffer to the pool |
| NetSpec.OnDataReceive | examples/mesh/internal_communication/main/ZHNetwork.cpp:585-625 | ignored while busy or when the size is wrong; with the pool empty, only the busy flag gets set (and stays set); otherwise the datagram is decoded and filtered; all buffers stay accounted for |
| NetSpec.ReceiveAdmission | examples/mesh/internal_communication/main/ZHNetwork.cpp:585-624 | one record is queued exactly when the datagram has the record size, comes from another node, carries the local net name (when set) and has an unseen ID; the queued record is the decoded packet tagged with its neighbour, and the window becomes `[id] + old[0..8]` |
| NetSpec.OnDataSent | examples/mesh/internal_communication/main/ZHNetwork.cpp:571-576 | the result flag is set and reports success exactly for status 0; nothing else changes |
| NetSpec.Payload | examples/mesh/internal_communication/main/ZHNetwork.cpp:640-643 | a full 200-byte payload whose first `size` bytes are the data |
| NetSpec.Construct | examples/mesh/internal_communication/main/ZHNetwork.cpp:627-647 | construction touches only the pool, the ID draws and the tail of the outgoing queue, and keeps every buffer accounted for |
| NetSpec.BroadcastMessage | examples/mesh/internal_communication/main/ZHNetwork.cpp:627-672 | an empty pool returns ERROR and changes nothing; a size over 200 returns ESP_ERR_INVALID_SIZE and queues nothing; otherwise one packet is queued for the broadcast MAC with a fresh ID, ttl 5 and this node as sender; its payload is obfuscated only for a BROADCAST with a key set; the ID is returned |
| NetSpec.UnicastMessage | examples/mesh/internal_communication/main/ZHNetwork.cpp:674-759 | the same error cases; otherwise one packet is queued with a fresh ID, ttl 5 and the given sender, for the routing table's next hop or else the target itself; the payload is obfuscated only when a key is set, the sender is this node and the type is not a delivery confirmation |
| NetSpec.SendBroadcastMessage | examples/mesh/internal_communication/main/ZHNetwork.cpp:86-89 | with a free buffer and a payload of at most 200 bytes: the fresh ID is returned and one record is queued in the first free buffer, a BROADCAST from this node to the broadcast MAC with full hop budget, its payload obfuscated when a key is set; otherwise the pool-empty or oversize error, with nothing queued |
| NetSpec.SendUnicastMessage | examples/mesh/internal_communication/main/ZHNetwork.cpp:91-94 | with a free buffer and a payload of at most 200 bytes: the fresh ID is returned and one record is queued in the first free buffer, a UNICAST (UNICAST_WITH_CONFIRM when asked) from this node to the target, handed to the known next hop or to the target itself, its payload obfuscated when a key is set; otherwise the pool-empty or oversize error, with nothing queued |
| NetSpec.Delivered | examples/mesh/internal_communication/main/ZHNetwork.cpp:102-123 | the head is popped and its peer deleted; a BROADCAST from this node is reported confirmed; a UNICAST_WITH_CONFIRM from this node starts an acknowledgement wait stamped `now`; nothing else changes |
| NetSpec.Failed | examples/mesh/internal_communication/main/ZHNetwork.cpp:131-164 | the last failed attempt keeps every buffer accounted for, the invariant, and the receive side |
| NetSpec.Dropped | examples/mesh/internal_communication/main/ZHNetwork.cpp:133-151 | the head is popped and its next hop removed as a peer; the attempt counter goes back to 1; every route to the head's target is erased by the erase-and-advance loop, after which the target has no route; the pool, the parked and the awaited records and the receive side are untouched |
| NetSpec.Parked | examples/mesh/internal_communication/main/ZHNetwork.cpp:152-163 | parking keeps every buffer accounted for and the receive side unchanged |
| NetSpec.Completion | examples/mesh/internal_communication/main/ZHNetwork.cpp:98-166 | runs only when a send is in flight and its result is in, and then clears both flags; delivery goes to `Delivered`; a failure with attempts left increments the counter and keeps the head; the last failure goes to `Failed` |
| NetSpec.SendPhase | examples/mesh/internal_communication/main/ZHNetwork.cpp:167-180 | afterwards a send is in flight exactly when one was before or the queue is non-empty; a new send adds the head's peer and sends its encoded packet to it; otherwise nothing changes |
| NetSpec.Decoded | examples/mesh/internal_communication/main/ZHNetwork.cpp:236-238 | only the payload changes |
| NetSpec.Relay | examples/mesh/internal_communication/main/ZHNetwork.cpp:360-370 | relaying touches only the pool and the tail of the outgoing queue |
| NetSpec.ConfirmationPayload | examples/mesh/internal_communication/main/ZHNetwork.cpp:288-292 | the acknowledgement payload fills the 200-byte message |
| NetSpec.HandleBroadcast | examples/mesh/internal_communication/main/ZHNetwork.cpp:228-246 | handling touches only the routing state, the outgoing side, the pool and the event log, and keeps every buffer accounted for; its effects are stated by `NetProps.BroadcastDelivered` and `NetProps.BroadcastRelayed` |
| NetSpec.HandleUnicast | examples/mesh/internal_communication/main/ZHNetwork.cpp:247-270 | handling touches only the routing state, the outgoing side, the pool and the event log, and keeps every buffer accounted for; its effects are stated by `NetProps.UnicastDelivered` and `NetProps.UnicastForwarded` |
| NetSpec.HandleUnicastWithConfirm | examples/mesh/internal_communication/main/ZHNetwork.cpp:271-298 | handling touches only the routing state, the outgoing side, the pool and the event log, and keeps every buffer accounted for; its effects are stated by `NetProps.UnicastDelivered`, `NetProps.ConfirmationReplied` and `NetProps.UnicastForwarded` |
| NetSpec.HandleConfirmResponse | examples/mesh/internal_communication/main/ZHNetwork.cpp:299-325 | handling touches only the routing state, the outgoing side, the pool and the event log, and keeps every buffer accounted for; its effects are stated by `NetProps.AcknowledgementClearsWait` and `NetProps.UnicastForwarded` |
| NetSpec.HandleSearchRequest | examples/mesh/internal_communication/main/ZHNetwork.cpp:326-342 | handling touches only the routing state, the outgoing side, the pool and the event log, and keeps every buffer accounted for; its effects are stated by `NetProps.SearchReplied`, `NetProps.SearchRelayed` and `NetProps.SearchLearns` |
| NetSpec.HandleSearchResponse | examples/mesh/internal_communication/main/ZHNetwork.cpp:343-356 | handling touches only the routing state, the outgoing side, the pool and the event log, and keeps every buffer accounted for; its effects are stated by `NetProps.SearchRelayed` and `NetProps.SearchLearns` |
| NetSpec.Handle | examples/mesh/internal_communication/main/ZHNetwork.cpp:226-359 | the switch keeps every buffer accounted for, and the invariant; an unknown type changes nothing; what each type does is stated by the `NetProps` lemmas named in the rows above |
| NetSpec.Dispatch | examples/mesh/internal_communication/main/ZHNetwork.cpp:213-408 | with a record received, it is popped, the busy flag is left clear, and the buffer comes back after handling; with none, nothing changes |
| NetSpec.Promote | examples/mesh/internal_communication/main/ZHNetwork.cpp:412-437 | the oldest parked record leaves the waiting queue and, when a buffer is free, is queued for the given next hop; the event log, routing table and awaited list are unchanged |
| NetSpec.Expire | examples/mesh/internal_communication/main/ZHNetwork.cpp:439-470 | the oldest parked record is dropped; a UNICAST_WITH_CONFIRM from this node is reported undelivered |
| NetSpec.WaitingPhase | examples/mesh/internal_communication/main/ZHNetwork.cpp:409-471 | the tick stops early exactly when a route exists for the oldest parked record's target, and then the record is promoted; otherwise it expires once it has waited longer than the timeout |
| NetSpec.SweepStep | examples/mesh/internal_communication/main/ZHNetwork.cpp:476-484 | an entry that has not waited longer than the timeout changes nothing; an expired one is erased, a search for its target is queued and, with a confirmation callback set, its undelivered report is logged |
| NetSpec.GiveUpWaiting | examples/mesh/internal_communication/main/ZHNetwork.cpp:479-483 | the entry at `i` leaves the awaited list; with a free buffer, a SEARCH_REQUEST from this node for the entry's target is queued to everyone in it; with a confirmation callback set, `Confirmed(target, id, false)` is logged; the routing table and the parked records are untouched |
| NetSpec.SweepFrom | examples/mesh/internal_communication/main/ZHNetwork.cpp:472-486 | the awaited list after the sweep is the erase-and-advance loop applied with the timeout predicate; what the sweep searches for and reports is stated by `NetProps.SweepSearchesErased` and `NetProps.SweepReportsErased` |
| NetSpec.Maintenance | examples/mesh/internal_communication/main/ZHNetwork.cpp:96-487 | a tick keeps every buffer accounted for, and the invariant |
| NetSpec.Initial | examples/mesh/internal_communication/main/include/ZHNetwork.h:150-160 | empty queues, routing table and awaited list, every one of the 500 buffers free in order, an empty key, a zeroed ID window, no callbacks, and the header defaults (3 attempts, counter at 1, 5 ms between sends, 500 ms of route waiting); the net name is the given one when it has 1 to 20 characters, otherwise empty |
| NetSpec.CStringOfPadded | examples/mesh/internal_communication/main/ZHNetwork.cpp:66-67 | a name padded with zeros reads back as the name |
| NetSpec.SetMaxNumberOfAttempts | examples/mesh/internal_communication/main/ZHNetwork.cpp:528-534 | SUCCESS exactly for 1..10, which store the value; ERROR leaves the state alone |
| NetSpec.SetMaxWaitingTimeBetweenTransmissions | examples/mesh/internal_communication/main/ZHNetwork.cpp:541-547 | SUCCESS exactly for 50..250, which store the value; ERROR leaves the state alone |
| NetSpec.SetMaxWaitingTimeForRoutingInfo | examples/mesh/internal_communication/main/ZHNetwork.cpp:554-560 | SUCCESS exactly for 500..5000, which store the value; ERROR leaves the state alone |
| NetSpec.SetCryptKey | examples/mesh/internal_communication/main/ZHNetwork.cpp:521-526 | always SUCCESS; the key is read as a C string up to its first zero byte, and one of 1 to 20 such characters replaces the current key, which then holds no zero byte; any other key is ignored |
| Network.ZHNetwork.GiveBack | examples/mesh/internal_communication/main/include/memory_pool.hpp:29-35 | a dropped handle's buffer goes back to the pool |
| Network.ZHNetwork.TakeBuffer | examples/mesh/internal_communication/main/ZHNetwork.cpp:629-633 | the first free buffer, or nothing exactly when the pool is empty |
| Network.ZHNetwork.Report | examples/mesh/internal_communication/main/ZHNetwork.cpp:111-114 | the calls are appended to the event log; nothing else changes |
| Network.ZHNetwork.Push | examples/mesh/internal_communication/main/ZHNetwork.cpp:368 | one record is appended to the outgoing queue |
| Network.ZHNetwork.constructor | examples/mesh/internal_communication/main/ZHNetwork.cpp:58-84 | the object starts in `Initial` with the invariant |
| Network.ZHNetwork.SetOnBroadcastReceivingCallback | examples/mesh/internal_communication/main/ZHNetwork.cpp:40-44 | only the broadcast callback's presence changes |
| Network.ZHNetwork.SetOnUnicastReceivingCallback | examples/mesh/internal_communication/main/ZHNetwork.cpp:46-50 | only the unicast callback's presence changes |
| Network.ZHNetwork.SetOnConfirmReceivingCallback | examples/mesh/internal_communication/main/ZHNetwork.cpp:52-56 | only the confirmation callback's presence changes |
| Network.ZHNetwork.SetCryptKey | examples/mesh/internal_communication/main/ZHNetwork.cpp:521-526 | state and result as `NetSpec.SetCryptKey` |
| Network.ZHNetwork.SetMaxNumberOfAttempts | examples/mesh/internal_communication/main/ZHNetwork.cpp:528-534 | state and result as `NetSpec.SetMaxNumberOfAttempts` |
| Network.ZHNetwork.SetMaxWaitingTimeBetweenTransmissions | examples/mesh/internal_communication/main/ZHNetwork.cpp:541-547 | state and result as `NetSpec.SetMaxWaitingTimeBetweenTransmissions` |
| Network.ZHNetwork.SetMaxWaitingTimeForRoutingInfo | examples/mesh/internal_communication/main/ZHNetwork.cpp:554-560 | state and result as `NetSpec.SetMaxWaitingTimeForRoutingInfo` |
| Network.ZHNetwork.GetMaxNumberOfAttempts | examples/mesh/internal_communication/main/ZHNetwork.cpp:536-539 | the attempt limit the setter last accepted, or the default |
| Network.ZHNetwork.GetMaxWaitingTimeBetweenTransmissions | examples/mesh/internal_communication/main/ZHNetwork.cpp:549-552 | the transmission gap the setter last accepted, or the default |
| Network.ZHNetwork.GetMaxWaitingTimeForRoutingInfo | examples/mesh/internal_communication/main/ZHNetwork.cpp:562-565 | the routing-info timeout the setter last accepted, or the default |
| Network.ZHNetwork.GetNodeMac | examples/mesh/internal_communication/main/ZHNetwork.cpp:489-492 | exactly the text `macToString` gives for this node's MAC: twelve upper-case hex digits, which parse back to the MAC |
| Network.ZHNetwork.OnDataSent | examples/mesh/internal_communication/main/ZHNetwork.cpp:571-576 | state as `NetSpec.OnDataSent`; the invariant is kept |
| Network.ZHNetwork.SeenRecently | examples/mesh/internal_communication/main/ZHNetwork.cpp:613-618 | true exactly when the ID is in the window |
| Network.ZHNetwork.RememberId | examples/mesh/internal_communication/main/ZHNetwork.cpp:619-621 | the in-place shift makes the window `[id] + old[0..8]` |
| Network.ZHNetwork.OnDataReceive | examples/mesh/internal_communication/main/ZHNetwork.cpp:585-625 | state as `NetSpec.OnDataReceive`; the invariant is kept |
| Network.ZHNetwork.SetBusy | examples/mesh/internal_communication/main/ZHNetwork.cpp:587 | sets or clears the busy flag |
| Network.ZHNetwork.Admit | examples/mesh/internal_communication/main/ZHNetwork.cpp:600-624 | an accepted record is queued and its ID remembered; a rejected one changes nothing but returns its buffer; the busy flag ends clear |
| Network.ZHNetwork.BroadcastMessage | examples/mesh/internal_communication/main/ZHNetwork.cpp:627-672 | state and result as `NetSpec.BroadcastMessage` |
| Network.ZHNetwork.UnicastMessage | examples/mesh/internal_communication/main/ZHNetwork.cpp:674-759 | state and result as `NetSpec.UnicastMessage` |
| Network.ZHNetwork.Build | examples/mesh/internal_communication/main/ZHNetwork.cpp:676-694 | state and result as `NetSpec.Construct` |
| Network.ZHNetwork.Draw | examples/mesh/internal_communication/main/ZHNetwork.cpp:683 | the next value of the random source; the draw counter advances by one |
| Network.ZHNetwork.SendBroadcastMessage | examples/mesh/internal_communication/main/ZHNetwork.cpp:86-89 | state and result as `NetSpec.SendBroadcastMessage`; the invariant is kept |
| Network.ZHNetwork.SendUnicastMessage | examples/mesh/internal_communication/main/ZHNetwork.cpp:91-94 | state and result as `NetSpec.SendUnicastMessage`; the invariant is kept |
| Network.ZHNetwork.Maintenance | examples/mesh/internal_communication/main/ZHNetwork.cpp:96-487 | state as `NetSpec.Maintenance`: the five phases in order, ending early after a promotion; the invariant is kept |
| Network.ZHNetwork.CompletionPhase | examples/mesh/internal_communication/main/ZHNetwork.cpp:98-166 | state as `NetSpec.Completion` |
| Network.ZHNetwork.ClearSendFlags | examples/mesh/internal_communication/main/ZHNetwork.cpp:100-101 | both send flags cleared; nothing else changes |
| Network.ZHNetwork.Retry | examples/mesh/internal_communication/main/ZHNetwork.cpp:129-130 | the attempt counter goes up by one; nothing else changes |
| Network.ZHNetwork.DeliverHead | examples/mesh/internal_communication/main/ZHNetwork.cpp:102-123 | state as `NetSpec.Delivered` |
| Network.ZHNetwork.DropHead | examples/mesh/internal_communication/main/ZHNetwork.cpp:131-164 | state as `NetSpec.Failed` |
| Network.ZHNetwork.Drop | examples/mesh/internal_communication/main/ZHNetwork.cpp:133-151 | state as `NetSpec.Dropped` |
| Network.ZHNetwork.Park | examples/mesh/internal_communication/main/ZHNetwork.cpp:152-163 | state as `NetSpec.Parked` |
| Network.ZHNetwork.Wait | examples/mesh/internal_communication/main/ZHNetwork.cpp:160 | one record appended to the waiting queue; nothing else changes |
| Network.ZHNetwork.SendPhase | examples/mesh/internal_communication/main/ZHNetwork.cpp:167-180 | state as `NetSpec.SendPhase` |
| Network.ZHNetwork.DispatchPhase | examples/mesh/internal_communication/main/ZHNetwork.cpp:213-408 | state as `NetSpec.Dispatch` |
| Network.ZHNetwork.PopIncoming | examples/mesh/internal_communication/main/ZHNetwork.cpp:215-221 | the oldest received record is returned and popped, and the busy flag ends clear |
| Network.ZHNetwork.HandleRecord | examples/mesh/internal_communication/main/ZHNetwork.cpp:226-359 | state as `NetSpec.Handle` |
| Network.ZHNetwork.RelayRecord | examples/mesh/internal_communication/main/ZHNetwork.cpp:360-370 | state as `NetSpec.Relay` |
| Network.ZHNetwork.Plain | examples/mesh/internal_communication/main/ZHNetwork.cpp:236-238 | the packet as `NetSpec.Decoded` gives it |
| Network.ZHNetwork.ReceiveBroadcast | examples/mesh/internal_communication/main/ZHNetwork.cpp:228-246 | state as `NetSpec.HandleBroadcast` |
| Network.ZHNetwork.ReceiveUnicast | examples/mesh/internal_communication/main/ZHNetwork.cpp:247-270 | state as `NetSpec.HandleUnicast` |
| Network.ZHNetwork.ReceiveUnicastWithConfirm | examples/mesh/internal_communication/main/ZHNetwork.cpp:271-298 | state as `NetSpec.HandleUnicastWithConfirm` |
| Network.ZHNetwork.ReceiveConfirmResponse | examples/mesh/internal_communication/main/ZHNetwork.cpp:299-325 | state as `NetSpec.HandleConfirmResponse` |
| Network.ZHNetwork.ReceiveSearchRequest | examples/mesh/internal_communication/main/ZHNetwork.cpp:326-342 | state as `NetSpec.HandleSearchRequest` |
| Network.ZHNetwork.Learned | examples/mesh/internal_communication/main/ZHNetwork.cpp:371-407 | the routing table becomes `Routing.Learn` of the old one; nothing else changes |
| Network.ZHNetwork.ReceiveSearchResponse | examples/mesh/internal_communication/main/ZHNetwork.cpp:343-356 | state as `NetSpec.HandleSearchResponse` |
| Network.ZHNetwork.WaitingPhase | examples/mesh/internal_communication/main/ZHNetwork.cpp:409-471 | state and early-return flag as `NetSpec.WaitingPhase` |
| Network.ZHNetwork.PromoteHead | examples/mesh/internal_communication/main/ZHNetwork.cpp:412-437 | state as `NetSpec.Promote` |
| Network.ZHNetwork.ExpireHead | examples/mesh/internal_communication/main/ZHNetwork.cpp:439-470 | state as `NetSpec.Expire` |
| Network.ZHNetwork.SetAwaited | examples/mesh/internal_communication/main/ZHNetwork.cpp:479 | the awaited list is replaced; nothing else changes |
| Network.ZHNetwork.Sweep | examples/mesh/internal_communication/main/ZHNetwork.cpp:472-486 | state as `NetSpec.SweepFrom` from index 0 |
| Network.ZHNetwork.SweepAt | examples/mesh/internal_communication/main/ZHNetwork.cpp:476-484 | state as `NetSpec.SweepStep` |
| Network.ZHNetwork.GiveUp | examples/mesh/internal_communication/main/ZHNetwork.cpp:479-483 | state as `NetSpec.GiveUpWaiting` |
| NetProps.ReplayDropped | examples/mesh/internal_communication/main/ZHNetwork.cpp:613-621 | once a datagram is admitted, the same datagram arriving again is not queued |
| NetProps.Run | examples/mesh/internal_communication/main/ZHNetwork.cpp:81-82 | any sequence of ticks, receptions, send reports and application calls keeps every buffer accounted for, and the invariant |
| NetProps.Step | examples/mesh/internal_communication/main/ZHNetwork.cpp:40-94 | one input from the radio, the tick or the application keeps every buffer accounted for and the invariant; nothing but a tick or a datagram touches the busy flag or the received records |
| NetProps.IdleTickKeepsReceiver | examples/mesh/internal_communication/main/ZHNetwork.cpp:213-221 | a tick with nothing to dispatch leaves the receive side as it was |
| NetProps.StuckReceiverStaysDeaf | examples/mesh/internal_communication/main/ZHNetwork.cpp:593-597 | once the busy flag is left set with nothing queued for dispatch, it stays set and nothing is queued for dispatch again, whatever ticks, datagrams, send reports and application calls follow |
| NetProps.PoolExhaustionSetsBusy | examples/mesh/internal_communication/main/ZHNetwork.cpp:593-597 | a record-size datagram arriving with the pool empty leaves the busy flag set |
| NetProps.OneSendInFlight | examples/mesh/internal_communication/main/ZHNetwork.cpp:167-180 | a second send phase without a completion sends nothing; a non-empty queue always has a send in flight after the phase |
| NetProps.SendOutcome | examples/mesh/internal_communication/main/ZHNetwork.cpp:98-165 | after the transmit report, the completion clears both flags. Success pops the head. A failure with attempts left keeps the head and counts the attempt. The last failure resets the counter and forgets the route to the target |
| NetProps.RetriesExhausted | examples/mesh/internal_communication/main/ZHNetwork.cpp:129-163 | the last failure: counter reset to 1; the peer is deleted; every route to the target is erased; with a free buffer the record is parked stamped `now`; with a second free buffer a SEARCH_REQUEST from this node for the target is queued for the broadcast MAC |
| NetProps.PayloadRoundTrip | examples/mesh/internal_communication/main/ZHNetwork.cpp:228-261 | a payload sent under a key arrives, at a node with the same key, as the original bytes, for broadcasts and both kinds of unicast |
| NetProps.SentUnicastHeader | examples/mesh/internal_communication/main/ZHNetwork.cpp:91-94 | a unicast from this node is well formed and carries the asked kind, size, target and this node as origin |
| NetProps.UnicastArrivesIntact | examples/mesh/internal_communication/main/ZHNetwork.cpp:255-264 | a unicast this node sends to a neighbour with the same key reaches that neighbour's unicast callback with the original payload bytes, the size and this node as origin |
| NetProps.ConfirmationCarriesId | examples/mesh/internal_communication/main/ZHNetwork.cpp:288-292 | the acknowledgement is never obfuscated and carries the acknowledged ID in its first two bytes |
| NetProps.ConfirmationReplied | examples/mesh/internal_communication/main/ZHNetwork.cpp:288-292 | a UNICAST_WITH_CONFIRM addressed here queues exactly one DELIVERY_CONFIRM_RESPONSE, from this node to the message's origin, with a fresh ID and ttl 5, for the next hop towards the origin, carrying the acknowledged ID |
| NetProps.SpentTtlNotRelayed | examples/mesh/internal_communication/main/ZHNetwork.cpp:242-245 | a relayable record with ttl 0 is never sent on |
| NetProps.SearchRelayed | examples/mesh/internal_communication/main/ZHNetwork.cpp:336-339 | a search packet for another node is re-queued for the broadcast MAC with ttl one lower and every other field copied |
| NetProps.BroadcastRelayed | examples/mesh/internal_communication/main/ZHNetwork.cpp:234-245 | a relayed BROADCAST carries the payload as this node's callback saw it |
| NetProps.BroadcastDelivered | examples/mesh/internal_communication/main/ZHNetwork.cpp:234-241 | a BROADCAST is reported to the application, decoded, with its size and origin, exactly when a broadcast callback is set, and is the only event handling it logs |
| NetProps.RelayedBroadcastDecoded | examples/mesh/internal_communication/main/ZHNetwork.cpp:236-238 | so the relayed copy differs from the received one at every byte the key changes |
| NetProps.UnicastForwarded | examples/mesh/internal_communication/main/ZHNetwork.cpp:266-324 | a UNICAST, UNICAST_WITH_CONFIRM or DELIVERY_CONFIRM_RESPONSE for another node is rebuilt in one fresh buffer, keeping its type, origin, target and payload bytes, with a fresh ID and ttl 5, and goes to the next hop for its target |
| NetProps.UnicastDelivered | examples/mesh/internal_communication/main/ZHNetwork.cpp:255-287 | a UNICAST or UNICAST_WITH_CONFIRM addressed here is reported to the application, decoded, with its size and origin, exactly when a unicast callback is set, and is the only event handling it logs |
| NetProps.SearchReplied | examples/mesh/internal_communication/main/ZHNetwork.cpp:332-335 | a SEARCH_REQUEST addressed here queues exactly one empty SEARCH_RESPONSE from this node to everyone, meant for the node that searched, with a fresh ID and ttl 5 |
| NetProps.SearchTeachesRoute | examples/mesh/internal_communication/main/ZHNetwork.cpp:371-407 | after search traffic, the origin is reached through the neighbour it came from |
| NetProps.SearchLearns | examples/mesh/internal_communication/main/ZHNetwork.cpp:371-407 | search traffic changes the routing table only by learning |
| NetProps.AcknowledgementClearsWait | examples/mesh/internal_communication/main/ZHNetwork.cpp:306-319 | an acknowledgement addressed here erases the waits with its ID and reports the delivery |
| NetProps.PromotionSkipsSweep | examples/mesh/internal_communication/main/ZHNetwork.cpp:425-436 | a tick that promotes a parked record does not sweep the awaited list |
| NetProps.SweepSkipsNeighbour | examples/mesh/internal_communication/main/ZHNetwork.cpp:474-479 | of two adjacent expired waits, the sweep erases only the first |
| NetProps.Undelivered | examples/mesh/internal_communication/main/ZHNetwork.cpp:482-483 | one undelivered report per given-up wait |
| NetProps.UndeliveredInOrder | examples/mesh/internal_communication/main/ZHNetwork.cpp:482-483 | the k-th report is `Confirmed(target, id, false)` for the k-th given-up wait, so the reports follow the waits in order |
| NetProps.ExpiredStepSearches | examples/mesh/internal_communication/main/ZHNetwork.cpp:477-481 | an expired wait, with a buffer free, makes the step queue exactly one SEARCH_REQUEST from this node, to everyone, for the wait's target, and erases the wait |
| NetProps.SweepReportsErased | examples/mesh/internal_communication/main/ZHNetwork.cpp:472-486 | with a confirmation callback set, the sweep logs `Confirmed(target, id, false)` for exactly the waits it erases, in the order it erases them; without one it logs nothing |
| NetProps.SweepSearchesErased | examples/mesh/internal_communication/main/ZHNetwork.cpp:472-486 | with enough free buffers, the sweep appends to the outgoing queue exactly one SEARCH_REQUEST from this node per wait it erases, for that wait's target, in order, and keeps what was queued before |
| NetProps.SweepRemovesIsolated | examples/mesh/internal_communication/main/ZHNetwork.cpp:474-485 | when no two expired waits are adjacent, the sweep removes exactly the expired ones |
| NetProps.DefaultsAgainstSetters | examples/mesh/internal_communication/main/include/ZHNetwork.h:156-159 | the defaults of 3 attempts and 500 ms pass their setters' range checks; the 5 ms transmission gap does not |

## Left out

- Transport: esp_now and Wi-Fi calls appear only as `AddPeer`, `DelPeer` and `Send` events. The peer-info fields (channel 1, no encryption) are not recorded.
- Hardware setup: `begin` sets the Wi-Fi mode, initialises esp_now, reads the MAC and registers the callbacks. The model's constructor takes the MAC and the net name as parameters instead.
- Neighbour address: the ESP32 receive callback copies six bytes from the receive-info structure it is given. That structure belongs to ESP-IDF and is not part of this model, so the neighbour's MAC is a plain six-byte parameter.
- Time: `xTaskGetTickCount` is the `now` parameter, one reading per tick. The wait-phase and sweep comparisons read the tick separately; the model reads it once.
- Logging: everything under `PRINT_LOG`, and the `ESP_LOG*` warnings.
- Concurrency: the pool's `unique_lock`/mutex and the interrupt context of the two esp_now callbacks are not modelled. Every entry point runs to completion on its own.
- Pool singleton: `Pool::get_pool` and the `unique_ptr` deleter are not modelled. The engine owns one pool, and handles are returned explicitly.
- Null record: the `abort()` on a null received record is unreachable in the model, because queued records always hold a buffer.
- Loop indices: the vector loops use 16-bit indices, which would wrap past 65535 entries. The model's indices are unbounded.
- `getFirmwareVersion` returns the constant "1.42" and is not modelled.
- `readErrorCode` is declared but has no definition in the source.
- `lastMessageSentTime` is written but never read, so it is not modelled. `maxWaitingTimeBetweenTransmissions_` is kept only as a field with its setter and getter.
- Other files: `zh.cpp`, `sender.hpp`, `command.cpp`, `uart_commander.cpp`, `mutex.hpp`, `home.py` and `log.py` are not part of this model. The structs and send functions declared in `command.hpp` are left out too.
- Network.ZHNetwork.Draw: each message ID is one arbitrary 16-bit value from the random source. The source combines two `random(32767)` calls into the ID; every 16-bit value can result, but not with equal likelihood, and that distribution is not modelled.
- NetSpec.Payload: payload bytes after `size` are zero. In the source they keep whatever the recycled pool buffer last held.
- Crypt.Xored: obfuscation stops at the end of the 200-byte payload. For a received `messageSize` above 200, the source's loop writes past the payload array; the model does not represent that.
- NetSpec.SetCryptKey: a 20-character key is stored whole. The terminating zero that `strcpy` writes one byte past the 20-byte key buffer is not modelled.
- NetSpec.Initial: the same holds for a 20-character net name copied by `begin`.
- NetSpec.Maintenance: its own contract states only buffer accounting and the invariant. What each phase does is stated by `Completion`, `SendPhase`, `Dispatch`, `WaitingPhase` and `SweepFrom`, which it composes.
- NetSpec.HandleBroadcast, NetSpec.HandleUnicast, NetSpec.HandleUnicastWithConfirm, NetSpec.HandleConfirmResponse, NetSpec.HandleSearchRequest and NetSpec.HandleSearchResponse: their own contracts state only which fields they may touch. Their effects are stated by the `NetProps` lemmas named in their rows, under those lemmas' conditions (a free buffer, a payload size within 200 bytes, a message not originating here for forwarding).
- NetSpec.Inv: the invariant counts buffers (free plus queued is 500). It does not state that no buffer is both free and queued, or queued twice.
- MacText.StringToMac and MacText.ParsedMac: they require at least twelve characters, each between '0' and 'z'. On shorter text, or a character outside that range, `stringToMac` (`ZHNetwork.cpp:511-519`) reads outside the string or outside its 75-entry table, which C++ leaves undefined; the model does not say what happens then.
- NetSpec.Parked: a record dropped because the pool is empty when it would be parked gets no `Confirmed(false)` report (`ZHNetwork.cpp:152-154`).
