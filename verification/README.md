# PeerStreamer engine: a verified model

A Dafny model of the stateful core of the PeerStreamer engine: the packet transport under
`Lib/net_helper` (fragmentation, reassembly, retransmission, expiry), the chunk reordering buffer, the
trading of chunks under timed locks, the transaction list and the neighbourhood update. Code that works
in place is modelled in place (arrays, intrusive and doubly linked lists on the heap, locks in a growing
array), and each such method is proved against a function on values. The theorems about whole runs are
proved about those functions; for the network manager, whose out-queue serves all peers at once,
`Refinement` shows that its methods take the steps of the sender in `EndToEnd`, for each peer, and
`TwoHosts` that every run of two hosts is a run of `EndToEnd`.

`dafny verify dfyconfig.toml` checks the project.

## The main results

- **Packet transport** (`EndToEnd`, `DeliveryTrace`, `EndToEndReuse`, `Delivery`, `Recovery`, `Mixing`,
  `MixingRun`, `EarlyReuse`, `Receive`). A sender, a receiver, and a network that loses, repeats, delays and reorders
  datagrams and may ask for any fragment again.
  - *Integrity.* `TraceIntegrity` says what every receive of every run reports, in terms of the receives
    alone (which fragment of which packet arrived, and the two clock readings): the packet, byte for
    byte, exactly when all its pieces arrived since its assembly began and, if that was less than the
    maximum age before the second clock reading, the buffer is larger than the packet and the packet has
    fewer than 65536 fragments. (Past that age the caller is handed its own buffer, which is the packet
    only by accident.)
  - *Its proviso*, that no fragment meets a packet under assembly of another packet with the same 16-bit
    id, holds in any run of at most 65536 packets, and in any run in which a datagram lives at most D and
    an id is reused no sooner than D plus the maximum packet age later. Both bounds are tight: for any two
    packets of two fragments with different first fragments, `OnePacketTooMany` constructs a run of 65537
    packets, and `ReuseOneTooEarly`, for any D > 0, a run with datagrams that live at most D and an id
    reused one unit of time too soon, in which a complete, timely receive reports something else than its
    packet.
  - *Arrival.* `PacketArrives`: when the network passes the fragments on, the packet is reported.
    `RecoversLoss`: once the top fragment is in, sending again exactly what the receiver asks for, and
    delivering it, gets the packet reported.
- **Two hosts** (`Refinement`, `TwoHosts`, `NetHelper`). Two network managers with any number of peers,
  and the network between them: whatever calls either gets, in whatever order, the packets from the one to
  the other take a run of `EndToEnd` (`HostsRefine`), with the same packets enqueued, datagrams sent,
  buckets, queue, and for every receive the same datagram, clock readings, buffer and report. While at most
  65536 packets were enqueued, every receive reports what `TraceIntegrity` says, read off the packets given
  and the receives as their callers saw them (`HostsIntegrity`). `NetHelper` shows that `send_to_peer`,
  `recv_from_peer` and popping a message, on the manager on the heap, are such calls. What is missing
  below a fragment that was filed is asked for, and a request that arrives puts the fragment into the
  sender's queue (`GapIsAsked`, `RequestArrives`, `AskedIsQueued`).
- **Out-queue** (`IntrusiveLists`, `OutQueues`, `NetworkManagers`). Every operation keeps the intrusive
  ring well formed and without repeats; the link of a live fragment is non-null exactly when it is
  queued; every queued fragment belongs to a live packet of the endpoint it is for. When all endpoints
  are destroyed exactly the requests are left, in their order, which is what the cast in
  `network_manager_destroy` relies on.
- **Packet bucket and ordered set** (`PacketBuckets`, `Buckets`, `OrdSets`). Set and list hold the same
  packets; the early-stopping refresh is the full age filter; live outgoing ids are a run modulo 2^16, so
  that a new id collides exactly when 65536 packets are live, which is why the duplicate branch of
  `packet_bucket_add_packet` is not part of the model. The ordered set is a sorted array that is
  determined by the map it stores, and its removal-safe iteration visits everything once.
- **Reordering buffer** (`OutputBuffer`, `OutputRuns`). The ring refines a window over a map. In any run
  ids come out strictly increasing and nothing accepted is lost, changed or repeated; shuffled arrivals
  come out complete and in order exactly when no chunk overtakes a missing one by the buffer length; in any
  run exactly what is so overtaken is lost (`LossExact`, `NextExact`).
- **Chunk trading** (`ChunkTrading`, `ChunkLocks`). An offer is answered with the latest useful chunks.
  Between two accepts of one chunk either it arrived or more than the lock timeout passed; and then an
  offered chunk is accepted, unless enough later ones are (`AcceptExact`).
- **Transactions** (`Transactions`, `TransactionLists`). In every run in which no 65536 creates follow
  one within its lifetime, all ids at hand are distinct; and in a run without removals only then. In any
  run, they are distinct exactly if no create gives a serial number 65536 or more ahead of one given within
  its lifetime and not removed since (`AnyRunDistinctExact`).
- **Neighbourhood, wait loop, node ids** (`Topologies`, `WaitLoop`, `NodeIdText`). An update gives up at
  most three tenths of the neighbourhood; the wait loop sends what the shaper lets out, and no more.

## Where the code differs from its documentation or its promise

The model follows the code in each case.

- `recv_from_peer` files a fragment and pops the packet it completed with separate readings of the clock
  (Lib/net_helper/net_helper-x.c:315-324). When the packet expires between the two, the pop fails and the
  caller is told that the whole buffer is data. `ReportedExact` and `TraceIntegrity` give the condition.
- `fragmented_packet_create` keeps the fragment count in 16 bits (Lib/net_helper/nhx/fragmented_packet.c:58-60):
  the pieces join to the packet exactly below 65536 fragments (`SplitJoin`).
- `fragmented_packet_dump_data` compares with `<` (Lib/net_helper/nhx/fragmented_packet.c:149): a buffer of
  exactly the packet's size does not get the packet. A packet is dumped whole exactly when the buffer is
  larger (`DumpAll`, `SplitDump`).
- `wait4data` does not restore its descriptor set after a `select` that timed out
  (Lib/net_helper/net_helper-x.c:120-135), so data that becomes ready after the first sleep is not
  noticed: the call reports a timeout (`LateDataIsMissed`, and `MissedInput` for a concrete call).
- `output_deliver` returns 0 for a late chunk; the comment at src/output-grapes.c:149 says -1.
- `transaction_create` gives the invalid id 0 after 65535, because the test at src/transaction.c:129 is
  made on an `int` (`NewIdValidExact`). Removing the newest transaction makes the next one reuse its id
  (`RemovedIsReused`).
- `nodeid_dump` asks for the length of the address and six octets (Lib/net_helper/net_helper-x.c:412),
  where the text with its NUL takes the length of the address, three octets and the digits of the port: a
  port of four or five digits may overrun the space granted (`DumpFitsExact`).
- `transaction_remove` returns -2 when there is no such transaction; its header says -1.

## Model

| member | source | states |
|---|---|---|
| DeliveryTrace.TraceIntegrity | Lib/net_helper/net_helper-x.c:297-332 | in every run that mixes no packets, every receive reports the packet if and only if its pieces all arrived since its assembly began and, if that began less than the maximum age before the second clock reading, the buffer is larger than the packet, of fewer than 65536 fragments; past that age, if and only if the caller's buffer happens to hold it; and nothing before the pieces are there. Read off the receives alone |
| DeliveryTrace.AssemblyStart | Lib/net_helper/nhx/packet_bucket.c:43-63 | the packet that a fragment is filed in is the one the history of receives has open, with the pieces that arrived since, or a new one when that is too old |
| EndToEnd.Integrity | Lib/net_helper/net_helper-x.c:297-332 | in every run from the start, whatever the network loses, repeats or reorders, a result is the enqueued packet if and only if the packet was complete and, if it was opened less than the maximum age before the second clock reading, the buffer is larger and the fragments fit in 16 bits, or else the buffer happens to hold it; nothing is reported while it is incomplete |
| EndToEnd.StepInv | Lib/net_helper/nhx/network_manager.c:102-207 | enqueue, transmit, resend and deliver each keep: live packets are the last ones enqueued, queued fragments are theirs and not repeated, datagrams carry their pieces, packets under assembly agree with one sent packet, the log is faithful |
| EndToEnd.RunInv | Lib/net_helper/nhx/network_manager.c:102-207 | the invariant holds after any run |
| EndToEnd.QueueLive | Lib/net_helper/nhx/network_manager.c:129-141 | what the sender pops is a fragment of a live packet with the right id, index and piece, never a dangling one |
| EndToEndReuse.FewPacketIntegrity | Lib/net_helper/nhx/endpoint.c:33-39 | the same, without proviso, for every run of at most 65536 packets |
| EndToEndReuse.TimelyIntegrity | Lib/net_helper/nhx/packet_bucket.c:43-63 | the same, without proviso, when datagrams live at most D and an id is reused no sooner than D plus the maximum age later |
| EndToEndReuse.TimelyStep | Lib/net_helper/nhx/packet_bucket.c:130-154 | every step keeps that a packet under assembly was opened within D of its packet |
| Delivery.PacketArrives | Lib/net_helper/net_helper-x.c:64-82 | from any state that satisfies the invariant, with the id free at both ends, some run enqueues a packet, sends and delivers its fragments, and reports it byte for byte |
| Delivery.DeliverOne | Lib/net_helper/nhx/packet_bucket.c:130-154 | delivering a fragment of the packet under assembly adds its piece to what is there; the last one missing gets the packet reported |
| Delivery.DeliverEach | Lib/net_helper/nhx/packet_bucket.c:130-154 | delivering the missing fragments in any order gets the packet reported with the last of them |
| Delivery.FlushQueue | Lib/net_helper/nhx/network_manager.c:129-141 | all that is queued can be sent, and puts the datagram of every queued fragment into the network |
| Recovery.RecoversLoss | Lib/net_helper/nhx/fragmented_packet.c:102-139 | from any state in which the receiver has the top fragment and the packet is alive at the sender, sending again and delivering exactly the fragments asked for, in that order, gets the packet reported byte for byte |
| Recovery.AskedAre | Lib/net_helper/nhx/packet_bucket.c:130-154 | those are the fragments that filing the last piece asked for |
| Mixing.MixingBreaksIntegrity | Lib/net_helper/nhx/packet_bucket.c:130-154 | a fragment of another packet with the same id and size, arriving where only that piece is missing, is reported as part of a mixture, which is one of the two packets if and only if the foreign pieces happen to be equal |
| MixingRun.OnePacketTooMany | Lib/net_helper/nhx/endpoint.c:33-39 | for any two such packets of two pieces there is a run from the start, of 65537 packets, whose last receive is ready, in time and has buffer enough, and reports as packet 0 what is not packet 0 |
| EarlyReuse.ReuseOneTooEarly | Lib/net_helper/nhx/packet_bucket.c:43-63 | for any D > 0 and any two such packets there is a run from the start in which no datagram arrives more than D after its packet was enqueued and no id is reused sooner than D plus the maximum age less one, whose last receive is ready, in time and has buffer enough, and does not report its packet |
| Receive.ReceivedExact | Lib/net_helper/net_helper-x.c:312-332 | one receive: the piece joins the young packet of its id or a new one, ready if nothing is missing; what is reported; and exactly which packets are left |
| Receive.ReportedExact | Lib/net_helper/net_helper-x.c:312-332 | the report is the packet if and only if it was ready and, in time, the buffer is larger and the fragments fit in 16 bits, or, too late, the buffer happens to hold it |
| Receive.FilingExact | Lib/net_helper/nhx/packet_bucket.c:130-154 | filing a fragment puts its piece in its packet, or a new one, leaves the other packets alone, and reports ready exactly when nothing is missing |
| Receive.PopExact | Lib/net_helper/nhx/packet_bucket.c:156-171 | a packet can be popped exactly as long as it is young |
| Wire.FragmentLayout | Lib/net_helper/nhx/fragment.c:74-98 | octet by octet: type 0, packet id, count and index in two octets each, the size in four, the most significant first, and the data from octet 11 on |
| Wire.RequestLayout | Lib/net_helper/nhx/frag_request.c:57-75 | octet by octet: type 1, packet id and index, the most significant first |
| Wire.DecodeExact | Lib/net_helper/nhx/net_msg.c:68-78 | a datagram decodes to a message if and only if it starts with the encoding of that message, for fragments and requests |
| Wire.EncodeFragment | Lib/net_helper/nhx/fragment.c:74-98 | the encoding is written to the front of the buffer and the rest kept, or -1 and no change when it does not fit |
| Wire.EncodeRequest | Lib/net_helper/nhx/frag_request.c:57-75 | the same for a fragment request |
| Fragmentation.SplitJoin | Lib/net_helper/nhx/fragmented_packet.c:44-70 | the pieces join to the data if and only if their number fits in 16 bits |
| Fragmentation.CountIsCeiling | Lib/net_helper/nhx/fragmented_packet.c:58-60 | the number of pieces that cover the data is the quotient rounded up that the code computes |
| Fragmentation.PieceSizes | Lib/net_helper/nhx/fragmented_packet.c:62-67 | no piece is empty and all but the last are full |
| Fragmentation.Reassembly | Lib/net_helper/nhx/fragmented_packet.c:123-159 | pieces written in any order with any repeats into an empty packet dump to the original bytes, if and only if the buffer is larger and the fragments fit in 16 bits |
| Fragmentation.Fitting | Lib/net_helper/nhx/fragmented_packet.c:147-155 | the longest prefix of whole fragments strictly shorter than the size |
| Fragmentation.DumpAll | Lib/net_helper/nhx/fragmented_packet.c:141-159 | a buffer gets all of the data if and only if it is strictly larger than the data |
| Fragmentation.SplitDump | Lib/net_helper/nhx/fragmented_packet.c:44-159 | a packet split into pieces dumps to itself if and only if the buffer is larger than it and its fragments fit in 16 bits |
| Fragmentation.RequestsExact | Lib/net_helper/nhx/fragmented_packet.c:102-121 | the requests are exactly the missing indices below the highest present one (and 0 while nothing is present), once each, descending |
| Fragmentation.ReadyExact | Lib/net_helper/nhx/fragmented_packet.c:102-121 | ready if and only if nothing is asked for and the top fragment is in |
| Fragmentation.RequestsSuffice | Lib/net_helper/nhx/fragmented_packet.c:102-139 | once the top fragment is in, a sequence of writes makes the packet ready if and only if it writes every requested index |
| FragmentedPackets.FragmentedPacket.Create | Lib/net_helper/nhx/fragmented_packet.c:44-70 | fills the array with the pieces in order; null for no data or no fragment size |
| FragmentedPackets.FragmentedPacket.State | Lib/net_helper/nhx/fragmented_packet.c:102-121 | the downward scan computes the state and the requests of the specification |
| FragmentedPackets.FragmentedPacket.WriteFragment | Lib/net_helper/nhx/fragmented_packet.c:123-139 | replaces one entry and reports state and requests; an index out of range is an error and changes nothing |
| FragmentedPackets.FragmentedPacket.DumpData | Lib/net_helper/nhx/fragmented_packet.c:141-159 | copies the longest prefix of whole fragments strictly shorter than the size, keeps the rest of the buffer, and reports 1 if something did not fit |
| Buckets.RefreshIsFilter | Lib/net_helper/nhx/packet_bucket.c:43-63 | stopping at the first young packet removes exactly what a full age filter removes |
| Buckets.AddPacketWellFormed | Lib/net_helper/nhx/packet_bucket.c:65-88 | adding a packet under an unused id keeps creation times in order and ids distinct |
| Buckets.AddFragmentWellFormed | Lib/net_helper/nhx/packet_bucket.c:130-154 | filing a fragment does too |
| Buckets.PopWellFormed | Lib/net_helper/nhx/packet_bucket.c:156-171 | so does popping a packet |
| Buckets.WindowEnqueue | Lib/net_helper/nhx/endpoint.c:33-39 | live outgoing ids stay the consecutive run before the counter, modulo 2^16, across expiry and enqueue |
| Buckets.CollisionExact | Lib/net_helper/nhx/packet_bucket.c:80-87 | the id of a new packet is in use if and only if 65536 packets are live |
| PacketBuckets.Locate | Lib/net_helper/nhx/packet_bucket.c:140-142 | looking a packet up in the ordered set finds what a scan of the list would find |
| PacketBuckets.PacketBucket.PeriodicRefresh | Lib/net_helper/nhx/packet_bucket.c:43-63 | set and list lose exactly the expired packets |
| PacketBuckets.PacketBucket.AddPacket | Lib/net_helper/nhx/packet_bucket.c:65-88 | refresh, then one new packet with the pieces of the data, in both structures |
| PacketBuckets.PacketBucket.AddFragment | Lib/net_helper/nhx/packet_bucket.c:130-154 | contents, state and requests are those of the specification, in both structures |
| PacketBuckets.PacketBucket.PopPacket | Lib/net_helper/nhx/packet_bucket.c:156-171 | the packet leaves both structures and its bytes the buffer; not found is an error that changes nothing else |
| PacketBuckets.PacketBucket.GetFragment | Lib/net_helper/nhx/packet_bucket.c:173-183 | refresh, then the fragment of that packet, if there is one |
| OrdSets.RankRepresents | Lib/net_helper/nhx/ord_set.c:18-45 | any total preorder on the elements at hand is represented by integer keys, as the rest of the set is modelled with |
| OrdSets.PosUnique | Lib/net_helper/nhx/ord_set.c:18-45 | the insertion point in a sorted array is unique |
| OrdSets.CheckPosBy | Lib/net_helper/nhx/ord_set.c:18-45 | the binary search, for any total preorder on the elements, ends and finds the insertion point, although its upper bound may drop below the lower one |
| OrdSets.OrdSet.Find | Lib/net_helper/nhx/ord_set.c:77-90 | finds the element of that class by the map, or nothing |
| OrdSets.OrdSet.Insert | Lib/net_helper/nhx/ord_set.c:115-141 | inserts, overrides or keeps, growing the array; stays sorted with a free slot; returns the element of the class |
| OrdSets.OrdSet.Remove | Lib/net_helper/nhx/ord_set.c:92-113 | removes the class and reports whether it was there |
| OrdSets.LookupInserted | Lib/net_helper/nhx/ord_set.c:115-141 | after an insert the map answers the new element for its class, subject to override, and as before elsewhere |
| OrdSets.LookupRemoved | Lib/net_helper/nhx/ord_set.c:92-113 | after a removal the map answers nothing for that class and as before elsewhere |
| OrdSets.Canonical | Lib/net_helper/nhx/ord_set.c:18-141 | two sorted arrays that answer alike are equal |
| OrdSets.OrdSet.DrainSafely | Lib/net_helper/nhx/ord_set.c:163-194 | the loop that removes what it visits sees every element once, in descending order, and ends with the empty set, for every pattern of nulling the iterator |
| IntrusiveLists.ListAddTail | Lib/net_helper/nhx/list.h:39-73 | appends to the ring |
| IntrusiveLists.ListDel | Lib/net_helper/nhx/list.h:82-98 | takes an element off the ring, or does nothing to an unlinked one, and nulls its links |
| IntrusiveLists.ListPop | Lib/net_helper/nhx/list.h:257-267 | takes the first element off the ring, or null if it is empty |
| IntrusiveLists.ListSplice | Lib/net_helper/nhx/list.h:156-179 | puts a list in front of the ring, in order |
| OutQueues.OutQueue.LinkedExactly | Lib/net_helper/nhx/list.h:269-272 | the link of a live fragment is non-null if and only if the fragment is queued |
| OutQueues.OutQueue.SpliceNew | Lib/net_helper/nhx/net_msg.c:27-45 | new messages, built on a private list, go to the front of the queue in order |
| OutQueues.OutQueue.UnlinkAll | Lib/net_helper/nhx/fragmented_packet.c:72-84 | destroying a packet takes exactly its fragments off the queue |
| OutQueues.OutQueue.Requeue | Lib/net_helper/nhx/network_manager.c:194-202 | a live fragment is appended, unless it is queued already, and the result tells which |
| NetworkManagers.NetworkManager.QueuedIsLive | Lib/net_helper/nhx/network_manager.c:102-207 | every queued fragment belongs to a live outgoing packet of the endpoint it is addressed to |
| NetworkManagers.NetworkManager.EnqueueOutgoingPacket | Lib/net_helper/nhx/network_manager.c:102-126 | expired packets and their fragments go, the new packet is last and its fragments first; no data is refused |
| NetworkManagers.NetworkManager.AddIncomingFragment | Lib/net_helper/nhx/network_manager.c:143-164 | files the fragment with its sender; in front of the queue come requests to that sender for exactly the missing indices of its packet that have a present one above them, once each, the highest first |
| NetworkManagers.GapsAreAsked | Lib/net_helper/nhx/fragmented_packet.c:102-121 | the links of what filing asks for are requests to the sender for this packet id and exactly its gaps, descending |
| NetworkManagers.NetworkManager.PopIncomingPacket | Lib/net_helper/nhx/network_manager.c:166-181 | pops the packet of that sender only, with the result code and the bytes for a buffer of the given size; an unknown sender or packet is refused |
| NetworkManagers.ReportExact | Lib/net_helper/nhx/network_manager.c:166-181 | the result of a pop is 0, and the packet is written whole, if and only if the buffer is larger than its data; else 1, within the buffer; -2 for no packet |
| NetworkManagers.NetworkManager.EnqueueOutgoingFragment | Lib/net_helper/nhx/network_manager.c:183-207 | after the refresh the fragment asked for is appended unless queued; an unknown endpoint, packet or fragment is refused |
| NetworkManagers.NewFragmentsFirst | Lib/net_helper/nhx/network_manager.c:102-126 | after an enqueue the queue starts with the pieces of the packet in order, addressed to the peer under its packet id, followed by fragments queued before |
| NetworkManagers.ResentExact | Lib/net_helper/nhx/network_manager.c:183-207 | asking for a fragment gives -2 if there is none, 1 if it was queued, and 0 if it is now the last of the queue |
| NetworkManagers.LinkOfExact | Lib/net_helper/nhx/packet_bucket.c:173-183 | the link found is that of the packet and index asked for, and none is found only if there is none |
| NetworkManagers.LiveUpdate | Lib/net_helper/nhx/endpoint.c:33-39 | changing one endpoint changes only its own fragments among the live ones |
| NetworkManagers.NetworkManager.DestroyEndpoints | Lib/net_helper/nhx/network_manager.c:70-74 | after the last endpoint only the requests are queued, in their old order |
| NetworkManagers.NetworkManager.Destroy | Lib/net_helper/nhx/network_manager.c:62-86 | ends with no endpoint and an empty queue, every message destroyed as what it is |
| Refinement.EnqueuedIsStep | Lib/net_helper/nhx/network_manager.c:102-126 | enqueueing a packet on the heap is the sender's step for that peer: its bucket, and the fragments for it in the queue, by packet number and index |
| Refinement.ResentIsStep | Lib/net_helper/nhx/network_manager.c:183-207 | asking for a fragment again is the sender's step for that peer |
| Refinement.TransmitRefines | Lib/net_helper/nhx/network_manager.c:129-141 | popping and sending a message is the sender's step for the peer it is for, with the datagram of that fragment, and no step for the others |
| Refinement.EnqueueSparesOthers | Lib/net_helper/nhx/network_manager.c:102-126 | enqueueing for one peer is no step for any other |
| Refinement.ManagerOwns | Lib/net_helper/nhx/network_manager.c:102-207 | between operations the packets of every peer own their links, and what is queued for a peer belongs to its packets |
| TwoHosts.HostsRefine | Lib/net_helper/nhx/network_manager.c:102-207 | in every run of two network managers with any peers, any calls at either in any order, and any datagrams arriving of those sent, the packets from the one to the other take a run of the sender, network and receiver of `EndToEnd` from the start, with the same packets enqueued, datagrams sent, outgoing bucket, queue and incoming bucket, and one receipt for each receive, of the same datagram, clock readings, buffer and report |
| TwoHosts.HostsIntegrity | Lib/net_helper/net_helper-x.c:297-332 | hence, while at most 65536 packets were enqueued for the peer, every receive got a datagram that was sent, and reports the packet that its fragment is from, told by the id in the datagram, exactly under the conditions of `TraceIntegrity`, on the receives as the callers saw them: datagrams, clock readings, buffers and reports |
| TwoHosts.ReceivedAtHost | Lib/net_helper/net_helper-x.c:312-332 | filing a fragment with the endpoint of its sender and popping its packet, if that is ready, is one receive of that endpoint's bucket: same bucket after it, same report |
| TwoHosts.GapIsAsked | Lib/net_helper/nhx/network_manager.c:143-164 | after a fragment was filed at a host, every gap of its packet has a request to the sender for that packet and index in front of the queue |
| TwoHosts.RequestArrives | Lib/net_helper/nhx/net_msg.c:68-78 | the datagram of such a request decodes to a request for that packet and index |
| TwoHosts.AskedIsQueued | Lib/net_helper/nhx/network_manager.c:183-207 | and once the sender has handled it, that fragment waits in its queue for the host, if its packet is alive and has it |
| NetHelper.SendToPeer | Lib/net_helper/net_helper-x.c:285-295 | on the manager on the heap: the call EnqueuePacket of the two hosts; -1 for no data, else its size |
| NetHelper.PopMessage | Lib/net_helper/net_helper-x.c:68-76 | the call PopMsg: the first message, if any, leaves the queue |
| NetHelper.RecvFromPeer | Lib/net_helper/net_helper-x.c:297-332 | on a fragment: the receive of the two hosts, with the buffer's front as what the caller is told; on a request: the call EnqueueFragment, the buffer untouched and 0 returned |
| NetHelper.ValidIsSound | Lib/net_helper/nhx/network_manager.c:102-207 | a valid manager has the property that the two hosts ask of every state of the sender: each peer's packets own their links and distinct ids, and what is queued for a peer belongs to them |
| TwoHosts.OtherCall | Lib/net_helper/nhx/network_manager.c:102-207 | every call that is not about this peer, including requests for fragments by others, leaves its packets and its part of the queue as they are |
| OutputBuffer.EmitExact | src/output-grapes.c:124-146 | a flush writes exactly the pending ids of its range, in increasing order, each with its data |
| OutputBuffer.StepRing | src/output-grapes.c:124-136 | emptying the head slot and stepping on forgets exactly the id next_out |
| OutputBuffer.ChunkOutput.Deliver | src/output-grapes.c:148-191 | the ring's delivery is that of the window over a map: same state, same output, and the result counts the writes |
| OutputBuffer.ChunkOutput.MakeRoom | src/output-grapes.c:168-172 | the flush and the explicit head reset agree, even when the jump exceeds the ring |
| OutputBuffer.DeliveredInTwo | src/output-grapes.c:155-184 | moving the window and flushing the run amount to one delivery |
| OutputRuns.RunConserves | src/output-grapes.c:148-191 | over any run ids are written strictly increasing, and each accepted chunk was written once or is pending, with its first copy's data |
| OutputRuns.Lossless | src/output-grapes.c:148-191 | shuffled arrivals, duplicates allowed, come out as s, s+1, ..., s+n-1 if and only if no chunk overtakes a missing one by the buffer length |
| OutputRuns.LosslessData | src/output-grapes.c:148-191 | and then each id carries its first copy and nothing stays pending |
| OutputRuns.LossExact | src/output-grapes.c:148-191 | in any run, what arrived with an id from the first one on is written, or waits, if and only if no chunk came by the buffer length ahead before its first copy |
| OutputRuns.FirstCopyKept | src/output-grapes.c:174-176 | and then it is its first copy |
| OutputRuns.NextExact | src/output-grapes.c:124-191 | the next id to be written is the first one that neither arrived nor was overtaken by the buffer length |
| OutputRuns.PassedExact | src/output-grapes.c:158-172 | the window passes an id without writing it if and only if a chunk came by the buffer length ahead before it |
| OutputRuns.OvertakenIsLost | src/output-grapes.c:168-172 | a chunk that overtakes a missing id by the buffer length loses it for good |
| OutputRuns.PassedForever | src/output-grapes.c:158-160 | an id the window has passed unwritten is never written |
| ChunkTrading.ScanExact | src/chunk_trader.c:354-364 | the downward scan accepts exactly the latest eligible chunks, as many as may be delivered, and locks exactly those; cleaning up in between does not change the answer |
| ChunkTrading.AcceptExact | src/chunk_trader.c:329-372 | in any run of offers and arrivals a chunk is accepted if and only if it is offered, not in the buffer, every accept of it so far is more than the timeout old or was followed by its arrival, and there are not as many later ones accepted as may be delivered |
| ChunkTrading.LockCameFrom | src/chunklock.c:118-161 | every lock is of an accept of its chunk at that time, which did not arrive since |
| ChunkTrading.NoDoubleFetch | src/chunk_trader.c:224-372 | between two accepts of a chunk, from any offers, either it arrived or strictly more than the timeout passed |
| ChunkTrading.LockStays | src/chunklock.c:92-161 | until its chunk arrives, a lock is there or has timed out |
| ChunkTrading.LocksDistinct | src/chunklock.c:118-161 | no run of offers and arrivals ever locks a chunk twice |
| ChunkTrading.CleanedExact | src/chunklock.c:108-116 | a cleanup at time now keeps exactly the locks set at or after now minus the timeout |
| ChunkTrading.LockedMeansIneligible | src/chunklock.c:147-161 | within an offer a chunk not accepted yet is locked exactly when a young lock was there before the offer |
| ChunkLocks.CountOffered | src/chunk_trader.c:340-350 | the counting array marks exactly the offered chunks |
| ChunkLocks.Range | src/chunk_trader.c:341-342 | earliest and latest chunk of the offer, -1 for an empty one |
| ChunkLocks.HandleOffer | src/chunk_trader.c:329-372 | on the lock array in place: accepts the latest useful chunks, locks exactly those, as the specification's reaction |
| ChunkLocks.LockTable.Cleanup | src/chunklock.c:108-116 | the backward loop that removes while it walks computes the filter |
| ChunkLocks.LockTable.LockChunk | src/chunklock.c:118-131 | appends a lock and keeps a slot free |
| ChunkLocks.LockTable.UnlockChunk | src/chunklock.c:133-145 | removes the first lock on the chunk |
| ChunkLocks.LockTable.IsLocked | src/chunklock.c:147-161 | cleans up, then tells whether a lock on the chunk is left |
| Transactions.RunOrdered | src/transaction.c:107-200 | in every run serial numbers strictly decrease from the head and times never increase |
| Transactions.YoungIsPrefix | src/transaction.c:71-103 | hence the lifetime filter cuts off exactly a tail |
| Transactions.RunIdsDistinct | src/transaction.c:107-200 | in every run in which no 65536 creates follow one within its lifetime, the ids in the list are distinct at all times |
| Transactions.RunIdsDistinctExact | src/transaction.c:107-200 | in a run without removals the ids in the list are distinct at all times if and only if no 65536 creates follow one within its lifetime |
| Transactions.AnyRunDistinctExact | src/transaction.c:107-200 | in any run, with removals, the ids in the list are distinct at all times if and only if no create gives a serial number 65536 or more ahead of one given within its lifetime whose id was not removed in between |
| Transactions.FreshIdExact | src/transaction.c:127-130 | a new id is unused exactly when no live transaction is a multiple of 65536 older |
| Transactions.RemovedIsReused | src/transaction.c:127-130 | a create after removing the newest transaction gives its id again, if and only if the one behind it is still young or there was none |
| Transactions.FreshIdInWindow | src/transaction.c:107-143 | while live transactions are among the last 65535, a new one leaves all ids distinct |
| Transactions.NewIdValidExact | src/transaction.c:129 | a new id is the invalid 0 exactly after 65535 |
| Transactions.AcceptTime | src/transaction.c:107-173 | a new transaction is found under its id, with accept time -1 until an accept is registered, and then with that time |
| Transactions.OnlyThatOne | src/transaction.c:148-200 | among distinct ids, registering and removing touch exactly the matching transaction |
| TransactionLists.TransactionList.Unlink | src/transaction.c:48-69 | all four cases leave a doubly linked list of the others, in order |
| TransactionLists.TransactionList.CheckStatus | src/transaction.c:71-103 | one pass that unlinks while it walks computes the lifetime filter |
| TransactionLists.TransactionList.Create | src/transaction.c:107-143 | scan, then a new first element with the next id |
| TransactionLists.TransactionList.RegAccept | src/transaction.c:148-173 | notes the time on the first match; 0 is no id |
| TransactionLists.TransactionList.Remove | src/transaction.c:175-200 | unlinks the first match and returns its accept time, or -2 |
| Topologies.Topology.Update | src/topology.c:456-480 | with n active neighbours and d such that 10d <= 3n < 10(d+1): at most d are told REMOVE; if n-d reaches the target none is told ADD and n-d are left, else the target, or all the known active peers if they are fewer; ADD and REMOVE go to the two set differences; the swarm is cleared, and the locked peers are those still in the neighbourhood |
| Topologies.Topology.UpdateRandom | src/topology.c:443-453 | conserves the union and disjointness; gives up d peers with 10d <= 3n < 10(d+1) and keeps the others; size n-d if that reaches the target, else the target as far as there are peers |
| Topologies.MovePeers | src/topology.c:376-410 | moves min(num, all) peers, the first of the shuffled ones, conserving the union |
| Topologies.ArrayShuffle | src/topology.c:293-304 | keeps the elements and their distinctness; the order is that of the exchanges chosen |
| Topologies.EveryOrder | src/topology.c:293-304 | every order of the peers is the outcome of some random choices |
| Topologies.Topology.NeighbourhoodAdd | src/topology.c:155-173 | joins the neighbourhood; locked exactly if it was not in the swarm |
| Topologies.Topology.NeighbourhoodRemove | src/topology.c:175-186 | goes back to the swarm and is unlocked |
| Topologies.Topology.RemovePeer | src/topology.c:188-197 | leaves all three sets |
| Topologies.Topology.SignalChange | src/topology.c:421-440 | exactly the two set differences are told |
| WaitLoop.Wait4Data | Lib/net_helper/net_helper-x.c:90-152 | ends by the time left and the queue length; a timeout has slept exactly the timeout and left of the queue what the shaper did not let out by then; each message that left had an answer of 0 of its own; the result and the marks on the descriptors; data is reported exactly if ready during the first sleep |
| WaitLoop.SendAttempt | Lib/net_helper/net_helper-x.c:64-82 | with an empty queue: 1 ms; with a first answer of 0: the first message leaves and the interval is the second answer; with any other: none leaves and that is the interval |
| WaitLoop.NothingLeaves | Lib/net_helper/net_helper-x.c:64-82 | unless the shaper can answer 0, the queue is left as it was |
| WaitLoop.SteadyRate | Lib/net_helper/net_helper-x.c:112-135 | with a shaper that asks to wait t after each message, the messages that leave are one at each of the times 0, t, 2t, ... before the end |
| WaitLoop.LateDataIsMissed | Lib/net_helper/net_helper-x.c:120-135 | when data becomes ready within the timeout and no select fails, a call reports it if and only if that is within the first sleep, and a timeout otherwise |
| WaitLoop.MissedInput | Lib/net_helper/net_helper-x.c:120-135 | a call with nothing to send and 2 ms to wait reports a timeout although its descriptor is ready after 1.5 ms |
| NodeIdText.RoundTrip | Lib/net_helper/net_helper-x.c:402-442 | reading back a dumped id, whatever follows, gives address, port and dumped length if and only if the address has no '-' |
| NodeIdText.DumpText | Lib/net_helper/net_helper-x.c:402-416 | the text is address, colon, port in decimal without leading zeros, and dash; it is refused for a space of less than the address and six octets |
| NodeIdText.DumpFitsExact | Lib/net_helper/net_helper-x.c:402-416 | the dumped text is as long as the address, two separators and the digits of the port; with its NUL it fits into every space that the test admits if and only if the port has at most three digits |

## Left out

- Sockets, `select`, address lookup and interfaces: readiness, datagrams and clock readings are inputs. `select` is taken to empty its set on a timeout, as POSIX says.
- GRAPES: chunk buffer, chunk id sets and peer sets are sets and sequences; `int_coding` is fixed-width big-endian; the earliest and latest id of an empty chunk id set are -1.
- Null-argument guards, `malloc` failure, node id reference counts, destructors without logic, debug output.
- NetworkManagers.NetworkManager.EnqueueOutgoingPacket: requires fewer than 65536 live packets, since the duplicate branch it would otherwise take frees the list it returns; `CollisionExact` gives the condition.
- NetworkManagers.NetworkManager.PopIncomingPacket: returns the bytes for the buffer; `PacketBuckets.PacketBucket.PopPacket` shows the copying.
- NetworkManagers.NetworkManager.DestroyEndpoints: endpoints go in any order, and a packet's list order stands for the descending id order of `packet_bucket_destroy`; the queue that is left does not depend on either.
- Inside the network manager, incoming buckets and endpoint tables are values; the bucket and the ordered set are proved on the heap on their own.
- PacketBuckets.PacketBucket.AddPacket: one reading of the clock serves for the refresh and for the new packet; requires an id not in use, for the same reason as above; `packet_list` is a sequence of packets, not an intrusive list, which is proved for the out-queue.
- PacketBuckets.PacketBucket.AddFragment: one reading of the clock serves for the refresh and for the new packet.
- Receive.ReceivedExact: one reading of the clock serves for the refresh and for the new packet; the pop has its own.
- TwoHosts.HostsRefine: both hosts read one clock, which does not run backwards; a message popped is sent at once; each manager keeps what `ValidIsSound` shows of a valid one. A packet is enqueued for a peer with fewer than 65536 live ones.
- NetHelper.RecvFromPeer: requires a datagram that decodes; a failed receive, and the bit rate that `send_to_peer` tells the shaper, are left out.
- OrdSets.CheckPosBy: index sums do not wrap, so sets are smaller than 2^31.
- OrdSets.OrdSet.Insert: beyond the search, the comparison function is given by an integer key, which `RankRepresents` justifies.
- Wire.DecodeExact: a request datagram that is too short is rejected; the code returns an uninitialised pointer there, and `recv_from_peer` uses a null decode result.
- DeliveryTrace.TraceIntegrity: one reading of the clock serves for the refresh before a fragment is filed (Lib/net_helper/nhx/packet_bucket.c:50) and for the creation of its packet (Lib/net_helper/nhx/fragmented_packet.c:93), which the code reads one after the other; likewise for an enqueued packet (fragmented_packet.c:54). One sender and one receiver; `TwoHosts` relates managers that serve many peers. Lost requests are covered because any fragment may be asked for at any time. A datagram longer than the caller's buffer, which `recvfrom` cuts short and whose failed decoding the code does not check, is left out.
- The addresses and the fragment count stored in each fragment are left out of a packet's entries; the count in a datagram is the number of fragments of its packet.
- OutputBuffer.ChunkOutput.Deliver: chunk ids are unbounded, so additions near the largest `int` do not overflow; timestamps and attributes of a chunk are not modelled.
- ChunkLocks.HandleOffer: reads the clock once per offer; the code reads it for every lock it inspects. The peer's buffer map and the messages sent are left out.
- ChunkTrading.NoDoubleFetch: the clock does not run backwards.
- Sending chunks (`chunk_trader_handle_accept`, `chunk_trader_handle_ack`, pushes, the peer filters) and the scheduler.
- Transactions.YoungIsPrefix: times are reals, not doubles.
- Topologies.Topology.Update: the peers dropped as inactive are arbitrary, because the code removes by index while the array shifts; `topo_mem` is 0.7 and `topo_out` is set, as initialised; peer metadata and `psample` are left out.
- WaitLoop.Wait4Data: the shaper's answers are arbitrary, which covers its floating-point estimate; sent bytes are registered as 0 by the code.
- NodeIdText.RoundTrip: node creation is left to the caller, `atoi` is modelled without leading blanks and signs, and text without separators, on which the code reads through a null pointer, gives None.
- The UDP-only helper, `list_merge`, measurements, configuration, timers and the instance glue.
