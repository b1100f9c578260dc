# A verified model of the peer-to-peer node

The repository vendors a devp2p networking stack (discovery v4 and v5, the RLPx transport, the dialing
and admission of peers, a JSON-RPC client) and builds a small block chain on it. This project models
the bookkeeping of those parts in Dafny and proves what they keep over every run. `dafny verify
dfyconfig.toml` checks all of it.

The model follows the code, one module per file:

* `Heap`, `TopicQueue`, `TopicTable` (module `Registrar`): the registrar of discovery v5. One set of
  registrations, indexed by topic and by node, with its caps, evictions, tickets and request queue.
* `TicketStore` (`Tickets`): the calendar of tickets a node holds, with its moving lower bound and cache.
* `Rlp`, `Rlpx`, `Handshake`, `Session`: message codes, the framed codec, the key schedule of the transport,
  and a whole connection in both directions. `Bytes` and `Collections` hold what several modules share.
* `Table5`, `NodeNet`: the v5 table, and the state machine and query queue of its nodes.
* `Distance`, `Closest`, `Lookup`: the XOR metric, the bounded list of closest nodes, the iterative lookup.
* `NetSet`, `Table4`, `TableCounts`: IP ranges, the buckets of the v4 table with their IP accounting, and
  when that accounting is exact.
* `MatchProtocols`: the choice of subprotocols and the multiplexing of their codes.
* `DialHistory`, `Dial`, `Server`: the dial scheduler, and the server loop that runs its tasks and admits peers.
* `UdpLoop`, `RpcClient`: the two request matchers.
* `Chain`, `BlockSync`, `Base58`: the block store, the download protocol over it, and the text encoding.

Objects that the code updates in place are classes; their state is kept in values (maps and sequences)
so that each invariant is a predicate on values, with small lemmas about one change each. Methods
hide the definitions they do not need, which keeps every proof short.

## Where the code falls short of its intent

Each is stated exactly, by a condition that can be checked before the call and, mostly, a concrete input.

* `addEntry` never returns when the table is full and its least-requested topic is empty, and loses the
  entry in a topic nobody refers to when that topic is the target with its only entry and is idle
  (`AddEntry`, `UseTicket`; both are reached from an empty table in `ScanThatNeverEnds`, `OrphanedEntry`).
  Deleting such an entry before its topic is tabled again dereferences a topic that is not there (`Unregister`,
  `OrphanCannotBeDeleted`).
  Without a database the serial a node used last is forgotten with the node, once its timeout is over and its last
  registration goes, and so older ones are admitted again (`UseTicket`).
* A lower bound of 0 in the ticket store doubles as "unset" (`AddTicket`); a ticket left below the bound
  that way is never used once its minute is past (`NeverUsed`), and the scan for the next one never ends
  when no other is left (`ScanEndsExactly`, `FirstMinuteTicketLost`). That a topic registered again meets a stale cached ticket
  (`AddTopic`) is a hazard of the store's interface only: the loop rules it out (`TopicRequest`).
* The frame size is computed in 32 bits before it is checked (`WriteAccepts`, `FrameAnnounces`, `SizeWraps`).
* A ping that was not answered and whose timeout was ignored stays on record, and no new one is sent: the
  node is then verified or contested without a timeout, exactly in that case (`AwaitedPongIsTimed`,
  `VerificationWithoutTimeout`, `ContestWithoutTimeout`). v5 replacements can repeat a node (`RefillRepeats`).
* The timeout of a v5 query does not start the next one. The queries deferred at that node wait, with none
  pending, exactly until a new query is submitted for the node or it becomes known again (`Step`, `StalledSince`;
  `QueryLeftWaiting`, where no timeout is armed either).
* The v4 table's IP counters are too low after deleting a node that is not listed, or bumping one to an
  address that is not covered (`DeleteInBucket`, `Bump`, `AbsentDelete`, `DeleteUncovers`, `BumpUncovers`),
  and too high after entering a replacement, which is charged twice (`EnteredExactly`, `PhantomCharge`).
* After a clock warp the UDP loop leaves its timer off while requests wait (`ResetTimeout`,
  `WarpLeavesTimerOff`). Each pass over its queue stops at the first request it removes, since removing an
  element clears its link.
* A block that is stored already makes `IsBlockValid` panic, and a peer behind on another branch makes
  `handleVersion` panic (`Meet`, `ForkPanics`). A block recorded as known but not stored ends a download
  short of the tip (`Download`), and if the very next block is on either record, so does every later one
  (`StuckForGood`); mining during a download is enough (`MinedMeanwhileForGood`). Two nodes of one height on a fork do nothing at all (`Meet`).
* Base58 treats indices as bytes, so round trips are exact only with one leading zero (`RoundTripIsExact`)
  or one leading `1` (`TextRoundTrip`), and text outside the alphabet is not refused (`MalformedText`).

## Model

| member | source | states |
|---|---|---|
| Heap.SiftUpStep | p2p/discv5/topic.go:374-407 | an exchange with a larger parent moves the one violation of heap order one level up |
| Heap.SiftDownStep | p2p/discv5/topic.go:374-407 | an exchange with the smaller child moves the one violation of heap order one level down |
| Heap.RootIsLeast | p2p/discv5/topic.go:209-217 | the root of a heap is a least element, by induction over the path to it |
| TopicQueue.RequestQueue.Swap | p2p/discv5/topic.go:382-386 | two slots are exchanged, and every item still records its own slot |
| TopicQueue.RequestQueue.Push | p2p/discv5/topic.go:388-393 | the topic is added to the heap, order and back-pointers restored; a newest priority stays last |
| TopicQueue.RequestQueue.TakeLast | p2p/discv5/topic.go:395-402 | the last slot goes, with its item and its back-pointer |
| TopicQueue.RequestQueue.RemoveAt | p2p/discv5/topic.go:404-407 | `heap.Remove`: exactly the topic at that slot goes; heap order and all other back-pointers hold |
| TopicQueue.RequestQueue.Remove | p2p/discv5/topic.go:113-117 | removal by an item’s own recorded slot removes that item and no other |
| TopicQueue.RequestQueue.Update | p2p/discv5/topic.go:404-407 | a changed priority is stored and heap order restored, keeping the set of topics |
| TopicQueue.RequestQueue.HeadIsLeastRequested | p2p/discv5/topic.go:209-217 | no queued topic was requested longer ago than the head of the queue |
| Registrar.TopicTable.GetOrNewTopic | p2p/discv5/topic.go:93-108 | a new topic is tabled and queued together; the two indexes stay in step |
| Registrar.TopicTable.CheckDeleteTopic | p2p/discv5/topic.go:110-119 | only an empty idle topic is dropped, from the table and the queue together |
| Registrar.TopicTable.GetOrNewNode | p2p/discv5/topic.go:121-137 | an unknown node starts from its persisted ticket counters |
| Registrar.TopicTable.CheckDeleteNode | p2p/discv5/topic.go:139-144 | a node is dropped exactly when it has no entries and its timeout is over |
| Registrar.TopicTable.DeleteEntry | p2p/discv5/topic.go:220-235 | exactly one registration goes, from both indexes and from the counter; everything else is as before |
| Registrar.TopicTable.GetFifoTail | p2p/discv5/topic.go:54-61 | on a non-empty topic the search terminates and returns the oldest registration of the topic |
| Registrar.TailIsOldest | p2p/discv5/topic.go:54-61 | the first present index at or above `fifoTail` is the topic’s oldest entry, and the tail may move past it |
| Registrar.TopicTable.EvictOldest | p2p/discv5/topic.go:183-189 | a full topic, or the least-requested one, loses exactly its oldest registration |
| Registrar.TopicTable.ClearNode | p2p/discv5/topic.go:171-178 | all earlier registrations of the node go, and no others |
| Registrar.TopicTable.Insert | p2p/discv5/topic.go:191-205 | one registration is added to both indexes at the head of its topic’s FIFO, within all caps |
| Registrar.TopicTable.MakeRoom | p2p/discv5/topic.go:183-189 | the topic’s oldest, or when the table is full the least-requested topic’s oldest, is evicted; stuck exactly if that topic is empty |
| Registrar.TopicTable.AddEntry | p2p/discv5/topic.go:171-206 | over all states: stored with exactly the due eviction; never returns iff a full table’s least-requested topic is empty; orphans the entry iff that topic is the target with its one entry, and idle |
| Registrar.EntryAdded | p2p/discv5/topic.go:171-206 | a fresh entry at `fifoHead` keeps both indexes, the counter and the index windows exact |
| Registrar.RegistrationsCapped | p2p/discv5/topic.go:30-31 | at most 10000 registrations, 50 of a topic, one of a node, for any consistent pair of indexes |
| Registrar.TopicCount | p2p/discv5/topic.go:64-78 | the size of a topic’s map is the number of live registrations of that topic |
| Registrar.InTimeWindow | p2p/discv5/topic.go:258-261 | the wrapping 64-bit comparison means: from one second before to eleven seconds after the due second |
| Registrar.TopicTable.AdmitSerial | p2p/discv5/topic.go:243-256 | a serial is admitted iff it is not older than the last used one and a newer one is past the timeout; a newer one is then on record and persisted, and starts the timeout |
| Registrar.TopicTable.Admit | p2p/discv5/topic.go:238-262 | the verdict on a ticket: refused iff old serial, too early for a newer one, or out of the time window; an admitted newer serial is on record and starts the timeout even so; a used serial is never accepted again after a newer one |
| Registrar.TopicTable.UseTicket | p2p/discv5/topic.go:238-272 | refused iff the verdict says so; prolonged iff the node has an unexpired registration of the topic; else added, with exactly the due eviction among the unexpired; stuck or orphaning iff the table is full of unexpired ones and the least-requested topic is empty or the idle target; always sound below the cap. The serial used and the timeout it starts stay with the node, forgotten only if an earlier registration is cleared after the timeout, and then only without a database; a running timeout of any node stands |
| Registrar.OneTicketAtATime | p2p/discv5/topic.go:238-262 | over any calls of the network: after a newer ticket of a node, every other one of it is refused until the timeout is over |
| Registrar.LeastRequestedBefore | p2p/discv5/topic.go:207-217 | the least-requested topic after a sweep was least requested before it, among those with registrations left |
| Registrar.ScanThatNeverEnds | p2p/discv5/topic.go:171-217 | a run of 10002 registrations, from an empty table, the last of which never returns |
| Registrar.OrphanedEntry | p2p/discv5/topic.go:171-206 | a run of 10001 registrations after which a node has an entry of a topic that is not tabled |
| Registrar.TopicTable.Unregister | p2p/discv5/topic.go:220-235 | deleting any entry works iff its node and its topic are tabled, and then takes it from both indexes and the counter |
| Registrar.OrphanCannotBeDeleted | p2p/discv5/topic.go:220-235 | after that run, deleting that entry dereferences a topic that is not there |
| Registrar.TopicTable.GetEntries | p2p/discv5/topic.go:153-169 | exactly the nodes with an unexpired registration of the topic, which becomes the most recently requested one |
| Registrar.TopicTable.GetTicket | p2p/discv5/topic.go:274-299 | the next 32-bit serial of the node is issued, after the one in memory or, once the node is swept, in the database, and persisted; each topic asked for gets the time from which it may be registered; registrations change only by the sweep |
| Registrar.DueTicketInTime | p2p/discv5/topic.go:258-299 | a ticket is in time from one second before its due time until ten seconds after, for all the truncation to seconds in between |
| Registrar.TopicTable.CollectGarbage | p2p/discv5/topic.go:303-323 | a sweep that is due removes exactly the expired registrations, and idle empty topics and nodes, no node whose timeout is running; the next one is due a minute later |
| Tickets.TimeBucketMonotone | p2p/discv5/ticket.go:525-566 | a later time is never in an earlier bucket |
| Tickets.TicketStore.NextRegisterableTicket | p2p/discv5/ticket.go:383-417 | when the scan ends its answer is the earliest from the lower bound on, in a consistent store the earliest of all, or the cached one, stale only if its topic is gone |
| Tickets.TicketStore.Scan | p2p/discv5/ticket.go:390-417 | the loop over the buckets terminates whenever nothing or some ticket from the bound on is stored, finds the earliest of those, and leaves the bound at the last bucket before it |
| Tickets.ScanEndsExactly | p2p/discv5/ticket.go:390-417 | the unbounded scan ends iff no topic has a bucket or some topic has one from the lower bound on |
| Tickets.BoundedScan | p2p/discv5/ticket.go:383-417 | with a true lower bound it ends, and the earliest from the bound on is the earliest of all |
| Tickets.TicketStore.ScanBucket | p2p/discv5/ticket.go:390-407 | one bucket is searched in every topic; the store is reported empty iff it is |
| Tickets.BucketThenTime | p2p/discv5/ticket.go:383-417 | the earliest ticket of the first non-empty bucket is the earliest from the lower bound on |
| Tickets.EmptyCalendar | p2p/discv5/ticket.go:383-417 | no topic has a bucket iff no ticket is stored, because no list is ever empty |
| Tickets.TicketStore.RemoveTicketRef | p2p/discv5/ticket.go:420-456 | exactly one reference goes; the node is dropped with its last one |
| Tickets.TicketStore.NextFilteredTicket | p2p/discv5/ticket.go:342-358 | terminates; discards exactly tickets that come before their topic’s next turn, and returns the earliest of the rest |
| Tickets.TicketStore.TicketRegistered | p2p/discv5/ticket.go:360-373 | the used ticket goes and only its own topic’s next turn moves |
| Tickets.TicketStore.AddTicketRef | p2p/discv5/ticket.go:322-340 | the reference is filed in its bucket and counted, unless its topic is gone; its topic’s next lookup moves by the debt rule, never more than ten tickets behind the clock |
| Tickets.TicketStore.Keep | p2p/discv5/ticket.go:549-565 | a kept ticket is filed once, owned by its node, and the cache is dropped |
| Tickets.TicketStore.AddTicket | p2p/discv5/ticket.go:525-566 | stored iff wanted, kept and its topic is there; the store stays consistent iff it is not the case that a lower bound of 0 is taken for unset over earlier tickets |
| Tickets.FirstMinuteTicketLost | p2p/discv5/ticket.go:383-417 | a run of the loop’s calls in the first minute after which the scan for the next ticket never ends |
| Tickets.NeverUsed | p2p/discv5/ticket.go:342-566 | once a ticket is below the bound and its minute is past, no run of finding, using and discarding tickets, asking for some, taking in pongs and registering topics finds, uses or discards it: each turn brings what follows from it, exactly the tickets used or discarded are gone from those at first, and the run goes on to its end or to a scan that does not end |
| Tickets.TakeTurn | p2p/discv5/net.go:413-474 | one such turn: what it finds, uses or discards is not that ticket, and at most the ticket found before goes |
| Tickets.TicketStore.NoteRequest | p2p/discv5/ticket.go:480-495 | which later tickets are wanted: of the node pinged, exactly those that answer this ping for this topic; a radius lookup makes it want none, but not within twenty minutes of the last request; the request on record is this one, with its time, or stays |
| Tickets.RequestStands | p2p/discv5/ticket.go:480-495 | whatever radius lookups follow a topic request, a ticket that answers it is wanted iff none of them came more than twenty minutes after it |
| Tickets.TicketStore.AddTopic | p2p/discv5/ticket.go:178-186 | on its own, registering a topic again keeps the store consistent iff no stale cached ticket of it is left |
| Tickets.TopicRequest | p2p/discv5/net.go:413-474 | in the loop, which filters before every event, registering and unregistering a topic always keeps the store consistent |
| Tickets.TicketStore.RemoveRegisterTopic | p2p/discv5/ticket.go:202-218 | exactly the topic’s tickets go, and the topic, every other as it was; nodes are dropped with their last ticket, and their last request with them; only the cache may be stale |
| Tickets.OwnedWithout | p2p/discv5/ticket.go:451-455 | `nodes` stays exactly the owners of stored references when one goes |
| Tickets.OwnedWith | p2p/discv5/ticket.go:558-565 | `nodes` stays exactly the owners of stored references when one comes |
| Rlp.CodeRoundTrip | p2p/rlpx.go:616 | every 64-bit message code decodes from its encoding, leaving what follows |
| Rlp.CodeIsCanonical | p2p/rlpx.go:707-711 | only the canonical encoding of a code is accepted |
| Rlp.SizeBound | p2p/rlpx.go:616 | a big-endian number fits 64 bits iff it has at most eight bytes |
| Rlpx.Int24RoundTrip | p2p/rlpx.go:749-757 | what `putInt24` stores below 2^24 `readInt24` reads |
| Rlpx.OpenSeal | p2p/rlpx.go:615-735 | a frame opens to its content with both MACs accepted, and the two ends’ keystream position and MAC agree again |
| Rlpx.OpenExactly | p2p/rlpx.go:668-705 | the reader accepts exactly the frames that its own keys and state make, of any header that announces their size |
| Rlpx.FrameLayout | p2p/rlpx.go:615-666 | under the key stream a frame is the size in three bytes, the fixed header, and the content padded with zeros to a multiple of sixteen |
| Rlpx.MacTells | p2p/rlpx.go:737-747 | a MAC tells apart keys, states and what is authenticated, or the hash collides |
| Rlpx.ReadWrite | p2p/rlpx.go:615-735 | `ReadMsg` of what `WriteMsg` wrote is the message, the writer’s state, and the bytes that follow |
| Rlpx.ReadTampered | p2p/rlpx.go:668-705 | a message with a changed header or header MAC is refused with bad header MAC, with a changed body or frame MAC with bad frame MAC, or the hash collides on what was changed; a part of a message is a short read |
| Rlpx.WriteAccepts | p2p/rlpx.go:615-634 | over all typed messages with a true size field: accepted iff within the 24-bit limit or large enough to wrap around in 32 bits; compressed, iff what compression makes of it is, modulo 2^32 |
| Rlpx.FrameAnnounces | p2p/rlpx.go:615-634 | an accepted frame announces the size of what it carries iff the message is within the limit |
| Rlpx.SizeWraps | p2p/rlpx.go:631-634 | an instance: 2^32−1 bytes are announced as a frame of size 0 |
| Rlpx.StreamRoundTrip | p2p/rlpx.go:615-735 | any finite sequence of in-limit messages is read back in order, leaving both ends in lock step |
| Rlpx.WriteAllSplits | p2p/rlpx.go:615-666 | writing one batch after another is writing both |
| Rlpx.RunDeliversInOrder | p2p/rlpx.go:615-735 | in any interleaving of sends and receives every receive succeeds, and delivered plus in flight is what was sent, in order |
| Rlpx.FrameRW.WriteMsg | p2p/rlpx.go:615-666 | the in-place writer is the functional one: same bytes, same new state, same refusals |
| Rlpx.FrameRW.ReadMsg | p2p/rlpx.go:668-735 | the in-place reader is the functional one: same message or error, same new state; so what was tampered with is refused as stated for `Read` |
| Rlpx.FrameRW.ReadFrame | p2p/rlpx.go:668-705 | header and body are checked against their MACs and decrypted in step with the keystream; what it returns is what `Open` does, which accepts exactly its own frames |
| Handshake.RecoveredFromOpening | p2p/rlpx.go:319-432 | whoever an opening is addressed to recovers from it the sender’s identity and ephemeral public key |
| Handshake.OpeningBinds | p2p/rlpx.go:319-432 | under another nonce, or in the name of an identity with another shared secret, an opening does not give its ephemeral key |
| Handshake.EncHandshake.HandleAuthMsg | p2p/rlpx.go:401-432 | the key recovered is the ephemeral public key of whoever made the opening for us, and the identity learnt is theirs |
| Handshake.EncHandshake.MakeAuthMsg | p2p/rlpx.go:319-358 | every holder of the key it is addressed to recovers from it the sender and the ephemeral key |
| Handshake.Exchange | p2p/rlpx.go:244-273 | with equal ECDH output and the same two packets both ends derive equal keys and mirrored MAC states, those that follow from the secret, both nonces and both packets, and each learns the other’s identity; they fail together |
| Handshake.KeysBind | p2p/rlpx.go:244-262 | either key is the same for two connections only if the ephemeral secret and both nonces are, or the hash collides |
| Handshake.MacStatesBind | p2p/rlpx.go:264-273 | under one key a direction’s MAC state is the same iff the nonce it is masked with and the packet sent are |
| Handshake.SecretsBind | p2p/rlpx.go:244-273 | two connections have the same keys and MAC states iff all that was agreed on and both packets are the same, or the hash collides |
| Session.FramesFirst | p2p/rlpx.go:668-735 | the first of the frames in flight reads back as the first message sent, uncompressed if it is the first ever, and leaves the others |
| Session.FramesOneMore | p2p/rlpx.go:615-666 | one message more is one frame more behind those in flight |
| Session.Send | p2p/rlpx.go:120-142 | a message is put behind those in flight, compressed once both handshakes are through; between the two handshakes nothing is put |
| Session.Receive | p2p/rlpx.go:120-142 | an end that need not wait gets the next message the other put, without an error, and both stay in step |
| Session.NothingLeftBehind | p2p/rlpx.go:615-735 | an end has got every message put iff nothing is on its way to it |
| Session.ReadToTheEnd | p2p/rlpx.go:120-142 | over perfect channels, an end whose handshake is out has got everything after as many reads as messages are missing |
| Session.Connect | p2p/rlpx.go:120-142 | from the key exchange on, over all sequences of puts and gets of both ends, with compression switched on after the handshakes: the encrypted connection comes to what two perfect channels would, and the results of the reads are the messages got, all without an error |
| Table5.TotalUpdated | p2p/discv5/table.go:189-278 | changing one bucket changes the total by the difference of its sizes |
| Table5.Table.Add | p2p/discv5/table.go:189-218 | bumped, put in front, or recorded as a replacement with the last entry contested; `count` stays the total |
| Table5.Table.StuffOne | p2p/discv5/table.go:222-242 | a node is appended iff its bucket has room and does not hold it |
| Table5.Table.Delete | p2p/discv5/table.go:246-256 | one entry of the node goes, if there is one, and `count` with it |
| Table5.Table.DeleteReplace | p2p/discv5/table.go:258-278 | all entries and replacements of the node go; the latest replacement moves up if there is room |
| Table5.BumpKeepsEntries | p2p/discv5/table.go:286-296 | a bump permutes the entries, the bumped one first |
| Table5.RefillRepeats | p2p/discv5/table.go:258-278 | a refill leaves no repetition iff the replacement it takes is not an entry already |
| Table5.RefillRepeatsExample | p2p/discv5/table.go:189-278 | a run of the table: a node added twice while its bucket is full is entered twice when two entries go |
| NodeNet.Network.Ping | p2p/discv5/net.go:1106-1116 | one ping at a time per node, on record and with its timeout armed, never to ourselves |
| NodeNet.Network.AwaitedPongIsTimed | p2p/discv5/net.go:1088-1116 | a node in verifyinit, verifywait or contested has its pong timeout armed iff it is not ourselves and no timeout was ignored since its ping |
| NodeNet.Network.Transition | p2p/discv5/net.go:1077-1086 | the recursion of entering states terminates; the node ends in the state asked for with exactly that state’s effect on its queries, ping, record and timers and on the table; no other node moves, but that a known node contests the last known one of a full bucket |
| NodeNet.Network.EnterKnown | p2p/discv5/net.go:959-972 | a known node starts its next query, is added to the table, and the last node of a full bucket, if known, is contested |
| NodeNet.Network.EnterUnknown | p2p/discv5/net.go:874-891 | every query of the node is answered with nothing, and it leaves the table |
| NodeNet.Network.Start | p2p/discv5/net.go:801-821 | a query starts iff the node can be queried and has none pending; an unknown node is verified first |
| NodeNet.Network.StartNextQuery | p2p/discv5/net.go:791-799 | at most one deferred query moves to pending; none is lost or doubled |
| NodeNet.Network.HandlePacket | p2p/discv5/net.go:1030-1075 | every packet keeps the whole invariant; a node counts as answered only by a pong that echoes our ping |
| NodeNet.Network.HandlePing | p2p/discv5/net.go:873-1027 | the state each ping leads to, from each of the seven states |
| NodeNet.Network.HandlePong | p2p/discv5/net.go:1133-1147 | a pong that does not echo the ping on record changes nothing; one that does takes it off the record and moves the node exactly as listed for its state, with the timeout disarmed unless the node is unknown or waits for a ping |
| NodeNet.Network.TakeEcho | p2p/discv5/net.go:1055-1069 | the ping on record is answered and taken off it, and the node may enter the state that follows |
| NodeNet.Network.HandleNeighbours | p2p/discv5/net.go:1244-1272 | without a pending query nothing happens; else that query alone is answered, the next one is pending and timed, if there is any, and every acceptable node named is on record and, if it was unknown, being verified |
| NodeNet.Network.HandleTopicNodes | p2p/discv5/net.go:1200-1208 | a topic query that timed out counts as a failure of a queryable node, and a sixth makes a known node contested |
| NodeNet.Network.HandleTimeout | p2p/discv5/net.go:1088-1104 | a disarmed timer does nothing; an armed one leads to the next state exactly as listed, is ignored in the others, answers the pending query without starting the next, and replaces a dead node in the table |
| NodeNet.Network.Receive | p2p/discv5/net.go:420-430 | the sender is interned and its packet handled; submitted queries never go missing; only a pong that echoes our ping makes it count as having answered |
| NodeNet.Network.SubmitQuery | p2p/discv5/net.go:238-282 | below alpha a query is submitted: live at its node in exactly one place, or answered at once if local |
| NodeNet.Network.Enqueue | p2p/discv5/net.go:455-459 | a query starts at once if its node can be queried and is free, and else joins the end of the deferred ones |
| NodeNet.Network.ReceiveReply | p2p/discv5/net.go:262-279 | a channel holds at most alpha replies: live queries plus unread ones are exactly those outstanding |
| NodeNet.Network.AddSeed | p2p/discv5/net.go:671-707 | a seed node is tabled, and verified if unknown |
| NodeNet.Step | p2p/discv5/net.go:413-470 | every event of the loop keeps the invariant, and no other than an echoing pong makes a node count as having answered, or a ping as answered; queries are left waiting at a free node exactly by their predecessor’s timeout, until a new query is submitted for it or it becomes known again |
| NodeNet.Run | p2p/discv5/net.go:413-470 | over any run, with what there was before each event: no node is taken out of {known, contested, unresponsive}; whoever newly counts as having answered sent a pong that echoed the ping then on record; a ping is answered once, so that a pong repeated later changes nothing; the queries submitted are those of the events that could happen; each event leaves queries waiting exactly as one step does |
| NodeNet.VerifiedEitherWay | p2p/discv5/net.go:902-953 | a seed becomes known by its ping and then its pong, or by its pong and then no ping in time |
| NodeNet.StalledSince | p2p/discv5/net.go:1164-1175 | over a run: queries wait at a queryable node with none pending iff a query of it timed out and since then none was submitted for it, and it has not become known again |
| NodeNet.QueryLeftWaiting | p2p/discv5/net.go:1164-1175 | a run of events after which a query waits at a known node with none pending and no timeout armed |
| NodeNet.VerificationWithoutTimeout | p2p/discv5/net.go:1106-1116 | a run of events after which a node is being verified, on our side or waiting for its ping, with no timeout armed |
| NodeNet.ContestWithoutTimeout | p2p/discv5/net.go:1106-1116 | a run of events after which a contested node has no timeout armed |
| Distance.Distcmp | p2p/discover/node.go:350-361 | the byte scan is the lexicographic comparison of the XOR distances |
| Distance.DistanceOrderIsTotal | p2p/discover/node.go:350-361 | antisymmetric, transitive, and equal only for equal hashes |
| Distance.Logdist | p2p/discover/node.go:400-412 | the loop counts the leading zero bits of the XOR distance |
| Distance.LogDistanceIsBitLength | p2p/discover/node.go:400-412 | `logdist` is n iff bit n−1 is the highest that differs |
| Distance.NearerBucketIsNearer | p2p/discover/node.go:350-412 | a strictly smaller `logdist` implies a smaller distance |
| Distance.LogDistanceSymmetric | p2p/discover/node.go:400-412 | symmetric, and zero only for equal hashes |
| Distance.HashAtDistance | p2p/discover/node.go:415-432 | for every hash, n up to 256 and random tail, the result is at `logdist` n |
| Closest.NodesByDistance.Search | p2p/discover/table.go:849-851 | the binary search finds the first entry farther than the node |
| Closest.NodesByDistance.Push | p2p/discover/table.go:848-864 | the slide-down is insertion into the sorted list, cut to the bound |
| Closest.TakeInsert | p2p/discover/table.go:848-864 | cutting before an insertion does not change the cut result |
| Closest.PushSorts | p2p/discover/table.go:848-864 | pushing one more node gives the first k of the sorted list of all nodes so far |
| Closest.SortSorts | p2p/discover/table.go:848-864 | the reference sort is sorted and a permutation |
| Closest.ClosestNodes | p2p/discover/table.go:536-547 | the result is exactly the first k of the distance-sorted list of all table entries |
| Closest.ClosestAreClosest | p2p/discover/table.go:536-547 | no node left out is closer than one returned, and min(k, all) are returned |
| Lookup.Search.AskMore | p2p/discover/table.go:311-335 | exactly the first entries not yet asked are asked, as many as alpha allows |
| Lookup.Search.TakeReply | p2p/discover/table.go:336-348 | the reply joins what was told, its identities join those seen, and of every identity told of for the first time its node is pushed; the result is the sixteen closest of the table and of those |
| Lookup.RunLookup | p2p/discover/table.go:282-350 | terminates whatever is replied; asks nobody twice; takes in one reply for each query, and returns exactly the sixteen closest of the table’s nodes and of the nodes those replies were the first to tell of, sorted, each of them asked |
| Lookup.ToldByReplies | p2p/discover/table.go:336-348 | what was told is what some reply contained |
| Lookup.NovelIds | p2p/discover/table.go:336-348 | of what was told every identity counts, and once |
| Lookup.NovelIsFirst | p2p/discover/table.go:336-348 | what counts is the first node told of with its identity |
| Lookup.NoCloserLeftOut | p2p/discover/table.go:282-350 | of any node in any reply, the first one told of with its identity is returned, or sixteen are that are no farther |
| NetSet.SharedCounterIsSameNet | p2p/netutil/net.go:197-296 | two addresses share a counter iff `SameNet`, but for a subnet length a byte beyond the address |
| NetSet.PrefixIsBits | p2p/netutil/net.go:209-216 | addresses are in one network iff their first bits are the same, bit by bit |
| NetSet.LanNumbers | p2p/netutil/net.go:34-39 | the local networks are exactly 0, 10, 127, 172.16–31, 192.168, loopback, fe80–febf and fc–fd |
| NetSet.AddThenRemove | p2p/netutil/net.go:230-250 | removing what was just added leaves no trace |
| NetSet.DistinctNetSet.Key | p2p/netutil/net.go:272-296 | the buffer holds the family tag and exactly the prefix bits |
| NetSet.DistinctNetSet.Add | p2p/netutil/net.go:230-238 | added iff the range’s counter is below the limit; no counter is ever zero or above it |
| NetSet.DistinctNetSet.Remove | p2p/netutil/net.go:241-250 | the range’s counter goes down by one, and goes with its last address |
| NetSet.DistinctNetSet.Contains | p2p/netutil/net.go:253-257 | whether the range is counted |
| Table4.Table.AddIp | p2p/discover/table.go:722-736 | both counters are charged or neither is; refused iff one of the limits is reached |
| Table4.Table.RemoveIp | p2p/discover/table.go:738-744 | both counters are given the address back, LAN addresses neither |
| Table4.Table.Bump | p2p/discover/table.go:784-794 | the node moves to the front in the caller’s form; counters stay right iff they cover its address |
| Table4.Table.BumpOrAdd | p2p/discover/table.go:798-812 | bumped, or entered and off the replacements iff there is a place and an address for it |
| Table4.Table.AddReplacement | p2p/discover/table.go:746-760 | a new replacement in front, the tenth pushed out and its address given back; the account is kept |
| Table4.Table.Add | p2p/discover/table.go:685-694 | the new state in all cases; counters stay right iff a bump is covered |
| Table4.Table.Stuff | p2p/discover/table.go:698-711 | all nodes but the local one, in order, into buckets that are not full |
| Table4.Table.DeleteInBucket | p2p/discover/table.go:814-817 | the entry goes; counters stay right iff giving back the caller’s address leaves cover |
| Table4.Table.Delete | p2p/discover/table.go:715-720 | as `deleteInBucket`, in the bucket the distance selects |
| Table4.Table.Replace | p2p/discover/table.go:765-780 | nothing unless still last; else deleted, or some replacement takes its place; when counters stay right |
| Table4.FindIndex | p2p/discover/table.go:784-794 | the search by ID finds the first node of that ID |
| Table4.DeleteNode | p2p/discover/table.go:831-838 | the first node of that ID goes |
| Table4.PushNode | p2p/discover/table.go:820-828 | the node is first, the others keep their order, and a full list loses exactly its last, so that no node is lost otherwise |
| Table4.SwapOk | p2p/discover/table.go:671-838 | trading one listed node for another keeps sizes, no ID twice in either or both lists, and the right bucket |
| Table4.ListedOnce | p2p/discover/table.go:671-677 | no ID is listed twice in the whole table, and where it is listed is where its distance puts it |
| Table4.BucketRange | p2p/discover/table.go:722-736 | with the account kept, no /24 has more than two nodes in a bucket |
| Table4.TableRange | p2p/discover/table.go:722-736 | with the account kept, no /24 has more than ten nodes in the table |
| Table4.ListingAccounts | p2p/discover/table.go:746-812 | listing a node charged to both counters keeps actual ≤ counter and table counter = sum of bucket counters |
| Table4.DroppingAccounts | p2p/discover/table.go:738-744 | giving an address back keeps them iff it is not counted or the bucket’s counter is above what remains |
| Table4.BumpAccounts | p2p/discover/table.go:784-794 | a bump keeps them iff the new address is LAN, in the old one’s range, or covered |
| Table4.PresentDeleteHasCover | p2p/discover/table.go:814-817 | deleting an entry under its own address is always covered |
| TableCounts.EnteredExactly | p2p/discover/table.go:798-812 | from exact counters, entering a node keeps them exact iff it was not a counted replacement: that one is charged twice |
| TableCounts.BumpedExactly | p2p/discover/table.go:784-794 | from exact counters, a bump keeps them exact iff old and new address count the same |
| TableCounts.DeletedExactly | p2p/discover/table.go:814-817 | from exact counters, a deletion keeps them exact iff what leaves the entries is what is given back |
| TableCounts.PromotedExactly | p2p/discover/table.go:765-782 | from exact counters, `replace` keeps them exact iff the last entry has the address given back |
| TableCounts.ReplacementExactly | p2p/discover/table.go:746-760 | `addReplacement` always keeps exact counters exact |
| TableCounts.AddedExactly | p2p/discover/table.go:685-695 | from exact counters, `add` keeps them exact iff, in each of its cases, the condition for that case holds |
| TableCounts.AbsentDelete | p2p/discover/table.go:814-817 | from exact counters, deleting a node that is not listed breaks them, and leaves a node without cover, iff the table counts its range at all |
| TableCounts.DeleteUncovers | p2p/discover/table.go:685-817 | a run of the table: an add and the delete of a node that is not listed leave a node without cover |
| TableCounts.BumpUncovers | p2p/discover/table.go:685-794 | a run of the table: a node added again under another address is without cover |
| TableCounts.PhantomCharge | p2p/discover/table.go:685-817 | a run of the table after which a range is counted although no node of it is listed |
| Table4.Serve | p2p/discover/table.go:466-494 | with one address per ID and deletes of entries only, every request, with exactly the effect it has on its bucket and on the counters, keeps structure and account |
| MatchProtocols.NamesTotal | p2p/protocol.go:79-81 | names are totally ordered |
| MatchProtocols.LessTransitive | p2p/protocol.go:79-81 | “not less” is transitive, so sorting is meaningful |
| MatchProtocols.SortCaps | p2p/peer.go:316 | the capabilities are sorted in place |
| MatchProtocols.CountMatching | p2p/peer.go:302-312 | the number of pairs of a capability and a protocol with one name and version; zero iff no capability matches |
| MatchProtocols.ChosenCap | p2p/peer.go:321-335 | taking the old length off the offset when a newer version matches keeps the layout contiguous |
| MatchProtocols.MatchProtocols | p2p/peer.go:315-337 | for each name the highest common version, laid out by name one after the other from code 16 |
| MatchProtocols.SameLayout | p2p/peer.go:315-337 | two peers choose the same versions, offsets and lengths, if equal name and version imply equal length |
| MatchProtocols.DisjointCodes | p2p/peer.go:367-374 | no code is owned by two protocols |
| MatchProtocols.ContiguousCodes | p2p/peer.go:367-374 | the codes owned are exactly those from 16 to the final offset |
| MatchProtocols.GetProto | p2p/peer.go:367-374 | an owner is found iff there is one |
| MatchProtocols.Handle | p2p/peer.go:272-300 | base codes stay with the base protocol; others go to their owner under its own code, or are out of range |
| MatchProtocols.Exchange | p2p/peer.go:386-414 | a message sent by one protocol is read by the same protocol and version of the other side under its original code; refused iff its code is beyond the chosen version’s |
| DialHistory.History.Add | p2p/dial.go:396-399 | the dial is added to the heap |
| DialHistory.History.Remove | p2p/dial.go:400-408 | one dial of the ID goes iff there is one |
| DialHistory.History.Expire | p2p/dial.go:417-421 | exactly the dials that expired before now go |
| DialHistory.History.Min | p2p/dial.go:393-395 | the dial that expires first |
| DialHistory.History.Contains | p2p/dial.go:409-416 | whether the ID is in the history |
| Dial.OneTaskPerId | p2p/dial.go:162-289 | no ID has two outstanding dials, no two lookups or timers are outstanding |
| Dial.DialIsOutstanding | p2p/dial.go:162-289 | an ID is marked as being dialed iff a dial of it is outstanding |
| Dial.ExactWithout | p2p/dial.go:280-289 | a task done takes exactly itself off the books |
| Dial.RestingLists | p2p/dial.go:409-416 | the history lists an ID iff its last dial was at most 30 s before the last expiry |
| Dial.RestingDone | p2p/dial.go:280-289 | a finished dial is remembered for 30 s |
| Dial.RestingForgotten | p2p/dial.go:154-160 | removal as a static node forgets the last dial |
| Dial.DialState.CheckDial | p2p/dial.go:263-278 | fine iff no dial of the node is outstanding, it is not connected, not us, allowed, and was not dialed for thirty seconds; otherwise the first of these reasons that holds |
| Dial.DialState.AddStatic | p2p/dial.go:148-152 | the static node is added or overwritten |
| Dial.DialState.RemoveStatic | p2p/dial.go:154-160 | the static node goes and may be dialed at once |
| Dial.DialState.StaticDials | p2p/dial.go:194-205 | every static node left is connected, being dialed or dialed recently; dropped are exactly those that are ourselves or unlisted and neither connected nor being dialed; all tasks made dial static nodes |
| Dial.DialState.DynDialsFor | p2p/dial.go:206-237 | a bootnode is tried exactly if one is due; of the random nodes as many as the table reports, up to half of the dials then still needed; then lookup results, in order, as long as more are needed. Each one tried is being dialed or has a reason not to be, and nothing else is dialed |
| Dial.DialState.Wait | p2p/dial.go:244-251 | the timer is for the first dial in the history to expire |
| Dial.DialState.NewTasks | p2p/dial.go:162-253 | connected plus being-dialed dynamic IDs stay within the limit; no dial of a connected, unlisted, own or recently dialed ID; every dial is of a static node or of a bootnode, random node or lookup result on offer, and bootnodes and random nodes on offer are tried; a bootnode is due only with no peers and twenty seconds after the start; a lookup runs iff one did or dials are still needed; never nothing to wait for |
| Server.DialedConns | p2p/server.go:739-748 | no dialed peers without discovery or dialing; else as many as the dial ratio allows, one in three by default |
| Dial.DialState.TaskDone | p2p/dial.go:280-289 | what is done comes off the books; lookup results are appended |
| Server.TasksAreDistinct | p2p/server.go:544-590 | no two running or queued tasks dial one ID, look up, or wait |
| Server.Server.StartTasks | p2p/server.go:570-580 | as many tasks as there is room for are started, in order |
| Server.Server.ScheduleTasks | p2p/server.go:581-589 | tasks wait only while sixteen run; no new dial within 30 s of the last one of its ID |
| Server.Server.TaskDone | p2p/server.go:622-630 | a finished dial, lookup or timer leaves the running ones and the dialer’s books |
| Server.Server.Check | p2p/server.go:720-733 | accepted iff below the limits that apply, not connected, and not ourselves |
| Server.Server.PostHandshake | p2p/server.go:631-644 | a trusted node is refused only if connected or ourselves, any other iff a limit is reached; flags are only added to, the origin stays, and `AddPeer` would say the same |
| Server.Server.AddPeer | p2p/server.go:645-674 | useless peers are refused first; a peer is added iff the checks pass; counts and limits hold |
| Server.Server.DropPeer | p2p/server.go:675-684 | the peer goes and the inbound count stays exact |
| Server.PeerAdded | p2p/server.go:720-737 | the admission checks keep untrusted inbound ≤ MaxPeers − maxDialedConns and ordinary peers ≤ MaxPeers |
| Server.DynPeerAdded | p2p/server.go:645-674 | a dynamic peer adds no ID beyond the dials in progress |
| Server.Server.Limits | p2p/server.go:544-685 | between any two events: ≤ 16 tasks, exact inbound count, both peer limits, the dynamic limit, and the books exact |
| UdpLoop.Resolved | p2p/discover/udp.go:397-428 | a request leaves the queue exactly when it gets its one verdict |
| UdpLoop.Loop.ResetTimeout | p2p/discover/udp.go:361-381 | the timer is set for the head; a request a second or more ahead is blamed on the clock, at most one, and then no timer is set; never with a clock that never went back |
| UdpLoop.Loop.Add | p2p/discover/udp.go:393-395 | the request joins the end of the queue, or is refused at once after closing |
| UdpLoop.Loop.Reply | p2p/discover/udp.go:397-415 | matched iff some request waits for it; the first that says it is done, and no other, is resolved |
| UdpLoop.Loop.Fire | p2p/discover/udp.go:417-437 | at most the first expired request is timed out, and none that has not expired; timeouts in a row are counted, from zero again above thirty-two |
| UdpLoop.Loop.Close | p2p/discover/udp.go:387-391 | every request has a verdict, those still waiting that of closing |
| UdpLoop.HeadExpiresFirst | p2p/discover/udp.go:417-428 | in a queue in order of deadlines the first expired request is the head |
| UdpLoop.Take | p2p/discover/udp.go:350-439 | one turn keeps the books: the queue holds the requests as they were made, every verdict was given by a turn that could give it, and the first waiting request that a turn can complete or time out gets that verdict |
| UdpLoop.Run | p2p/discover/udp.go:350-439 | over any run ending in close: exactly one verdict for each request turn, numbered in order; whichever turn gave it could give it: done only by a matching answer that says so, timed out only by a tick past the deadline, blamed on the clock only if it showed a second or more too early, and never under a clock that never goes back. Conversely a turn that can complete or time out a waiting request does so for it or an earlier one; closed exactly if no turn gave a verdict |
| UdpLoop.WarpLeavesTimerOff | p2p/discover/udp.go:361-381 | a run with a clock that goes back, after which a request waits with no timer set |
| RpcClient.ChannelHasRoom | rpc/client.go:131-136 | a response that is due finds room in the channel of the operation |
| RpcClient.KindsOfMessages | rpc/client.go:91-101 | which messages are notifications and which are responses, by their ID, method and parameters; none is both |
| RpcClient.Dispatcher.Accept | rpc/client.go:585-591 | the operation takes the write slot and its IDs wait for it, each other wait untouched |
| RpcClient.Dispatcher.SendDone | rpc/client.go:593-604 | the slot is free; a failed send withdraws exactly the operation’s IDs |
| RpcClient.Dispatcher.HandleResponse | rpc/client.go:647-671 | routed to the operation waiting for the ID and no other; the channel is open and has room; a subscription is closed once, with the error of the response, or that its result is no subscription ID, or none |
| RpcClient.Dispatcher.HandleBatch | rpc/client.go:546-565 | exactly the IDs that some valid response names stop waiting; no answered ID is answered again and no closed operation changes |
| RpcClient.Dispatcher.CloseRequestOps | rpc/client.go:610-627 | exactly the operations that wait are closed, each once, and afterwards every ID is answered, withdrawn or closed |
| RpcClient.Dispatch | rpc/client.go:515-607 | one event keeps the books: an ID of an accepted request waits iff neither a response to it was read nor its request was cut off, and what is on the channels is exactly the first responses |
| RpcClient.Session | rpc/client.go:515-607 | over any session there is an operation for each request accepted and no other; each ID got exactly the first response read after the request was accepted and before the connection broke or its write failed, or none if there was none, a subscription being closed by it; no channel overflows, and in the end nothing waits |
| RpcClient.OneClosed | rpc/client.go:610-621 | an operation is closed when its first ID comes up and is open then |
| RpcClient.OneAnswered | rpc/client.go:647-660 | answering one ID leaves every other wait as it was |
| Chain.PathDescends | blockchain_go/blockchain.go:283-307 | following parents descends one height a step and ends at genesis after exactly as many steps |
| Chain.StoredLinked | blockchain_go/blockchain.go:124-156 | storing a block keeps the chain linked iff it is known or stands on a stored block one lower |
| Chain.Blockchain.AddBlock | blockchain_go/blockchain.go:124-156 | stored if new, last if higher; the store stays linked iff the block extends it |
| Chain.Blockchain.MineBlock | blockchain_go/blockchain.go:338-383 | the new block stands on the last and becomes it |
| Chain.Blockchain.GetBlockHashes | blockchain_go/blockchain.go:283-307 | the walk terminates and returns exactly the hashes above the given one, newest first, genesis never |
| Chain.Blockchain.IsBlockValid | blockchain_go/blockchain.go:432-505 | panics iff the block is stored; accepted iff it extends the last block and passes the checks, and else refused for the first reason that holds |
| BlockSync.Meet | p2pprotocol/server.go:647-708 | of two nodes that announce themselves the lower one asks, and the higher one panics iff it lacks the other’s last block, so never if its chain extends the other’s |
| BlockSync.ForkPanics | p2pprotocol/server.go:647-708 | two nodes that fork after genesis: one asks, the other panics |
| BlockSync.Node.HandleGetBlocks | p2pprotocol/server.go:469-507 | exactly the hashes above the peer’s last block that it is not known to have are offered and recorded |
| BlockSync.Node.HandleInv | p2pprotocol/server.go:433-455 | the oldest is requested first, the rest is in transit; an empty list panics |
| BlockSync.Node.HandleGetData | p2pprotocol/server.go:509-528 | answered iff the block is stored, with a block of that very hash that stands on a stored one; never panics |
| BlockSync.Node.HandleBlock | p2pprotocol/server.go:349-418 | stored iff valid and not on record; the next one in transit is requested, or the version announced |
| BlockSync.Deliver | p2pprotocol/server.go:349-418 | a round brings the tip one block on, or the next block is on record and the download is over |
| BlockSync.Fetch | p2pprotocol/server.go:349-541 | the rounds go on until the first missing block that is on record, and requested exactly those before it if none is |
| BlockSync.Download | p2pprotocol/server.go:349-541 | gets exactly as far as the last block before the first missing one that is on either record, and adds exactly the blocks up to there; so it ends with equal tips iff no missing block is on record, requested oldest first; nothing panics |
| BlockSync.MinedMeanwhile | p2pprotocol/server.go:433-507 | a run in which a block is mined during a download, and its announcement displaces what is in transit |
| BlockSync.MineMore | p2pprotocol/server.go:469-507 | a node that needs next a block which is on either record still does after more is mined |
| BlockSync.StuckForGood | p2pprotocol/server.go:349-541 | then it gains nothing in any number of further downloads, whatever is mined in between, and the tips stay different |
| BlockSync.MinedMeanwhileForGood | p2pprotocol/server.go:349-541 | so it is after the run above |
| Base58.Base58Encode | blockchain_go/base58.go:11-35 | one `1`, if the input is not empty, then the base-58 numeral |
| Base58.Base58Decode | blockchain_go/base58.go:38-59 | one zero byte for the first character, then the value of the rest |
| Base58.AlphabetInOrder | blockchain_go/base58.go:8 | the alphabet is exactly the digits and letters without 0, I, O and l, in ASCII order |
| Base58.ReverseBytes | blockchain_go/utils.go:21-25 | the bytes are reversed in place |
| Base58.ValueOfNumeral | blockchain_go/base58.go:20-23 | the digits produced add up to the number |
| Base58.NumeralOfValue | blockchain_go/base58.go:48-53 | a plain text without leading `1` is the numeral of its value |
| Base58.RoundTrip | blockchain_go/base58.go:11-59 | decoding an encoding gives one zero byte and the input without its leading zeros |
| Base58.RoundTripIsExact | blockchain_go/base58.go:11-59 | so it gives the input back iff that has exactly one leading zero byte, or is empty |
| Base58.NumeralIsPlain | blockchain_go/base58.go:11-35 | every numeral is text of the alphabet without a leading `1` |
| Base58.EncodedDecoded | blockchain_go/base58.go:11-59 | encoding a decoding of any text gives `1` and the numeral of what its other characters add up to |
| Base58.TextRoundTrip | blockchain_go/base58.go:11-59 | over all texts: encoding a decoding gives the text back iff it is of the alphabet and starts with exactly one `1`, or is empty |
| Base58.MalformedText | blockchain_go/base58.go:48-53 | an instance: `10` is not refused, decodes like `12`, and comes back as `12` |

## Left out

- Registrar.TopicTable.UseTicket: the wait periods a ticket carries come from floating-point control loops, and are parameters; so is whether an empty topic is idle. With a sweep due, which of several equally old topics heads the queue afterwards is not determined.
- Registrar.TopicTable.GetTicket: for the same reason what each topic's control loop asks for is a parameter.
- Tickets.NeverUsed: unregistering the ticket's topic, which drops it, is not among the events.
- Registrar.TopicTable.AddEntry: the random part of the timeout is a parameter, and the clock is read once per operation.
- Tickets.TicketStore.AddTicket: the random decision to keep a ticket is a parameter; radius estimation and search tickets are not part of the model.
- Tickets.TicketStore.NoteRequest: only what it remembers of a lookup is modelled, not whom it pings.
- Tickets.TicketStore.NextRegisterableTicket: called only where the scan ends; where it does not, the source does not return.
- Rlpx.ReadWrite: cipher, hash and snappy are functions with the laws needed (a keystream that depends on key and position, a decompression that undoes compression); the wire is a byte sequence, so timeouts and partial reads are not modelled.
- Handshake.Exchange: elliptic-curve operations are functions with two laws; sealing and padding of the packets, and the v4 plain formats, are not modelled.
- Session.Connect: what the protocol handshakes say, and failures to send, are not modelled; messages are within the limit compressed or not.
- NodeNet.Network.HandleNeighbours: the timeout is disarmed after the loop over the neighbours and not before it, which nothing in between depends on; address checks on a neighbour are a parameter.
- NodeNet.Network.SubmitQuery: the choice of whom to query is not modelled; of the lookup only its counts and channel are.
- NodeNet.Network.Receive: topic registration, topic queries and sent packets have no effect on the node states modelled.
- Lookup.RunLookup: replies are a given sequence, from a finite set of nodes; failed queries reply with nothing, and the record of failures in the database is not modelled. The table's own nodes are not marked as seen, so a node can be returned twice, as in the code. Waiting for a refresh of an empty table is not modelled.
- Table4.Table.Add: bonding, the node database, the time a node was added, and addresses other than the IP are not modelled; a node is its ID and its address, the hash of an ID is a function.
- Table4.Table.Replace: the random choice of a replacement is any choice.
- MatchProtocols.MatchProtocols: offsets are unbounded; that the lengths of the local protocols add up to less than 2^64 is taken for granted.
- MatchProtocols.SortCaps: the library sort is modelled in the form it has for up to twelve elements; any sort gives the same list, as equal capabilities are equal values.
- Dial.DialState.NewTasks: the address that a dial task may resolve while it runs is not written back to the static node, so a later whitelist check sees the configured address.
- Server.Server.AddPeer: a connection comes from the listener or from a running dial, which is what the handshake code ensures; what a peer does while connected is not modelled.
- Server.Server.RemoveStatic: the disconnection it asks for is an event of its own.
- UdpLoop.Loop.Fire: the check of clock drift after too many timeouts is not modelled beyond its counter.
- RpcClient.Dispatcher.Accept: message IDs are new, which the 32-bit counter gives until it wraps around; reading, reconnecting and delivery of notifications are not modelled.
- Chain.Blockchain.IsBlockValid: block hash, proof of work and transaction checks are one function of the block that gives the reason to refuse.
- BlockSync.Download: one exchange between two nodes at a time; transactions, the mempool, the waiting for best heights and the fork messages are not modelled. That the senders' blocks pass the receiver's checks is a premise.
- Base58.Base58Encode: text is characters, not bytes.
- Heap order and sifting follow Go's `container/heap`, which is not part of the repository.
- `ReadRandomNodes` of the v4 table: the dialer is proved safe for whatever count it reports.
- `NewMerkleTree`, the UTXO set and transaction signing: no general property holds of the first two, and the last is cryptography.
- Sockets, goroutine plumbing, logging, NAT, simulations, the command line, and the HTTP, WS and IPC transports.
