# Verified model of the BACnet applications

These Dafny modules model the parts of the repository that keep state, and
prove what holds over all their inputs and runs. Each `*Process` module (and
`LinkedTable`, `DeviceObjects`, `ReadProperty`, `AddressTable`) has the code in
its own shape, updating arrays, linked lists and static variables in place, and
ties every method to a specification function; the other modules prove
properties of those functions. Run `dafny verify dfyconfig.toml`.

- **Threaded router** (`apps/router`). `RouterMessages` is the step system of
  the main thread and the port threads over an explicit heap;
  `RouterMessagesSafety` and `RouterMessagesRuns` prove ownership, counting and
  delivery, `RouterMessagesPaths` which message goes to which port and
  `RouterMessagesMemory` what stays in memory; `RouterProcess` is the code of
  `msgqueue.c` and the loops.
  `PortThread`, `NetworkLayer` and `PortThreadProcess` are its learned network
  lists, network messages and free-number search, `ThreadedRoutes` all of it from
  the messages received; `ThreadedRelay` is a message among any number of these
  routers.
- **IPv4/IPv6 router** (`apps/router-ipv6`). `RoutingTable` and `LinkedTable`
  are the two-level table, `NetworkMessages` its payloads (and the parser of
  `apps/initrouter`), `Npdu` the frames of both routers, `Ipv6Router` and `Ipv6RouterProcess`
  the handlers and the two data links, `Ipv6Routes` their routes and sends from the
  packets received, `RelayNetwork` a message among any number of such routers.
- **Capture statistics** (`apps/mstpcap`). `FrameStatistics` and
  `FrameStatisticsProcess` are the per-station counters and maxima, `Capture`
  and `CaptureProcess` the capture file, `Replay` the receiver and what a scan
  of the capture makes of its frames.
- **Device object** (`apps/piface/device.c`): `DeviceObjects`, `DeviceNames`.
- **File transfer** (`apps/writefile`, `apps/readfile`): `FileTransfer`,
  `FileTransferProcess`.
- **Request matching** (`bacnet/src/lib.rs`): `ReadProperty`.
- **Who-Is table** (`apps/whois`): `AddressTable`.
- **EPICS scanner** (`apps/epics`): `Epics`, `EpicsFallback`, `EpicsAsserts`,
  `EpicsProcess`.

Sockets, serial lines, clocks, printing and the codecs of the BACnet library
are inputs of the model: events, decoded packets, invoke ids and the state of a
transaction arrive as parameters, and everything is proved for all of them.
Fixed-width integers are written out where they can wrap (reference counts,
32-bit statistics, network numbers, the uint8_t parameter of the
acknowledgement, array indices).

Findings, each stated exactly as a lemma: the reference count is safe up to 256
ports and not beyond (`SafeExactlyUpTo256Ports`); a flood needs two ports
(`FloodIsExactIffTwoPorts`); exactly some messages are never freed
(`MemoryIsAccountedFor`); broadcasts ignore the hop count
(`BroadcastMeetsHopRuleIff`, `BroadcastGoesAroundForEver`), the threaded router
ignores it altogether (`EveryRouteRelays`, `GoesAroundForEver`); an acknowledgement
can leave on the wrong port (`AckGoesBackIff`), and a port numbered 0 sends on
both links (`BroadcastOnTheLinks`, `WhoIsOnTheLinks`); a relayed frame has a DNET
that was never set (`KeepsDestinationIff`, `BoundHoldsIff`); a delivered message
can be relayed again if network 0 was learned (`DeliveredIsRelayedIff`); some
packets have no defined treatment (`UndefinedExactlyWhen`); the threaded router
advertises networks on the port they were learned from
(`AdvertisedMeansListed`); the acknowledgement parser hangs on port info
(`HangsIffPortInfo`); short capture headers misalign the reader
(`AlignedIffFullHeader`), and some frames are read back as others
(`ReplayIsLiveIff`); a listed object can make the scanner skip another
(`HarmlessIff`, `ListedObjectsSkip`), and a time-out makes it ask in the way that
was refused (`RejectedForGoodIff`, `TimeOutStartsOver`); the last chunk of a
written file can be lost
(`WrittenIff`); `read_prop_at` panics if its id is freed unanswered, and every
call after it (`CallInEveryRun`); a message that comes back to its own network is
sent on with a wrong source (`BackHome`).

## Model

| member | source | states |
|---|---|---|
| `RouterMessagesRuns.EveryRunIsSafe` | bacnet-sys/bacnet-stack-1.0.0/apps/router/main.c:149-180 | In every interleaving of the main thread and up to 256 port threads, no step touches or frees memory that is not live; a transmitted message that is still queued, held by a port or to be sent is alive and its count covers all of these; a received message has one owner. |
| `RouterMessagesRuns.SafeExactlyUpTo256Ports` | bacnet-sys/bacnet-stack-1.0.0/apps/router/main.c:168-180 | All runs are free of dangling messages if and only if the router has at most 256 ports: the count is a uint8_t, and its wrap to 0 stands for 256. |
| `RouterMessagesRuns.TooManyPorts` | bacnet-sys/bacnet-stack-1.0.0/apps/router/network_layer.c:335-343 | With more than 256 ports some run reads the start-up announcement after a port has freed it. |
| `RouterMessagesRuns.CleanRunsDeliverOnce` | bacnet-sys/bacnet-stack-1.0.0/apps/router/main.c:168-180 | In runs without failures each transmission is queued exactly once to each port of the kind recorded for it and never to another, its count equals its outstanding handles, and a shared message nobody can reach has been freed; which ports these are is the next two rows. |
| `RouterMessagesPaths.PortsGetWhatIsMeant` | bacnet-sys/bacnet-stack-1.0.0/apps/router/main.c:121-192 | In every interleaving of up to 256 ports, whatever fails: what a port has put on the wire, holds and has in its mailbox are, once each and in order, the messages meant for it by a history of the steps alone (a reply for the port that received the message, a routed message for the port it leads to, a broadcast for all but the port that received it, a search and the announcement for all), without those whose send failed or that were broadcast when the port had finished. |
| `RouterMessagesPaths.CleanRunsDeliverAsMeant` | bacnet-sys/bacnet-stack-1.0.0/apps/router/main.c:149-180 | In runs without failures a transmission has been queued once to every port it is meant for by that history, and never to another. |
| `RouterMessagesPaths.OriginsAreTrue` | bacnet-sys/bacnet-stack-1.0.0/apps/router/main.c:118-122 | In every interleaving the main thread takes the posted messages in their order, each with the port that received it. |
| `RouterMessagesPaths.CleanRunsMissNothing` | bacnet-sys/bacnet-stack-1.0.0/apps/router/main.c:168-180 | Without failures no send of the plan is missed. |
| `RouterMessagesMemory.MemoryIsAccountedFor` | bacnet-sys/bacnet-stack-1.0.0/apps/router/main.c:121-192 | After any run without failures the messages in memory are exactly those a thread can still reach and those main() forgets (a received one that is answered, searched for, invalid or met by failed allocation; the new one without an answer), the buffers exactly theirs, except that the octets of an invalid or unanswered message have been freed. |
| `RouterMessagesRuns.LastReleaseFrees` | bacnet-sys/bacnet-stack-1.0.0/apps/router/msgqueue.c:95-103 | check_data frees the message exactly when the caller held the last handle, and takes away exactly one handle. |
| `RouterMessagesRuns.FloodIsExactIffTwoPorts` | bacnet-sys/bacnet-stack-1.0.0/apps/router/main.c:174-180 | A routed broadcast starts with an exact count if and only if there are at least two ports. |
| `RouterMessagesRuns.StepDelivers` | bacnet-sys/bacnet-stack-1.0.0/apps/router/main.c:121-192 | Every step of a failure-free run keeps each port's deliveries equal to those the transmissions so far call for. |
| `RouterMessagesRuns.ProcessIsExact` | bacnet-sys/bacnet-stack-1.0.0/apps/router/main.c:121-192 | Whatever the main thread makes of a message, counts stay equal to handles and no shared message is left without one. |
| `RouterMessagesSafety.StepKeepsInv` | bacnet-sys/bacnet-stack-1.0.0/apps/router/ipmodule.c:78-128 | Every step of every thread keeps the ownership invariant (one owner, or handles within the count, over live memory with buffers of its own). |
| `RouterMessagesSafety.ReleaseStep` | bacnet-sys/bacnet-stack-1.0.0/apps/router/mstpmodule.c:109-128 | A port thread that releases a message keeps the invariant: it frees only what nobody else can reach. |
| `RouterMessagesSafety.ProcessStep` | bacnet-sys/bacnet-stack-1.0.0/apps/router/main.c:121-192 | The main thread's step on a received message, in all seven outcomes, keeps the invariant; the copy shares the received buffer until its own is stored. |
| `RouterMessagesSafety.SendMoves` | bacnet-sys/bacnet-stack-1.0.0/apps/router/main.c:176-180 | One turn of the send loop turns a pending send into a queued copy, or drops it; no other message changes. |
| `RouterProcess.Router.FreeData` | bacnet-sys/bacnet-stack-1.0.0/apps/router/msgqueue.c:83-93 | free_data as it changes the heap. |
| `RouterProcess.Router.CheckData` | bacnet-sys/bacnet-stack-1.0.0/apps/router/msgqueue.c:95-103 | check_data as it changes the heap: decrement with wrap, free at zero. |
| `RouterProcess.Router.SendToMsgbox` | bacnet-sys/bacnet-stack-1.0.0/apps/router/msgqueue.c:50-59 | A successful send appends to one mailbox; a failed one changes nothing. |
| `RouterProcess.Router.RecvFromMsgbox` | bacnet-sys/bacnet-stack-1.0.0/apps/router/msgqueue.c:61-72 | Taking the oldest message from a port's mailbox is the fetch step. |
| `RouterProcess.Router.ServeMessage` | bacnet-sys/bacnet-stack-1.0.0/apps/router/ipmodule.c:80-97 | One turn of a port thread is fetch, transmit and release, in this order. |
| `RouterProcess.Router.SendOne` | bacnet-sys/bacnet-stack-1.0.0/apps/router/main.c:171-180 | One turn of the send loop is one send step: skips the origin and finished ports. |
| `RouterProcess.Router.FanOut` | bacnet-sys/bacnet-stack-1.0.0/apps/router/network_layer.c:335-343 | The whole send loop is the run of its send steps and leaves the main thread idle. |
| `RouterProcess.Router.Dispatch` | bacnet-sys/bacnet-stack-1.0.0/apps/router/main.c:121-192 | The dispatch of one message is the process step, whose ports and frees are those of the rows above. |
| `PortThread.FindAfterAdd` | bacnet-sys/bacnet-stack-1.0.0/apps/router/portthread.c:48-111 | find_dnet after add_dnet changes only the answer for that network, and only if it was unresolved or resolved at a later port; then the answer is that port with the new MAC address. |
| `PortThread.ListsHoldFirstTold` | bacnet-sys/bacnet-stack-1.0.0/apps/router/portthread.c:82-111 | In every run no learned list repeats a network, and it holds exactly the networks told on its port, with the address of the first to tell. |
| `PortThread.FindInEveryRun` | bacnet-sys/bacnet-stack-1.0.0/apps/router/portthread.c:48-80 | In every run find_dnet answers with the lowest port that is on the network or was told of it, and there with the first router to tell; it finds nothing exactly if there is no such port. |
| `PortThread.FirstFreeIsLeast` | bacnet-sys/bacnet-stack-1.0.0/apps/router/main.c:843-857 | With fewer than 65535 ports the first free candidate is the least positive number that no port has, at most the port count plus one. |
| `PortThread.SomeFree` | bacnet-sys/bacnet-stack-1.0.0/apps/router/main.c:843-857 | With fewer than 65535 ports a free number exists, by pigeonhole. |
| `ThreadedRelay.LeavesIff` | bacnet-sys/bacnet-stack-1.0.0/apps/router/main.c:755-826 | Whether the threaded router relays an APDU depends on its routes and ports only, whatever the hop count; a copy with a DNET has the hop count received. |
| `ThreadedRelay.RelayedUnchanged` | bacnet-sys/bacnet-stack-1.0.0/apps/router/main.c:755-826 | A frame with a source behind another router goes on to a next router, or everywhere, without any change. |
| `ThreadedRelay.EveryRouteRelays` | bacnet-sys/bacnet-stack-1.0.0/apps/router/main.c:755-826 | On every way through routers that have a next router for it, a message is relayed at each of them, however often it comes by: no hop count bounds the relays (against section 6.5). |
| `ThreadedRelay.GoesAroundForEver` | bacnet-sys/bacnet-stack-1.0.0/apps/router/main.c:755-826 | Between two routers that take each other for the way, a message goes back and forth any number of times, even with hop count 0; so does a broadcast. |
| `ThreadedRelay.OriginIsNamed` | bacnet-sys/bacnet-stack-1.0.0/apps/router/main.c:776-783 | However a station's message travels on, it names that station's network and address, as long as it does not come back to that network. |
| `ThreadedRelay.BackHome` | bacnet-sys/bacnet-stack-1.0.0/apps/router/main.c:776-783 | A message that comes back to the network it is from is sent on with the address of the router it came from. |
| `ThreadedRoutes.RoutesOfEveryRun` | bacnet-sys/bacnet-stack-1.0.0/apps/router/portthread.c:48-111 | In every run, from the messages received alone: find_dnet gives the first port in the list that is on the network or on which a router named it, there with the first router to name it, and nothing exactly if there is no such port. A message names the list of an I-Am-Router-To-Network, or the first entry of an Initialize-Routing-Table or its acknowledgement. |
| `ThreadedRoutes.ApduInEveryRun` | bacnet-sys/bacnet-stack-1.0.0/apps/router/main.c:755-826 | In every run: an APDU for a directly connected network goes out once, on that port, to DADR, without DNET, DADR and hop count; one for a network that was named goes once to the first router to name it, as it is; one without a way is not sent; a broadcast goes once to every port but its own. The APDU is kept, and the source is the one it has if that lies behind another router, else the arrival network and the sender. |
| `ThreadedRoutes.ReplyInEveryRun` | bacnet-sys/bacnet-stack-1.0.0/apps/router/network_layer.c:55-193 | In every run, message by message: a Who-Is-Router-To-Network without a network gets exactly the other ports' networks and all named ones, one for a network is dropped, answered or made a search by where it is; Initialize-Routing-Table gets one entry per port, or none if it brought entries; What-Is-Network-Number gets an empty message; nothing else is answered. |
| `PortThreadProcess.ProcessMsg` | bacnet-sys/bacnet-stack-1.0.0/apps/router/main.c:755-826 | The frame made for the port that the list walk finds, or none and a search; what it holds is `ApduInEveryRun`. |
| `PortThreadProcess.DispatchApdu` | bacnet-sys/bacnet-stack-1.0.0/apps/router/main.c:141-181 | The ports that get the frame of an APDU and its address on the way: the port found with the next router's address if it is learned, or every other port once for a broadcast. |
| `PortThreadProcess.GetNextFreeDnet` | bacnet-sys/bacnet-stack-1.0.0/apps/router/main.c:843-857 | The scan that starts over at every hit ends whenever any number is free, and returns the least positive unused one (fewer than 65535 ports). |
| `PortThreadProcess.FindDnet` | bacnet-sys/bacnet-stack-1.0.0/apps/router/portthread.c:48-80 | The list walk returns the port, and the MAC address only for a learned network; a broadcast gets the first port. |
| `PortThreadProcess.AddDnet` | bacnet-sys/bacnet-stack-1.0.0/apps/router/portthread.c:82-111 | The list walk links a new node behind the list unless the port already knows the network; all other lists stay. |
| `PortThreadProcess.ProcessNetworkMessage` | bacnet-sys/bacnet-stack-1.0.0/apps/router/network_layer.c:35-193 | The handler's reply and its effect on the linked table are those of the received message; it has none exactly if the message is read past its end. |
| `PortThreadProcess.ReachableNets` | bacnet-sys/bacnet-stack-1.0.0/apps/router/network_layer.c:230-252 | The loops of a full I-Am-Router-To-Network produce the advertised list. |
| `PortThreadProcess.AckOf` | bacnet-sys/bacnet-stack-1.0.0/apps/router/network_layer.c:264-278 | The loop of the Initialize-Routing-Table-Ack produces the count and one entry per port. |
| `NetworkLayer.WhoIsInEveryRun` | bacnet-sys/bacnet-stack-1.0.0/apps/router/network_layer.c:55-83 | In every run a Who-Is-Router-To-Network for one network is dropped exactly if it came from that network, answered exactly if the router is on the network or was ever told of it, and made into a search otherwise. |
| `NetworkLayer.RunIsAllHeard` | bacnet-sys/bacnet-stack-1.0.0/apps/router/network_layer.c:85-161 | The table after any messages is the table that all their network lists, in order, make. |
| `NetworkLayer.AdvertisedMeansListed` | bacnet-sys/bacnet-stack-1.0.0/apps/router/network_layer.c:229-253 | The full list names every listed network but the one it is sent on, including those reached through that very port. |
| `NetworkLayer.AdvertisementTeaches` | bacnet-sys/bacnet-stack-1.0.0/apps/router/network_layer.c:85-96 | A full I-Am-Router-To-Network teaches exactly the sender's list, in order. |
| `NetworkLayer.NeighbourLearns` | bacnet-sys/bacnet-stack-1.0.0/apps/router/network_layer.c:85-96 | A router that hears a neighbour's list can afterwards reach exactly what it could before and the listed networks, new ones through that port and neighbour. |
| `RoutingTable.ResolveIsLookup` | bacnet-sys/bacnet-stack-1.0.0/apps/router-ipv6/main.c:119-149 | Searching the two-level list is lookup in the abstract map, hits and misses alike. |
| `RoutingTable.PortAddInserts` | bacnet-sys/bacnet-stack-1.0.0/apps/router-ipv6/main.c:181-220 | port_add is insert-if-absent into the map and keeps network numbers unique over ports and learned entries. |
| `RoutingTable.DnetAddInserts` | bacnet-sys/bacnet-stack-1.0.0/apps/router-ipv6/main.c:229-283 | dnet_add is insert-if-absent; without a port for snet it does nothing. |
| `RoutingTable.DnetAddAllResolves` | bacnet-sys/bacnet-stack-1.0.0/apps/router-ipv6/main.c:664-678 | Learning a list resolves every listed network: new ones through the port of snet with the sender's MAC, known ones as before; others stay. |
| `LinkedTable.Table.DnetFind` | bacnet-sys/bacnet-stack-1.0.0/apps/router-ipv6/main.c:119-149 | The walk over linked ports and their linked networks finds what the search of the table finds, with the learned MAC. |
| `LinkedTable.Table.PortFind` | bacnet-sys/bacnet-stack-1.0.0/apps/router-ipv6/main.c:151-173 | Only directly connected ports are found, with the port's own MAC. |
| `LinkedTable.Table.PortAdd` | bacnet-sys/bacnet-stack-1.0.0/apps/router-ipv6/main.c:181-220 | Walking to the last port and linking a node behind it is insertion at the end of the table. |
| `LinkedTable.Table.DnetAdd` | bacnet-sys/bacnet-stack-1.0.0/apps/router-ipv6/main.c:229-283 | Linking a node behind the list of the port is the insertion into the table; the lists stay acyclic and disjoint. |
| `LinkedTable.Table.EncodeReachable` | bacnet-sys/bacnet-stack-1.0.0/apps/router-ipv6/main.c:361-408 | The octets behind the header are the networks not reached through the port, in table order; the header stays. |
| `LinkedTable.Table.EncodeAck` | bacnet-sys/bacnet-stack-1.0.0/apps/router-ipv6/main.c:423-471 | The octets are the count modulo 256 and one entry per port, unless that count reads 0. |
| `LinkedTable.Table.DnetCleanup` | bacnet-sys/bacnet-stack-1.0.0/apps/router-ipv6/main.c:290-299 | Every node of one list is freed once, in order. |
| `LinkedTable.Table.Cleanup` | bacnet-sys/bacnet-stack-1.0.0/apps/router-ipv6/main.c:1064-1077 | Every node of the table, port or learned network, is freed exactly once, and nothing else is. |
| `Ipv6Router.RoutesNeverChange` | bacnet-sys/bacnet-stack-1.0.0/apps/router-ipv6/main.c:773-800 | In every reachable table no network occurs twice, dnet_find is lookup in the map, and a route once resolved stays the same for the rest of the run, including all that is learned while relaying. |
| `Ipv6Routes.RoutesOfEveryRun` | bacnet-sys/bacnet-stack-1.0.0/apps/router-ipv6/main.c:119-283 | The whole table of every run, from the packets received alone: a network resolves to the port that is on it, else to the router that first named it, through the port that packet came in on, else not at all. A packet names its source network if it is relayed, the list of an I-Am-Router-To-Network, the first entry of an Initialize-Routing-Table; ignored and undefined packets name none. |
| `Ipv6Routes.PacketTeaches` | bacnet-sys/bacnet-stack-1.0.0/apps/router-ipv6/main.c:773-800 | A relayed frame that was routed before teaches its source network through the router it came from; every other packet teaches exactly what it names. |
| `Ipv6Routes.MessageInEveryRun` | bacnet-sys/bacnet-stack-1.0.0/apps/router-ipv6/main.c:867-921 | In every run: a message with a way leaves exactly once, on the port of that way, to DADR without DNET and hop count if it is on that port, else to the next router with one hop less; APDU and source are kept, and a station's message gets the arrival network and the station's address; without a way nothing leaves or the code is undefined. |
| `Ipv6Routes.BroadcastGoesEverywhere` | bacnet-sys/bacnet-stack-1.0.0/apps/router-ipv6/main.c:843-864 | A global broadcast that is relayed leaves once on every other port of the table, in order, to everybody there, with its APDU, the source as above and one hop less. |
| `Ipv6Routes.WhoIsForAll` | bacnet-sys/bacnet-stack-1.0.0/apps/router-ipv6/main.c:361-408 | Who-Is-Router-To-Network without a network is answered on the port it came in on with exactly the networks reached through the others. |
| `Ipv6Routes.WhoIsForOne` | bacnet-sys/bacnet-stack-1.0.0/apps/router-ipv6/main.c:595-629 | For a network: answered with that network if the way is through another port, ignored if through this one, and asked on every other port if there is none. |
| `Ipv6Routes.OtherMessages` | bacnet-sys/bacnet-stack-1.0.0/apps/router-ipv6/main.c:646-763 | Initialize-Routing-Table is acknowledged to the low octet of the arrival network; an unknown message type is rejected with reason 3, to the sender's address and the source network it names; nothing else is answered. |
| `Ipv6Router.AfterExtends` | bacnet-sys/bacnet-stack-1.0.0/apps/router-ipv6/main.c:938-992 | One received packet, of any kind, keeps the invariant and every resolved route. |
| `Ipv6Router.UndefinedExactlyWhen` | bacnet-sys/bacnet-stack-1.0.0/apps/router-ipv6/main.c:938-992 | Exactly the packets on which a handler reads a null port or past the message: relaying to an unknown network; a global broadcast without an APDU; a network message for this router that is cut in its header and of a type that reads its payload, whose length wraps; odd I-Am and cut-off Initialize-Routing-Table payloads. |
| `Ipv6Router.IAmExchange` | bacnet-sys/bacnet-stack-1.0.0/apps/router-ipv6/main.c:664-678 | Router B decodes exactly the list router A sends; it names exactly the networks A reaches through another port; afterwards B resolves every one, new ones through the shared port with A's MAC and known ones as before (section 6.4.2 of ASHRAE 135). |
| `Ipv6Router.WhoIsForOneNetwork` | bacnet-sys/bacnet-stack-1.0.0/apps/router-ipv6/main.c:595-629 | Who-Is-Router-To-Network is answered if the way leads through another port, ignored if through the same port, and handed to datalink_send_pdu once for every other port if unknown (section 6.6.3.2). |
| `Ipv6Router.WhoIsOnTheLinks` | bacnet-sys/bacnet-stack-1.0.0/apps/router-ipv6/main.c:328-349 | On the two data links: the answer reaches the asking link, and the other one too exactly if the asking port has number 0; the search reaches the other link once, and comes back on the asking link exactly if the other port has number 0. |
| `Ipv6Router.PortsOfEveryRun` | bacnet-sys/bacnet-stack-1.0.0/apps/router-ipv6/main.c:1034-1057 | Whatever is received, the ports stay those of the two data links, one if both were given the same number. |
| `Ipv6Router.AckGoesBackIff` | bacnet-sys/bacnet-stack-1.0.0/apps/router-ipv6/main.c:423-471 | The Initialize-Routing-Table-Ack, whose network number passes through a uint8_t, reaches the link it was asked on exactly if the number is below 256 (and that link's own) or a multiple of 256; that link alone exactly for an own number from 1 to 255; the other link, or none, exactly as stated. |
| `Ipv6Router.BroadcastLeavesOnce` | bacnet-sys/bacnet-stack-1.0.0/apps/router-ipv6/main.c:857-864 | A global broadcast is handed to datalink_send_pdu exactly once for every port but the one it came in on, with its APDU and the source added (section 6.3.2). |
| `Ipv6Router.BroadcastOnTheLinks` | bacnet-sys/bacnet-stack-1.0.0/apps/router-ipv6/main.c:328-349 | On the two data links: it leaves on the other link once and never on its own exactly if the two have different numbers and the other's is not 0; with 0 it goes straight back as well. |
| `Ipv6Router.BroadcastMeetsHopRuleIff` | bacnet-sys/bacnet-stack-1.0.0/apps/router-ipv6/main.c:843-864 | The code does what its comment says (relay if the received hop count, less one, is greater than zero) if and only if the received count is more than 1 or there is no other port. |
| `Ipv6RouterProcess.Router.SendIAmRouterToNetwork` | bacnet-sys/bacnet-stack-1.0.0/apps/router-ipv6/main.c:361-408 | One broadcast with the one network or the full list. |
| `Ipv6RouterProcess.Router.WhoIsRouterToNetworkHandler` | bacnet-sys/bacnet-stack-1.0.0/apps/router-ipv6/main.c:595-629 | Answers, ignores or passes on. |
| `Ipv6RouterProcess.Router.NetworkControlHandler` | bacnet-sys/bacnet-stack-1.0.0/apps/router-ipv6/main.c:646-763 | Table, sends and undefined cases of every network message. |
| `Ipv6RouterProcess.Router.LearnNetworks` | bacnet-sys/bacnet-stack-1.0.0/apps/router-ipv6/main.c:664-678 | The loop over an I-Am list learns it all; it fails exactly on an odd length. |
| `Ipv6RouterProcess.Router.LearnRoutingTable` | bacnet-sys/bacnet-stack-1.0.0/apps/router-ipv6/main.c:731-743 | However many entries are announced, only the first is learned. |
| `Ipv6RouterProcess.Router.RoutedSrcAddress` | bacnet-sys/bacnet-stack-1.0.0/apps/router-ipv6/main.c:773-800 | A routed frame keeps its source and teaches the router it came from (`PacketTeaches`); a local one gets the port's network and the sender. |
| `Ipv6RouterProcess.Router.RoutedApduHandler` | bacnet-sys/bacnet-stack-1.0.0/apps/router-ipv6/main.c:821-921 | Relays to the destination, to the next router with whatever DNET the stack held, or to all other ports, and learns the source. |
| `Ipv6RouterProcess.Router.NpduHandler` | bacnet-sys/bacnet-stack-1.0.0/apps/router-ipv6/main.c:938-992 | Every decoded packet has the effect on table and sends that the specification gives it. |
| `RelayNetwork.HopCountBounds` | bacnet-sys/bacnet-stack-1.0.0/apps/router-ipv6/main.c:867-905 | Among routers of which none makes another relay what it has stripped of its destination, in any topology with any tables, cyclic or not, an addressed message with hop count h is relayed at most h - 1 times and keeps its APDU and source (section 6.5), and its destination if the leftovers are that destination. |
| `RelayNetwork.BoundHoldsIff` | bacnet-sys/bacnet-stack-1.0.0/apps/router-ipv6/main.c:829-905 | For any set of routers: the hop count bounds the relays of every message on every way through them if and only if no router lists a network 0 where one can deliver, and no router has another port where one can take a leftover 65535 for the DNET. |
| `RelayNetwork.DeliveredIsRelayedIff` | bacnet-sys/bacnet-stack-1.0.0/apps/router-ipv6/main.c:867-887 | A delivered message, without DNET, is relayed again exactly by a router that has learned a network 0. |
| `RelayNetwork.OneCopy` | bacnet-sys/bacnet-stack-1.0.0/apps/router-ipv6/main.c:867-905 | A router makes at most one send of an addressed message, with the hop count lowered by one, or removed with the DNET. |
| `RelayNetwork.OriginIsNamed` | bacnet-sys/bacnet-stack-1.0.0/apps/router-ipv6/main.c:773-800 | However a station's message travels on among the routers, it keeps its APDU and names the network and the address of that station, if the port where it was taken up has a number other than 0. |
| `RelayNetwork.KeepsDestinationIff` | bacnet-sys/bacnet-stack-1.0.0/apps/router-ipv6/main.c:829-905 | A message keeps its destination whatever the unset variable holds if and only if its way does not lead through a next router; if it does, exactly if the variable happens to hold DNET and DADR. |
| `RelayNetwork.BoundIsReached` | bacnet-sys/bacnet-stack-1.0.0/apps/router-ipv6/main.c:888-905 | For every hop count there is a run, with the DNET kept, of exactly h - 1 relays. |
| `RelayNetwork.BroadcastGoesAroundForEver` | bacnet-sys/bacnet-stack-1.0.0/apps/router-ipv6/main.c:848-865 | In a ring of two routers a global broadcast is relayed any number of times, whatever its hop count. |
| `RelayNetwork.LeftBroadcastHasNoBound` | bacnet-sys/bacnet-stack-1.0.0/apps/router-ipv6/main.c:829-905 | An addressed message whose DNET one router replaces by a leftover 65535 is relayed any number of times. |
| `Npdu.FrameRoundTrip` | bacnet-sys/bacnet-stack-1.0.0/src/bacnet/npdu.c:129-226 | Every frame that npdu_encode_pdu writes is what npdu_decode reads, whatever its buffer holds behind the message. |
| `Npdu.CutInHeader` | bacnet-sys/bacnet-stack-1.0.0/src/bacnet/npdu.c:344-502 | A message cut anywhere inside its header is never decoded as a whole one, whatever its buffer holds behind it. |
| `Npdu.HeaderOctets` | bacnet-sys/bacnet-stack-1.0.0/src/bacnet/npdu.c:129-226 | The header octet by octet: version, control bits, the specifiers with the network's high octet first, hop count and message type (sections 6.2.1 to 6.2.4). |
| `NetworkMessages.ReachableMeansOtherPort` | bacnet-sys/bacnet-stack-1.0.0/apps/router-ipv6/main.c:361-408 | The advertised list names exactly the networks resolved through another port. |
| `NetworkMessages.AckRoundTrip` | bacnet-sys/bacnet-stack-1.0.0/apps/initrouter/main.c:127-168 | Parsing the acknowledgement of either router ends and gives back each port's network with ids 1, 2, ... in table order and the count (at most 255 ports; section 6.4.8). |
| `NetworkMessages.AckEntryAt` | bacnet-sys/bacnet-stack-1.0.0/apps/router-ipv6/main.c:447-466 | Four octets a port, for any number of ports: the network, its number modulo 256, no port info. |
| `NetworkMessages.AckLengths` | bacnet-sys/bacnet-stack-1.0.0/apps/router-ipv6/main.c:444-448 | With a multiple of 256 ports the count octet reads 0; then this router sends no entries and the threaded one all of them. |
| `NetworkMessages.HangsIffPortInfo` | bacnet-sys/bacnet-stack-1.0.0/apps/initrouter/main.c:154-164 | The parser fails to end exactly on payloads with a nonzero port info length at an entry it reaches. |
| `NetworkMessages.MyRouterHandler` | bacnet-sys/bacnet-stack-1.0.0/apps/initrouter/main.c:127-168 | The offset and length loop parses what the specification parses. |
| `Octets.NetsRoundTrip` | bacnet-sys/bacnet-stack-1.0.0/apps/router-ipv6/main.c:396-400 | Decoding an encoded list of network numbers gives it back. |
| `FrameStatistics.MaximaAreExact` | bacnet-sys/bacnet-stack-1.0.0/apps/mstpcap/main.c:201-312 | After any frames and clears, each maximum (token reply, usage timeout, poll reply, data reply, postponed reply, max master) is the largest of the qualifying values since the last clear, or zero; the frame before a qualifying one may lie before the clear. |
| `FrameStatistics.NpollIsExact` | bacnet-sys/bacnet-stack-1.0.0/apps/mstpcap/main.c:239-247 | npoll is the largest number of tokens a station received between two of its polls since the clear, where the first came after at least one token (modulo 2^32). |
| `FrameStatistics.CountersAreExact` | bacnet-sys/bacnet-stack-1.0.0/apps/mstpcap/main.c:202-297 | Every counter is the number of its frames since the last clear, modulo 2^32. |
| `FrameStatistics.DeviceIdIsLatest` | bacnet-sys/bacnet-stack-1.0.0/apps/mstpcap/main.c:288-296 | The device id of a station is that of its last I-Am since the clear, or the one that stands for none. |
| `FrameStatistics.ContextIsHistory` | bacnet-sys/bacnet-stack-1.0.0/apps/mstpcap/main.c:312-317 | What a frame is compared with is the frame before it and the last token frame, whether or not the statistics were cleared in between. |
| `FrameStatistics.TokensAreConserved` | bacnet-sys/bacnet-stack-1.0.0/apps/mstpcap/main.c:203-204 | Over all 256 stations, tokens sent and tokens received both sum to the token frames since the clear, exactly below 2^32 and modulo 2^32 beyond. |
| `FrameStatistics.MillisAreClose` | bacnet-sys/bacnet-stack-1.0.0/apps/mstpcap/main.c:137-146 | The computed delay differs from the elapsed time by less than a millisecond, in either direction. |
| `FrameStatisticsProcess.Statistics.Packet` | bacnet-sys/bacnet-stack-1.0.0/apps/mstpcap/main.c:186-318 | The in-place update of the table and the static variables extends the trace by the frame. |
| `FrameStatisticsProcess.Statistics.TokenFrame` | bacnet-sys/bacnet-stack-1.0.0/apps/mstpcap/main.c:202-237 | The token branch updates sender and receiver, also when they are the same station, as the specification says, and no other. |
| `FrameStatisticsProcess.Statistics.PollFrame` | bacnet-sys/bacnet-stack-1.0.0/apps/mstpcap/main.c:238-259 | The poll branch changes only the sender's entry, as specified. |
| `FrameStatisticsProcess.Statistics.OtherFrame` | bacnet-sys/bacnet-stack-1.0.0/apps/mstpcap/main.c:260-309 | The other branches change only the sender's entry, as specified. |
| `FrameStatisticsProcess.Statistics.Clear` | bacnet-sys/bacnet-stack-1.0.0/apps/mstpcap/main.c:390-399 | Clearing resets every entry and leaves the memory of the last frame alone. |
| `Capture.CaptureRoundTrip` | bacnet-sys/bacnet-stack-1.0.0/apps/mstpcap/main.c:726-845 | Frames written with full headers are read back as they were received; a capture cut off at any octet is read back as exactly the frames that are in it whole. |
| `Capture.RecordRoundTrip` | bacnet-sys/bacnet-stack-1.0.0/apps/mstpcap/main.c:585-651 | One record is read back with all fields, data and CRC octets, and reading stops at its end. |
| `Capture.AlignedIffFullHeader` | bacnet-sys/bacnet-stack-1.0.0/apps/mstpcap/main.c:764-770 | A frame without data is read to the end of its record if and only if its header was written in full. |
| `Replay.FinalIsOutcome` | bacnet-sys/bacnet-stack-1.0.0/src/bacnet/datalink/mstp.c:346-562 | For every frame, complete or cut anywhere, the receiver's verdict and what it leaves for the capture follow from the octets, their two CRCs and the length announced. |
| `Replay.ReadRightIff` | bacnet-sys/bacnet-stack-1.0.0/apps/mstpcap/main.c:726-845 | The record of one frame is judged and read as the frame was received if and only if the frame was not cut between its good header and its data, is not longer than the input buffer (unless the kept part has the same CRC and no I-Am), and no leftover octets complete a cut one. |
| `Replay.ReplayIsLiveIff` | bacnet-sys/bacnet-stack-1.0.0/apps/mstpcap/main.c:1020-1024 | A scan of a capture counts, frame by frame, what was counted live if and only if no frame in it is one of those. |
| `Replay.CutTokenIsCounted` | bacnet-sys/bacnet-stack-1.0.0/apps/mstpcap/main.c:594-616 | A token with a length that is cut right behind its header is not counted live and is counted when scanned. |
| `Replay.LongFrameIsLost` | bacnet-sys/bacnet-stack-1.0.0/apps/mstpcap/main.c:613-619 | A valid frame longer than the input buffer is counted live and not when scanned. |
| `Replay.ReplayedStatistics` | bacnet-sys/bacnet-stack-1.0.0/apps/mstpcap/main.c:834-839 | Scanning a capture gives every station the statistics it had live, if none of its frames is one of those misread. |
| `CaptureProcess.Recorder.WriteReceivedPacket` | bacnet-sys/bacnet-stack-1.0.0/apps/mstpcap/main.c:585-651 | Appends one record and counts valid frames. |
| `CaptureProcess.Recorder.ReadReceivedPacket` | bacnet-sys/bacnet-stack-1.0.0/apps/mstpcap/main.c:726-845 | Reads one record, judges it by its CRCs and counts it; a short read closes the file, and a record with too much data overruns the input buffer. |
| `CaptureProcess.Recorder.Scan` | bacnet-sys/bacnet-stack-1.0.0/apps/mstpcap/main.c:1020-1024 | The scan loop reads all packets and extends the trace by those that count, up to a record that overruns the input buffer. |
| `DeviceObjects.ObjectListCount` | bacnet-sys/bacnet-stack-1.0.0/apps/piface/device.c:620-635 | The count is the length of the concatenation of all per-type lists. |
| `DeviceObjects.ObjectListIdentifier` | bacnet-sys/bacnet-stack-1.0.0/apps/piface/device.c:647-694 | Index i gives the i-th element of the concatenation for 1..count, with or without an iterator, and fails otherwise; the unsigned subtraction never wraps. |
| `DeviceObjects.ReadObjectList` | bacnet-sys/bacnet-stack-1.0.0/apps/piface/device.c:981-1027 | The read of Object_List for index 0, one element, all, or a bad index; nothing past apdu_max is written (apdu_max at least 5). |
| `DeviceObjects.WholeReadIsElementReads` | bacnet-sys/bacnet-stack-1.0.0/apps/piface/device.c:990-1022 | A whole read aborts exactly if count > 1 and 5 * count >= apdu_max; otherwise it is the element reads in order, and decoding gives back the identifiers (section 20.2.14). |
| `DeviceObjects.OtherReads` | bacnet-sys/bacnet-stack-1.0.0/apps/piface/device.c:981-1027 | Index 0 gives the count, any other index outside 1..N an invalid array index. |
| `DeviceObjects.ObjectIdRoundTrip` | bacnet-sys/bacnet-stack-1.0.0/apps/piface/device.c:995-997 | Decoding a five-octet object identifier, tag and all, gives it back. |
| `DeviceObjects.ObjectIdOctets` | bacnet-sys/bacnet-stack-1.0.0/apps/piface/device.c:995-997 | The octets are the tag 0xC4, then ten bits of type and 22 of instance, the high octets first. |
| `DeviceObjects.ValidObjectName` | bacnet-sys/bacnet-stack-1.0.0/apps/piface/device.c:705-738 | Finds the first object with the name, exactly when one exists. |
| `DeviceObjects.FindEntry` | bacnet-sys/bacnet-stack-1.0.0/apps/piface/device.c:109-124 | The table walk finds the first entry of the type. |
| `DeviceNames.NamesStayDistinct` | bacnet-sys/bacnet-stack-1.0.0/apps/piface/device.c:1198-1217 | Over any sequence of name and identifier writes, valid or not, all object names in the device stay pairwise distinct. |
| `DeviceNames.WritesTakeEffect` | bacnet-sys/bacnet-stack-1.0.0/apps/piface/device.c:1136-1217 | After any writes the device has the last valid name that is no other object's, the last instance in range, and a database revision that counts every change. |
| `DeviceNames.Device.WriteObjectName` | bacnet-sys/bacnet-stack-1.0.0/apps/piface/device.c:1198-1217 | The name is taken unless it belongs to an object; writing a name of another object is a duplicate, writing the own name succeeds and changes nothing. |
| `DeviceNames.Device.WriteObjectIdentifier` | bacnet-sys/bacnet-stack-1.0.0/apps/piface/device.c:1136-1151 | The instance changes exactly for a device identifier in range, and names stay distinct. |
| `DeviceNames.FoundAtDevice` | bacnet-sys/bacnet-stack-1.0.0/apps/piface/device.c:1204-1210 | With distinct names the search ends at the Device object exactly for its own name. |
| `FileTransfer.WrittenExactly` | bacnet-sys/bacnet-stack-1.0.0/apps/writefile/main.c:256-298 | A writefile run that ends without an error has written the whole file, or all but the short chunk at the end if that last request got no invoke id; octets beyond stay. |
| `FileTransfer.WrittenIff` | bacnet-sys/bacnet-stack-1.0.0/apps/writefile/main.c:259-291 | Into an empty file the result equals the local file if and only if the last request went out or had nothing to carry. |
| `FileTransfer.WriteRunTiles` | bacnet-sys/bacnet-stack-1.0.0/apps/writefile/main.c:263-291 | In every run the acknowledged chunks tile the file from its start with no gap or overlap, and the chunk under way comes next. |
| `FileTransfer.WritingEnds` | bacnet-sys/bacnet-stack-1.0.0/apps/writefile/main.c:256-291 | As long as nothing fails, one request per chunk that gets an invoke id, and two more at most, end the run, however many turns wait or fail to send. |
| `FileTransfer.WritingFailsIff` | bacnet-sys/bacnet-stack-1.0.0/apps/writefile/main.c:256-298 | A writefile run has an error at its end exactly if an error, abort or reject came, or the invoke id failed, before it was over. |
| `FileTransfer.ErrorEndsWriting` | bacnet-sys/bacnet-stack-1.0.0/apps/writefile/main.c:256-298 | After an error the device gets nothing more, and the run is over as soon as the invoke id is free or fails. |
| `FileTransfer.ReadRunFetches` | bacnet-sys/bacnet-stack-1.0.0/apps/readfile/main.c:116-157 | Through lost, repeated and foreign answers and sends without invoke id, local[..pos] equals remote[..pos], and a run that ends without an error has fetched the whole file. |
| `FileTransfer.ReadingEnds` | bacnet-sys/bacnet-stack-1.0.0/apps/readfile/main.c:355-366 | As long as nothing fails, one usable answer per chunk, and one more at most, end the run with the whole file at the next free turn, through any waiting, lost, repeated and foreign answers. |
| `FileTransfer.ReadingFailsIff` | bacnet-sys/bacnet-stack-1.0.0/apps/readfile/main.c:340-385 | The same of a readfile run. |
| `FileTransfer.ErrorEndsReading` | bacnet-sys/bacnet-stack-1.0.0/apps/readfile/main.c:340-385 | After an error no further request goes out, and the run is over as soon as the invoke id is free or fails. |
| `FileTransfer.WriteThenRead` | bacnet-sys/bacnet-stack-1.0.0/apps/readfile/main.c:116-157 | A file sent with writefile and fetched with readfile comes back unchanged. |
| `FileTransfer.ChunksFit` | bacnet-sys/bacnet-stack-1.0.0/apps/writefile/main.c:240-254 | A chunk is not empty and leaves 16 octets of room exactly if the smaller APDU exceeds the overhead. |
| `FileTransfer.TypicalChunks` | bacnet-sys/bacnet-stack-1.0.0/apps/readfile/main.c:335-354 | The chunk sizes for APDUs of 50, 128, 206, 480, 1024 and 1476 octets. |
| `FileTransferProcess.WriteFile.Turn` | bacnet-sys/bacnet-stack-1.0.0/apps/writefile/main.c:258-298 | One turn of the loop of writefile. |
| `FileTransferProcess.WriteFile.Run` | bacnet-sys/bacnet-stack-1.0.0/apps/writefile/main.c:212-310 | The loop is the run of its turns. |
| `FileTransferProcess.ReadFile.AtomicReadFileAckHandler` | bacnet-sys/bacnet-stack-1.0.0/apps/readfile/main.c:105-165 | The acknowledgement handler stores the chunk, or ignores a foreign one. |
| `FileTransferProcess.ReadFile.Run` | bacnet-sys/bacnet-stack-1.0.0/apps/readfile/main.c:313-385 | The loop and its handlers are the run of their events. |
| `ReadProperty.CallReturnsItsAnswer` | bacnet/src/lib.rs:247-313 | A call returns what the last answer from the device's address with the call's invoke id says: never a value left by an earlier call, never NoValueWasExtracted; it panics exactly if the invoke id was freed without any answer. |
| `ReadProperty.CallInEveryRun` | bacnet/src/lib.rs:238-317 | After any connects and calls, a call returns what the replies during it say, for the address with which the device was last found; not connected exactly if it was never found; and a panic exactly if its id is freed unanswered, or that happened in any call before: the panic leaves the lock of the map poisoned. |
| `ReadProperty.CallKeepsDevices` | bacnet/src/lib.rs:296-313 | A call adds and removes no device and changes no address. The called one has no request once the id is free, and loses its value exactly if the last answer brought one; every other device is as the answers to its own request leave it. |
| `ReadProperty.MemoryOfUses` | bacnet/src/lib.rs:190-256 | After any connects and calls the map holds exactly the devices that were found, each with its last address, until the lock is poisoned. |
| `ReadProperty.Client.ReadPropAt` | bacnet/src/lib.rs:238-317 | The whole memory after a call and its result, from its turns, as the next two rows describe them; the invariant of the map is kept. |
| `ReadProperty.Client.FindMatchingDevice` | bacnet/src/lib.rs:893-909 | Walking the map in any order finds a device with the address and pending id, exactly if there is one. |
| `ReadProperty.Client.HandleReply` | bacnet/src/lib.rs:586-607 | A reply changes exactly the device it matches. |
| `ReadProperty.Client.Connect` | bacnet/src/lib.rs:175-206 | Connecting replaces the device's entry, fails if the device is not found, and panics if the lock is poisoned. |
| `AddressTable.EveryTable` | bacnet-sys/bacnet-stack-1.0.0/apps/whois/main.c:94-120 | After any I-Am messages: no two entries with the same id and address, the flag exactly where another entry has the id, an entry for every sender, and none that nobody sent. |
| `AddressTable.TableListsFirstMessages` | bacnet-sys/bacnet-stack-1.0.0/apps/whois/main.c:94-120 | The table lists exactly the messages that repeat no earlier one, with their max APDU, in the order they came. |
| `AddressTable.FlagsAlreadySet` | bacnet-sys/bacnet-stack-1.0.0/apps/whois/main.c:100-110 | The early return leaves the table as it was: the flags set on the way were already set. |
| `AddressTable.Table.AddressTableAdd` | bacnet-sys/bacnet-stack-1.0.0/apps/whois/main.c:94-120 | The walk that flags in place and links at the end has the specified effect; first and last delimit the list. |
| `AddressTable.Table.AllocAddressEntry` | bacnet-sys/bacnet-stack-1.0.0/apps/whois/main.c:81-92 | Links one node behind the last. |
| `AddressTable.AddressSame` | bacnet-sys/bacnet-stack-1.0.0/src/bacnet/bacaddr.c:60-101 | The octet loops decide equality of the significant octets. |
| `Epics.EveryRunEndsItsList` | bacnet-sys/bacnet-stack-1.0.0/apps/epics/main.c:816-885 | In every run the property list ends in -1 at its length and not before, with the index inside, whenever a property is asked for or waited for. |
| `Epics.StepKeepsInv` | bacnet-sys/bacnet-stack-1.0.0/apps/epics/main.c:1491-1806 | Every turn of every state keeps this. |
| `Epics.ListOfAllIsComplete` | bacnet-sys/bacnet-stack-1.0.0/apps/epics/main.c:914-985 | A reply to "list of all" becomes the list of exactly the properties it mentions: the others in order, then the structured object list and the object list, each once. |
| `Epics.WalkAsksInOrder` | bacnet-sys/bacnet-stack-1.0.0/apps/epics/main.c:1685-1696 | A walked array whose element reads succeed in the end is asked for at indices 0, 1, ..., N in order, with any turns of waiting in between and one more request for each loss, before the next property. |
| `Epics.RefusedArrayIsWalked` | bacnet-sys/bacnet-stack-1.0.0/apps/epics/main.c:1686-1733 | From any state about to ask for a long array: if the device refuses the whole, the requests are the whole array and then indices 0, 1, ..., N in order, through any waiting and with one more request for each loss, and then comes the next property. |
| `Epics.RefusedArrayIsWalkedOnce` | bacnet-sys/bacnet-stack-1.0.0/apps/epics/main.c:1686-1733 | Without losses the log is exactly the whole array, then 0, 1, ..., N. |
| `Epics.FallsBackToWalk` | bacnet-sys/bacnet-stack-1.0.0/apps/epics/main.c:1697-1733 | A refused request starts a walk from index 0 exactly if it was for a whole long array and the property is not unknown; otherwise the property is skipped, and after the last one the object. |
| `Epics.AskingSettles` | bacnet-sys/bacnet-stack-1.0.0/apps/epics/main.c:823-851 | Once a property was asked for, the fixed list is not replaced by another before the next object. |
| `EpicsFallback.RefusalLeadsTo` | bacnet-sys/bacnet-stack-1.0.0/apps/epics/main.c:1592-1618 | A refused ReadPropertyMultiple: an unrecognized service turns it off for good, and it, an answer that cannot be segmented, or a refused list of all has the object's fixed list read property by property; any other refusal of all values has the list of all asked for. |
| `EpicsFallback.AnswerLeadsTo` | bacnet-sys/bacnet-stack-1.0.0/apps/epics/main.c:1578-1591 | All values that come finish the object; a list of all that comes is read property by property, or the fixed list if it is empty or the service was refused before. |
| `EpicsFallback.SilenceLeadsTo` | bacnet-sys/bacnet-stack-1.0.0/apps/epics/main.c:1592-1642 | A lost or timed-out request is made again (by property if the service was refused), an error of an open request gives the object up, and else the scanner waits. |
| `EpicsFallback.MultipleIsAsked` | bacnet-sys/bacnet-stack-1.0.0/apps/epics/main.c:1523-1566 | A request for many properties starts the object anew and is made again if it cannot be sent, but for the one for the heading. |
| `EpicsFallback.NextObjectIsAsked` | bacnet-sys/bacnet-stack-1.0.0/apps/epics/main.c:1791-1796 | The next object is asked for all its values, or read by its fixed list once the service has been refused. |
| `EpicsFallback.BindingComesFirst` | bacnet-sys/bacnet-stack-1.0.0/apps/epics/main.c:1491-1521 | Nothing is asked before the device is bound; then the heading is. |
| `EpicsFallback.RejectedForGoodIff` | bacnet-sys/bacnet-stack-1.0.0/apps/epics/main.c:1600-1604 | After a reject of ReadPropertyMultiple as unrecognized, some later state of the run asks with it again if and only if the request for a property times out, in every run. |
| `EpicsFallback.RefusedIsReadByProperty` | bacnet-sys/bacnet-stack-1.0.0/apps/epics/main.c:1646-1745 | After a refusal that leaves single properties, every run of sent requests that are answered, refused or lost asks for the object's fixed list in order, each property at least once, and, if the service is unrecognized, for that of every object visited after it. |
| `EpicsFallback.ListOfAllIsRead` | bacnet-sys/bacnet-stack-1.0.0/apps/epics/main.c:914-985 | A list of all that came is asked for property by property, in its order, before the next object. |
| `EpicsFallback.TimeOutStartsOver` | bacnet-sys/bacnet-stack-1.0.0/apps/epics/main.c:1734-1740 | Against its comment a timed-out property is not asked for again: the heading is printed and the whole object asked for, and where that is refused the object is read again from its first property. |
| `EpicsFallback.ErrorIsNew` | bacnet-sys/bacnet-stack-1.0.0/apps/epics/main.c:1378-1383 | In every run an error that was reported belongs to the request that is open. |
| `EpicsFallback.WalkedIff` | bacnet-sys/bacnet-stack-1.0.0/apps/epics/main.c:1697-1733 | In every run of the scanner a refused property is walked from index 0 if and only if it is one of the five arrays, was asked for as a whole, and the error is neither of class property nor an unknown property; any other is skipped. |
| `EpicsFallback.HeadingIsPrinted` | bacnet-sys/bacnet-stack-1.0.0/apps/epics/main.c:1568-1642 | The heading is printed after its request whatever comes of it. |
| `EpicsAsserts.RunAssertsIff` | bacnet-sys/bacnet-stack-1.0.0/apps/epics/main.c:590-690 | In every run an assertion on printed values fails exactly if one of them is, in a walk, for another index than the one asked for, or no identifier where identifiers belong, but for a null in the first place. |
| `Epics.VisitsEveryObject` | bacnet-sys/bacnet-stack-1.0.0/apps/epics/main.c:1764-1798 | In every run of turns that print only harmless values, the NEXT_OBJECT turns move to the objects left in the list, in order and without the device; a run that comes to its end has visited them all, a shorter one a prefix. |
| `Epics.HarmlessIff` | bacnet-sys/bacnet-stack-1.0.0/apps/epics/main.c:590-661 | Exactly which printed values leave what is to be visited as it is, from the keys, the place and the value: outside the device's own list and outside a walk an object listed no later than the place, or nothing to visit at the place and no new object; in a walk a new device, or a key behind a device. |
| `Epics.KeysAreListed` | bacnet-sys/bacnet-stack-1.0.0/apps/epics/main.c:653-660 | In every run the object list is the one at the start with all object identifiers added that printed object lists held since. |
| `Epics.ListedObjectsAreVisited` | bacnet-sys/bacnet-stack-1.0.0/apps/epics/main.c:1764-1798 | From the start of the scan: after the device, a run of harmless turns that comes to its end has visited exactly the listed objects that are no devices, each as often as it was listed, in order of type and instance. |
| `Epics.ListedObjectsSkip` | bacnet-sys/bacnet-stack-1.0.0/apps/epics/main.c:615-620 | One value of an object list in the reply of another object moves the place on, and the next object is not visited. |
| `EpicsProcess.Scanner.Turn` | bacnet-sys/bacnet-stack-1.0.0/apps/epics/main.c:1491-1806 | One turn of main() over the static variables is one step; where the steps lead is `EpicsFallback`. |
| `EpicsProcess.Scanner.ReadProperties` | bacnet-sys/bacnet-stack-1.0.0/apps/epics/main.c:816-885 | Rebuilds the list where needed and asks for the property at the index. |
| `EpicsProcess.Scanner.ProcessListOfAll` | bacnet-sys/bacnet-stack-1.0.0/apps/epics/main.c:914-985 | The loops leave the list, its length and its end marker in the array. |
| `EpicsProcess.Scanner.PrintReadPropertyData` | bacnet-sys/bacnet-stack-1.0.0/apps/epics/main.c:587-767 | The state kept while values are printed: walk length and index, the object list. |
| `EpicsProcess.Scanner.SkipDevices` | bacnet-sys/bacnet-stack-1.0.0/apps/epics/main.c:1766-1798 | The loop stops at the next object that is not a device, or at the end. |

## Left out

- Sockets, serial ports, pipes, System V queues as such, threads, signals, command lines, configuration files, printing and clocks: foreign calls, modelled as inputs or recorded outputs.
- APDU codecs, the transaction state machine, CRC tables and key list internals: APDUs arrive decoded or as octets, the CRC routines are parameters, the key list is an ordered sequence. In the code of the routers the NPDU header in front of a message is an opaque prefix of seven octets; `Npdu` is the header itself.
- RouterMessagesRuns.EveryRunIsSafe: `process_msg` is taken to produce a message of positive length, -1 or -2; shutdown is only a port that finishes.
- RouterMessagesMemory.MemoryIsAccountedFor: runs without failed sends, finished ports and a flood on a single port (`FloodIsExactIffTwoPorts`); a failed allocation or post is covered.
- RouterProcess.Router.CheckData: runs as one step because the code holds a mutex; the copy loops between threads are otherwise interleaved at the granularity of mailbox operations.
- PortThreadProcess.ProcessNetworkMessage: says nothing of the table after a message that is read past its end (a one-octet Who-Is, an empty Reject-Message-To-Network, a cut-off Initialize-Routing-Table), nor of the 128-octet message buffer, nor of a message cut inside its header; of a Reject-Message-To-Network the reason octet is read and printed, other types only print.
- PortThreadProcess.GetNextFreeDnet: the scan of the code does not end when all 65536 numbers are used, which its precondition excludes.
- Ipv6Router.RoutesNeverChange: network numbers 0 and 65535 are ordinary table entries here, as in the code; where a port numbered 0 matters is said in `AckGoesBackIff`, `WhoIsOnTheLinks` and `BroadcastOnTheLinks`, where a learned network 0 does in `DeliveredIsRelayedIff`.
- Ipv6RouterProcess.Router.RoutedApduHandler: the DNET and DADR for the next router, which the code never sets (main.c:829-905), are a parameter; its comment intends those of the message.
- Ipv6RouterProcess.Router.NpduHandler: the transmit buffer is taken to have room for the table and for the relayed APDU with its header; the code checks neither, and a frame of nearly MAX_MPDU octets overruns it. Local application processing after relaying, which gets an empty APDU as well, is left out.
- Ipv6Router.UndefinedExactlyWhen: speaks of null ports and of reads past the message in the router's own handlers, not of writes past the transmit buffer.
- ThreadedRelay.LeavesIff: all ports run, and the header is decoded; a route to the port the message came from is not excluded, as in the code.
- PortThreadProcess.DispatchApdu: finished ports, which get no broadcast, are in `RouterMessagesPaths` only.
- EpicsFallback.RefusedIsReadByProperty: a request that cannot be sent is taken for the end of the list, and a time-out starts over (`TimeOutStartsOver`); runs with either are not covered.
- Ipv6Routes.RoutesOfEveryRun: packets come in on the router's own two data links; the run of the code ends where it is undefined, the model goes on with the table as it was.
- LinkedTable.Table.DnetAdd: finding the port and walking to the end of its list are separate walks here.
- RelayNetwork.HopCountBounds: follows one addressed message from router to router; a router that sends nothing passes the turn on.
- RelayNetwork.OneCopy: counts calls of datalink_send_pdu; a call for a port numbered 0 goes out on both data links.
- Npdu.CutInHeader: the vendor id of proprietary message types is part of the payload here, which no handler reads.
- NetworkMessages.AckRoundTrip: 256 ports or more do not fit the count octet; what is sent then is `AckLengths` and `AckEntryAt`.
- FrameStatistics.CountersAreExact: the I-Am decoder is a parameter; the invalid frame count is kept in `CaptureProcess` only.
- CaptureProcess.Recorder.ReadReceivedPacket: says nothing of the position in the file after a record with more data than the input buffer, which the code reads past the buffer's end.
- Capture.CaptureRoundTrip: the global header of the file and the named pipe are left out; the input buffer has at least one octet. Noise outside frames, written with one or two header octets, misaligns the reader as `AlignedIffFullHeader` says.
- Replay.ReplayIsLiveIff: the captures it speaks of hold full headers only, and the clock fits 32 bits. The I-Am decoder is a function of the data octets here; the code gives it no length, so that behind a truncated I-Am it reads older octets of the input buffer, and the device id can differ between live and scanned frames.
- Replay.ReplayedStatistics: the same holds of the device id of a station.
- DeviceObjects.ObjectListIdentifier: types that count objects are taken to have an index function, as all entries of the table do, and an unsigned int can count one past all objects.
- DeviceNames.NamesStayDistinct: names of other objects are fixed, no other entry has the device type, and string validation is a parameter.
- FileTransfer.WrittenExactly: padding of the last chunk is left out (it starts one octet late in the code); a device carries out a request whose id is freed without an error.
- FileTransfer.ReadRunFetches: the device answers a request always with the octets asked for; a local file that is opened but only partly written is left out; the chunk that ends the file can be saved.
- ReadProperty.Client.HandleReply: addresses of connected devices are taken to be distinct; with equal ones the map's order decides which device gets the reply. Decoding of values is a parameter.
- ReadProperty.CallInEveryRun: one thread, which outlives the panic; another thread's calls between two turns are left out.
- AddressTable.Table.AddressTableAdd: allocation does not fail.
- Epics.WalkAsksInOrder: every request gets an invoke id (0 is taken for the end of the list), and the answers name the property and index asked for; after a time-out in the middle of a walk (state number 3, `Using_Walked_List` left set) nothing is claimed about the walk.
- Epics.StepKeepsInv: replies to "list of all" name fewer than 128 properties; longer ones overrun the list before the code's assertion.
- EpicsProcess.Scanner.Turn: times, printing, the heading values and the transaction assertions after a reply are left out; failed assertions are recorded, not acted on.
- Epics.VisitsEveryObject: object types have ten bits; values whose effects on the visits cancel each other are not considered, only values that have none.
- The other command-line clients (`apps/readprop`, `writeprop`, `iam`, `whohas` and the like) send one request, print one answer and keep no state; `apps/server` and `apps/gateway` hand packets to library handlers; the Perl bindings, the Arduino and other ports, `bacnet/src/value.rs` and the examples translate calls and types.
- `apps/ptransfer`: its sources are not well-formed C.
- `Device_local_reporting` in `apps/piface/device.c`, shutdown in `apps/router`, and property reads other than Object_List.
