# Verification of a DMX bridge and its Art-Net library

A Dafny model of the stateful parts of a ChucK DMX plug-in (`DMX.cpp`), of the Art-Net library it
drives (`libartnet`) and of the line reader of its serial library. Operations that the source
performs in place are classes and methods here; each is proved equal to a function on values, and
the theorems are about those functions, over all inputs and all runs. Network sends, `malloc`,
library calls, locks and clocks enter as inputs that may take any value.

| module | what it is about |
|---|---|
| `ArtNetBytes`, `Common` | machine-width numbers and addresses, the big-endian length codec; limits and result codes |
| `Firmware`, `FirmwarePackets`, `FirmwareEndpoints` | one firmware packet at the receiver, one reply at the sender; their effect word by word; the same on records updated in place |
| `FirmwareSession`, `FirmwareDelivery`, `FirmwareSafety` | both ends joined by a channel: lossless runs with a receiver timeout, lossy runs with intruders, arbitrary packet streams |
| `DmxMerge`, `OutputPort` | the two-source merge of an output port; the same on arrays, for all ports of a node |
| `PeerRing`, `PeerNetwork` | joining nodes into rings through their peer pointers; all nodes of a program under any joins |
| `NodeList` | the list of nodes that answered a poll, the search by universe, unicast or broadcast |
| `FadeModel`, `FadeHistory`, `FadeCalls`, `FadeEngine` | fade arithmetic, the meaning of a history of calls, what each call does to each channel, the universe table with its cached fade counts |
| `LockOrder`, `LockedTables` | the locks and accesses of every method, threads, deadlock freedom; what the mutexes protect, race freedom |
| `PortAddress`, `ArtNetMapping`, `ArtNetBridge` | port addresses of a node, the mapping of universes to ports, what each send attempts |
| `SacnReferences` | the reference count of the sACN library under interleaved instances |
| `TodTable` | the growable table of RDM devices and its transmission in blocks |
| `SerialLines` | cutting a byte stream that may time out into lines |

## What the proofs found

The model follows the code. Where the code does not do what its documentation or an obvious
reading promises, the exact condition is proved:

- An upload whose size is a multiple of 1024 bytes, and larger than 1024, never completes: the
  sender types the last full block as a continuation (`CompletionExactly`, `ExactMultipleStalls`).
- Progress does not extend the receiver's 20-second limit, which runs from the first packet;
  `last_time` is never written by a later one. An upload completes only if no clock check falls at
  or past that limit before its final packet is accepted (`CompletionExactly`).
- A one-packet upload reports its length in bytes, any other in words (`CompletionExactly`,
  `UploadSafe`). It leaves the receiver occupied: new uploads are refused until a clock check 20
  seconds later (`OccupiedExactly`). An empty image reaches the receiver's callback only
  (`EmptyImage`).
- The branch for "slot A empty, slot B sending" occurs twice in `handle_dmx`, where the second was
  meant to start a merge. A newcomer gets a slot exactly when slot B is empty, so none does while A
  is free and B held (`NewcomerExactly`, `LoneBLocksOut`). Two sources and a pause lead there
  (`LoneBReached`), and the owner of slot A that resumes after the pause is shown once and then
  locked out itself (`ResumingOwner`).
- The addresses are read before the timeout check, so a packet is merged with the other slot
  exactly when that slot was held on arrival, expired or not (`OwnByteExactly`,
  `ExpiredSlotMergedOnce`). A slot that changes hands keeps the tail its new owner has not covered,
  and merges show it (`HtpEveryRun`, `StaleTailMerged`).
- `artnet_join` returns `ARTNET_ESTATE` when it succeeds; its comment promises 0 (`Join`).
- `find_nodes_from_uni` returns a count of ports. Sending uses it as a count of nodes, both against
  the limit and for the addresses, so it reaches exactly the matching nodes if and only if the
  limit covers them and no node repeats the universe (`UnicastExactly`). Otherwise it may broadcast
  although the nodes are within the limit (`PortsCountedForNodes`), or use unwritten addresses.
- Universes 256 apart, when mapped together, are sent under one address (`SameAddressExactly`).
- An Art-Net instance sends nothing, and never reconnects, until the next init exactly when nothing
  is mapped (`SilentExactly`). What silences it is known exactly too (`FallsSilentExactly`): one
  failed reconnection is enough (`LostByReconnecting`), and so is removing the only universe of the
  mapped subnet, after which the node is up and still reports that it is connected
  (`LostByRemoving`).
- When `sacn::Init` throws, the handler gives up a reference that was never taken. The count stays
  right exactly when this happens at count 0 (`ConservedExactly`); otherwise it takes the library
  down under another instance (`Torn`). A source whose `AddUniverse` throws is left running
  (`InitSacn`).
- `artnet_send_firmware` without memory drops the buffer of a transfer in progress and keeps the
  rest of its record (`SendFirmware`).
- A block of devices that is not sent makes `artnet_tx_tod_data` return 1, not the error code
  (`Transmit`).
- `readline` writes past its buffer exactly when `size` leaves no room for one byte or for `eol`
  and more than `size` bytes arrive (`OverrunExactly`). `readlines` loses what it read exactly when
  a nonzero `size` is below the length of `eol` and fills up (`NothingLostExactly`).

## Model

| member | source | states |
|---|---|---|
| `ArtNetBytes.IntToBytes` | libartnet/artnet/misc.c:51-56 | the four bytes written are the length's base-256 digits, most significant first; the rest of the buffer is untouched |
| `ArtNetBytes.DecodeEncode` | libartnet/artnet/misc.c:44-56 | every 32-bit length, negative ones included, survives encoding and decoding |
| `ArtNetBytes.EncodeDecode` | libartnet/artnet/misc.c:44-56 | every four bytes are the encoding of what they decode to |
| `ArtNetBytes.BigEndian` | libartnet/artnet/misc.c:51-56 | the four bytes of a length are its base-256 digits, the most significant one first |
| `Firmware.Receive` | libartnet/artnet/receive.c:527-690 | a packet of any kind and content, in any state, keeps the buffer exactly bytes_total long, and every store it makes lies inside the buffer |
| `Firmware.CheckTimeouts` | libartnet/artnet/artnet.c:1631-1643 | an upload survives exactly when it began less than 20 seconds ago, and is then untouched; the record stays consistent |
| `Firmware.Transmit` | libartnet/artnet/transmit.c:272-352 | a packet sent moves the record on by a full block or to the end, never past it; one not sent leaves it alone |
| `Firmware.HandleReply` | libartnet/artnet/receive.c:695-741 | a packet goes out only for BLOCKGOOD with bytes left, the callback is made exactly for FAIL or for ALLGOOD with all sent and ends the transfer, every other reply changes nothing |
| `FirmwareEndpoints.UploadReceiver.HandleFirmware` | libartnet/artnet/receive.c:527-690 | record, reply and callback after any packet are those of the step function, on a heap buffer written in place |
| `FirmwareEndpoints.UploadReceiver.BeginUpload` | libartnet/artnet/receive.c:539-598 | FIRST: refused while busy, dropped without memory, else a new buffer with block 0 in it |
| `FirmwareEndpoints.UploadReceiver.ContinueUpload` | libartnet/artnet/receive.c:600-632 | CONT: stored at the rebuilt block index, or refused without effect |
| `FirmwareEndpoints.UploadReceiver.FinishUpload` | libartnet/artnet/receive.c:634-687 | LAST: the tail is stored, the callback made, the record reset; or refused without effect |
| `FirmwareEndpoints.UploadReceiver.CheckTimeouts` | libartnet/artnet/artnet.c:1631-1643 | an upload begun 20 seconds ago or more is dropped, any other kept |
| `FirmwareEndpoints.UploadReceiver.Reset` | libartnet/artnet/receive.c:905-912 | the record is idle afterwards, except for its block counter |
| `FirmwareEndpoints.UploadSender.SendFirmware` | libartnet/artnet/artnet.c:849-897 | the record holds a copy of the caller's image and the first packet is attempted; without memory the buffer alone is lost, so the record stays consistent exactly when no transfer was in progress |
| `FirmwareEndpoints.UploadSender.TransmitPacket` | libartnet/artnet/transmit.c:272-352 | the packet built and the record's advance are those of the step function |
| `FirmwareEndpoints.UploadSender.HandleReply` | libartnet/artnet/receive.c:695-741 | which replies send the next block, end the transfer, or do nothing |
| `FirmwarePackets.FirstExactly` | libartnet/artnet/receive.c:539-598 | a FIRST packet in any state: every field and word of the record, the reply and the callback |
| `FirmwarePackets.ContExactly` | libartnet/artnet/receive.c:600-632 | a CONT packet is taken if and only if it is the peer's, announces the same length and its block lies inside; every word afterwards, and no effect otherwise |
| `FirmwarePackets.LastExactly` | libartnet/artnet/receive.c:634-687 | a LAST packet is taken if and only if it is the peer's, announces the same length and the length ends in its block; the buffer handed over word by word, and no effect otherwise |
| `FirmwarePackets.OtherKindsRefused` | libartnet/artnet/receive.c:527-690 | a packet of any other type is answered FAIL without effect |
| `FirmwareSession.PacketShape` | libartnet/artnet/transmit.c:286-336 | packet k carries the type, the index modulo 256, the size and exactly the words of block k |
| `FirmwareSession.IndexRebuilt` | libartnet/artnet/receive.c:609-616 | the wrapped 8-bit id and the receiver's own counter give the true block index, beyond 256 blocks too |
| `FirmwareSession.FirstAccepted` | libartnet/artnet/receive.c:539-598 | an idle receiver with memory holds block 0, and answers ALLGOOD with the whole image just when there is no other |
| `FirmwareSession.ContAccepted` | libartnet/artnet/receive.c:600-632 | block k lands at its own place, is acknowledged, and does not renew the time limit |
| `FirmwareSession.LastAccepted` | libartnet/artnet/receive.c:634-687 | a short final block completes the image and hands it to the callback |
| `FirmwareDelivery.CompletionExactly` | libartnet/artnet/transmit.c:272-352 | over a lossless channel both callbacks are made, once each, with the sender's image and its length in bytes for one packet and in words otherwise, if and only if the image is nonempty, not a larger multiple of 1024 bytes, and no clock check falls at or past 20 seconds before the final packet arrives |
| `FirmwareDelivery.EmptyImage` | libartnet/artnet/receive.c:574-587 | an empty image makes the receiver's callback once and the sender's never |
| `FirmwareDelivery.OccupiedExactly` | libartnet/artnet/receive.c:539-598 | after a one-packet upload a new one from anyone is refused without effect if and only if no clock check has come 20 seconds after it |
| `FirmwareDelivery.ExactMultipleStalls` | libartnet/artnet/transmit.c:307-312 | for larger multiples of 1024 the run goes quiet with the image in the buffer, all bytes counted and no callback made |
| `FirmwareDelivery.LateTick` | libartnet/artnet/artnet.c:1631-1643 | a clock check past the limit ends any upload whose final packet has not been accepted, however recent its last block |
| `FirmwareDelivery.DoomedRun` | libartnet/artnet/receive.c:600-687 | once dropped, an upload can never reach a callback with success |
| `FirmwareDelivery.Terminates` | libartnet/artnet/receive.c:695-741 | from any state of both ends an upload goes quiet after a bounded number of deliveries |
| `FirmwareSafety.UploadSafe` | libartnet/artnet/receive.c:600-741 | with any loss, any clock checks, any third-party packets and any initial receiver: each callback is made at most once, the receiver's hands over exactly the image and the reported length, and ALLGOOD comes only after it |
| `FirmwareSafety.OthersRefused` | libartnet/artnet/receive.c:539-687 | while an upload is in progress a packet from anyone else is answered FAIL and changes nothing |
| `FirmwareSafety.StrayRefused` | libartnet/artnet/receive.c:600-687 | a CONT or LAST that does not belong to the upload in progress changes nothing |
| `FirmwareSafety.Noninterference` | libartnet/artnet/receive.c:539-687 | for any stream of packets, while an upload lasts the receiver's state is that of the uploader's own packets alone |
| `DmxMerge.NeverBothSlots` | libartnet/artnet/receive.c:142-215 | in no run are both slots held by one sender, so the branch for that is unreachable |
| `DmxMerge.SlotsOverRun` | libartnet/artnet/receive.c:105-223 | in any run with timeouts a held slot keeps its owner or becomes empty, every held slot is at most 10 seconds old, a packet that is taken renews its own slot and only that one, and a discarded packet changes neither output nor times |
| `DmxMerge.StepExactly` | libartnet/artnet/receive.c:85-231 | one packet in either mode: both slots, both times, the length and every byte of the three buffers |
| `DmxMerge.SlotKeptExactly` | libartnet/artnet/receive.c:140-211 | a holder keeps its slot through a run if and only if every clock check falls at most 10 seconds after its own latest packet |
| `DmxMerge.HtpIsMaximum` | libartnet/artnet/receive.c:85-231 | from a fresh HTP port, while the first two senders are never silent for more than 10 seconds, each output byte is the maximum of what they last said about it, for packets of any lengths; no other sender has an effect |
| `DmxMerge.HtpEveryRun` | libartnet/artnet/receive.c:85-231 | on every run of an HTP port from every state, timeouts included, each output byte is what the last packet covering it brought: its own byte when its sender was alone, else the maximum of the overlays of all packets that ever went to each slot |
| `DmxMerge.StaleTailMerged` | libartnet/artnet/receive.c:142-175 | a short packet that takes slot A leaves the former owner's tail, which the next merge shows |
| `DmxMerge.LtpIsOverlay` | libartnet/artnet/receive.c:891-902 | on every run of an LTP port, timeouts included, each output byte is that of the last packet covering it that was not discarded |
| `DmxMerge.LoneBLocksOut` | libartnet/artnet/receive.c:159-182 | with slot A empty and B held, only B's packets reach the output for as long as B is heard |
| `DmxMerge.NewcomerExactly` | libartnet/artnet/receive.c:142-219 | a sender in neither slot gets one if and only if slot B is empty, and is discarded otherwise; that is with a slot free exactly when A is empty and B held |
| `DmxMerge.LoneBReached` | libartnet/artnet/receive.c:140-182 | a run from a fresh port, two sources and a pause of the first, after which only the second reaches the output |
| `DmxMerge.ExpiredSlotMergedOnce` | libartnet/artnet/receive.c:105-141 | the packet whose check expires the other slot, A or B, is still merged with its old data; the next one is not |
| `DmxMerge.OwnByteExactly` | libartnet/artnet/receive.c:105-211 | a holder's packet shows its own byte whatever the other slot contains if and only if that slot was empty on arrival or the byte is 255; else it is the maximum of both |
| `DmxMerge.OwnerKeepsSlotExactly` | libartnet/artnet/receive.c:140-211 | the owner of a slot keeps it across its own packet if and only if it had not timed out |
| `DmxMerge.ResumingOwner` | libartnet/artnet/receive.c:140-219 | a resuming owner's packet is taken, and its next one is discarded if and only if it owned slot A, had timed out, and slot B is still held |
| `OutputPort.OutPort.CheckTimeouts` | libartnet/artnet/receive.c:867-885 | a slot silent for more than 10 seconds is emptied, nothing else changes |
| `OutputPort.OutPort.Receive` | libartnet/artnet/receive.c:137-223 | the port's arrays after one packet are those of the step function |
| `OutputPort.OutPort.Merge` | libartnet/artnet/receive.c:891-902 | the in-place loop computes the merge of both slots, or copies the newest |
| `OutputPort.DmxNode.HandleDmx` | libartnet/artnet/receive.c:85-231 | every enabled port on the packet's universe takes it, the callback is made for exactly those, and no other port changes |
| `PeerRing.FindEnd` | libartnet/artnet/artnet.c:363-363 | the walk terminates at the node before its start, or at a node without a peer |
| `PeerRing.Elect` | libartnet/artnet/artnet.c:367-370 | the walk terminates, leaves the ring as it is and its first node as the only master |
| `PeerRing.Join` | libartnet/artnet/artnet.c:347-373 | two separate groups become one ring of exactly their members; within one group the ring is restored; n1 is the only master; started nodes are refused |
| `PeerRing.WalkPeers` | libartnet/artnet/artnet.c:317-325 | the walk visits each other member of the ring exactly once, in order, and stops |
| `PeerRing.RingUnique` | libartnet/artnet/artnet.c:361-364 | the pointers of a ring determine its members and their order |
| `PeerNetwork.JoinAny` | libartnet/artnet/artnet.c:347-373 | for any two nodes of a program, joining keeps every node in exactly one ring and every ring with exactly one master, and changes no other ring |
| `PeerNetwork.MergedMembers` | libartnet/artnet/artnet.c:361-364 | the joined ring holds the members of both groups and nobody else |
| `PeerNetwork.NewNetwork` | libartnet/artnet/artnet.c:103-104 | nodes just created form such a network |
| `NodeList.ListAgreesWithHistory` | libartnet/artnet/artnet.c:1506-1539 | after any replies, lookup gives an address's latest reply, no address occurs twice, entries stand in the order first heard |
| `NodeList.UpsertLookup` | libartnet/artnet/artnet.c:1506-1539 | one reply changes the lookup of its own address only |
| `NodeList.PortsVersusNodes` | libartnet/artnet/artnet.c:1564-1582 | the returned count is at least the number of matching nodes, and equal just when no node repeats the universe |
| `NodeList.PortsOnCounts` | libartnet/artnet/artnet.c:1571-1579 | a node's count is the number of its announced ports whose universe is exactly the one asked for |
| `NodeList.MatchingExactly` | libartnet/artnet/artnet.c:1569-1580 | an address is found if and only if a node with it has a port on the universe |
| `NodeList.MatchingInOrder` | libartnet/artnet/artnet.c:1569-1580 | the addresses found stand at ascending positions of the list, so each node is found once |
| `NodeList.MatchingPortsCounts` | libartnet/artnet/artnet.c:1564-1582 | the returned count is the number of all pairs of a node and a port of it on the universe |
| `NodeList.UnicastExactly` | libartnet/artnet/artnet.c:649-680 | exactly the matching nodes are sent to, once each and in order, if and only if the limit is positive and covers them, memory is found and no node repeats the universe |
| `NodeList.TargetsExactly` | libartnet/artnet/artnet.c:647-681 | every datagram in every case: broadcast, or one for each matching port, the first to the matching nodes and the rest to whatever the array held |
| `NodeList.PortsCountedForNodes` | libartnet/artnet/artnet.c:667-671 | one node with two ports on the universe, a limit of one: broadcast |
| `NodeList.List.FindEntry` | libartnet/artnet/artnet.c:1545-1553 | the entry with the address, or null if there is none |
| `NodeList.List.Update` | libartnet/artnet/artnet.c:1506-1539 | the linked list stays acyclic with the right last node and length, and its contents are those of the updated list; without memory it is unchanged |
| `NodeList.List.FindNodesFromUni` | libartnet/artnet/artnet.c:1564-1582 | the array starts with the first matching addresses that fit, once each, and is otherwise untouched; the result counts the matching ports, for any announced number of ports |
| `NodeList.List.SendDmx` | libartnet/artnet/artnet.c:649-684 | which datagrams go where, and that only a failed broadcast stops the sequence number |
| `FadeModel.FadeInProgress` | DMX.cpp:757-766 | before its time is up a fade lies between its ends, has not reached a different target, and does not need the clamp |
| `FadeModel.FadeMonotone` | DMX.cpp:757-766 | later updates are never farther from the target, which is shown exactly from the end of the duration on |
| `FadeModel.FadeValue` | DMX.cpp:757-765 | the value of a fade in closed form: start plus or minus e * distance / duration after e whole milliseconds, the target from the duration on |
| `FadeModel.TickExactly` | DMX.cpp:754-767 | one update of a channel: which fades are dropped at their target, which value the others show |
| `FadeModel.PerformReflects` | DMX.cpp:754-767 | one action keeps the cell in step with the meaning of its history; dropping a finished fade loses nothing |
| `FadeHistory.SnapshotShowsHistory` | DMX.cpp:317-343 | after any run of calls with a monotone clock, each snapshot byte is the value the channel's history gives it at that time, in every universe; slot 0 is 0 |
| `FadeHistory.StartCodeZero` | DMX.cpp:186-283 | the start code is 0 and never fading in every reachable state |
| `FadeCalls.ChannelExactly` | DMX.cpp:186-211 | which channel of which universe takes which clamped value and loses its fade; nothing else changes |
| `FadeCalls.ChannelOnExactly` | DMX.cpp:213-241 | the same for a named universe |
| `FadeCalls.ChannelsExactly` | DMX.cpp:243-270 | each covered channel of the active universe takes its own value; nothing else changes |
| `FadeCalls.BlackoutExactly` | DMX.cpp:272-283 | every channel of every universe, active or not, is 0 with no active fade |
| `FadeCalls.FadeToExactly` | DMX.cpp:643-670 | which channel begins which fade, from which value; nothing else changes |
| `FadeCalls.FadeOnExactly` | DMX.cpp:672-701 | the same for a named universe |
| `FadeCalls.SendExactly` | DMX.cpp:745-769 | what an update makes of each channel of each universe, in closed form |
| `FadeCalls.FadeOnTheWire` | DMX.cpp:317-343 | after a fade has begun, what any later send puts on the wire, in closed form, whatever sends come in between |
| `FadeCalls.SelectExactly` | DMX.cpp:468-487 | which universe is created, that it is dark, and which one is active; 64 is the limit |
| `FadeCalls.AddExactly` | DMX.cpp:489-531 | which universe is created, that it is dark, and that the active one stays |
| `FadeCalls.RemoveExactly` | DMX.cpp:535-550 | which universe goes, and that the active one moves only if removed, to the smallest one left |
| `FadeCalls.InitialExactly` | DMX.cpp:160-162 | a new instance has universe 1 alone, active and dark |
| `FadeHistory.SnapshotsOrdered` | DMX.cpp:333-343 | snapshots are in ascending order of universe and show the buffers |
| `FadeHistory.SnapshotsComplete` | DMX.cpp:333-343 | every universe is among the snapshots |
| `FadeEngine.UniverseData.CancelFade` | DMX.cpp:198-204 | cancelling keeps the cached number of active fades exact |
| `FadeEngine.UniverseData.SetChannels` | DMX.cpp:246-269 | the two loops cancel and set exactly the covered channels, keeping the count exact |
| `FadeEngine.UniverseData.UpdateFades` | DMX.cpp:750-768 | every active fade is advanced although the loop is skipped when the cached count is zero |
| `FadeEngine.Dmx.Channel` | DMX.cpp:186-211 | the universe table afterwards is that of the specification, out-of-range channels and clamping included |
| `FadeEngine.Dmx.ChannelOn` | DMX.cpp:213-241 | the same for a named universe, which may not exist |
| `FadeEngine.Dmx.Channels` | DMX.cpp:243-270 | the same for a range of channels |
| `FadeEngine.Dmx.Blackout` | DMX.cpp:272-283 | every channel of every universe is 0 and no fade is active |
| `FadeEngine.Dmx.FadeTo` | DMX.cpp:643-670 | a fade starts from the value shown, or the level is set at once without a duration |
| `FadeEngine.Dmx.FadeOn` | DMX.cpp:672-701 | the same for a named universe |
| `FadeEngine.Dmx.UpdateFades` | DMX.cpp:745-769 | all fades of all universes are advanced to one time |
| `FadeEngine.Dmx.Send` | DMX.cpp:317-343 | fades are advanced, then every universe's buffer is copied in order |
| `FadeEngine.Dmx.Select` | DMX.cpp:468-487 | a universe is created if there is room, and becomes the active one |
| `FadeEngine.Dmx.Add` | DMX.cpp:489-531 | a universe is added, or erased again when the sACN library refuses it |
| `FadeEngine.Dmx.Remove` | DMX.cpp:535-550 | the last universe stays; removing the active one activates the smallest left |
| `LockOrder.MethodsWellRanked` | DMX.cpp:714-719 | every method takes its mutexes in increasing rank: fade, dmx, send, state, serial, global |
| `LockOrder.DeadlockFree` | DMX.cpp:714-719 | any threads calling any methods of any instances, under any schedule: while one is unfinished, some thread can step |
| `LockOrder.MutualExclusion` | DMX.cpp:714-719 | no two threads hold the same mutex |
| `LockOrder.AllFinish` | DMX.cpp:714-719 | from every reachable state some schedule brings all threads to their end |
| `LockOrder.StepShrinks` | DMX.cpp:714-719 | every step uses up work, so no schedule goes on for ever |
| `LockedTables.WritersExactly` | DMX.cpp:168-701 | which methods write each shared table |
| `LockedTables.ReadersExactly` | DMX.cpp:168-701 | which methods read each shared table |
| `LockedTables.MethodsDisciplined` | DMX.cpp:708-735 | every method makes each access under the mutexes that protect it; the keys are read under either table lock and written under both |
| `LockedTables.RaceFree` | DMX.cpp:708-735 | any threads, methods, instances and schedule: no two threads are ever about to touch the same table with one of them writing |
| `PortAddress.AddressFollowsSettings` | libartnet/artnet/artnet.c:1133-1310 | after any settings of a new node a port is enabled just when it was set, and its address is the last subnet above the last accepted port address |
| `PortAddress.ControlledStays` | libartnet/artnet/artnet.c:1141-1308 | under network control no setting changes the subnet or the port's own nibble; addresses always lie in the subnet |
| `PortAddress.PortSettingExactly` | libartnet/artnet/artnet.c:1253-1310 | ports 0 to 3 and addresses up to 16 are taken, all else is refused without effect; every field of every port afterwards |
| `PortAddress.SubnetSettingExactly` | libartnet/artnet/artnet.c:1133-1167 | every field of every port after a subnet setting |
| `PortAddress.BlankExactly` | libartnet/artnet/artnet.c:89-122 | a new node has subnet 0 and no port enabled |
| `PortAddress.ArtNode.SetSubnetAddr` | libartnet/artnet/artnet.c:1133-1167 | the loop re-addresses every port of both kinds; the result code, and the report of a refused change |
| `PortAddress.ArtNode.SetPortAddr` | libartnet/artnet/artnet.c:1253-1310 | which arguments are refused (16 is not), and what is changed and announced otherwise |
| `ArtNetMapping.ChosenExactly` | DMX.cpp:889-913 | universe u is mapped to port p if and only if it is in the first one's subnet and exactly p < 4 smaller ones there precede it |
| `ArtNetMapping.ConnectExactly` | DMX.cpp:869-925 | after a successful init, or send that reconnects, universe u has port p if and only if it is in the table and the smallest universe's subnet and exactly p < 4 smaller ones there precede it; after an unsuccessful one nothing is mapped |
| `ArtNetMapping.SendKeepsExactly` | DMX.cpp:396-425 | a send without a failure, or within the cooldown, changes nothing |
| `ArtNetMapping.GrowExactly` | DMX.cpp:468-531 | which universe enters the table and which one is active; mapping and node stay |
| `ArtNetMapping.RemoveExactly` | DMX.cpp:535-568 | what leaves table and mapping, and that the active universe moves only if removed, to the smallest one left |
| `ArtNetMapping.NewAddresses` | DMX.cpp:889-913 | the port of universe u ends with the address (u - 1) mod 256 on the node |
| `ArtNetMapping.SendIsMapping` | DMX.cpp:396-410 | in every reachable state a send attempts each mapped universe exactly once, in order, on its own port and at its own address, and nothing else |
| `ArtNetMapping.RunGood` | DMX.cpp:869-935 | in every reachable state the mapped universes exist, and universes and ports both ascend |
| `ArtNetMapping.MappingIsSurvivors` | DMX.cpp:551-567 | under any calls short of an init or an actual reconnection, the mapping is the original one less the universes removed since, pairs and order kept |
| `ArtNetMapping.SameAddressExactly` | DMX.cpp:894-905 | two attempts of a send share an address if and only if their universes agree modulo 256 |
| `ArtNetMapping.TwoUniversesOneAddress` | DMX.cpp:894-905 | universes 1 and 257 are mapped together and both sent to address 0 |
| `ArtNetMapping.SilentExactly` | DMX.cpp:396-425 | from a reachable state no send attempts anything, whatever happens short of an init, if and only if nothing is mapped |
| `ArtNetMapping.SilenceLasts` | DMX.cpp:396-425 | from any state with nothing mapped, mapping and node stay as they are until an init |
| `ArtNetMapping.FailureExactly` | DMX.cpp:410-412 | a send can find that a datagram failed if and only if something is mapped |
| `ArtNetMapping.FallsSilentExactly` | DMX.cpp:411-425 | what silences a sending instance: removing its only mapped universe, an init that fails, or a failed datagram whose reconnection fails, and nothing else |
| `ArtNetMapping.LostByReconnecting` | DMX.cpp:411-425 | a run whose one failed reconnection silences the instance through any later calls but init |
| `ArtNetMapping.LostByRemoving` | DMX.cpp:551-567 | a run that leaves the node up, a universe in the table, and nothing to send |
| `ArtNetBridge.Bridge.SelectUniverse` | DMX.cpp:468-487 | table and active universe after universe(), and when it returns false |
| `ArtNetBridge.Bridge.AddUniverse` | DMX.cpp:489-531 | the table after addUniverse(), an sACN refusal included, and when it returns false |
| `ArtNetBridge.Bridge.RemoveUniverse` | DMX.cpp:535-568 | table, active universe and mapping array afterwards, the gap closed in place |
| `ArtNetBridge.Bridge.Connect` | DMX.cpp:869-935 | mapping array and node afterwards; a failure leaves neither |
| `ArtNetBridge.Bridge.Assign` | DMX.cpp:885-913 | the loop gives exactly the chosen universes ports 0, 1, ... and tells the node so |
| `ArtNetBridge.Bridge.SendAll` | DMX.cpp:396-425 | the datagrams attempted, and the reconnection if one failed and the cooldown is over |
| `SacnReferences.ReferencesConserved` | DMX.cpp:101-118 | for any interleaving of any instances whose library may fail but not throw: the count equals the references held, at rest the initialized instances, and a holder finds the library up |
| `SacnReferences.ConservedExactly` | DMX.cpp:855-859 | with a library that may also throw, the count is right after every step if and only if no handler gives up a missing reference at a positive count |
| `SacnReferences.AlwaysSound` | DMX.cpp:101-118 | whatever throws, the library's Init and Deinit alternate, and it is up exactly while the count is positive |
| `SacnReferences.Torn` | DMX.cpp:855-859 | a run in which one instance's handler takes the library down under another |
| `SacnReferences.LibraryAskedExactly` | DMX.cpp:101-118 | an instance gets its reference if and only if the library is up or comes up; only one that finds it down asks it, and only the last one takes it down |
| `SacnReferences.Library.GlobalInit` | DMX.cpp:101-109 | count and library afterwards; only a first reference meets the library |
| `SacnReferences.Library.GlobalDeinit` | DMX.cpp:111-118 | count and library afterwards; the last reference takes the library down |
| `SacnReferences.Instance.InitSacn` | DMX.cpp:818-860 | whichever call fails or throws, the result is that of the instance's moves in the interleaving model |
| `SacnReferences.Instance.DeinitSacn` | DMX.cpp:862-867 | the reference is given back exactly when the instance was initialized |
| `TodTable.BlocksCarryTable` | libartnet/artnet/transmit.c:164-179 | the blocks of a table, put together, are the table |
| `TodTable.BlockHeaders` | libartnet/artnet/transmit.c:158-171 | block i is numbered i mod 256 and holds min(200, n - 200i) devices; up to 65535 devices the header's total is n |
| `TodTable.BlockPadding` | libartnet/artnet/transmit.c:166-166 | what follows the devices of a block is zero |
| `TodTable.FlatAt` | libartnet/artnet/tod.c:64-65 | device k stands at bytes 6k to 6k + 5, as it was given |
| `TodTable.Tod.Add` | libartnet/artnet/tod.c:29-68 | the device is appended, growing the buffer when full, within its allocation; without memory the table is gone |
| `TodTable.Tod.Flush` | libartnet/artnet/tod.c:107-128 | the table is empty and owns nothing |
| `TodTable.Tod.Transmit` | libartnet/artnet/transmit.c:133-181 | the loop terminates, and the blocks attempted are the table's in order up to and including the first that fails |
| `SerialLines.TakenIsShortestLine` | serial/src/serial.cc:176-202 | with room for a byte and for eol, readline takes the shortest prefix ending in eol, else everything up to size or the timeout |
| `SerialLines.OverrunExactly` | serial/src/serial.cc:183-199 | readline writes past its buffer if and only if size leaves no room for a byte or for eol and more than size bytes arrive |
| `SerialLines.ReadLine` | serial/src/serial.cc:176-202 | for every stream, size and eol the loop appends that prefix to the caller's text and returns its length, or is about to write past the buffer |
| `SerialLines.LinesExactly` | serial/src/serial.cc:212-252 | the lines are nonempty, together exactly the bytes consumed, and end exactly where the consumed prefix ends in eol, and at its end |
| `SerialLines.ReturnedExactly` | serial/src/serial.cc:212-252 | what readlines returns for every stream, size and eol: the consumed bytes cut exactly where they end in eol, and at the end, or nothing when the buffer fills before it could hold eol |
| `SerialLines.NothingLostExactly` | serial/src/serial.cc:234-234 | no consumed byte is lost if and only if size is 0, or at least the length of eol, or the timeout comes before the buffer is full |
| `SerialLines.ReadLines` | serial/src/serial.cc:212-252 | the loop returns those lines for every stream, size and eol |

## Left out

- Sockets, interface enumeration, packet parsing and hooks: a send succeeds or fails, a packet arrives as it is; the node-type, mode and argument guards before an operation are assumed passed unless a row says otherwise.
- Callbacks' own effects, log output and the return values that only forward a send's error code.
- Memory as such: a freed buffer is modelled as null or empty, leaks are not tracked, and `malloc` of a negative length is taken to fail.
- Uploads of 2^30 words or more on the sending side, whose byte length does not fit the source's integer; the receiver is modelled for every announced length.
- The source address 0 for firmware and DMX packets, which the code uses as its mark for "none".
- Firmware replies of a type other than the three defined ones, which the sender ignores.
- Reordered or duplicated firmware packets from the same node: the channel model may lose packets, and other nodes may send anything.
- `handle_address` and other remote programming of a node, so ports come under network control only as a given; its re-addressing follows the packet's own subnet field.
- `remove_tod_uid`, whose search starts at the second entry and looks one past the end.
- What lies behind the four output universes of an entry whose node announces more ports: the search reads those bytes, and they are taken to be any.
- Floating point in fades: the interpolation is in exact rationals, truncated toward zero.
- The functional properties are for calls one after the other; only the locks, the accesses of `LockedTables` and the sACN count are interleaved.
- What the mutexes do not protect: the active universe and the debug flag, which have none, the serial port's name in send, the sACN source and the Art-Net node between init and a send in flight, and everything during destruction.
- `FadeEngine` and `ArtNetBridge` are two views of one C++ class: each keeps its own copy of the universe keys, and running them in step is not part of this model.
- The 8-bit sequence numbers of DMX packets beyond being reset and advanced, and packet fields that are constants.
- sACN sources: `UpdateLevels`, priorities and names are calls into a library whose code is not part of this model; its start, its universes and its shutdown only succeed, fail or throw.
- The serial device, its break timing and framing; a serial read gives one byte or times out.
- SerialLines.ReadLine: does not say what happens after a write past the buffer, because the source leaves that undefined; the result is then `Overrun`.
- ChucK glue, configuration getters and the duplicate headers under `libartnet/include`.
