# Rose: verified models of firmware, bridge and integration

Rose is a smart-home hub: an ESP32 firmware drives pins, infrared signals, UARTs and BLE, a Python bridge talks to it
over TCP, and a Home Assistant integration mirrors its state. This project models the stateful cores of that system in
Dafny and proves what they promise over whole runs. Checking it needs `dafny verify dfyconfig.toml`.

- **Reliable delivery** (`PendingTable`, `Dispatcher`, `Delivery`): the tables of pending ACKs and results as arrays
  shifted in place, the commands that touch them, and the theorem that a retried passthrough is executed again exactly
  when everything its executions stored has been confirmed.
- **Queues and events** (`TailDrop`, `SendQueue`, `EventSender`): the tail-drop queue under every interleaving of its
  tasks, one heap or queue call at a time, and captures from the firmware's buffer to the host's edge list.
- **Presence** (`Presence`, `PresenceRuns`, `PresenceTime`, `Replica`): the in-range table of the firmware, the event
  stream it emits, when exactly a device is in range, and the coordinator that rebuilds the set of devices from it.
  Each callback and each task pass is one step.
- **Pairing** (`Pairing`): sessions, timeouts and scheduled disables, with the wrap-around of the 32-bit clocks.
- **Wire** (`Framing`, `FirmwareReceive`, `Crc`, `Correlation`): both receivers, the checksum, and the matching of
  responses to commands.
- **Signals** (`Resolution`, `SignalAdmission`, `Float32`, `CarrierDuty`, `RmtPacking`, `RmtTask`, `Tcl`, `Dht11`): the
  glitch filter, the chain of checks from the platform's schema to the transmitter, the carrier's duty cycle in float
  arithmetic, the RMT items, the transmit task under every outcome of its calls, and two line codes.
- **Persistence** (`NvsStore`): the counted blobs of the GPIO and UART tables.
- `Wire`, `Signals`, `Board`, `Sequences` and `Arithmetic` hold what several of them share.

Where the source changes state, the model does: a class with the source's fields, methods with the source's loops, and
for each a function on values that says what the method does. The theorems are about these functions and about runs of
them. Results of `malloc`, of driver and socket calls, and the clocks are parameters, so every theorem holds for all of
them. Integers of fixed width wrap where the source's do.

## Where code and intention differ

- **A duty cycle can vanish.** The schema admits every duty cycle above 0, but it travels as a 32-bit float, and a value
  of 2^-150 or less becomes 0, which the transmit task refuses. `AdmittedIsTransmitted` states the exact condition and
  `TinyDutyRefused` gives a request.
- **A delay can be too long to send.** The schema has no upper bound on `delay_us`. An admitted request can be packed
  exactly when its delay is below 2^32 (`AdmittedIsPackable`); otherwise packing raises (`LongDelayRaises`).
- **A duty cycle below 0.005 is played as none.** The driver is given whole percents. Below 21474835 / 2^32 that is 0,
  for requests that pass every check (`DutyPercent`, `FaintDutyVanishes`).
- **Long captures do not arrive, and can take short ones with them.** The firmware sends a capture of any length, the
  host accepts payloads of 4096 bytes. Behind frames within that limit a capture arrives exactly when it has at most
  816 edges (`CaptureArrives`). Behind a longer one the host takes payload bytes for headers, and even a short capture
  may be lost (`ShortCapturesLost`, `ShortBehindLong`). So the captures of a connection all arrive if and only if none
  has more than 816 edges (`AllCapturesArrive`).
- **The firmware's parser depends on chunking behind an oversize header**, because it drops whatever happens to be
  buffered with it (`OversizeDependsOnChunks`). The outcome is the same in every chunking if and only if nothing follows
  the first oversize header of the stream (`IndifferentIffNothingBehind`).
- **A refresh can lose moves.** What happens while it awaits its answers is overwritten, and a failed in-range call
  counts as an empty list, which takes everybody off home. Until the next refresh a device is shown wrongly exactly if
  the answer differs from its activity and it has not moved since (`RefreshAgrees`, `FailedRefresh`).
- **Receptions end with the first 72 minutes.** The end of the receive window is kept in 32 bits and compared with a
  clock of 64, so a reception that ends after 2^32 us of uptime captures nothing (`LateReceptionIsEmpty`).
- **A stored blob that is too short is read on beyond its end.** The records taken from it are independent of the memory
  behind it exactly if it counts none or reaches to the last byte used of its last one, the sixth of twelve for a pin
  and the eleventh of thirteen for a UART (`GpioReadInsideIff`, `UartReadInsideIff`). The restored tables are
  independent of it exactly then, or if only the last record is cut off and it names no pin or UART
  (`GpioRestoreIff`, `UartRestoreIff`). No saved blob is too short (`BlobsFit`).
- **Running out of memory while receiving is answered twice**, by an error and by an ACK (`ItemAnswered`).
- **A stored pin value is restored only if it drives the pin** (`WhatComesBack`); the saved byte of other pins is lost.
- **Command ids repeat** every 65535 commands, and from 1 in every process of the bridge, so a wait can take a late
  response to another command. `CrossTalkIff` states when, and `CrossTalkPossible` for which numbers of issued commands.
  If only issued commands are answered, it cannot happen while no response to an earlier process can arrive and at most
  65535 commands have been issued, counted from the oldest one whose response can (`NoCrossTalk`), and that bound is
  exact (`WindowIsExact`). Neither clearing the pending responses nor a restart helps: a response from before can arrive
  after it (`ClearDoesNotHelp`, `RestartDoesNotHelp`).

## Model

| member | source | states |
|---|---|---|
| Delivery.ExecutedIffConfirmed | src/command_dispatcher.c:952-1000 | over every run, a passthrough with a nonzero correlation id to an online device is executed if and only if every record that an execution of the same id stored has been confirmed since, the ACK by a stage 0 SYN and the result by a stage 1 SYN |
| Delivery.SecondExecution | src/command_dispatcher.c:155-193 | when an id is executed twice, each record of the first execution was either not stored, because its table was full or memory ran out, or confirmed by its own SYN in between |
| Delivery.PendingIffUnconfirmed | src/command_dispatcher.c:38-76 | in every run an id has a pending ACK (result) exactly when some execution stored one that the host has not confirmed since |
| Delivery.TablesHoldOriginals | src/command_dispatcher.c:107-153 | in every run both tables hold at most 32 records with distinct nonzero ids, in insertion order, each equal to the ACK or result of the execution that stored it |
| Delivery.RetryAnswered | src/command_dispatcher.c:155-193 | in every run a passthrough whose id has an unconfirmed record is answered with the ACK, number included, of the very execution that stored it, if that is unconfirmed, then with the device and payload of the execution whose result is, if memory is found, and with nothing else |
| Delivery.FirstAnswered | src/command_dispatcher.c:952-1000 | any other passthrough is answered with error 6 if no device with its id is online, and otherwise with its own ACK and, if memory is found, its own device and payload |
| Delivery.OthersAcknowledged | src/command_dispatcher.c:1084-1105 | every other command is acknowledged exactly once, with its own number, and a sync request is then answered with the snapshot |
| Delivery.SnapshotAnnouncesWhatFollows | src/command_dispatcher.c:195-314 | a sync snapshot announces exactly the number of pending ACKs and of port statuses that it then emits; of the announced results those follow for which memory is found |
| Delivery.SnapshotIsComplete | src/command_dispatcher.c:195-314 | in every run a snapshot brings exactly the unconfirmed ACKs, with memory exactly the unconfirmed results, and a short and a full status of exactly the ports in use |
| Delivery.Serve | src/command_dispatcher.c:396-420 | the dispatcher over any commands from boot: its tables and everything it sends are those the theorems speak of |
| PendingTable.RunExplained | src/command_dispatcher.c:38-153 | over every sequence of stores and confirmations a table is well formed and its records are those of the operations that stored them, in order |
| PendingTable.TimesAreLive | src/command_dispatcher.c:58-76 | a stored record is in the table exactly from the operation that stored it until the confirmation of its own id |
| PendingTable.HasIffLive | src/command_dispatcher.c:155-193 | an id is in the table exactly when one of its records is live |
| Dispatcher.Dispatcher.StorePendingAck | src/command_dispatcher.c:38-56 | the array after the call is the table with the record appended if its id is nonzero and new and there is room, and otherwise the same |
| Dispatcher.Dispatcher.ClearPendingAck | src/command_dispatcher.c:58-76 | the record with the id is deleted, the rest shifted down in order; id 0 and unknown ids change nothing |
| Dispatcher.Dispatcher.StorePendingResult | src/command_dispatcher.c:107-132 | as for ACKs, with a heap copy of the payload that is made only when the record is stored; the live blocks are exactly the payloads of the table |
| Dispatcher.Dispatcher.ClearPendingResult | src/command_dispatcher.c:134-153 | the record is deleted and its payload freed once; every other payload stays live and unchanged |
| Dispatcher.ShiftDown | src/command_dispatcher.c:66-72 | the shift-delete loop removes one element and keeps the order of the rest |
| Dispatcher.OwnedFree | src/command_dispatcher.c:134-153 | freeing the payload of one record leaves the blocks of the others live, each held by one record |
| Dispatcher.Dispatcher.ResendPending | src/command_dispatcher.c:155-193 | resends the ACK and the result filed under a nonzero id, and reports whether there was any |
| Dispatcher.Dispatcher.SendSnapshot | src/command_dispatcher.c:195-314 | sends the announcement, then every pending ACK, every result for which memory is found, two events a port in use, and the BLE status |
| Dispatcher.Dispatcher.HandlePassthrough | src/command_dispatcher.c:952-1000 | a known id is only answered again; otherwise the device is looked up, and ACK and result are sent and stored |
| Dispatcher.Dispatcher.HandleSyn | src/command_dispatcher.c:1084-1097 | stage 0 confirms the ACK, stage 1 the result, any other stage nothing; the SYN itself is acknowledged without being stored |
| Dispatcher.Dispatcher.HandleCommand | src/command_dispatcher.c:396-420 | each command moves the tables and the event stream as the run model says, and keeps them consistent |
| SendQueue.AlwaysInvariant | src/send_task.c:65-110 | under every interleaving of any number of producers with the send task the queue holds at most 64 frames, every allocated frame is in exactly one place, and frames leave the queue in the order they entered it |
| SendQueue.SendTaskSeesSubsequence | src/send_task.c:14-62 | what the consumer sends is a subsequence, in enqueue order, of what was enqueued |
| SendQueue.ProducerPlaces | src/send_task.c:65-110 | every heap and queue call of a producer moves frames between places and loses or duplicates none |
| SendQueue.SoloSendIsOffer | src/send_task.c:96-109 | the five calls of an undisturbed `send_event` are one offer to the tail-drop queue |
| SendQueue.SoloQueueIsNewest | src/send_task.c:96-109 | after n events of one producer with an idle consumer the queue is exactly the newest 64 of them |
| TailDrop.OfferAllIsNewest | src/tcp_client.c:201-216 | a queue nobody takes from holds exactly the newest 64 of everything offered to it |
| EventSender.EventSender.SendEvent | src/send_task.c:65-110 | queues the frame with the 16-bit event counter, dropping the oldest frame of a full queue; without memory nothing changes |
| EventSender.EventSender.SendTask | src/send_task.c:14-62 | takes the oldest frame, sends it or drops it, and gives up the connection when sending fails |
| EventSender.BuildCapturePayload | src/gpio_signal_task.c:125-150 | the bytes of the capture payload, field by field and edge by edge, in a fresh buffer |
| EventSender.DecodeCapture | bridge/src/protocol.py:479-489 | decodes a capture, or fails on data that ends inside the header or an edge |
| EventSender.CaptureRoundTrip | bridge/src/protocol.py:479-489 | the host decodes every capture payload to the capture it was built from |
| EventSender.CaptureArrives | src/gpio_signal_task.c:125-150 | end to end, behind any frames within the host's limit and whatever is sent after it, a capture is in some frame that the host dispatches exactly when it has at most 816 edges |
| EventSender.AllCapturesArrive | bridge/src/server.py:227-273 | of any captures sent back to back over one connection all are dispatched if and only if none has more than 816 edges, and then the host parses exactly their frames, in order, with nothing left over |
| EventSender.ShortCapturesLost | bridge/src/server.py:243-244 | behind a longer capture even short ones can be lost: for any capture of 818 edges whose counter and edge 769 read as suitable length fields, no event at all is dispatched from it and the next 3601 bytes |
| EventSender.ShortBehindLong | bridge/src/server.py:243-244 | two captures that show it: one edge, which arrives alone and is lost behind 818 edges of 527 us |
| EventSender.TooLongToArrive | bridge/src/server.py:243-244 | none of the frames that the host dispatches of any stream, resynchronising included, carries a capture of more than 816 edges |
| PresenceRuns.EventsAlternate | src/ble_manager.c:42-146 | in every run from boot no two occupied slots share a MAC; the events of each MAC alternate IN, OUT, IN, ... starting with IN, across timeouts, bond deletions and slot reuse; a MAC is active exactly when its last event is IN |
| PresenceRuns.RunAgrees | src/ble_manager.c:84-129 | over every run the events lead exactly from the first set of active devices to the last, and never announce a device that is in or withdraw one that is out |
| PresenceRuns.StepAgrees | src/ble_manager.c:502-523 | the same for every single callback, deletion and task pass |
| PresenceRuns.RssiImpliesInRange | src/ble_manager.c:878-897 | RSSI events are sent only for devices in range at that moment, provided a connection lookup returns the identity in the slot |
| PresenceRuns.LegalAlternates | src/ble_manager.c:84-129 | a stream that never repeats a transition alternates for each MAC, and membership is the parity of its transitions |
| PresenceRuns.ActiveAreRecent | src/ble_manager.c:108-129 | after every pass of the RSSI task each active device was seen less than ten seconds ago |
| PresenceRuns.RunSeenBy | src/ble_manager.c:84-106 | with time that does not run backwards no active device was last seen in the future |
| PresenceTime.InRangeIff | src/ble_manager.c:84-129 | in every run in time order a device is in range if and only if it has been seen, its bond has not been deleted since it was last seen, and no pass came ten seconds or more after that; its entry holds the time and the RSSI of that sighting |
| PresenceTime.StaysInRange | src/ble_manager.c:108-116 | a device seen by an advertisement, an encrypted link or an answered poll is in range for ten seconds at least, whatever happens but a deletion of its bond |
| PresenceTime.TimeoutIff | src/ble_manager.c:108-129 | a device is announced as timed out exactly by a pass that does not see it, while it is in range, ten seconds or more after it was last seen |
| PresenceTime.PresenceLaw | src/ble_manager.c:84-129 | what any one step makes of any one device: seen, it is in range as of now; deleted or timed out, it is not; otherwise nothing changes |
| PresenceTime.EventLaw | src/ble_manager.c:98-127 | a step announces a device as in range exactly if it sees it and it was not, with the RSSI it saw; as out of range for reason 0 exactly if a pass times it out, and for reason 1 exactly if its bond is deleted while it is in range |
| PresenceTime.RssiLaw | src/ble_manager.c:502-523 | RSSI is reported exactly of a known device that advertises and of whomever the stack names on a polled link |
| PresenceTime.LinkIff | src/ble_manager.c:92-93 | in every run the handle a device is polled over is that of the last link that was encrypted for it, until exactly the closing of that link, a timeout or a deletion |
| PresenceTime.LinkLaw | src/ble_manager.c:584-603 | the same for one step |
| PresenceTime.PollsIff | src/ble_manager.c:878-880 | a pass polls exactly five seconds or more after boot and after the last pass that did since scanning was started |
| PresenceTime.KnownLaw | src/ble_manager.c:63-82 | a device has an entry from a seed or an encrypted link on, unless the table is then full, until its bond is deleted |
| Presence.InRangeTable.FindByMac | src/ble_manager.c:42-49 | the first occupied slot with the MAC, or none |
| Presence.InRangeTable.FindByHandle | src/ble_manager.c:51-61 | the first occupied slot with the connection handle, or none |
| Presence.InRangeTable.GetOrAdd | src/ble_manager.c:63-82 | an existing entry, or the first free slot filled with a new inactive one; a full table is left alone |
| Presence.InRangeTable.MarkActive | src/ble_manager.c:84-106 | refreshes one entry and announces it when it comes into range |
| Presence.InRangeTable.ExpireStale | src/ble_manager.c:108-129 | withdraws exactly the active entries not seen for ten seconds, in slot order |
| Presence.InRangeTable.SeedFromBonds | src/ble_manager.c:133-146 | adds every bonded peer as an inactive entry |
| Presence.InRangeTable.OnAdvertised | src/ble_manager.c:502-523 | an advertisement of a known identity refreshes it and reports its RSSI; others are ignored |
| Presence.InRangeTable.OnEncrypted | src/ble_manager.c:604-624 | an encrypted link adds or refreshes its peer |
| Presence.InRangeTable.OnDisconnected | src/ble_manager.c:584-603 | a disconnect detaches the handle and leaves presence alone |
| Presence.InRangeTable.DeleteBond | src/ble_manager.c:816-849 | a deleted bond empties the slot, with an event if the device was active |
| Presence.InRangeTable.PollConnected | src/ble_manager.c:878-897 | every connected entry whose handle is still known is refreshed and reports its RSSI, in slot order |
| Presence.InRangeTable.RssiPass | src/ble_manager.c:875-902 | one pass polls when five seconds have passed and then expires |
| Presence.InRangeTable.GetInRange | src/ble_manager.c:770-789 | the active entries in slot order, cut to the limit |
| Presence.InRangeTable.InRangeList | src/command_dispatcher.c:1025-1052 | the list sent to the host names every active device with its RSSI and cuts none off |
| Replica.ReplicaAgrees | custom_components/rose/coordinator.py:89-141 | after an in-range list taken in any state of the firmware and then any loss-free, in-order sequence of its events, the MACs the coordinator marks home are exactly the active devices |
| Replica.RefreshAgrees | custom_components/rose/coordinator.py:40-57 | the events handled while a refresh awaits its answers are overwritten; after it and any events since, the MACs at home are the active devices if and only if every device whose activity at the end of the refresh differs from the answer has announced a move since |
| Replica.QuietRefreshAgrees | custom_components/rose/coordinator.py:51-57 | without a move during the refresh: if and only if the in-range call succeeded or every device active at that moment has announced a move since |
| Replica.FailedRefresh | custom_components/rose/coordinator.py:51-55 | right after a refresh the sets agree exactly when the call succeeded or nobody was in range, and a failed call leaves nobody home |
| Replica.HandledHome | custom_components/rose/coordinator.py:107-118 | each event moves the set of devices at home as it moves an observer of the firmware; an RSSI event never does |
| Replica.HandledRest | custom_components/rose/coordinator.py:107-141 | after any events each device has the RSSI last reported of it and the name it had, and devices no event names are untouched |
| Replica.SnapshotRest | custom_components/rose/coordinator.py:94-106 | after a list of the firmware the replica has the RSSI of the entry of every device in range and of no other, and every name is kept |
| Replica.ListedIsActive | custom_components/rose/coordinator.py:94-106 | the MACs of the list are the active devices |
| Replica.RoseCoordinator.SetBleState | custom_components/rose/coordinator.py:120-141 | one device is replaced, keeping its name; the bus hears of it exactly when asked to and when presence changed |
| Replica.RoseCoordinator.OnDeviceEvent | custom_components/rose/coordinator.py:107-118 | a device event updates its device, and the bus is told exactly of changes of the set at home |
| Replica.RoseCoordinator.OnInRangeList | custom_components/rose/coordinator.py:94-106 | afterwards exactly the listed devices are home; from the second list on the bus is told of each device whose presence changed, once, and of no other |
| Replica.RoseCoordinator.OnConnectionChange | custom_components/rose/coordinator.py:22-30 | losing the connection takes every device off home and clears its RSSI |
| Replica.RoseCoordinator.Refresh | custom_components/rose/coordinator.py:40-57 | the devices become the merge of the known ones with the names and the snapshot, either of them empty when its call failed; a failed status call changes nothing |
| Replica.MergeBleDevices | custom_components/rose/ble_state.py:10-29 | in whatever order the devices are visited, the merge is the one of the three dictionaries |
| Replica.NobodyHomeOffline | custom_components/rose/coordinator.py:22-30 | offline nobody is home and no device is forgotten |
| Pairing.PassClosesExactly | src/ble_manager.c:851-873 | in every reachable state and at all times, a task pass closes an open session exactly when the grace period of a pairing in this session is over, or its positive timeout has run out, both by the wrapped 32-bit clocks; it announces one closing, and none otherwise |
| Pairing.PassClosesInTime | src/ble_manager.c:859-867 | while session and pairing are younger than 2^32 seconds and 2^31 ticks, that is: a peer paired in this session at least a second before, or at least the timeout has gone by |
| Pairing.PendingIsOfThisSession | src/ble_manager.c:160-165 | in every reachable state a disable is pending only while pairing is enabled, and it was scheduled in the session that is open |
| Pairing.PendingIffScheduled | src/ble_manager.c:625-630 | in an open session a disable is pending exactly when a peer paired in that session, with the deadline of the last such pairing |
| Pairing.ClosedByTimeout | src/ble_manager.c:864-873 | a session with a positive timeout does not outlive the first pass at or after start + timeout |
| Pairing.SessionIsOpen | src/ble_manager.c:735-752 | pairing is enabled exactly when some enable has been neither followed by another nor closed, and timeout and start are those of that enable |
| Pairing.EventsTellTheState | src/ble_manager.c:754-768 | the events tell whether a session is open; every closing has reason 2 if it ends one and reason 0 if there was none, so no session is reported closed twice |
| Pairing.InRange | src/ble_manager.c:859-860 | the casts to u32 and int32 give the true difference of times within their range |
| Pairing.PairingControl.EnablePairing | src/ble_manager.c:735-752 | opens a session and drops whatever was scheduled |
| Pairing.PairingControl.DisablePairing | src/ble_manager.c:754-768 | closes the session and announces it with reason 2 or 0 |
| Pairing.PairingControl.ScheduleDisable | src/ble_manager.c:160-165 | sets the deadline one second ahead |
| Pairing.PairingControl.OnPasskeyAction | src/ble_manager.c:640-680 | remembers the link that asks for the passkey, in an open session |
| Pairing.PairingControl.OnEncChange | src/ble_manager.c:625-631 | schedules a disable when the remembered link is encrypted |
| Pairing.PairingControl.OnPairingComplete | src/ble_manager.c:681-690 | schedules a disable when a pairing succeeds in an open session |
| Pairing.PairingControl.OnDisconnect | src/ble_manager.c:594-596 | forgets the remembered link when it goes |
| Pairing.PairingControl.RssiPass | src/ble_manager.c:858-873 | the two checks of a pass act as one: at most one of them disables |
| Framing.ChunkIndependent | bridge/src/server.py:227-273 | for every byte stream, garbage included, and every split into chunks, frames and leftover are those of one parse of the whole stream |
| Framing.SameStreamSameFrames | bridge/src/server.py:227-273 | two splits of one stream give the same frames and the same leftover |
| Framing.ParseAppend | bridge/src/server.py:238-258 | parsing more bytes behind a leftover continues the parse |
| Framing.EncodedFramesParse | bridge/src/protocol.py:127-131 | a concatenation of encoded frames with payloads up to 4096 bytes parses to exactly those frames, and what follows them as if it came alone |
| Framing.FramesSurviveChunking | bridge/src/server.py:227-273 | the same through any chunking, with nothing left over |
| Framing.FrameRoundTrip | bridge/src/protocol.py:114-131 | decoding an encoded frame gives the frame |
| Framing.FrameLayout | bridge/src/protocol.py:114-131 | where the fields of an encoded frame lie, two bytes each with the low byte first |
| Framing.ParsedFramesBounded | bridge/src/server.py:243-248 | every frame handed on is well formed and within the limit, and the leftover is shorter than one frame of the largest size |
| Framing.IoTAgentServer.ProcessBuffer | bridge/src/server.py:237-273 | the inner loop ends; it dispatches exactly the event frames of the parse, each once and in order, and keeps its leftover |
| Framing.IoTAgentServer.ClientHandler | bridge/src/server.py:225-281 | over everything `recv` may return, the handler dispatches exactly the event frames of the whole stream, each once and in order, and disconnects only its own socket |
| Framing.EventsReachHandler | bridge/src/server.py:251-261 | on a connection that carries acceptable frames what is to be dispatched is exactly the event frames sent, each once and in order, and nothing is left over |
| Framing.PicksAreUnique | bridge/src/server.py:258-261 | that determines the dispatched frames |
| Framing.EventsCounted | bridge/src/server.py:258-261 | an event frame is dispatched as often as it was parsed, any other never; of event frames alone all are |
| Framing.IoTAgentServer.HandleDisconnect | bridge/src/server.py:283-300 | a handler of an earlier connection does not disturb the current one |
| Framing.IoTAgentServer.Accept | bridge/src/server.py:210-219 | the new client becomes the current connection |
| FirmwareReceive.RunLeavesRoom | src/tcp_client.c:143-147 | for any bytes and any chunking fewer than 8200 bytes stay buffered, so the overflow reset is unreachable and `recv` is never asked for zero bytes |
| FirmwareReceive.CommandsReceived | src/tcp_client.c:180-230 | well-formed streams with lengths up to 8192 hand on exactly the frames sent, in order, in any chunking |
| FirmwareReceive.IndifferentIffNothingBehind | src/tcp_client.c:142-232 | for every byte stream: however it may be received the outcome is the same if and only if nothing follows its first oversize header, and then the outcome is one scan of the whole stream |
| FirmwareReceive.RunIsScan | src/tcp_client.c:142-232 | on a stream with nothing behind an oversize header every list of chunks gives one scan of the whole stream |
| FirmwareReceive.OversizeDependsOnChunks | src/tcp_client.c:188-194 | the stream that shows it: an oversize header and an empty command are both dropped when they arrive together, and the command is handed on when it arrives alone |
| FirmwareReceive.EncodedScan | src/tcp_client.c:182-221 | in a concatenation of encoded frames nothing follows an oversize header, and a scan finds exactly their images |
| FirmwareReceive.TcpClient.Enqueue | src/tcp_client.c:205-219 | a full command queue drops its oldest command |
| FirmwareReceive.TcpClient.ParseFrames | src/tcp_client.c:180-221 | hands on every complete frame for which memory is found and tells how many bytes they took; an oversize header drops the buffer |
| FirmwareReceive.TcpClient.Compact | src/tcp_client.c:223-230 | the overlapping move keeps the unparsed bytes |
| FirmwareReceive.TcpClient.Receive | src/tcp_client.c:142-230 | one turn of the loop, on the buffer array, is one scan of what was left and what came |
| FirmwareReceive.TcpClient.ReceiveAll | src/tcp_client.c:145-232 | over one connection, from an empty buffer and any chunks that `recv` can return, what stays buffered and what the command queue is offered are those of the run of the chunks |
| FirmwareReceive.CommandsQueued | src/tcp_client.c:180-230 | so with memory for each the command queue holds the newest 64 of what it held and the commands sent, in any chunking |
| Crc.BytesAreBits | bridge/src/protocol.py:133-144 | the byte-wise loop is a bit-serial register fed with each byte least significant bit first |
| Crc.CheckValue | bridge/src/protocol.py:133-144 | nothing has the checksum 0xFFFF, and the ASCII digits 1 to 9 have the published check value 0x4B37 |
| Crc.UnshiftShift | bridge/src/protocol.py:139-143 | a step has an inverse on one side |
| Crc.ShiftUnshift | bridge/src/protocol.py:139-143 | and on the other: a step is a bijection of the 16-bit state |
| Crc.BurstDetected | bridge/src/protocol.py:133-144 | two different messages of one length whose difference lies within any 16 consecutive bits have different checksums |
| Crc.CommandIdProtected | bridge/src/protocol.py:136-136 | altering the command id alone always changes the checksum |
| Crc.ChecksumAffine | src/send_task.c:113-132 | for messages of one length the checksum is affine over XOR |
| Crc.FeedBytesLinear | src/send_task.c:116-130 | register and message enter the result linearly over XOR |
| Crc.CalculateCrc | src/send_task.c:113-132 | the two nested loops compute that checksum |
| Correlation.Accounting | bridge/src/events.py:36-83 | in every run, for each key, the events received since the last clear are the delivered or discarded ones plus the pending ones, the pending ones in arrival order, and no empty list is kept |
| Correlation.WaitTakesNext | bridge/src/events.py:99-123 | in every run of issues, answers, polls, clears and restarts a wait takes the event of the earliest arrival with its id that is eligible, was not forgotten and was not taken by an earlier wait, and nothing when there is none |
| Correlation.CrossTalkIff | bridge/src/events.py:99-123 | waiting for a command, once or repeatedly, can get the response to another if and only if an eligible one has arrived since the last clear or restart, answers a command of this or an earlier process a multiple of 65535 away, and is not taken yet |
| Correlation.NoCrossTalk | bridge/src/commands.py:24-31 | if only issued commands are answered, no wait gets the response to another command while none to an earlier process can arrive and at most 65535 commands have been issued, counted from the oldest one whose response can |
| Correlation.WindowIsExact | bridge/src/commands.py:24-31 | that bound is exact: without responses to earlier processes some run crosses responses if and only if the awaited command is at least 65535 away from the oldest answerable or the newest one |
| Correlation.CrossTalkPossible | bridge/src/commands.py:24-31 | whatever numbers of commands the processes have issued and whichever responses are still possible: some run crosses responses for a command if and only if a possible response belongs to another command of this or an earlier process with the same id |
| Correlation.ClearDoesNotHelp | bridge/src/events.py:30-34 | a clear does not start a new window: a response to command m that arrives after it is taken by the wait for command m + 65535, however few commands were issued since the clear |
| Correlation.RestartDoesNotHelp | bridge/src/commands.py:17-22 | nor does a restart of the bridge, which starts the ids again: a response to command m of the process before that arrives after it is taken by the wait for command m of the new one |
| Correlation.LateAnswerTaken | bridge/src/events.py:99-123 | a response that arrives when nothing else is pending is taken by the wait for any other command with the same id, of the same process or a later one |
| Correlation.IdsRepeat | bridge/src/commands.py:24-31 | ids are never 0, fit 16 bits, and repeat exactly every 65535 commands |
| Correlation.FirstIs | bridge/src/events.py:111-121 | the event a wait takes is the earliest eligible one |
| Correlation.EventHandler.ClearPending | bridge/src/events.py:30-34 | both indexes are emptied |
| Correlation.EventHandler.HandleEvent | bridge/src/events.py:36-68 | an event is filed behind the others of its opcode and, if it carries one, of its command id |
| Correlation.EventHandler.PollResponse | bridge/src/events.py:70-83 | a poll takes the oldest response of the id and leaves everything else |
| Correlation.EventHandler.PollResponseOfType | bridge/src/events.py:99-123 | a poll takes the oldest response that is an error or of a given type, keeping the order of the rest |
| Correlation.EventHandler.PollEventMatching | bridge/src/events.py:125-142 | a poll takes the oldest event that satisfies the predicate |
| Correlation.EventHandler.DiscardEventsMatching | bridge/src/events.py:170-192 | exactly the matching events of the opcode go, and their number is returned |
| Correlation.CommandDispatcher.GetNextCmdId | bridge/src/commands.py:24-31 | the k-th issued id is 1 + (k - 1) mod 65535 |
| Correlation.CommandDispatcher.SendCommand | bridge/src/commands.py:33-48 | a command that cannot be sent uses up its id all the same |
| Resolution.LevelIsDecided | bridge/src/client.py:55-97 | at every instant the filtered signal has the level of the last wide pulse that has started, or of the first wide one if none has |
| Resolution.DurationConserved | bridge/src/client.py:58-64 | total duration is conserved whenever a wide pulse exists, and the result is empty exactly when none does |
| Resolution.FixpointsAreClean | bridge/src/client.py:71-97 | the inputs the filter leaves alone are exactly the lists of wide pulses with alternating levels |
| Resolution.FilterIdempotent | bridge/src/client.py:55-97 | filtering twice is filtering once, for every resolution |
| Resolution.FilterCharacterised | bridge/src/client.py:55-97 | the filter is determined by its laws: any clean signal of the same length that follows the deciding pulses is its result |
| Resolution.RunAccounting | bridge/src/client.py:74-92 | at every step kept pulses and carry add up to the time consumed, and a carry remains only while nothing is kept |
| Resolution.RunClean | bridge/src/client.py:74-92 | every kept pulse is at least the resolution and neighbours differ in level |
| Resolution.SomePulseDecides | bridge/src/client.py:58-64 | where a wide pulse exists, one decides every instant |
| Resolution.CleanUnique | bridge/src/client.py:55-97 | two clean signals that agree at every instant are the same list |
| Resolution.ApplyResolution | bridge/src/client.py:55-97 | the loop over the list updated in place computes the filter; a resolution of at most 1 returns the capture as it is |
| SignalAdmission.AdmittedIsAccepted | src/command_dispatcher.c:510-567 | every request the platform admits, for a pin in signal mode and with a delay that fits its field, passes every check of the dispatcher, which reads its very edges, repeat count, gap, delay and carrier; an empty signal is only acknowledged |
| SignalAdmission.AdmittedIsPackable | platform/src/models/schemas.py:35-50 | for every pin that fits a byte an admitted request can be packed exactly when its delay is below 2^32 |
| SignalAdmission.LongDelayRaises | bridge/src/protocol.py:201-212 | a request that shows the difference: admitted, and packing it raises |
| SignalAdmission.AdmittedIsTransmitted | src/gpio_signal_task.c:198-210 | an admitted request also passes the transmit task's carrier check exactly when it has no carrier or its duty cycle is above 2^-150 |
| SignalAdmission.TinyDutyRefused | src/gpio_signal_task.c:198-210 | a request that shows the difference: admitted, dispatched, refused by the task |
| SignalAdmission.AcceptedIsCommand | src/command_dispatcher.c:510-560 | conversely every payload the dispatcher accepts is the encoding of a command within the schema's bounds on edges, repetitions, gap and time |
| SignalAdmission.EdgesRoundTrip | bridge/src/protocol.py:213-214 | the edges read from the packed bytes are the edges packed |
| SignalAdmission.HeaderRoundTrip | bridge/src/protocol.py:202-212 | the header fields read are the fields packed |
| SignalAdmission.PackedAgain | src/command_dispatcher.c:532-540 | every sequence of five-byte records is the packing of the edges read from it |
| SignalAdmission.ToBytes | bridge/src/protocol.py:201-215 | serialisation succeeds exactly when every field fits, and gives the packed command |
| SignalAdmission.SumDurations | src/command_dispatcher.c:533-548 | the loop sums the durations without wrapping, or reports a bad edge |
| SignalAdmission.TotalOf | src/command_dispatcher.c:553-554 | the 64-bit total does not wrap |
| SignalAdmission.CheckSignalTx | src/command_dispatcher.c:510-578 | the verdict of the branch: an acceptance exactly on the payloads that meet every bound, and the error it reports otherwise |
| Float32.EncodeDecodes | bridge/src/protocol.py:202-212 | packing a duty cycle in (0, 1] as a 32-bit float gives a finite float in [0, 1] that is positive exactly above 2^-150 |
| CarrierDuty.PercentOf | src/gpio_signal_task.c:257-257 | in 32-bit float arithmetic the duty cycle the driver is given is between 0 and 100 percent, and 0 exactly up to a stated bound |
| CarrierDuty.DutyPercent | src/gpio_signal_task.c:257-257 | for an admitted request it is 0 percent exactly when the duty cycle asked for is below 21474835 / 2^32, just under 0.005 |
| CarrierDuty.FaintDutyVanishes | src/gpio_signal_task.c:198-210 | a request that shows it: admitted, accepted by every check, and played with 0 percent |
| RmtPacking.SignalSurvives | src/gpio_signal_task.c:343-388 | from any admissible edge list, what the transmission writes is on the air for exactly the time admission checked, and what a reception captures of these items, in whatever batches they come, is the edges repeated, cut to the number asked for |
| RmtPacking.PackingIsFaithful | src/gpio_signal_task.c:359-372 | the items give back the edges exactly when every edge fits the 1-bit level and the 15-bit duration |
| RmtPacking.PackedHalves | src/gpio_signal_task.c:357-373 | packing keeps every edge in order, as the bit fields hold it, and pads an odd list with one zero half |
| RmtPacking.ChunksJoin | src/gpio_signal_task.c:346-356 | chunks lose nothing and split no pair; each has between one item and as many as the buffer holds |
| RmtPacking.TransmissionIsHeard | src/gpio_signal_task.c:538-557 | the unpacked halves of all repetitions are the edges repeated |
| RmtPacking.TransmissionPlays | src/gpio_signal_task.c:343-388 | edge by edge a transmission is its list repeated as often as asked; each gap has the length asked for and lies between two repetitions, one between any two |
| RmtPacking.AirTimeIsTotal | src/command_dispatcher.c:553-554 | durations of all written items and gaps add up to the total that admission checked |
| RmtPacking.FillChunk | src/gpio_signal_task.c:357-373 | the buffer holds the packing of the next edges, and every byte read lies in the signal data |
| RmtPacking.TransmitOnce | src/gpio_signal_task.c:346-383 | one repetition writes the chunks in order, up to the first write the driver refuses |
| RmtPacking.Transmit | src/gpio_signal_task.c:343-388 | all repetitions with the gaps between them, up to the first refused write, which is reported |
| RmtPacking.UnpackItems | src/gpio_signal_task.c:538-557 | the halves of positive duration are stored behind the earlier ones while there is room |
| RmtPacking.Receive | src/gpio_signal_task.c:528-560 | however the ring buffer delivers the items, the capture is the seen halves of all that come before the end time, cut to the requested number |
| RmtPacking.WindowOpens | src/gpio_signal_task.c:518-531 | the loop runs at a given time exactly when the end of the window fits 32 bits and is still ahead |
| RmtPacking.WindowDelivers | src/gpio_signal_task.c:518-536 | so a reception gets what arrives before its end, or nothing at all when the end does not fit 32 bits |
| RmtTask.SignalTask.Loop | src/gpio_signal_task.c:184-590 | over every sequence of items and every outcome of the calls made: at the top of the loop all channels are free, no driver is installed and no exchange handler registered; every signal buffer has been freed once and nothing else is left allocated; what was played is, item by item, what was asked for |
| RmtTask.ItemIsPlayed | src/gpio_signal_task.c:325-452 | an item with a signal is acknowledged exactly when every call succeeds and every write is taken; then its edges were played as many times as it asks, with its gaps between; after a refused write the driver was asked for no more than up to it; otherwise nothing was played |
| RmtTask.RunIsPlayed | src/gpio_signal_task.c:184-590 | the same for each item of a whole run, whose operations are those of its items one after the other |
| RmtTask.RunAnswered | src/gpio_signal_task.c:184-590 | the answers of a run are as many as its items and the items answered twice |
| RmtTask.ItemAnswered | src/gpio_signal_task.c:513-580 | each item is answered by exactly one ACK or error, but for a reception that runs out of memory, which gives an error and an ACK |
| RmtTask.CaptureAnswered | src/gpio_signal_task.c:619-705 | the capture task answers each item exactly once |
| RmtTask.ErrorTells | src/gpio_signal_task.c:198-452 | for each error code the exact conditions on the calls under which an item is answered with it |
| RmtTask.ExchangeCaptures | src/gpio_signal_task.c:415-443 | an acknowledged exchange reports the first edges of the interrupt, as many as there is room for, under its own number and pin |
| RmtTask.ReservationNeverFails | src/gpio_signal_task.c:213-230 | of what `ProcessItem` reports, an item is refused for lack of resources exactly when the mutex cannot be created or a driver call says so; a used-up channel is never the reason |
| RmtTask.SignalTask.ProcessItem | src/gpio_signal_task.c:192-588 | one item, through every error path: what it reports, and that it leaves everything free |
| RmtTask.SignalTask.SendSignal | src/gpio_signal_task.c:232-324 | configuring, installing and setting up the capture, with the clean-up of each failure |
| RmtTask.SignalTask.PlaySignal | src/gpio_signal_task.c:325-452 | playing the signal, with what the driver was asked to play, and ending the exchange, with the clean-up of each failure |
| RmtTask.SignalTask.ReceiveSignal | src/gpio_signal_task.c:453-580 | reception alone, with its window and the clean-up of each failure |
| RmtTask.LateReceptionIsEmpty | src/gpio_signal_task.c:518-575 | in terms of the answers: a reception whose end lies past 2^32 us of uptime reports an empty capture, any other the items up to its end |
| RmtTask.SignalTask.CaptureItem | src/gpio_signal_task.c:619-705 | the capture task frees its buffer and removes its handler on every path, and touches no RMT channel |
| RmtTask.SignalTask.ReserveTx | src/gpio_signal_task.c:51-75 | takes the first free channel; fails only without a mutex or with none free |
| RmtTask.SignalTask.ReserveRx | src/gpio_signal_task.c:77-101 | the same for reception channels |
| RmtTask.SignalTask.ReleaseTx | src/gpio_signal_task.c:103-112 | frees the channel; other numbers change nothing |
| RmtTask.SignalTask.ReleaseRx | src/gpio_signal_task.c:114-123 | the same for reception channels |
| RmtTask.SignalTask.StartCapture | src/gpio_signal_task.c:296-313 | an exchange registers its handler exactly when buffer, service and registration all succeed |
| RmtTask.SignalTask.FinishCapture | src/gpio_signal_task.c:415-443 | the handler is removed and the buffer freed whether or not the capture can be sent |
| RmtTask.SignalTask.CaptureEdges | src/gpio_signal_task.c:34-49 | the interrupt stores edges while there is room |
| NvsStore.WhatComesBack | src/nvs_store.c:210-304 | saving, booting and restoring gives back every in-use configured pin with mode, pull, edge and in-use mark, its value if it drives the pin, and every in-use UART with all settings; all else is as at boot, apart from the ownership the UARTs assign |
| NvsStore.PinAfterReboot | src/nvs_store.c:93-133 | pin by pin in plain terms: a pin in use with mode other than 0xFF has mode, pull and edge again, its value in modes 1 and 5 and 0 otherwise; any other is as at boot; the last in-use UART with the pin owns it, and otherwise it has its in-use mark and no owner |
| NvsStore.UartAfterReboot | src/nvs_store.c:135-175 | a UART in use has all its settings again, any other is as at boot |
| NvsStore.SaveAndReboot | src/nvs_store.c:529-545 | saving both tables, booting and restoring them leaves the tables that the round trip is stated of |
| NvsStore.SecondRebootChangesNothing | src/nvs_store.c:93-175 | a second save and restore changes nothing |
| NvsStore.GpioBlobRoundTrip | src/nvs_store.c:123-129 | reading a GPIO blob gives the records it was written from |
| NvsStore.UartBlobRoundTrip | src/nvs_store.c:162-171 | reading a UART blob gives the records it was written from |
| NvsStore.BlobsFit | src/nvs_store.c:122-129 | the counts fit the count byte, every record lies inside the blob, so do the bytes read of it, and a saved blob is read back unchanged whatever lies behind it |
| NvsStore.GpioReadInsideIff | src/nvs_store.c:228-260 | for every GPIO blob: the records read do not depend on the memory behind it if and only if it counts none or reaches to the sixth byte of its last record |
| NvsStore.UartReadInsideIff | src/nvs_store.c:364-410 | for every UART blob the same, with the eleventh byte |
| NvsStore.GpioRestoreIff | src/nvs_store.c:228-260 | nor do the restored pins, if and only if that holds or the blob ends in its last record and that record names no pin |
| NvsStore.UartRestoreIff | src/nvs_store.c:364-410 | the same for the restored UARTs and the pins they claim |
| NvsStore.ShortBlobReadsOn | src/nvs_store.c:228-245 | two short blobs of one record: with the count byte alone every byte of the record is whatever lies behind it; with the six bytes that are read, none is |
| NvsStore.PinsComeBack | src/nvs_store.c:234-304 | restoring the saved pins into the boot table gives back, pin by pin, what is kept of them |
| NvsStore.PinRestored | src/nvs_store.c:234-249 | after any records a pin has mode, pull, edge and in-use mark of the last record for it, and without one it is unchanged |
| NvsStore.ValueRestored | src/nvs_store.c:280-284 | and the value of the last record for it whose mode drives the pin |
| NvsStore.PinsAreClaimed | src/nvs_store.c:388-397 | each pin ends up owned by the last in-use UART that has it |
| NvsStore.NvsStore.SaveGpio | src/nvs_store.c:93-133 | the stored blob becomes the one of all in-use configured pins, or stays whole when memory or the write fails |
| NvsStore.NvsStore.SaveUart | src/nvs_store.c:135-175 | the same for UARTs |
| NvsStore.NvsStore.RestoreGpio | src/nvs_store.c:210-304 | for any blob, the table after applying every record its count byte announces, and the number of records with a known pin and mode |
| NvsStore.NvsStore.RestoreUart | src/nvs_store.c:346-426 | for any blob, both tables after applying every record its count byte announces |
| NvsStore.NvsStore.RestoreAll | src/nvs_store.c:529-545 | the restore at boot applies the pins first and then the UARTs |
| Tcl.FrameRoundTrip | custom_components/rose/protocols/tcl.py:56-89 | a decoder recovers the canonicalised state from every encoded state; the frame has fourteen bytes, the fixed header, and the sum of the others mod 256 as its last byte |
| Tcl.SameFrameSameSettings | custom_components/rose/protocols/tcl.py:56-89 | two states have the same frame exactly when they canonicalise to the same settings |
| Tcl.FrameBytes | custom_components/rose/protocols/tcl.py:56-89 | the frame byte by byte in plain numbers: codes of mode and fan, bit weights, and 31 less the temperature held between 16 and 31 |
| Tcl.KnownCapture | tests/test_ha_tcl_protocol.py:21-31 | the frame of a state that was captured from a remote control |
| Tcl.SetBitsBit | custom_components/rose/protocols/tcl.py:47-53 | bit by bit the assignment is the masked one: the bits of the field come from the field, all others from the value |
| Tcl.SetBitsEffect | custom_components/rose/protocols/tcl.py:51-53 | the written field reads back, every disjoint field is untouched, and a byte stays a byte |
| Tcl.SetBitsReads | custom_components/rose/protocols/tcl.py:51-53 | a field reads back cut to its width, and writing what is there changes nothing |
| Tcl.SignalRoundTrip | custom_components/rose/protocols/tcl.py:92-99 | the pulse-distance code decodes to the bytes sent, for byte strings of any length and any jitter below 375 us |
| Tcl.SignalAt | custom_components/rose/protocols/tcl.py:92-99 | the signal edge by edge: leader, then for each bit, lowest first, a mark of 500 us and a space of 1100 or 350 us, and a last mark |
| Tcl.EverySignalAdmitted | platform/src/models/schemas.py:44-50 | for every frame of fourteen bytes, hence by `FrameRoundTrip` for every state, and for every repeat count 1..100 and gap 0..100000 the signal has 227 edges and the platform admits it |
| Tcl.StateReachesUnit | custom_components/rose/protocols/tcl.py:92-99 | end to end: the dispatcher and the carrier check pass, and the unit that hears the transmission, chunked into RMT items and repeated, recovers the canonical settings from every repetition |
| Tcl.EncodeFrame | custom_components/rose/protocols/tcl.py:56-89 | the assignments into the frame buffer and the sum compute the frame |
| Tcl.SetPowerAndMode | custom_components/rose/protocols/tcl.py:58-70 | the power and mode bytes are set and no other |
| Tcl.SetComfort | custom_components/rose/protocols/tcl.py:71-87 | the temperature, fan, timer and swing bytes are set and no other |
| Tcl.EncodeByte | custom_components/rose/protocols/tcl.py:95-97 | eight marks and spaces, low bit first |
| Tcl.EncodeSignal | custom_components/rose/protocols/tcl.py:92-99 | the nested loops append the signal of the frame |
| Dht11.ExchangeDecodes | custom_components/rose/protocols/dht11.py:15-45 | any exchange that carries five bytes, with jitter, low edges, out-of-window pulses and trailing edges mixed in, decodes to humidity in tenths from the first two and signed temperature in tenths from the next two, and succeeds exactly when the fifth is their sum modulo 256 |
| Dht11.CompleteIsExchange | custom_components/rose/protocols/dht11.py:15-30 | conversely every capture the decoder takes for complete is such an exchange of forty bits |
| Dht11.CollectPulses | custom_components/rose/protocols/dht11.py:17-28 | the loop collects the accepted pulses after the response, and at most forty |
| Dht11.PackFrame | custom_components/rose/protocols/dht11.py:32-35 | long pulses are ORed into their bits of the five bytes |
| Dht11.Decode | custom_components/rose/protocols/dht11.py:15-45 | the reading, or the error, of the specification function |

## Left out

- Sockets, Wi-Fi, keepalive, reconnect timing and threads: only the bytes received and the frames sent are modelled; a
  partial `send` counts as a whole one, as the source treats it.
- The NimBLE stack: bonds, eviction, advertising and resolution of addresses; a connection lookup is a parameter, and
  `RssiImpliesInRange` states that it has to return the identity in the slot.
- Interleavings inside one BLE callback or task pass, and a `now` that is read before another callback runs: every step
  is atomic and has one time.
- Rejection of frames with a bad checksum: no receiver checks it, and the firmware computes it over other bytes than the
  bridge (it covers the checksum field itself and not the last two payload bytes), so only the function is modelled.
- Reads of a passthrough's payload beyond the end of its frame: the payload is the parameter the length field announces.
- `thread_table`: nothing in the repository marks a device online, so the devices are an input of the command.
- The contents of port statuses in a snapshot: the model counts them and names their ports.
- EventHandler.HandleEvent: callbacks and parsing; callbacks are taken not to raise out of it, which the source ensures.
- A server without an event callback, which dispatches nothing.
- Waiting: each wait is modelled as the poll it repeats until its timeout.
- Text forms of MAC addresses: devices are keyed by the address itself; an event without a MAC is not modelled.
- RmtTask.SignalTask.CaptureItem: a capture and an exchange on one pin at the same time, which would share one interrupt
  handler, and the interval between capture interrupts; the edges they record are an input.
- Delays and gaps as time: they appear as values, not as waiting. The window of a reception alone is modelled by the
  times its loop reads.
- Driver calls that only configure hardware (GPIO, UART, ADC, carrier): their result codes are inputs, their
  effect on the hardware is not modelled.
- ADC readings, timestamps and the event queue handle of the tables: restored tables are compared without them.
- Ownership of pins by UARTs is not exclusive in the source (UART 0 shares its number with "no owner"), and nothing is
  claimed about it beyond what the restore assigns.
- Fractional temperatures: TCL temperatures are integer degrees and DHT11 readings integer tenths.
- Tcl.SetBitsBit: negative numbers; the source only ever passes bytes.
- BLE scan settings, session version, heartbeat and the fixed-size command structures: each is a single field or a
  single pack call.
- The React console, the Lovelace card, entities, config flows, HTTP routes, database and access control.
