# anylan in Dafny

A verified model of anylan, a virtual LAN: a relay server puts clients into named rooms, gives
each an IPv4 address, switches Ethernet frames between the members of a room, and forwards the
clients' latency probes.

`dafny verify dfyconfig.toml` checks everything.

## How it is built

Every region of code that holds a lock is a function on values (`RoomModel`, `RelayWorld`,
`StatusModel`, `Limiter`, `DataPlane`, `Wire`). Where the code updates fields in place there is a
class whose methods are proved to do to the fields what the function does to the value (`Relay`,
`Client`, `DataLoop`, `Wire.Stream`, `Recorders`). Runs and interleavings are step systems over the
same functions, and the main theorems are about every run:

- **RelayWorld, RelayTheorems**: any number of Join and RemovePeer calls in flight. Join holds no
  lock of its own: it is the steps `Lookup` (getOrCreateRoom), `Add` (AddPeer), and back to the
  lookup when the room was closed. RemovePeer is `Leave`, and `Delete` for each deleteEmptyRoom call
  it leaves in flight.
- **LatencyRuns**: one client's latency tracker under any sequence of lists, ticks, timeouts and
  pongs. **LatencyNet**: many clients, the server's forwarding, bounded queues, arbitrary loss, and
  peers that do not run this code and forge what they like.
- **ControlStream**: the writers of one control stream, interleaved Write by Write under their lock.
- **DataPlane, DataTruth**: the data loop with limiter, switching and bounded queues, its books, and
  that the log they are kept by tells the truth.
- **Bridge, BridgeTheorems**: IPv4 packets wrapped, switched and unwrapped, from device to device.

Things the code leaves to chance or to its surroundings are inputs. A peer pointer is a `Peer` value
whose `ref` is the Join call that allocated it; a room pointer is an index into the rooms ever made.
Random ids, MACs and nonces are parameters: the safety theorems hold for every draw, the exactness
theorems for draws that are new to the room, and `AddKeepsExactIff` says that this is exactly what
they need. Times are parameters, in nanoseconds. A pool is one `LoadPool` returns. Addresses are
uint32 values and addresses in text are modelled by what they parse to. Integer width is written out
where the code could wrap: `uint8` hosts, `uint32` room indices and addresses.

Four properties one might expect are false of the code. Each has a witness and its exact condition:

- *A mapped room has a member or is about to be deleted.* `EmptyRoomIsReachable` reaches an empty
  mapped room in three steps. `EmptyExactlyIfNeverJoined`: it is so exactly of the rooms from which
  no Join ever returned a peer. `NewRoomRefusesIff` and `FirstJoinLeavesEmptyIff`: a new room is left
  behind exactly when an id or MAC cannot be drawn or the MAC asked for is not a valid peer MAC.
- *Every host below the counter is free or held.* Two joins that draw one id lose a host
  (`CollisionWitness`); every colliding id loses one (`CollidingJoinLosesHost`), and it stays lost in
  every run (`LostInEveryRun`). `AddKeepsExactIff`: a join keeps the hosts exactly when the id is
  new, and the MAC table as well exactly when the MAC is new.
- *A packet for a member reaches it.* `StaleListWitness` has a sender whose list was true before an
  address changed hands, and whose packet no device gets. `PacketReachesIff`: for any list it arrives
  exactly when no third member owns the MAC the list gives, the limiter lets the frame pass and the
  receiver's queue has space.
- *What can be read can be written.* `UnlimitedReadAcceptsTooMuch` has the message,
  `ReadableIsWritableIff` the limits: it holds exactly under 1..65536.

## Model

| member | source | states |
|---|---|---|
| `Wire.Stream.WriteMessage` | internal/protocol/protocol.go:125-147 | refuses exactly the unknown types and oversized payloads, writing nothing; otherwise appends exactly the encoding |
| `Wire.Stream.ReadMessage` | internal/protocol/protocol.go:149-176 | result, error and bytes consumed are those of `Decode`, on every stream and limit; a payload never exceeds a positive limit |
| `Wire.DecodeAnswers` | internal/protocol/protocol.go:149-176 | every answer of a read from the raw bytes: the end errors, unknown types outside 1..7, lengths over the limit or over 1600 for a frame, else type and payload, and what is left |
| `Wire.ReadRespectsLimit` | internal/protocol/protocol.go:160-166 | a successful read respects its limit, and the frame size under every limit |
| `Wire.EncodeLayout` | internal/protocol/protocol.go:136-147 | type byte, length with the most significant byte first, payload |
| `Wire.ReadBack` | internal/protocol/protocol.go:125-176 | any sequence of accepted messages within the limit reads back as itself, whatever bytes follow |
| `Wire.ReadBackControl` | internal/protocol/protocol.go:125-176 | under the control limit every accepted sequence reads back exactly and then ends cleanly |
| `Wire.DecodeIsCanonical` | internal/protocol/protocol.go:149-176 | under any limit the bytes consumed are the encoding of the result, which a writer would accept if and only if it is at most the control size |
| `Wire.UnlimitedReadAcceptsTooMuch` | internal/protocol/protocol.go:161-163 | under every limit outside 1..65536 a message larger than any writer sends is accepted |
| `Wire.ReadableIsWritableIff` | internal/protocol/protocol.go:149-176 | all that can be read under a limit is what a writer accepts, if and only if the limit is in 1..65536 |
| `Wire.PrefixNeverDecodes` | internal/protocol/protocol.go:149-176 | a strict prefix of a message never yields a message and, within the limit, only an end-of-stream error |
| `Wire.CutStream` | internal/protocol/protocol.go:149-176 | a stream cut anywhere gives some of its messages, in order, all of them exactly when uncut, and no error but its end |
| `Pool.LoadPool` | internal/server/server.go:204-219 | accepts exactly the IPv4 prefixes of at most 24 bits, each refusal with its own error; the result is masked and contains the given address; no flag gives 10.240.0.0/12 |
| `Pool.PoolFits` | internal/relay/room.go:220 | an accepted pool lies below 2^32 and is exactly 2^(24-bits) blocks of 256 addresses |
| `Pool.RoomBaseDoesNotWrap` | internal/relay/room.go:193-203 | for every index the allocator can give, the uint32 sum does not wrap and gives that block of the pool |
| `Sorting.Sort` | internal/relay/room.go:434 | same elements; strictly ordered when there were no duplicates |
| `Sorting.SortPermutes` | internal/relay/room.go:242 | sorting is a permutation |
| `RoomModel.LocalMac` | internal/relay/room.go:580-587 | a random MAC is the drawn bytes with bit 1 of the first set and bit 0 cleared, and always a valid peer MAC |
| `RoomTheorems.GroupBit` | internal/relay/room.go:548-571 | of six bytes the low bit of the first tells a group address; a peer may have exactly the others but zero |
| `RoomTheorems.JoinAnswers` | internal/relay/room.go:259-316 | which of five errors a join gives, each exactly when, in the order of the checks; else the peer has the id drawn and the MAC asked for or drawn |
| `RoomTheorems.DrawnMacsDiffer` | internal/relay/room.go:284-290 | two members who asked for no MAC have different ones if the last five bytes drawn differ |
| `RoomModel.AddHandsOut` | internal/relay/room.go:259-316 | a successful join hands out an address of the room that no member holds and whose host is no longer free |
| `RoomModel.AddKeepsSafe` | internal/relay/room.go:259-316 | whatever is drawn, addresses stay distinct and in the room, the free list ordered, and a closed room empty |
| `RoomModel.RemoveKeepsSafe` | internal/relay/room.go:397-435 | the same for a removal |
| `RoomModel.ReleaseKeepsFree` | internal/relay/room.go:420-435 | releasing a member's host adds it and nothing else to the free list, in order |
| `RoomTheorems.AddKeepsExactIff` | internal/relay/room.go:271-314 | a successful join keeps the host partition if and only if the drawn id is new, and the MAC table too if and only if the MAC is new as well |
| `RoomTheorems.RemoveKeepsExact` | internal/relay/room.go:397-418 | a removal keeps the host partition and the MAC table exact |
| `RoomTheorems.RemoveAnswers` | internal/relay/room.go:397-412 | in any room exactly the peer's id leaves the member map and exactly the addresses pointing to it the MAC table; deletion is asked for exactly when it was the last member |
| `RoomTheorems.LeavingSparesOthers` | internal/relay/room.go:404-409 | in any safe room, frames that go to another member alone still do after somebody left |
| `RoomTheorems.RefusedAddChangesNothing` | internal/relay/room.go:267-294 | a refused join leaves the room as it was |
| `RoomTheorems.RemoveTwice` | internal/relay/room.go:399-402 | a second RemovePeer changes nothing and asks for nothing |
| `RoomTheorems.AddGivesLeastHost` | internal/relay/room.go:318-331 | a new member gets the least host 2..254 no member holds |
| `RoomTheorems.FullExactlyAt253` | internal/relay/room.go:318-331 | the allocator has no host left exactly when the room has 253 members, and no room has more |
| `RoomTheorems.JoinFullExactlyAt253` | internal/relay/room.go:259-316 | a join is answered "room full" exactly when id and MAC pass every check and the room has 253 members, and succeeds exactly when they pass and it has fewer |
| `RoomTheorems.CollidingJoinLosesHost` | internal/relay/room.go:265-314 | a join that draws the id of a member succeeds and loses that member's host |
| `RoomTheorems.CollisionWitness` | internal/relay/room.go:265-314 | two joins of a new room with one drawn id: both succeed and host 2 is lost |
| `RoomTheorems.LostForGood` | internal/relay/room.go:259-468 | neither a join nor a removal nor a frame brings a lost host back |
| `RoomTheorems.LeaveRestoresTables` | internal/relay/room.go:397-418 | joining and leaving gives back the member map and the MAC table |
| `RoomTheorems.LeaveRestoresHost` | internal/relay/room.go:420-435 | and the host the next member will get |
| `RoomTheorems.ForwardIsScan` | internal/relay/room.go:437-468 | Forward's errors; nothing for a removed peer; else what a scan of all members gives, never the sender, one peer for an owned unicast address; the room does not change |
| `RoomTheorems.ForwardLearns` | internal/relay/room.go:449-455 | in any room a group address reaches all the others, and an accepted frame makes its sender the owner of its MAC and changes nothing else |
| `RoomTheorems.SendingReclaimsMac` | internal/relay/room.go:452-465 | a member whose MAC was taken by a collision gets it back by sending: the next frame for it goes to that member alone |
| `Relay.Room.AllocateHost` | internal/relay/room.go:318-331 | refines the host allocator |
| `Relay.Room.ReleaseHost` | internal/relay/room.go:420-435 | refines the release, with its search for a host already free |
| `Relay.Room.AddPeer` | internal/relay/room.go:259-316 | refines the join, every error case in order |
| `Relay.Room.ForgetMacs` | internal/relay/room.go:405-409 | the loop deletes exactly the entries that point to the peer |
| `Relay.Room.RemovePeer` | internal/relay/room.go:397-412 | refines the locked half of the removal |
| `Relay.Room.OtherPeers` | internal/relay/room.go:538-546 | lists every other member exactly once |
| `Relay.Room.Forward` | internal/relay/room.go:437-468 | refines the switching; the targets are listed once each |
| `Relay.Manager.AllocateRoomIndex` | internal/relay/room.go:213-227 | refines the index allocator |
| `Relay.Manager.GetOrCreateRoom` | internal/relay/room.go:180-211 | refines the lookup; the room returned is the one the model names |
| `Relay.Manager.DeleteEmptyRoom` | internal/relay/room.go:229-243 | refines the deletion, including the calls that must do nothing |
| `Relay.Manager.RemovePeer` | internal/relay/room.go:397-418 | both halves of RemovePeer in sequence |
| `RelayWorld.StepKeeps` | internal/relay/room.go:127-418 | every atomic step, in any interleaving, keeps the invariant of rooms, indices and calls |
| `RelayWorld.RunKeeps` | internal/relay/room.go:127-418 | so does every run, from any world that satisfies it |
| `RelayTheorems.MembersRoomIsMapped` | internal/relay/room.go:180-211 | in every reachable world a room with a member is open and is the room its name is mapped to |
| `RelayTheorems.OneRoomPerName` | internal/relay/room.go:127-143 | any two current members who joined under one name share one room |
| `RelayTheorems.MembersComeFromJoins` | internal/relay/room.go:302-315 | every peer in a member map is the current member of the Join call that allocated it, under that room's name |
| `RelayTheorems.EntersOnlyMappedRooms` | internal/relay/room.go:259-316 | no peer ever enters a closed room or one its name is not mapped to |
| `RelayTheorems.LeaveAnswers` | internal/relay/room.go:397-412 | after RemovePeer its peer is out and every other member of every room is still in |
| `RelayTheorems.LastOneAsks` | internal/relay/room.go:411-417 | a deletion is in flight for the room exactly when the peer was the last one there |
| `RelayTheorems.LeftForGood` | internal/relay/room.go:259-418 | who has left is a member again in no later world of any run |
| `RelayTheorems.SendTeaches` | internal/relay/room.go:437-452 | a member's well-sent frame makes it the owner of its MAC in its room and touches no other room |
| `RelayTheorems.AddressesAreDistinct` | internal/relay/room.go:193-203 | members of all rooms have pairwise different addresses, in the pool, last byte 2..254, without wrapping |
| `RelayTheorems.HostCounterDoesNotWrap` | internal/relay/room.go:325-330 | the uint8 host counter never wraps |
| `RelayTheorems.RoomCounterDoesNotWrap` | internal/relay/room.go:220-226 | the uint32 room counter never wraps |
| `RelayTheorems.IndicesPartition` | internal/relay/room.go:213-243 | no two mapped rooms share an index; live and free indices are disjoint, together exactly 0..nextRoom-1, and at most 2^(24-bits), whatever deletions are in flight |
| `RelayTheorems.LeastIndexFirst` | internal/relay/room.go:213-227 | a new room gets the least index no open room has |
| `RelayTheorems.PoolFullExactlyWhenAllLive` | internal/relay/room.go:220-223 | the pool is full exactly when as many rooms are mapped as it holds |
| `RelayTheorems.LookupAnswers` | internal/relay/room.go:180-211 | a lookup gives the mapped room; else, exactly while fewer rooms are mapped than the pool holds, a new empty one now mapped; else the pool-full error |
| `RelayTheorems.RetriesAreBounded` | internal/relay/room.go:132-142 | the rooms a Join gave up are distinct, closed during the call and unmapped; it retried at most as often as rooms were closed since it started |
| `RelayTheorems.ClosedRoomRetries` | internal/relay/room.go:132-142 | a Join that meets a closed room goes back to its lookup with the same request and changes nothing |
| `RelayTheorems.JoinNeverReportsClosed` | internal/relay/room.go:138-140 | no Join ever returns the room-closed error |
| `RelayTheorems.FreshRunsAreExact` | internal/relay/room.go:259-468 | in every run without a colliding draw every room's hosts and MAC table are exact |
| `RelayTheorems.LostInEveryRun` | internal/relay/room.go:259-468 | a host a room has lost stays lost in every later world |
| `RelayTheorems.EmptyExactlyIfNeverJoined` | internal/relay/room.go:127-243 | in every reachable world an open room is empty with no deletion in flight if and only if no Join ever returned a peer of it, if and only if its first host was never handed out |
| `RelayTheorems.NewRoomRefusesIff` | internal/relay/room.go:259-316 | a new room refuses exactly when the id cannot be drawn, the MAC asked for is invalid, or none is asked for and none can be drawn |
| `RelayTheorems.FirstJoinLeavesEmptyIff` | internal/relay/room.go:127-143 | over every pool and request the first Join leaves an empty mapped room and no deletion in flight exactly when it is refused |
| `RelayTheorems.EmptyRoomIsReachable` | internal/relay/room.go:132-141 | a run of three steps that ends with an empty mapped room that nothing will delete |
| `RelayTheorems.RefusedJoinLeavesRoomMapped` | internal/relay/room.go:133-141 | whenever an open room refuses a join, the call ends with the error AddPeer gave, the core and the deletions in flight stay as they were and the room stays mapped |
| `Limiter.SlidingBound` | internal/relay/room.go:482-498 | in any k seconds at most (k+1)*5000 frames and (k+1)*20 MiB are admitted |
| `Limiter.RefusedOnlyWhenFull` | internal/relay/room.go:487-494 | a frame is refused only if, with those admitted since some instant less than a second ago, it would exceed a limit |
| `StatusModel.BestIsLeast` | internal/client/client.go:608-622 | the scan finds nobody when nobody is eligible; otherwise it finds the first eligible peer of least order if and only if that peer's id is not empty |
| `StatusModel.ProbeSentIff` | internal/client/client.go:599-641 | a tick sends a probe if and only if the client is connected under an id, a nonce is drawn and somebody with the feature, other than itself, is due and not waiting; it goes to the first of least order and is then waited for; else nothing changes |
| `StatusModel.PingPong` | internal/client/client.go:966-983 | a ping is answered exactly when stamped and for this client; the stamped answer ends the asker's wait with the time since the issue |
| `StatusModel.PongAnswers` | internal/client/client.go:643-657 | a pong counts exactly when stamped, for this client and matching the probe waited for; then only that entry changes |
| `StatusModel.ListedMacIs` | internal/client/client.go:685-706 | the MAC for an address is that of the first entry that names the address, is not the client's own and has a MAC text, if it parses |
| `Client.StatusTracker.KeepLatencyPeers` | internal/client/client.go:577-597 | the two loops leave entries for exactly the listed peers, each reset to its last place |
| `Client.StatusTracker.Joined` | internal/client/client.go:550-565 | refines the start of a connection |
| `Client.StatusTracker.UpdatePeers` | internal/client/client.go:567-575 | refines a list update |
| `Client.StatusTracker.NextLatencyProbe` | internal/client/client.go:599-641 | refines the choice and issue of a probe |
| `Client.StatusTracker.RecordLatencyPong` | internal/client/client.go:643-657 | refines the recording of a pong |
| `Client.StatusTracker.ExpireLatencyProbes` | internal/client/client.go:659-677 | refines the timeout of overdue probes |
| `Client.StatusTracker.PeerMacForIPv4` | internal/client/client.go:685-706 | refines the MAC lookup |
| `LatencyRuns.EntriesAlwaysOk` | internal/client/client.go:577-677 | in every run entries are those of the listed peers with their last place, and pending flag, probe id and state "pending" coincide |
| `LatencyRuns.StatusTellsStory` | internal/client/client.go:577-677 | in every run the status shows of each listed peer exactly what happened since it was listed: never probed, waiting, answered or late, the last round trip, and the next probe ten seconds after the last |
| `LatencyRuns.ProbesBalance` | internal/client/client.go:599-677 | every probe sent is waiting, answered, timed out or lost with its peer, exactly one of these; answers and timeouts carry the right peer and times |
| `LatencyRuns.NoOldProbeWaits` | internal/client/client.go:659-677 | after a timeout check no probe waits that is three seconds old |
| `LatencyRuns.LatePongChangesNothing` | internal/client/client.go:646-649 | a late, repeated or misdirected pong changes nothing |
| `LatencyRuns.ProbesAreSpaced` | internal/client/client.go:615-634 | probes of a peer that stays listed are at least ten seconds apart |
| `LatencyRuns.NobodyIsBypassed` | internal/client/client.go:599-641 | between two probes of one peer every other peer eligible at the second was probed itself, at a time no earlier than the first; after the first when tick times differ |
| `LatencyRuns.FairBetweenLists` | internal/client/client.go:550-641 | the same of every stretch of a connection that begins at the join or with a list update and has no other, in any run |
| `LatencyRuns.DueIsProbed` | internal/client/client.go:599-641 | nobody starves: of any n ticks at which a peer is due, n being the length of the list, it is probed no later than at the last |
| `LatencyNet.StepKeeps` | internal/client/client.go:944-983 | every step of clients, server and network keeps what messages in flight say about the past |
| `LatencyNet.RoundTripsAreReal` | internal/control/handler.go:290-322 | a recorded round trip, whatever the peer runs, has exactly one issue of that id, to that peer, in the same room, and its value is receipt minus issue; a peer that runs this code handled that ping in between |
| `LatencyNet.NotifyQueuesAreBounded` | internal/relay/room.go:389-394 | in every run no notify queue holds more than 16 messages |
| `LatencyNet.OnlyRightMessagesCome` | internal/control/handler.go:290-322 | in every run whatever ping or pong is on its way to a client is for it, from another member of its room |
| `LatencyNet.LeaversGetNothing` | internal/relay/room.go:382-394 | once a member has left, its notify queue never grows again |
| `LatencyNet.ProbeGetsThere` | internal/client/client.go:951-976 | a probe issued behind any other messages, with space for them in the peer's queue: once the streams on its way are served, written and read without loss, it is handled and its pong is on its way |
| `LatencyNet.PongGetsBack` | internal/client/client.go:978-983 | likewise its pong comes back; it is recorded with the time it took if the client still waits, which it does unless a message before it was a list without the peer or the same pong, and otherwise changes nothing |
| `LatencyNet.JoinMakesMember` | internal/client/client.go:550-565 | a new id becomes a member of its room and its client connected with the list it was given |
| `LatencyNet.ListGetsThere` | internal/client/client.go:567-575 | a pushed list is the one the client has when it has read all that was on its way |
| `ControlStream.MarshalIsWhole` | internal/control/handler.go:325-333 | a queued notification is one whole message or empty |
| `ControlStream.ClientReadsMerge` | internal/control/handler.go:130-222 | for every interleaving, read to any point, the client has the accept and a merge of notifications and replies, each in order, whole, none lost once queued |
| `ControlStream.OfferAnswers` | internal/relay/room.go:389-394 | a notification is accepted exactly when it is writable and fewer than 16 are queued |
| `ControlStream.NothingGetsStuck` | internal/control/handler.go:130-222 | from every state the two writers can go on by themselves until every notification accepted and every reply begun is on the stream, in exactly the steps that takes |
| `ControlStream.EverySessionDrains` | internal/control/handler.go:130-222 | the same of every session from its start |
| `DataLoop.PeerPort.AllowFrame` | internal/relay/room.go:482-498 | refines the limiter |
| `DataLoop.PeerPort.Enqueue` | internal/relay/room.go:470-480 | queues and counts as sent, or counts as dropped when the queue is full |
| `DataLoop.PeerPort.RecordRxFrame` | internal/relay/room.go:500-503 | counts a frame and its bytes as received |
| `DataLoop.PeerPort.RecordDropFrame` | internal/relay/room.go:510-513 | counts a frame and its bytes as dropped |
| `DataLoop.EnqueueAll` | internal/control/handler.go:258-260 | every target's queue gets one copy or, when full, counts a drop; no other port changes |
| `DataLoop.ServeFrame` | internal/control/handler.go:246-261 | refines one turn of the data loop |
| `DataPlane.PeerBooksBalance` | internal/control/handler.go:245-261 | over every run each peer's rx, drops and tx are what the log of frames says, and what was sent is written out or still queued |
| `DataPlane.TotalBooksBalance` | internal/relay/room.go:470-480 | over every run summed tx plus queue-full drops is the summed number of targets |
| `DataPlane.TargetsAreMembers` | internal/relay/room.go:457-467 | whatever the MAC table holds, every target is a current member and not the sender |
| `DataPlane.LogCountsTargets` | internal/relay/room.go:437-468 | the log counts each target of a frame once |
| `DataTruth.FrameFate` | internal/control/handler.go:246-261 | a frame is refused exactly when the limiter refuses it, rejected exactly when it is not and has no header or another's MAC, else copied to exactly Forward's targets, those with 128 frames waiting excepted |
| `DataTruth.FrameCounts` | internal/control/handler.go:248-260 | what each fate adds to every counter and queue: a refused frame is no rx |
| `DataTruth.VerdictsAreTrue` | internal/control/handler.go:246-261 | over every run a peer's frames that were not refused are those the limiter admits out of all it sent, and of these exactly the ill-formed were rejected |
| `DataTruth.RelayedRateIsBounded` | internal/relay/room.go:482-498 | over every run at most (k+1)*5000 frames and (k+1)*20 MiB of one peer get past the limiter in any k seconds |
| `DataTruth.FramesKeepOrder` | internal/relay/room.go:470-480 | over every run the frames written to a peer and then those queued are exactly those copied to it while it had space, in order |
| `DataTruth.AdmitAnswers` | internal/relay/room.go:296-315 | an accepted join makes a member with an unused port, any other changes nothing |
| `DataTruth.QueueDrains` | internal/control/handler.go:163-171 | the writer takes frames from the front of the queue |
| `DataTruth.RemovedGetNothing` | internal/relay/room.go:397-412 | once removed, a peer is sent nothing more in any run |
| `Bridge.ReceiveWrapped` | internal/client/client.go:1022-1078 | a member's bridge delivers a wrapped packet byte for byte exactly when bytes 16..19 of its header are the member's address, 255.255.255.255, in 224.0.0.0/4 or the last address of the room |
| `Bridge.ReceiveAnswers` | internal/client/client.go:1011-1044 | what the bridge does with any frame, from its bytes: answer, deliver or ignore |
| `Bridge.SendAnswers` | internal/client/client.go:985-1009 | what is sent for any read of the device: nothing unless IPv4; else the packet behind the MAC listed for bytes 16..19, or six bytes 255, and the own MAC |
| `Bridge.RoomBroadcast` | internal/client/client.go:1080-1094 | the broadcast address of a member's /24 is the last of its room |
| `BridgeTheorems.UnicastReachesIff` | internal/client/client.go:996-1036 | a packet with b's address in bytes 16..19, sent to any MAC, reaches exactly b's device if and only if no third member owns that MAC, and otherwise none |
| `BridgeTheorems.BroadcastReaches` | internal/client/client.go:1072-1078 | a subnet broadcast is delivered by every target of its frame, and by every other member when sent to a group MAC |
| `BridgeTheorems.CrossesIntact` | internal/protocol/protocol.go:125-176 | a frame of at most 1600 bytes crosses a data stream unchanged, a larger one does not |
| `BridgeTheorems.PlanesStayExact` | internal/control/handler.go:245-261 | every run of the data loop without a colliding draw keeps the room exact and every member with a port, so the next three apply to it |
| `BridgeTheorems.PacketReachesIff` | internal/client/client.go:985-1094 | from device to device, for any list, window and queues: b's device gets the packet once, unchanged, if and only if no third member owns the MAC the list gives, the limiter allows it and b's queue has space; no other device gets anything |
| `BridgeTheorems.PacketReachesExactly` | internal/client/client.go:985-1094 | with b listed truly or not at all only the limiter and b's own queue decide |
| `BridgeTheorems.BroadcastReachesEveryone` | internal/client/client.go:985-1094 | from device to device: an allowed subnet broadcast reaches the device of every other member whose queue has space, once, and no other, unless the list gives that address the MAC of a member |
| `BridgeTheorems.AddressChangesHands` | internal/relay/room.go:259-435 | when c leaves, b joins and c joins again with its old MAC, b has c's old address while the MAC belongs to a third member |
| `BridgeTheorems.StaleListLosesPacket` | internal/client/client.go:996-1036 | then a packet for b from a member that still lists the old c reaches no device |
| `BridgeTheorems.StaleListWitness` | internal/client/client.go:996-1036 | such a room, list and packet, with no limit reached and no queue full |
| `BridgeTheorems.ArpRequestIsParsed` | internal/client/client.go:1100-1108 | the bridge's test is true exactly of ARP requests for its address, in the layout of RFC 826 |
| `BridgeTheorems.ArpReplyIsReply` | internal/client/client.go:1110-1123 | the answer parses as an ARP reply with the roles swapped |
| `BridgeTheorems.ArpExchange` | internal/client/client.go:1022-1028 | only b answers a's request; Forward takes the answer from b, to a alone; nobody takes it for a request |
| `BridgeLoops.ReadIPAsEthernet` | internal/client/client.go:985-1009 | the loop writes exactly the encodings of the wrapped packets, in order, up to the first that is too large, and fails exactly when there is one |
| `BridgeLoops.OutgoingAnswers` | internal/client/client.go:994-1004 | each IPv4 packet of at most 1586 bytes is sent in turn, other reads are skipped, nothing is sent from the first larger one |
| `BridgeLoops.WriteEthernetAsIP` | internal/client/client.go:1011-1044 | the loop hands on exactly the packets, and answers exactly the requests, that the stream decodes to |
| `BridgeLoops.MessageAnswers` | internal/client/client.go:1018-1036 | of one message, from its bytes: only Ethernet frames count, a request for the address is answered and not delivered, a packet for it is delivered |
| `BridgeLoops.HandledInOrder` | internal/client/client.go:1013-1044 | messages are handled one after the other, each by itself |
| `Recorders.History.Shift` | internal/capture/recorder.go:103 | the in-place copy moves every entry one place down |
| `Recorders.History.Add` | internal/logmem/recorder.go:61-71 | the in-place store becomes the old one with the entry pushed, the oldest shifted out when full |
| `Recorders.History.Snapshot` | internal/capture/recorder.go:116-117 | a copy of the stored entries |
| `Recorders.CaptureRecorder.SetEnabled` | internal/capture/recorder.go:67-81 | the fields become those the model gives after one more switch |
| `Recorders.CaptureRecorder.Record` | internal/capture/recorder.go:87-108 | the fields become those the model gives after one more event offered, stored only while enabled |
| `Recorders.CaptureRecorder.Snapshot` | internal/capture/recorder.go:110-125 | returns the flag last set and the last entries of all events accepted since the recorder was made |
| `Recorders.StoredIsLast` | internal/capture/recorder.go:67-108 | after any run of switches and events, which the recorder's methods follow, the store is the last entries accepted, in order, with consecutive numbers |
| `Recorders.SplitIsExact` | internal/logmem/recorder.go:43 | the lines hold no newline and join back to the text |
| `Recorders.TrimReturns` | internal/logmem/recorder.go:44 | what is cut off is all and only the trailing carriage returns |
| `Recorders.LogRecorder.Write` | internal/logmem/recorder.go:42-51 | the history grows by the text's trimmed lines without the empty ones |
| `Recorders.LineAnswers` | internal/logmem/recorder.go:43-48 | of each line among others the part up to its last byte that is no carriage return is logged, or nothing |

## Left out

- QUIC, TLS, certificates, dialing, TAP and TUN devices, the web UI, configuration files, installers and scripts: foreign libraries, operating system or build work.
- JSON: messages are datatypes or opaque payloads; a payload that does not parse, which ends a session, is not modelled.
- Sends to a peer whose frame channel was closed between Forward and Enqueue: forwarding and copying are one step.
- Convergence of peer lists, status across reconnects, and the reconnect backoff: one connection is modelled at a time, and the contents of pushed lists are arbitrary.
- Snapshots for the web UI, display names, log text and wall-clock display times.
- Packet summaries of the capture recorder: an event is an opaque value; its nil receiver is not modelled.
- Packets over 1586 bytes end the sender's loop (`ReadIPAsEthernet`); what happens to the session then is not modelled.
- The uint64 counters and the int64 UnixNano order are unbounded integers here.
- Keep-alive pings of the control stream appear in ControlStream only as replies.
- SendNotify and BroadcastNotify are steps of LatencyNet and ControlStream, not methods of an object.
- The checks of a join request before Manager.Join (version, empty name, unparsable MAC) and the feature filter: settled by one branch each.
- A nil latency map is an empty one here; within a connection it is never nil.
- LatencyRuns.NobodyIsBypassed: takes listed ids to be non-empty, as the server's always are, because the scan uses the empty id for "none yet" (`BestIsLeast` says when that matters), and tick times later than the length of the list in nanoseconds after 1970, because a list update resets orders to list places, which are compared with such times. `FairBetweenLists` takes the same.
- LatencyNet.ProbeGetsThere: follows one schedule, in which the streams on the way are emptied one after the other; that a run gets to empty them is not modelled.
- BridgeTheorems.PacketReachesIff: takes b's address to lie outside 224.0.0.0/4. In a pool of such addresses, which LoadPool accepts, every target of the frame delivers the packet (`ReceiveWrapped`).
- LatencyRuns.DueIsProbed: takes what NobodyIsBypassed takes, and tick times that differ.
