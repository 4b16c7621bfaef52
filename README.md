# Two event-driven peers, modelled and verified in Dafny

This project models two peer state machines.

1. **The P2PSP cluster peer of `sim-cluster/peer.py`.** One long-lived object holds:
   - the ring buffer `blocks`/`received`;
   - the membership list `peer_list` and its `peer_insolidarity` counters;
   - the round-robin cursor `counter`;
   - `last`, the block most recently received from the splitter;
   - the playback cursor `block_to_play`.

   `receive_and_feed` takes one datagram (or a timeout) and updates all of this. The buffering phase, the playback routine, the steady-state loop and the shutdown are built around it.

2. **The transaction-relay peer of `src/Peer.java` (txrelaysim).** Each node keeps:
   - when each transaction arrived;
   - which transactions each neighbour is known to have;
   - the reconciliation sets and the reconciliation queue;
   - flood-destination lists capped by limits;
   - five cost counters.

   It reacts to INV, RECON_REQUEST and SKETCH messages from peers, and to events it scheduled for itself. Node 0 is the transaction source; "the source" below always means that node.

Both peers are imperative, and so is the model. Each is a class whose fields the methods update in place: `ClusterPeer.PeerNode` holds arrays for the ring, and `TxRelay.Peer` holds maps, sets and sequences. Each method is proved against a pure specification:
- the membership and relay functions in modules `Membership`, `Relay`, `Ring` and `Runs`;
- the flooding, accounting and queue functions in module `TxSpec`.

Lemmas then state what the two programs promise about those specifications.

Outputs become appended logs:
- peer.py: the datagrams written to the cluster socket (`sent`) and the blocks written to the player (`played`);
- Peer.java: everything handed to the simulator, as `Schedule(delay, event)` for `EDSimulator.add` and `Transmit(to, event)` for `Transport.send` (`log`).

Inputs become parameters:
- the receives, as `Event` values;
- the player's reaction, as `PlayerReply`;
- the churn deadline, as a boolean per loop iteration;
- the simulator clock, as `now`;
- a random delay, as any value in `[0, 2*avg]` chosen by `:|`.

Files:
- `bytes.dfy`: the 16-bit big-endian block numbers.
- `seqs.dfy`: sequence helpers.
- `membership.dfy`, `relay.dfy`, `ring.dfy` and `runs.dfy`: the specification of peer.py.
- `cluster_peer.dfy`: the peer.py object.
- `tx_spec.dfy`: the specification of Peer.java.
- `tx_peer.dfy`: the Peer.java object.

## Model

| member | source | states |
|---|---|---|
| Bytes.DecodeU16 | sim-cluster/peer.py:440-441 | the block number is below 65536 and its high and low bytes are the first two bytes of the datagram |
| Bytes.EncodeU16 | sim-cluster/peer.py:651 | a complaint is two bytes which, read big-endian, give the slot index |
| Bytes.DecodeEncode | sim-cluster/peer.py:651 | decoding a complaint gives back the slot index encoded into it |
| Bytes.EncodeDecode | sim-cluster/peer.py:440-441 | every two-byte header is the encoding of the number it decodes to |
| Seqs.Remove | sim-cluster/peer.py:485 | `list.remove` drops one copy of the element: one shorter, the same multiset minus that element |
| Seqs.RemoveKeepsDistinct | sim-cluster/peer.py:531 | removing from a duplicate-free peer list keeps it duplicate-free |
| Seqs.RemoveMembers | sim-cluster/peer.py:566 | removing a peer from a duplicate-free list leaves exactly the other peers |
| Membership.Initial | sim-cluster/peer.py:393-394 | the table built from the splitter's list is consistent: no duplicate peer, every listed peer has a counter, no counter above 64 |
| Membership.Penalize | sim-cluster/peer.py:482-485 | one point for the peer; it stays listed with its counter raised by one exactly when the counter was below 64, and otherwise leaves both the list and the map |
| Membership.PenaltiesEvictExactly | sim-cluster/peer.py:482-485 | k penalties keep a peer listed with counter raised by k while the total stays at most 64, and evict it from list and map otherwise |
| Membership.Penalties | sim-cluster/peer.py:482-485 | any number of successive penalties of one peer keeps the table consistent |
| Membership.AdmitForwarder | sim-cluster/peer.py:513-518 | the sender of a relayed block is listed exactly once (appended only when new), its counter is 0, and every other counter is unchanged |
| Membership.ToggleControl | sim-cluster/peer.py:557-569 | a zero-length datagram appends an unlisted sender with counter 0, or removes a listed one from the list while its counter stays in the map; no other peer's membership changes |
| Membership.ToggleTwiceFromNewSender | sim-cluster/peer.py:557-569 | two control datagrams from a new sender restore the peer list and leave the sender's counter at 0 |
| Membership.ToggleTwiceFromListedSender | sim-cluster/peer.py:557-569 | leave then join moves a listed sender to the tail with counter 0 |
| Membership.Halve | sim-cluster/peer.py:705-707 | every counter is floor-halved: `2*r[p] <= m[p] <= 2*r[p]+1` on the same keys |
| Membership.HalveConsistent | sim-cluster/peer.py:705-707 | halving keeps the table consistent |
| Membership.HalvingConverges | sim-cluster/peer.py:705-707 | after k halvings every counter below 2^k is 0, and the keys are unchanged |
| Membership.SevenHalvingsClear | sim-cluster/peer.py:705-707 | since no counter exceeds 64, seven halvings clear every counter |
| Relay.Outcome | sim-cluster/peer.py:437-577 | receive_and_feed returns a value >= 0 exactly for a 1026-byte datagram (its block number, below 65536), -1 exactly for a zero-length one, -2 exactly for a timeout, and nothing for any other length |
| Relay.BlockZeroIsBoth | sim-cluster/peer.py:598-602 | block 0 counts as "no data" for the buffering loops (`<= 0`) and as data for the steady-state test `>= 0` (line 704) |
| Relay.Burst | sim-cluster/peer.py:472-489 | the burst leaves a consistent table, and does nothing unless `0 < counter < len(peer_list)` |
| Relay.BurstShape | sim-cluster/peer.py:472-489 | a burst sends only `last`, with at most as many sends as positions from the cursor on, and lists nobody new |
| Relay.BurstStep | sim-cluster/peer.py:472-489 | a burst from an in-range cursor is a send to `peer_list[counter]` followed by the burst from `counter+1` over the table with that peer penalized |
| Relay.BurstSendsStep | sim-cluster/peer.py:472-489 | sending to `peer_list[counter]` and then performing the rest of the burst yields the same table and, after any earlier sends, the same send log as the whole burst |
| Relay.BurstDestStep | sim-cluster/peer.py:472-489 | the destinations of a burst from an in-range cursor are `peer_list[counter]` followed by those of the rest of the burst |
| Relay.BurstDestinations | sim-cluster/peer.py:472-489 | a burst sends to distinct peers, all taken from the cursor's position onwards |
| Relay.BurstLeavesOthers | sim-cluster/peer.py:472-489 | an endpoint the burst did not send to keeps its membership and its counter |
| Relay.BurstKeys | sim-cluster/peer.py:482-485 | a burst never adds a counter |
| Relay.BurstPenalizesOnce | sim-cluster/peer.py:478-489 | a peer the burst sent to got exactly one point, and was evicted from list and map exactly when its counter was already 64 |
| Relay.BurstPenalizesHead | sim-cluster/peer.py:478-489 | the peer at the cursor gets exactly one point from the burst, and is evicted from list and map exactly when its counter was already 64 |
| Relay.BurstSkipsHead | sim-cluster/peer.py:472-489 | once the peer at the cursor has been served, the rest of the burst does not send to it again |
| Relay.BurstWithoutEviction | sim-cluster/peer.py:472-489 | when nobody from the cursor on is at the limit, the burst sends `last` to each of them once, in list order, and evicts nobody |
| Relay.Congest | sim-cluster/peer.py:522-545 | at most one datagram, `last` to `peer_list[counter]`, sent only when `counter < len(peer_list)`; that peer is penalized and the cursor advances by one, also when the peer was evicted |
| Relay.RelayBlock | sim-cluster/peer.py:454-545 | a data block leaves a consistent table, whoever sent it |
| Relay.RelayFromSplitter | sim-cluster/peer.py:454-502 | a splitter block goes to the gatherer first and becomes `last`; the cursor ends at 1 unless the list is empty; at cursor 0 there is no burst and only the first peer gets the new block |
| Relay.RelayFromForwarder | sim-cluster/peer.py:510-545 | a block from anyone else leaves `last` alone, sends at most one datagram, and leaves the sender listed with counter at most 1 |
| Relay.Feed | sim-cluster/peer.py:437-569 | a receive that is not a data block sends nothing and keeps cursor and `last`; a control datagram toggles its sender; any other length changes nothing |
| Ring.Missing | sim-cluster/peer.py:605-608 | the loss count over a window of k slots is at most k |
| Ring.NoneMissing | sim-cluster/peer.py:605-608 | the loss count is 0 exactly when every slot of the window was received |
| Ring.AllMissing | sim-cluster/peer.py:605-608 | the loss count is k exactly when no slot of the window was received |
| Runs.Receiver | sim-cluster/peer.py:437-577 | receive_and_feed as a handler: it accepts every consistent relay state, keeps it consistent, and agrees with `Feed` |
| Runs.Run | sim-cluster/peer.py:597-603 | feeding a run of receives to a handler that keeps the table consistent leaves it consistent |
| Runs.RunSplit | sim-cluster/peer.py:597-603 | feeding `evs[i..j]` and then `evs[j..k]` is feeding `evs[i..k]`, with the sends concatenated |
| Runs.RunWithoutData | sim-cluster/peer.py:597-603 | receives without a data block send nothing and keep cursor and `last` |
| Runs.EndsWaitIff | sim-cluster/peer.py:598-602 | a receive ends a `while receive_and_feed() <= 0` wait exactly when it is a data block with a nonzero number |
| Runs.Arrivals | sim-cluster/peer.py:597-603 | the receives that end a wait are at most all the receives |
| Runs.ArrivalsSplit | sim-cluster/peer.py:597-603 | the arrivals of a prefix are those before any split point plus those after it |
| Runs.Marked | sim-cluster/peer.py:451-452 | the `received` flags after a run keep the ring size |
| Runs.MarkedIff | sim-cluster/peer.py:451-452 | after a run a flag is set exactly when it was set before or some data block of the run went to that slot |
| ClusterPeer.EmptyDatagrams | sim-cluster/peer.py:722-723 | one zero-length datagram per endpoint, in list order |
| ClusterPeer.GreetPeers | sim-cluster/peer.py:393-396 | each announced peer is appended with counter 0 and sent one empty datagram |
| ClusterPeer.PeerNode.constructor | sim-cluster/peer.py:393-427 | after the list is retrieved: the initial table, cursor 0, empty `last`, an empty ring, cursor 0 for playback, player connected, and the greetings sent |
| ClusterPeer.PeerNode.PenalizePeer | sim-cluster/peer.py:482-485 | the table becomes `Penalize` of the old one |
| ClusterPeer.PeerNode.ForwardBurst | sim-cluster/peer.py:472-489 | the loop leaves the table and the sends that `Burst` specifies |
| ClusterPeer.PeerNode.BurstNext | sim-cluster/peer.py:478-489 | one round of the burst loop sends to the peer at the cursor, penalizes it and advances the cursor, strictly shrinking what is left to visit, and keeps what remains of the burst equal to the goal |
| ClusterPeer.PeerNode.CongestionStep | sim-cluster/peer.py:522-545 | table, cursor and sends are those of `Congest` |
| ClusterPeer.PeerNode.SplitterBlock | sim-cluster/peer.py:454-502 | the gatherer copy, then the burst of the old `last`, then cursor 0 and `last := message`, then the congestion step |
| ClusterPeer.PeerNode.ForwarderBlock | sim-cluster/peer.py:510-545 | admission of the sender, then one congestion step with the current `last` |
| ClusterPeer.PeerNode.RelayData | sim-cluster/peer.py:454-545 | relay state and sends are those of `RelayBlock` |
| ClusterPeer.PeerNode.ControlDatagram | sim-cluster/peer.py:557-569 | the table becomes `ToggleControl` of the old one |
| ClusterPeer.FilledStore | sim-cluster/peer.py:451-452 | storing a full block and flagging its slot keeps every flagged slot holding a full block |
| ClusterPeer.FilledClear | sim-cluster/peer.py:684 | clearing a flag after playback keeps every flagged slot holding a block |
| ClusterPeer.PeerNode.StoreBlock | sim-cluster/peer.py:451-452 | slot `n % buffer_size` holds the block and is marked received; every other slot is unchanged |
| ClusterPeer.PeerNode.CountBlock | sim-cluster/peer.py:549-552 | with `--number_of_blocks` the count drops by one and the exhausted flag is set once it is <= 0; otherwise nothing changes |
| ClusterPeer.PeerNode.FeedBlock | sim-cluster/peer.py:440-552 | a data block updates exactly slot `n % buffer_size` of the ring, where `n` is its decoded number; relay state and sends are `RelayBlock`; the block countdown moves |
| ClusterPeer.PeerNode.ReceiveAndFeed | sim-cluster/peer.py:429-577 | returns `Outcome(ev)`; relay state and sends are `Feed`; a data block updates exactly its ring slot; anything else leaves the ring alone |
| ClusterPeer.PeerNode.HalveInsolidarity | sim-cluster/peer.py:705-707 | the loop over the map leaves `Halve` of the old counters |
| ClusterPeer.PeerNode.SendBlockToPlayer | sim-cluster/peer.py:643-685 | complaint with the 16-bit slot index exactly when the slot is not received; an empty slot changes nothing else; a socket error disconnects the player; a played block clears its flag and nothing else |
| ClusterPeer.PeerNode.CountLosses | sim-cluster/peer.py:605-608 | the count is `Missing` over the `buffer_size/2` slots from `block_to_play`, wrapping |
| ClusterPeer.PeerNode.AwaitBlock | sim-cluster/peer.py:597-599 | the wait consumes receives up to and including the first that ends it (then `ok`), with exactly one arrival among them, or consumes all of them; relay state, sends and `received` flags are then those of `Run` and `Marked` over every receive consumed so far |
| ClusterPeer.PeerNode.AwaitStep | sim-cluster/peer.py:597-599 | one receive ends the wait exactly when it is a data block with a nonzero number, and then reports that number; the run consumed so far grows by that receive |
| ClusterPeer.PeerNode.Buffering | sim-cluster/peer.py:597-608 | on success no wait ended before receive `firstAt`, that receive ended one, and the cursor is the slot of its block; exactly `buffer_size/2 + 1` waits ended in all, and the loss count is `Missing` over the flags `Marked` by the consumed receives; relay state and sends are `Run` over them (`Buffered`) |
| ClusterPeer.PeerNode.PlayAndFill | sim-cluster/peer.py:600-608 | playback starts at the slot of the first block; on success `buffer_size/2` more waits ended and the losses are counted over the marked flags (`Buffered`) |
| ClusterPeer.PeerNode.AwaitHalf | sim-cluster/peer.py:601-603 | `buffer_size/2` waits in a row: on success the arrivals since the start grow by exactly that many, the last consumed receive ending a wait |
| ClusterPeer.PeerNode.AfterReceive | sim-cluster/peer.py:703-710 | on a result >= 0: halving exactly when the number is a multiple of 256, and with a player, playback and the cursor advanced modulo `buffer_size`; otherwise nothing |
| ClusterPeer.PeerNode.SteadyState | sim-cluster/peer.py:696-714 | iterations run only while the player is connected and the deadline has not passed, and stop at the first iteration where either fails; each plays at most one block |
| ClusterPeer.PeerNode.Shutdown | sim-cluster/peer.py:718-723 | goodbye to the splitter first, then, after three receives, one empty datagram to every peer still listed, as the last sends |
| ClusterPeer.PeerNode.SendGoodbyes | sim-cluster/peer.py:722-723 | appends `EmptyDatagrams(peer_list)` |
| TxSpec.ScheduleFor | src/Peer.java:299-310 | scheduleInv adds at most one event, exactly when the recipient is neither the source nor knows the tx, and that event is the INV for it with the given delay |
| TxSpec.Announce | src/Peer.java:262-281 | a flood adds at most one event per destination, each a scheduled INV of the tx for one of the destinations |
| TxSpec.AnnounceMembers | src/Peer.java:262-281 | a flood schedules no more INVs than it has destinations; every scheduled INV is for a destination that is not the source and does not know the tx, with that destination's delay; every such destination gets one |
| TxSpec.AnnounceSnoc | src/Peer.java:264-280 | flooding one more destination appends what scheduleInv adds for it |
| TxSpec.AnnounceStep | src/Peer.java:264-280 | one more round of a flood loop extends the log by what scheduleInv adds for that destination |
| TxSpec.AnnounceSkipsKnowers | src/Peer.java:299-307 | the source and any peer that knows the tx are never sent an INV for it |
| TxSpec.InvsOfAppend | src/Peer.java:299-310 | appending only scheduled INVs of some txs extends the log by scheduled INVs of those txs |
| TxSpec.AnnounceInvs | src/Peer.java:262-281 | a flood extends the log by scheduled INVs of its tx only |
| TxSpec.InvsOfTrans | src/Peer.java:181-203 | two such extensions in a row make one, for the txs of both |
| TxSpec.FloodInvs | src/Peer.java:255-281 | flooding one tx both ways extends the log by scheduled INVs of that tx only |
| TxSpec.InvsToInvs | src/Peer.java:198-203 | the INVs the second loop of handleSketchMessage schedules are scheduled INVs of the announced txs |
| TxSpec.TimerFromStep | src/Peer.java:264-274 | several floods at one time rearm the shared inbound timer at most once: it stays where it was, or moves once from an expired value into `[now, now + 2*inFloodDelay]` |
| TxSpec.InvitedIff | src/Peer.java:299-310 | a (recipient, tx) pair is invited exactly when some output schedules an INV of that tx for that recipient |
| TxSpec.InvitedSingle | src/Peer.java:299-310 | one output invites its own pair when it is a scheduled INV, and nothing otherwise |
| TxSpec.InvitedAppend | src/Peer.java:181-204 | the pairs of two runs of outputs in a row are the union of their pairs |
| TxSpec.InvitedExtend | src/Peer.java:181-204 | appending outputs after a log adds their pairs to what the log gained past a prefix |
| TxSpec.ReachUnion | src/Peer.java:255-281 | floods of two sets of txs reach the union of the pairs each reaches |
| TxSpec.ReachSnoc | src/Peer.java:264-280 | one more flood destination adds its own pair exactly when it is not the source and does not know the tx |
| TxSpec.InvitedScheduleFor | src/Peer.java:299-310 | one scheduleInv call invites its recipient exactly when the recipient is not the source and does not know the tx |
| TxSpec.AnnounceReach | src/Peer.java:262-281 | a flood invites exactly the pairs `Reach` names, under any knowledge that agrees on who knows that tx |
| TxSpec.InvitedInvsTo | src/Peer.java:198-204 | the INVs of the second loop of handleSketchMessage invite the sender for exactly the announced txs |
| TxSpec.FloodReach | src/Peer.java:181-196 | one more first-time sketch tx, flooded both ways, grows the pairs the log gained by exactly what its two floods reach |
| TxSpec.LearnedAlike | src/Peer.java:182-183 | learning part of a sketch and learning all of it agree on who knows any tx of that part, so a flood invites the same pairs under either |
| TxSpec.SketchInvsCompose | src/Peer.java:181-204 | the floods of the first loop followed by the INVs of the second loop make up exactly the INV account of the whole exchange (`SketchInvs`) |
| TxSpec.SketchInvsPresent | src/Peer.java:181-204 | every pair of that account is an INV the log did gain: at least one to the sender for each unheard local tx, and at least one to each flood destination that is not the source and does not know a relayed tx |
| TxSpec.SharedTimerSnoc | src/Peer.java:264-274 | one more inbound destination keeps the shared-timer relation: when the timer had expired the first destination gets delay 0 and rearms it within `2*inFloodDelay`, and every other destination waits until the timer fires |
| TxSpec.SharedTimerOneInstant | src/Peer.java:264-274 | all inbound destinations after the first get the same delay, so they are announced together, at most `2*inFloodDelay` after now when the timer was rearmed |
| TxSpec.ResponseDelay | src/Peer.java:155-161 | the sketch delay is 0 once the batching timer has expired, and otherwise reaches exactly the timer |
| TxSpec.Spread | src/Peer.java:283-289 | keeps the same recon-set keys and leaves the sender's set alone |
| TxSpec.SpreadTwice | src/Peer.java:283-289 | spreading two batches one after the other equals spreading their union |
| TxSpec.SpreadNothing | src/Peer.java:283-289 | spreading nothing changes nothing |
| TxSpec.Capacity | src/Peer.java:175-178 | the capacity exceeds the estimate term and the size difference in either direction |
| TxSpec.Judge | src/Peer.java:206-223 | the exchange succeeds exactly when the capacity exceeds the difference, and fails exactly when twice the capacity does not |
| TxSpec.SketchCost | src/Peer.java:206-223 | a success costs the capacity and any other verdict twice the capacity |
| TxSpec.JudgeMonotone | src/Peer.java:206-223 | a larger difference never yields a cheaper verdict or sketch cost, and a zero difference always decodes |
| TxSpec.SharedCount | src/Peer.java:181-185 | `shared` is at most the sketch length |
| TxSpec.SharedCountBounds | src/Peer.java:181-185 | `shared` equals the sketch length exactly when every sketch tx is local, and is 0 exactly when none is |
| TxSpec.KnownMisses | src/Peer.java:186-194 | the extra INVs counted by the first loop are at most the sketch entries that are not shared |
| TxSpec.SketchStep | src/Peer.java:181-195 | one more sketch entry moves the shared count, the known-miss count, the set of first-seen txs and the set of txs seen by exactly that entry |
| TxSpec.Arrived | src/Peer.java:188-189 | recording new arrivals adds exactly their keys and never overwrites an earlier time |
| TxSpec.ArrivedNothing | src/Peer.java:188-190 | recording no arrivals leaves the arrival times unchanged |
| TxSpec.ArrivedSnoc | src/Peer.java:188-189 | recording one more new tx is a single map update |
| TxSpec.AbsorbAdvance | src/Peer.java:181-195 | a sketch entry is relayed exactly when it is neither local nor timed yet, and the arrival map, recon sets and extra-INV count then move on as that one step |
| TxSpec.LearnTwice | src/Peer.java:182 | learning two batches about one peer equals learning their union |
| TxSpec.UnheardStep | src/Peer.java:198-203 | one more local tx adds one to `theyMiss` exactly when the sketch lacks it, and is announced exactly when its sender is not the source and does not know it |
| TxSpec.UnheardAdvance | src/Peer.java:198-203 | the second loop's count, announced set and scheduled INVs step together |
| TxSpec.InvsToSnoc | src/Peer.java:198-203 | one more announced tx appends one zero-delay INV for the sender |
| TxSpec.InvsToIndexed | src/Peer.java:198-203 | exactly one zero-delay INV per announced tx, in order |
| TxSpec.Rotate | src/Peer.java:84-90 | the queue keeps its length and the old head ends at the tail |
| TxSpec.RotatePermutes | src/Peer.java:84-90 | the queue move keeps the multiset of queued peers |
| TxSpec.Rotations | src/Peer.java:83-91 | any number of requests keeps the queue length |
| TxSpec.RotateTurned | src/Peer.java:84-90 | turning a queue already turned by k-1 places once more turns it by k places |
| TxSpec.RotationsTurn | src/Peer.java:83-91 | within one round, k requests turn the queue by k places |
| TxSpec.RotationsAdd | src/Peer.java:83-91 | a+b requests are a requests followed by b more |
| TxSpec.RoundRobin | src/Peer.java:83-91 | within a round the k-th request goes to `q[k]`; after as many requests as the queue holds it is back in order, so requests repeat with the queue's length as period |
| TxRelay.RandomDelay | src/Peer.java:313-315 | the delay lies in `[0, 2*avg]` |
| TxRelay.Connected | src/Peer.java:320-326 | the scan finds the node exactly when it is in the list |
| TxRelay.ListOf | src/Peer.java:246 | the sketch list holds each tx of the recon set exactly once and nothing else |
| TxRelay.CappedAppend | src/Peer.java:331-333 | appending while below the limit keeps a destination list the prefix of the peer list up to the limit |
| TxRelay.MissingInvs | src/Peer.java:198-203 | `theyMiss` is the size of `localSet` minus `remoteSet`; the INVs scheduled go to the sender, once each, for exactly the local txs missing from the sketch that the sender is not known to have |
| TxRelay.AddInboundOk | src/Peer.java:327-338 | adding a new inbound peer keeps the peer, flood and reconciliation invariants |
| TxRelay.AddOutboundOk | src/Peer.java:349-361 | adding a new outbound peer keeps the peer, flood and reconciliation invariants |
| TxRelay.Peer.FloodLimits | src/Peer.java:329-358 | with reconciliation the flood-destination lists never exceed their limits and contain only peers of the matching list |
| TxRelay.Peer.constructor | src/Peer.java:62-71 | a new peer has empty lists, maps, queue and log, zero timers and counters, and satisfies the invariant |
| TxRelay.Peer.NextCycle | src/Peer.java:78-94 | only with reconciliation, a non-empty queue and `now > nextRecon`: one RECON_REQUEST to the head, the head moved to the tail, and `nextRecon = now + interval`; otherwise nothing changes |
| TxRelay.Peer.HandleReconRequest | src/Peer.java:150-164 | schedules one SCHEDULED_SKETCH for the requester after `ResponseDelay`; an expired timer is rearmed at `now` |
| TxRelay.Peer.ScheduleInv | src/Peer.java:299-310 | schedules one INV, unless the recipient is the source or already knows the tx |
| TxRelay.Peer.Flood | src/Peer.java:262-281 | the log gains the announcements to the inbound destinations (shared timer) and then the outbound ones (own delays, each at most `2*outFloodDelay`) |
| TxRelay.Peer.FloodInbound | src/Peer.java:264-274 | the inbound loop adds `Announce` over the inbound destinations with shared-timer delays |
| TxRelay.Peer.InboundStep | src/Peer.java:265-273 | one inbound destination: delay 0 and a fresh timer in `[now, now+2*inFloodDelay]` if it had expired, else the time left on the timer |
| TxRelay.Peer.FloodOutbound | src/Peer.java:277-280 | the outbound loop adds `Announce` over the outbound destinations with delays of at most `2*outFloodDelay` |
| TxRelay.Peer.OutboundStep | src/Peer.java:278-279 | one outbound destination: a delay of at most `2*outFloodDelay` and what scheduleInv adds for it |
| TxRelay.Peer.AddToReconSets | src/Peer.java:283-289 | the tx joins every recon set except the sender's, and no recon set is added or dropped |
| TxRelay.Peer.RemoveFromReconSet | src/Peer.java:291-295 | the tx leaves the target's recon set only |
| TxRelay.Peer.RelayTx | src/Peer.java:255-260 | with reconciliation the tx is spread to the recon sets, then the tx is flooded |
| TxRelay.Peer.AddInboundPeer | src/Peer.java:319-339 | idempotent by ID; a new peer is appended, gets empty knowledge (and a recon set with reconciliation), and becomes a flood destination unless the limit is reached under reconciliation; the invariant holds |
| TxRelay.Peer.AddOutboundPeer | src/Peer.java:341-362 | as for inbound, and with reconciliation the peer also joins the tail of the reconciliation queue |
| TxRelay.Peer.ValidRoutes | src/Peer.java:319-362 | under the invariant every flood destination is addressable, and the recon sets are keyed by exactly the connected peers (none without reconciliation) |
| TxRelay.Peer.ProcessEvent | src/Peer.java:96-126 | dispatch on the event kind; every handler keeps the invariant |
| TxRelay.Peer.DeliverInv | src/Peer.java:100-103 | an INV from the source or a connected peer keeps the invariant and does what handleInvMessage does (`InvHandled`: knowledge, recon sets, arrival time, flood log, shared timer, extra INVs) |
| TxRelay.Peer.DeliverSketch | src/Peer.java:108-116 | a SKETCH from a peer with a recon set keeps the invariant and does what handleSketchMessage does (`SketchHandled`), including the exact set of (recipient, tx) pairs of the INVs it schedules |
| TxRelay.Peer.DeliverScheduledInv | src/Peer.java:117-120 | a SCHEDULED_INV for a connected peer keeps the invariant and does what executeScheduledInv does (`ScheduledInvHandled`) |
| TxRelay.Peer.DeliverScheduledSketch | src/Peer.java:121-124 | a SCHEDULED_SKETCH for a peer with a recon set keeps the invariant and does what executeScheduledSketch does (`ScheduledSketchHandled`) |
| TxRelay.Peer.HandleInv | src/Peer.java:130-148 | a non-source sender ends up knowing the tx and, with reconciliation, the tx leaves its recon set; a first INV records `now` and relays; a repeat leaves arrival times and log alone and costs exactly one extra INV |
| TxRelay.Peer.LearnFrom | src/Peer.java:134-140 | the knowledge and recon-set updates of handleInvMessage, for a non-source sender only |
| TxRelay.Peer.ExecuteScheduledInv | src/Peer.java:229-240 | an INV is transmitted only if the recipient did not know the tx; afterwards it knows it and the tx has left its recon set, so a replay sends nothing |
| TxRelay.Peer.LearnAll | src/Peer.java:249-251 | the recipient now knows every tx of the list, and nothing else changes |
| TxRelay.Peer.ExecuteScheduledSketch | src/Peer.java:244-253 | transmits a sketch holding exactly the recon set, adds all of it to the recipient's knowledge, and empties the recon set |
| TxRelay.Peer.HandleSketch | src/Peer.java:168-225 | `shared + usMiss` is the sketch length; `theyMiss` is the size of `localSet` minus `remote`; one verdict per exchange, with exactly one of the three outcome counters incremented; `shortInvs` grows by the sketch cost; `extraInvs` grows by the known misses plus `usMiss + shared` only on failure; the sender knows every sketch tx; new txs are timed and spread; the local recon set ends empty; the log gains scheduled INVs only, and the set of their (recipient, tx) pairs equals the set of (d, x) for every relayed tx x and flood destination d that is not the source and does not know x, together with (sender, x) for every local tx x the sender has not heard of; the shared inbound timer is kept or rearmed once at `now` |
| TxRelay.Peer.Exchange | src/Peer.java:181-204 | the two loops: counts, knowledge, arrival times and recon sets after the sketch, `theyMiss` over the local set, the sender's recon set emptied (done at Peer.java:224), the set of (recipient, tx) pairs of the INVs the log gains equal to that of `SketchInvs` (every flood destination not knowing a relayed tx, and the sender for every unheard local tx), and the inbound timer kept or rearmed once |
| TxRelay.Peer.AbsorbSketch | src/Peer.java:181-196 | the first loop: the shared count, the miss count, the sender's knowledge, the arrival times and the recon sets after the whole sketch; the log gains scheduled INVs of the relayed txs only, and the set of their (recipient, tx) pairs equals the set of (d, x) for every relayed tx x and flood destination d that is not the source and does not know x (`SketchFloods`); the inbound timer is kept or rearmed once at `now` |
| TxRelay.Peer.AbsorbNext | src/Peer.java:182-195 | absorbing sketch entry `i` extends the loop's account of counts, knowledge, arrival times, recon sets, log (with its exact INV pairs) and inbound timer from the first `i` entries to the first `i + 1` |
| TxRelay.Peer.AbsorbOne | src/Peer.java:182-194 | one sketch entry: the sender knows it; if it is not local and is new, it is timed, spread and flooded with the shared inbound timer and outbound delays of at most `2*outFloodDelay`, the log growing only by its INVs; if it is not local and was known, it costs one extra INV and log and timer stay |
| TxRelay.Peer.AnnounceMissing | src/Peer.java:198-203 | the log gains, for the sender, the INVs that `MissingInvs` specifies, scheduled INVs of exactly the unheard local txs |
| TxRelay.Peer.Settle | src/Peer.java:206-223 | the verdict is `Judge(capacity, usMiss + theyMiss)`; its counter and `shortInvs` are updated accordingly; `extraInvs` grows by `usMiss + shared` only on failure |

## Left out

- Argument parsing, logging, colour output and the socket set-up of peer.py are configuration and I/O. Sockets are modelled as the events they deliver and the `sent` log. The same goes for the HTTP header relay to the player, which is byte plumbing.
- The byte-level decoding of the splitter's peer list is I/O. Its effect is modelled: peers appended with counter 0, one empty datagram each. The gatherer and the list are constructor parameters.
- ClusterPeer.PeerNode.constructor: requires a list without repeated peers. With a repeated peer, evicting one copy deletes its counter. The next penalty of the copy still listed raises a KeyError (sim-cluster/peer.py:482 in the burst, :528 in the congestion step), unless a data block from that peer first restores its counter (sim-cluster/peer.py:518), or a control datagram from it first removes that copy (sim-cluster/peer.py:565-566).
- ClusterPeer.PeerNode.constructor: requires `0 < buffer_size <= 65536`. A zero size raises ZeroDivisionError on the first block (sim-cluster/peer.py:451). A larger size lets `block_to_play` exceed 65535, and packing the complaint raises struct.error (sim-cluster/peer.py:651).
- `recvfrom` truncation to 1026 bytes belongs to the socket. Every event carries what `recvfrom` returned.
- The churn deadline and the wall-clock buffering time come from an unseen module and the clock. Each steady-state iteration carries a boolean deadline flag.
- The float error percentage and the logged `NUM_ERRORS_BUF` are logging only. The logged value is `error_counter`, always 0, and not the loss count.
- ClusterPeer.PeerNode.AwaitBlock, ClusterPeer.PeerNode.Buffering: a finite list of receives stands for the endless socket. `ok` false means the list ran out, where peer.py would block.
- ClusterPeer.PeerNode.SteadyState, ClusterPeer.PeerNode.Shutdown: they state the loop's control flow and the shutdown sends. They do not relate the final state to `Runs.Run` over the receives. That relation is stated one receive at a time by `ReceiveAndFeed`.
- Playback of a slot that was never filled: `sendall(None)` raises a non-socket error, which peer.py swallows. The model treats that case as "nothing played".
- PeerSim's `Transport`, `EDSimulator`, `FastConfig` and `CommonState` are a foreign simulator. `log` records what is handed to it; `now` is the clock; delays are any value in `[0, 2*avg]`.
- The simulator's delivery of events is not modelled. `ProcessEvent` handles one event that a connected peer can deliver (`Handled`).
- `clone`, the down-casts in `processEvent` and the SKETCH payload copy are Java plumbing.
- The configuration fields (`reconcile`, the flood limits, the interval, the delays) come from an initializer that is not part of this model. They are constructor parameters, constant afterwards.
- `defaultQ` is a `double`. The term `(int)(defaultQ * (l + r))` is the natural-number parameter `qTerm`.
- Java `int`/`long` overflow in the counters and the time arithmetic is not modelled; all are unbounded naturals.
- HashSet iteration order is not modelled: the second loop of handleSketchMessage and the recon-set loop visit the set in an arbitrary order, chosen by `:|`.
- Lookups that would throw a NullPointerException in Peer.java are preconditions. Examples: `peerKnowsTxs.get(sender)` for an unknown sender, and `reconSets.get(target)`. The invariant `Valid` and `Handled` establish them.
- TxRelay.Peer.HandleSketch: states the INVs the log gains as a set of (recipient, tx) pairs, exactly and both ways, but not their order, their delays or how many times a pair recurs. These are stated exactly per part, by `AbsorbOne` for each flood and by `AnnounceMissing` for the INVs back to the sender. The sender's recon set is emptied at the end of `Exchange`, before the accounting that Peer.java:206-223 does first; the accounting reads no recon set.
- TxRelay.Peer.ProcessEvent: states only that the invariant is kept. What each event does is stated by the handler it dispatches to.
- A node that is connected both inbound and outbound is allowed. Adding it through the second list resets its knowledge, and its recon set, to empty, as `HashMap.put` does.
