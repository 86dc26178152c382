# Loam in Dafny

Loam moves sealed frames over several pipes at once: a Bluetooth flood gossip, a TCP mesh between one's own
devices, and a delivery node. Whatever comes back goes through hand-written parsers and is folded by content id.
This project models the logic of that transport, of its supervision and of its key handling, and proves what it
promises.

Code that changes state is modelled by classes and methods with the fields and branches of the original, each
proved equal to a function on values; the theorems are about these functions, about every run built from them, or
about every input. Public calls, timers, radio callbacks and replies are atomic events that come in any order.

| module | models |
|---|---|
| `Prelude`, `ModArith` | bytes, options, small facts on sequences, division and congruence |
| `BoundedDedup` | the recently-seen set, of which the repository has three implementations |
| `BleFrame`, `BleMesh` | the frame codec and one gossiping node |
| `MeshNetwork`, `MeshTermination`, `MeshDistance`, `MeshCoverage`, `MeshOutcome`, `MeshShortfall`, `MeshNecessity`, `MeshOnce` | a network of such nodes: every step, termination, distance bound, coverage, both together, where distance stops being enough, why the conditions are needed, and that nobody broadcasts a frame twice |
| `Fragments`, `LeftOvers` | the write queue of a Bluetooth link, fragmentation and reassembly; entries left behind and messages that are too long |
| `SharedKeys`, `OverlappingMessages` | several messages under one reassembly key: one after the other, and overlapping |
| `MeshWire` | the TCP frame encoder, the incremental reader and the sending guards |
| `DeliveryLifecycle`, `LostTopics`, `NodeProgress` | start, readiness, joins and restarts of the delivery bearer, when it can lose topics, and when it can get stuck |
| `MetricsMonitor` | the metrics poll, stall detection and the peerless watchdog |
| `Supervision` | loam_core, monitor and bearer as one system |
| `FanOut` | sending over all bearers in order of priority |
| `Base64`, `Varint` | the byte codecs |
| `Positions` | loops that move between positions of a buffer: when do they end |
| `SegmentCompat` | the LIP-243 segment parser and unwrapper |
| `Keccak`, `KeccakBits`, `SegmentHash` | the Keccak-256 sponge and permutation in place, its steps on single bits, and the unwrapper with this hash |
| `SdsReceive` | the SDS field walk and the receive handler |
| `Bip39`, `Bip39Numbers` | generating, normalising and validating recovery phrases, on bits and as numbers |
| `EcdsaRecovery` | public-key recovery, low-S signatures and the two-signature enrolment |

`dafny verify dfyconfig.toml` verifies everything.

## Results worth knowing

- **Flood.** With ttls of at least 1 a run ends once nothing new is sent, even when seen-sets forget
  (`FloodTerminates`), and a frame never gets farther than its origin hop count; `TerminationIff` and
  `DistanceBoundIff` say for which ttls each fails. With H >= n - 1 every reliable run can only end with every
  connected node having delivered the frame exactly once (`FloodEndsCovered`), and no smaller H is enough
  (`CoverageIff`). Distance within H is enough to be reached iff H is 1 or at least n - 1 (`DistanceSufficesIff`).
- **Streams.** However a TCP stream is cut, the reader hands out the same frames and the same verdict
  (`ChunkIndependence`), and what passes the guards of `flood` is exactly what survives (`RoundTripIffAccepted`).
- **Fragments.** A message arrives once and intact iff its fragments all arrive and no duplicate comes after completion
  (`ReassembledIff`), and only messages of 1 to 255 fragments can, in any order (`CanArriveIff`). Messages that share a
  key all come through, whatever happens under other keys, as long as each is complete before the next begins
  (`InterleavedReassembly`); two that overlap do not (`BothDeliveredIff`).
- **Rejoin.** If restarts do not overlap, a ready delivery bearer has joined exactly the topics of all joins so far
  (`ReadyMeansAllJoined`), and the watchdog, the only one to ask for restarts, never makes them overlap
  (`SupervisedNodeKeepsTopics`). After any other run, whether replies can still lose a topic can be read off the state
  (`RepliesLoseTopicsIff`), and `NeverStuckIff` says which replies leave it waiting for nothing.
- **Stalls.** Which events announce a stall and which its end is settled by the history of polls and answers
  (`StallIff`, `RecoveryIff`), and every outage is announced anew (`EveryOutageAnnounced`).
- **Parsers.** The segment and SDS parsers return iff their loops come by no position twice (`EndlessIff` in both
  modules; `StuckIff` for the whole handler), and whenever they do, what they return is what the model says, wrapped
  lengths included. A segment is unwrapped only with matching length and hash, on all bytes (`UnwrappedIff`).
- **Codecs.** base64 with its wrapping accumulator, Keccak-256 with its tables and its steps on bits, BIP-39 packing and
  the segment wrapper equal their standards or their inverses on all inputs.
- **Recovery.** The signer's key is found iff the nonce coordinate is below the group order (`SignerIsCandidateIff`).

## Where the code and its documentation differ

The model follows the code.

- `ble_mesh/README.md:45` promises that one fragment is written at a time, each after the previous write completes.
  The 15 ms timer of `ble_mesh/src/mesh_radio_qt.cpp:161` is set for every write and clears the flag whenever it
  fires (`StaleTimerOverlapsWrites`). Announcements are written to the same characteristic past the queue, and line
  109 takes the report of such a write for that of a fragment (`AnnouncementOverlapsWrites`). `OneWriteAtATimeIff` says
  exactly which runs break the promise.
- The same line keys reassembly by address and message id. In the peripheral role the address is empty
  (`ble_mesh/src/mesh_radio_qt.cpp:58`) and every radio counts its messages from 0, so different senders share keys,
  and ids come round. Messages under one key come through in turn iff each completes at its end (`InTurnIff`);
  `TakingTurnsMixes` are two that do not, and `OwnFragmentsIff` says when two messages mix.
- The same line promises a 30 s timeout for reassembly. The code has none: an incomplete entry stays, and the fragments
  of a later message under the same key are added to it (`LeftOverMixes`). `OvercomesLeftOverIff` says exactly when
  the later message comes through all the same.
- `ble_mesh/test/mesh_test.cpp:136` speaks of everyone within the TTL receiving a frame. Over all networks of n nodes
  distance within the hop count is enough iff that count is 1 or at least n - 1 (`DistanceSufficesIff`).
- `core/src/loam_identity.hpp:260-262` says that the signer's true key is the candidate common to two signatures. It is
  the one enrolment settles on iff both nonce coordinates are below the order and the quotients of digest and r differ,
  or agree in one degenerate value (`EnrolsSignerIff`); `SameQuotientFails` and `GreatCoordinateFails` are enrolments
  that fail.
- `shrooms_mesh/src/shrooms_mesh_impl.cpp:236` drops a connection on a protocol violation together with the good frames
  of the same read (`BadTailDropsGoodFrame`), so what is delivered depends on the chunks for exactly those streams
  (`DeliveryIndependentIff`).
- `core/src/delivery_bearer.hpp:180` joins the pending topics only. That is all of them at first readiness, but not
  after overlapping restarts or a second start (`OverlappingRestartLosesTopics`, `StartingAgainLosesTopics`); the exact
  conditions are `RestartLosesIff` and `StartingAgainLosesIff`.
- `core/src/delivery_bearer.hpp:195-197` says that a restart that never reports back does not block recovery for good.
  Another one is accepted after 60 s (`RestartBusyIff`), but the watchdog only asks for one while the node is ready
  (`RedialIsOrderly`). And line 144 clears the waiting flag whatever it was set for: when the first start call fails
  late, the report of a restart that is under way is ignored and the bearer stays down (`LateFailureStrands`);
  `NeverStuckIff` says which steps leave it so.
- `core/src/delivery_bearer.hpp:260-262` says that a malformed buffer gives the empty string. A length whose 64-bit sum
  with the position wraps passes the check of line 274 and leads back (`CheckAdvancesIffNoWrap`), and then the walk may
  not return (`EndlessIff`, `SomeWalkNeverEnds`); the same holds of `core/src/segment_compat.hpp:104`
  (`SomeScanNeverEnds`).

## Model

| member | source | states |
|---|---|---|
| `BoundedDedup.SeenSet.Has` | ble_mesh/src/mesh.hpp:93 | an id is found iff it is among the last `cap` accepted ids |
| `BoundedDedup.SeenSet.Add` | ble_mesh/src/mesh.hpp:94-98 | set and queue keep representing the window of the last `cap` accepted ids; a fresh id is accepted, any other changes nothing |
| `BoundedDedup.MultiBearerDedup.Ingest` | core/src/multibearer.hpp:152-161 | a frame is handed up iff its id is not among the last `seenMax` accepted ones, although room is made before the push |
| `BoundedDedup.ShroomsDedup.Received` | shrooms_mesh/src/shrooms_mesh_impl.cpp:243-250 | the same for the push-then-evict loop, which also counts exactly the accepted frames |
| `BoundedDedup.AcceptedAreSpaced` | ble_mesh/src/mesh.hpp:89-99 | equal ids in the accepted stream are more than `cap` accepted frames apart, in every stream of arrivals |
| `BoundedDedup.DroppedIffFewIntervene` | core/src/multibearer.hpp:152-161 | a second copy of an accepted frame is dropped iff fewer than `cap` other frames were accepted in between |
| `BleFrame.RoundTripIffEncodable` | ble_mesh/src/mesh.hpp:67-86 | decode(encode(f)) gives f back, with its hop reduced to the wire byte, for exactly the frames whose topic and size the header can carry |
| `BleFrame.DecodedIsCanonical` | ble_mesh/src/mesh.hpp:77-86 | whatever decodes is the encoding of what it decodes to |
| `BleFrame.HeaderBytes` | ble_mesh/src/mesh.hpp:65-76 | on the wire: version 1, the hop count modulo 256 and the topic length, most significant byte first, then topic and payload |
| `BleFrame.GoldenBytes` | ble_mesh/src/mesh.hpp:65-76 | the seven bytes of one frame, written out |
| `BleMesh.BleMeshBearer.OnRadio` | ble_mesh/src/mesh.hpp:138-148 | malformed bytes and seen ids change nothing; otherwise the frame is delivered once and relayed with the clamped hop, to all but its sender |
| `BleMesh.BleMeshBearer.Send` | ble_mesh/src/mesh.hpp:165-171 | an unseen frame is remembered and queued for all neighbours at a hop in [ttl - spread, ttl]; a seen one is not sent |
| `BleMesh.OriginHops` | ble_mesh/src/mesh.hpp:165-171 | at ttl 7 a new frame starts at a hop count of 5 to 7, at ttl 1 at 1 |
| `BleMesh.BleMeshBearer.Fire` | ble_mesh/src/mesh.hpp:129-137 | a deferred broadcast goes to the neighbours of that moment except the excluded one, with the encoding of its frame |
| `BleMesh.RelayShrinksIffTtl` | ble_mesh/src/mesh.hpp:143-146 | the wire hop of a relay is below the received hop iff the node's ttl is at least 1 (at ttl 0 it goes out as 255) |
| `MeshNetwork.RelaySparesSender` | ble_mesh/src/mesh.hpp:134-147 | a relay reaches every other neighbour and never the one the frame came from |
| `MeshTermination.StepDecreases` | ble_mesh/src/mesh.hpp:134-147 | every delivery, loss or broadcast lowers the potential of the copies and deferred relays |
| `MeshTermination.FloodTerminates` | ble_mesh/src/mesh.hpp:134-147 | with every ttl at least 1 (or with ttl - 1 at most 1 modulo 256) and at most d neighbours, any run without a new send has at most `Potential` steps, whatever is under way, even when seen-sets evict |
| `MeshTermination.HopsStayNatural` | ble_mesh/src/mesh.hpp:138-171 | with ttls of at least 1 no deferred hop count is ever negative, after any history of sends |
| `MeshOnce.BroadcastAtMostOnce` | ble_mesh/src/mesh.hpp:134-171 | with room for all ids that are sent no node broadcasts a frame twice, in every run, repeated sends, several senders and lost copies included |
| `MeshDistance.RunBounded` | ble_mesh/src/mesh.hpp:138-171 | every copy with hop h sits within distance H - h + 1 of an originator, in every run |
| `MeshDistance.DeliveredWithinOriginHop` | ble_mesh/src/mesh.hpp:138-171 | a node that delivered a frame lies within the origin hop of some node that sent it, whatever is lost, reordered or forgotten |
| `MeshCoverage.StepCovering` | ble_mesh/src/mesh.hpp:134-148 | one reliable step keeps the tree of first receipts: simple paths from the origin, with the hop of every copy determined by its branch |
| `MeshCoverage.RunCovering` | ble_mesh/src/mesh.hpp:134-148 | so does every reliable run |
| `MeshCoverage.ClosedHoldsConnected` | ble_mesh/src/mesh.hpp:134-148 | a set with the origin that is closed under neighbours holds every node connected to the origin |
| `MeshCoverage.FloodCovers` | ble_mesh/src/mesh.hpp:134-171 | a frame sent with H >= n - 1 in a symmetric network of n nodes is, once its traffic has died down, delivered exactly once by every connected node and never by the origin or anybody else |
| `MeshOutcome.QuietExtension` | ble_mesh/src/mesh.hpp:129-147 | the traffic of any network can be brought to an end by a reliable run without sends |
| `MeshOutcome.FloodEndsCovered` | ble_mesh/src/mesh.hpp:134-171 | after the last send every reliable run extends to an end, within `Potential` events in all, at which every connected node has delivered the frame exactly once and nobody else has |
| `MeshDistance.DistanceBoundIff` | ble_mesh/src/mesh.hpp:138-171 | for networks of nodes with common ttl t the distance bound holds in all runs iff t is at least 1 |
| `MeshShortfall.NeighboursReached` | ble_mesh/src/mesh.hpp:134-148 | a direct neighbour of the origin is reached in every reliable run that dies down, whatever the hop count |
| `MeshShortfall.WithinHopCountIsNotEnough` | ble_mesh/src/mesh.hpp:138-147 | for every n and every H from 2 to n - 2 there is a symmetric network of n nodes and a reliable run that misses a node within distance H: a ring of H + 1 nodes with one hanging off it |
| `MeshShortfall.DistanceSufficesIff` | ble_mesh/src/mesh.hpp:134-171 | in all networks of n nodes with ttls of at least H, every node within distance H is reached in every reliable run that dies down, iff H is 1 or at least n - 1 |
| `MeshNecessity.CoverageIff` | ble_mesh/src/mesh.hpp:134-171 | in all networks of n nodes with ttls of at least H, every reliable run that dies down ends with exactly the nodes connected to the origin having delivered the frame, once, iff H >= n - 1: on a line the far end is missed otherwise |
| `MeshNecessity.TerminationIff` | ble_mesh/src/mesh.hpp:134-147 | for the nodes' common ttl t, any integer: the runs without a send are bounded, whatever is under way, iff t is at least 1 or t - 1 is 0 or 1 modulo 256; otherwise a copy circles for ever among nodes that forget it |
| `MeshWire.Reader.Feed` | shrooms_mesh/src/mesh_wire.hpp:48-68 | the loop computes the parse of buffer plus data: frames, rest and failure, and keeps the frames of a call that fails |
| `MeshWire.HeaderBytes` | shrooms_mesh/src/mesh_wire.hpp:32-43 | on the wire: the length in four bytes, version 1, the topic length in two, most significant byte first, then topic and payload |
| `MeshWire.FloodLimits` | shrooms_mesh/src/shrooms_mesh_impl.cpp:254-258 | topics of 1 to 1024 bytes, and at most 8388608 bytes behind the length |
| `MeshWire.LengthLimits` | shrooms_mesh/src/mesh_wire.hpp:52-56 | a length is refused iff it is below 3 or above 8388608, whatever follows |
| `MeshWire.HeaderLimits` | shrooms_mesh/src/mesh_wire.hpp:57-60 | behind a good length a frame is refused iff its version is not 1, its topic length is 0 or above 1024, or there is no room for it |
| `MeshWire.ParseSplit` | shrooms_mesh/src/mesh_wire.hpp:48-74 | parsing a stream is parsing its beginning and going on with the rest |
| `MeshWire.FeedAllParses` | shrooms_mesh/src/mesh_wire.hpp:45-74 | any sequence of feeds amounts to one parse of all bytes |
| `MeshWire.ChunkIndependence` | shrooms_mesh/src/mesh_wire.hpp:48-74 | for every stream and every way of cutting it the frames, the verdict and the buffer are those of one feed |
| `MeshWire.FailureIsForever` | shrooms_mesh/src/mesh_wire.hpp:48-49 | a failed reader stays as it is and hands out nothing more |
| `MeshWire.ParseIsCanonical` | shrooms_mesh/src/mesh_wire.hpp:52-66 | the parsed frames, encoded again, and the bytes left over make up the input |
| `MeshWire.ParsedAreAccepted` | shrooms_mesh/src/mesh_wire.hpp:52-65 | the reader hands out only frames that `flood` would have sent |
| `MeshWire.SenderReaderAgree` | shrooms_mesh/src/mesh_wire.hpp:32-68 | frames that pass the guards, encoded and cut anyhow, come out unchanged, without failure and with an empty buffer |
| `MeshWire.RoundTripIffAccepted` | shrooms_mesh/src/shrooms_mesh_impl.cpp:254-258 | a frame survives encoding and reading iff it passes the guards of `flood` |
| `MeshWire.BufferBounded` | shrooms_mesh/src/mesh_wire.hpp:50-66 | after a successful parse of any bytes fewer than 4 + kMaxFrame are left |
| `MeshWire.ReaderBounded` | shrooms_mesh/src/mesh_wire.hpp:45-74 | between successful feeds the buffer stays below 4 + kMaxFrame bytes, in every sequence of feeds |
| `MeshWire.DeliveryIndependentIff` | shrooms_mesh/src/shrooms_mesh_impl.cpp:233-238 | what the module passes on is independent of the chunks for exactly the streams that do not break the protocol after some good frames |
| `MeshWire.BadTailDropsGoodFrame` | shrooms_mesh/src/shrooms_mesh_impl.cpp:233-238 | a good frame followed by four zero bytes: passed on when they come as two reads, dropped when they come as one |
| `MeshWire.GoodFramesDelivered` | shrooms_mesh/src/shrooms_mesh_impl.cpp:233-238 | cut behind the last good frame, such a stream delivers them all |
| `Fragments.Link.Drain` | ble_mesh/src/mesh_radio_qt.cpp:155-162 | at most one write is started and no fragment is lost, duplicated or overtaken |
| `Fragments.Link.WriteDone` | ble_mesh/src/mesh_radio_qt.cpp:108-109 | any reported write, of a fragment or of an announcement, clears the flag and releases the next fragment |
| `Fragments.Link.TimerFires` | ble_mesh/src/mesh_radio_qt.cpp:160-162 | so does a timer |
| `Fragments.Link.Discovered` | ble_mesh/src/mesh_radio_qt.cpp:119-129 | a link that becomes usable announces itself at once |
| `Fragments.Link.AnnounceTo` | ble_mesh/src/mesh_radio_qt.cpp:132-136 | an announcement is written past the queue, whatever the writing flag says; so is the answer to every incoming one |
| `Fragments.StepKeepsOneWriteIff` | ble_mesh/src/mesh_radio_qt.cpp:108-162 | a step keeps at most one fragment write under way iff it does not, on a ready link and during a write, fire a timer or report an announcement with fragments waiting, or queue fragments while the writing flag is clear |
| `Fragments.OneWriteAtATimeIff` | ble_mesh/src/mesh_radio_qt.cpp:108-162 | in every run of queueing, announcing, reports, timers and writes without report there is at most one fragment write under way throughout iff no step of the run is of that kind |
| `Fragments.PromptWritesSuffice` | ble_mesh/src/mesh_radio_qt.cpp:108-162 | in particular if every fragment write is over before a timer fires or an announcement is reported |
| `Fragments.StaleTimerOverlapsWrites` | ble_mesh/src/mesh_radio_qt.cpp:108-162 | three fragments, the first write reported in time: its own timer then puts two writes under way |
| `Fragments.AnnouncementOverlapsWrites` | ble_mesh/src/mesh_radio_qt.cpp:108-183 | two fragments and an incoming announcement: the report of the answer puts two fragment writes under way, with no timer and nothing queued in between |
| `Fragments.QueueKeepsOrder` | ble_mesh/src/mesh_radio_qt.cpp:138-162 | in every run the writes so far are a beginning of everything queued, in the order queued |
| `Fragments.AnnouncementsWritten` | ble_mesh/src/mesh_radio_qt.cpp:119-183 | in every run the announcements written are one for each time the link becomes usable and one for each that comes in on a usable link |
| `Fragments.IdsRepeatIff` | ble_mesh/src/mesh_radio_qt.cpp:141 | two messages of a radio have the same id iff a multiple of 2^16 messages lies between them |
| `Fragments.Radio.EnqueueFragments` | ble_mesh/src/mesh_radio_qt.cpp:138-151 | behind what was queued before come exactly the message's fragments, in order, under a fresh 16-bit id |
| `Fragments.FragmentsFitIff` | ble_mesh/src/mesh_radio_qt.cpp:138-147 | all fragments of all messages fit one characteristic write iff the MTU is at least 28 |
| `Fragments.LargestThatFitsIff` | ble_mesh/src/mesh_radio_qt.cpp:139-140 | from that MTU on, all fragments of all messages of a fragment size fit one write iff it is at most the one the link uses |
| `Fragments.FragmentsOnTheWire` | ble_mesh/src/mesh_radio_qt.cpp:141-148 | the bytes of the fragments of one message, written out |
| `Fragments.ShortestFragment` | ble_mesh/src/mesh_radio_qt.cpp:187-189 | five bytes make a fragment, with an empty piece; four do not |
| `Fragments.Reassembler.OnIncoming` | ble_mesh/src/mesh_radio_qt.cpp:176-201 | one fragment updates the entry of its key alone and hands up the joined parts iff their number reaches the count |
| `Fragments.JoinParts` | ble_mesh/src/mesh_radio_qt.cpp:193 | the parts are joined in ascending index order |
| `Fragments.FragmentReadsBack` | ble_mesh/src/mesh_radio_qt.cpp:138-191 | a fragment's header reads back as its id, index and count, its rest as its piece |
| `Fragments.CompletionDelivers` | ble_mesh/src/mesh_radio_qt.cpp:187-199 | fragments of one message in any order, with repetitions: the arrival that completes it delivers its exact bytes and removes the entry |
| `Fragments.ReassembledIff` | ble_mesh/src/mesh_radio_qt.cpp:187-199 | a message is delivered exactly once and nothing stays behind iff all its fragments arrive and none comes after completion |
| `Fragments.KeysAreIndependentFrom` | ble_mesh/src/mesh_radio_qt.cpp:190-194 | in any interleaving, from any entries, each key's entry and deliveries are those of its own entry and arrivals alone |
| `Fragments.KeysAreIndependent` | ble_mesh/src/mesh_radio_qt.cpp:190-194 | and in a reassembler that starts empty those of its arrivals alone |
| `SharedKeys.InTurnIff` | ble_mesh/src/mesh_radio_qt.cpp:187-199 | any number of messages that use a key one after the other, fragments repeated or not: after each the ones so far are delivered and nothing is left, iff each is completed by its own last arrival |
| `SharedKeys.OneAfterTheOtherIff` | ble_mesh/src/mesh_radio_qt.cpp:187-199 | if no fragment arrives twice, the end tells all: they are all delivered in order with nothing left iff all fragments of each arrive |
| `SharedKeys.RepetitionCanReplace` | ble_mesh/src/mesh_radio_qt.cpp:187-199 | with repeated fragments the end does not tell: a later message can make up for one that was never complete by itself |
| `SharedKeys.AtMostOneDelivery` | ble_mesh/src/mesh_radio_qt.cpp:187-199 | the fragments of one message, each at most once, complete at most one delivery, whatever entry they find |
| `SharedKeys.InterleavedReassembly` | ble_mesh/src/mesh_radio_qt.cpp:176-201 | under any interleaving of keys, each used by any number of messages in turn, the messages of a key are delivered in turn, once each and intact, leaving nothing behind, iff each completes at its end |
| `SharedKeys.AllDelivered` | ble_mesh/src/mesh_radio_qt.cpp:176-201 | if they all do, the key has in the end delivered exactly these messages in order and holds no entry |
| `SharedKeys.NothingLeftBehind` | ble_mesh/src/mesh_radio_qt.cpp:187-199 | if those of all keys do, every message was delivered and the reassembler is empty |
| `OverlappingMessages.TakingTurnsMixes` | ble_mesh/src/mesh_radio_qt.cpp:187-199 | two messages of two fragments taking turns under one key: a mixed delivery, and an entry left behind |
| `OverlappingMessages.BeforeMeansBoth` | ble_mesh/src/mesh_radio_qt.cpp:187-199 | two messages under one key, all fragments once in any order: if one arrives wholly before the other, both are delivered in that order and nothing is left |
| `OverlappingMessages.BothDeliveredIff` | ble_mesh/src/mesh_radio_qt.cpp:187-199 | for messages without a common byte: iff one arrives wholly before the other |
| `OverlappingMessages.OwnFragmentsIff` | ble_mesh/src/mesh_radio_qt.cpp:187-199 | for any two messages, each fragment labelled by its owner: all is delivered and no delivery mixes the two iff they do not overlap |
| `Fragments.IntactIffAtMost255` | ble_mesh/src/mesh_radio_qt.cpp:138-147 | a message sent in order arrives intact iff it has 1 to 255 * cap bytes |
| `Fragments.WritesGiveMessageBackIff` | ble_mesh/src/mesh_radio_qt.cpp:138-199 | end to end: the writes made of a message, read by a receiver idle for their key, give it back iff it has 1 to 255 * cap bytes |
| `Fragments.LinkCarriesIff` | ble_mesh/src/mesh_radio_qt.cpp:138-199 | end to end over a link of any MTU: iff the message has 1 to 255 * 20 bytes when the MTU is below 28, and 1 to 255 * (MTU - 8) from there on |
| `LeftOvers.OvercomesLeftOverIff` | ble_mesh/src/mesh_radio_qt.cpp:190-199 | a message whose fragments arrive once each in any order, under a key with an entry left behind, is delivered exactly once, intact, with nothing left, iff the entry's indices are among its own and the last to arrive is not in it, or there is only one |
| `LeftOvers.InOrderOvercomesIff` | ble_mesh/src/mesh_radio_qt.cpp:176-201 | in order and with other keys in between: iff the entry holds no index from the message's last one on, or at most its only one |
| `LeftOvers.LeftOverMixes` | ble_mesh/src/mesh_radio_qt.cpp:190-199 | a left-over last fragment is delivered in place of the message's own, which then is left behind |
| `LeftOvers.DeliveriesAreShort` | ble_mesh/src/mesh_radio_qt.cpp:189-198 | no delivery joins more than 255 parts |
| `LeftOvers.LongNeverArrives` | ble_mesh/src/mesh_radio_qt.cpp:138-199 | a message of more than 255 * cap bytes is not delivered whatever fragments of it arrive, in whatever order |
| `LeftOvers.CanArriveIff` | ble_mesh/src/mesh_radio_qt.cpp:138-199 | some of its fragments in some order give a message back iff it has 1 to 255 * cap bytes |
| `DeliveryLifecycle.DeliveryBearer.Start` | core/src/delivery_bearer.hpp:71-152 | ignored while ready, starting or reconnecting; else create the node now or after the hub delay |
| `DeliveryLifecycle.DeliveryBearer.StartNodeNow` | core/src/delivery_bearer.hpp:133-135 | creates the node, or gives up when it cannot |
| `DeliveryLifecycle.DeliveryBearer.OnCreateReply` | core/src/delivery_bearer.hpp:135-143 | a failed or unstartable node ends the start; else the start is dispatched with the wait set first |
| `DeliveryLifecycle.DeliveryBearer.OnStartReply` | core/src/delivery_bearer.hpp:143-150 | a failure ends the start; a success counts only when no nodeStarted event will come |
| `DeliveryLifecycle.DeliveryBearer.OnStarted` | core/src/delivery_bearer.hpp:155-168 | ignored unless awaited; completes the start or the restart, or ends it on failure |
| `DeliveryLifecycle.DeliveryBearer.BecomeReadyNow` | core/src/delivery_bearer.hpp:170-183 | joins exactly the pending topics and empties the list |
| `DeliveryLifecycle.DeliveryBearer.JoinAll` | core/src/delivery_bearer.hpp:165-167 | joins every topic ever joined |
| `DeliveryLifecycle.DeliveryBearer.JoinTopic` | core/src/delivery_bearer.hpp:185-189 | every topic is remembered; it is joined at once or kept pending |
| `DeliveryLifecycle.DeliveryBearer.ReconnectAt` | core/src/delivery_bearer.hpp:194-224 | refused before first readiness and for 60 s of a restart under way; else the node goes down and is stopped or restarted |
| `DeliveryLifecycle.DeliveryBearer.OnStopReply` | core/src/delivery_bearer.hpp:203-206 | restarts the node whatever stopping it gave |
| `DeliveryLifecycle.DeliveryBearer.OnRestartReply` | core/src/delivery_bearer.hpp:206-220 | a failed reply keeps waiting for nodeStarted when there is one; without one a success rejoins everything |
| `DeliveryLifecycle.StepKeepsInv` | core/src/delivery_bearer.hpp:71-225 | every event of an orderly run keeps the invariant of the bearer and its outstanding replies |
| `DeliveryLifecycle.RunRemembers` | core/src/delivery_bearer.hpp:185-189 | in every run whatsoever, orderly or not, the topics remembered are exactly those of the joins of the run, and no other is pending or joined |
| `DeliveryLifecycle.ReadyMeansAllJoined` | core/src/delivery_bearer.hpp:133-225 | in every orderly run a ready node has joined, since it came up, exactly the topics of all joins of the run, and before first readiness these are pending |
| `LostTopics.StepReadies` | core/src/delivery_bearer.hpp:133-225 | a reply never makes more readinesses possible, and a `becomeReady` uses one up |
| `LostTopics.CanLoseIffDanger` | core/src/delivery_bearer.hpp:133-225 | in every state that a run can reach, replies alone can lose a topic iff the state is dangerous; from a dangerous one such replies are constructed |
| `LostTopics.RepliesLoseTopicsIff` | core/src/delivery_bearer.hpp:133-225 | after any run whatsoever replies alone can lose a topic iff one is lost, or `becomeReady` can still be reached with some topic not pending, or twice with any topic at all |
| `LostTopics.StartingAgainLosesIff` | core/src/delivery_bearer.hpp:71-183 | after an orderly run, a start accepted after first readiness can be followed by replies that lose a topic iff the node can be created and started and some topic is not pending |
| `LostTopics.RestartLosesIff` | core/src/delivery_bearer.hpp:194-225 | after an orderly run, an accepted restart can be followed by replies that lose a topic iff the host stops, starts and reports starts, an earlier restart has not been stopped yet or still waits for its report, and some topic is not pending |
| `DeliveryLifecycle.OverlappingRestartLosesTopics` | core/src/delivery_bearer.hpp:155-225 | a bearer restarted while a restart is under way can end up ready without its topics |
| `DeliveryLifecycle.StartingAgainLosesTopics` | core/src/delivery_bearer.hpp:155-225 | so can one started again after a failed restart |
| `NodeProgress.StepExpectsIff` | core/src/delivery_bearer.hpp:71-225 | an orderly step leaves every start and restart under way with something to wait for, iff it is neither the loss of the awaited report nor a late failure of the first start call |
| `NodeProgress.NeverStuckIff` | core/src/delivery_bearer.hpp:71-225 | in every orderly run a bearer that is starting or restarting always waits for something outstanding iff no step is of that kind |
| `NodeProgress.LateFailureStrands` | core/src/delivery_bearer.hpp:143-167 | the node comes up, a restart is dispatched, the first start call fails late: the report of the restart is ignored and the bearer stays down |
| `NodeProgress.StartCanSucceedIff` | core/src/delivery_bearer.hpp:71-183 | after an orderly run replies can bring an accepted first start to readiness iff the host can create and start the node |
| `NodeProgress.RestartCanSucceedIff` | core/src/delivery_bearer.hpp:194-225 | and an accepted restart iff the host can start it |
| `NodeProgress.RestartBusyIff` | core/src/delivery_bearer.hpp:197-200 | while a restart is under way another one is refused iff 60 s have not passed |
| `Supervision.RedialIsOrderly` | core/src/loam_core_impl.cpp:449-462 | the watchdog asks for a restart only while the node is ready, so it never overlaps another restart and is never refused |
| `Supervision.RedialRestarts` | core/src/delivery_bearer.hpp:194-225 | every restart the watchdog asks for takes the node down, and if the host can start it, replies can bring it up again |
| `Supervision.EveryRedialRestarts` | core/src/loam_core_impl.cpp:449-462 | in every orderly run the time of the last restart is that of the last one asked for: every one is begun, and no other |
| `Supervision.StartReachesIff` | core/src/loam_core_impl.cpp:264-293 | after any run a start of loam_core reaches the bearer iff none has since the last stop |
| `Supervision.StepKeepsInv` | core/src/loam_core_impl.cpp:409-465 | every event of loam_core, metrics and bearer together keeps the joint invariant |
| `Supervision.RunKeepsInv` | core/src/loam_core_impl.cpp:264-465 | in any run, with stops and starts of loam_core, in which a start finds the bearer ignoring it or never ready and with nothing outstanding, the invariant holds and every re-dial is orderly |
| `Supervision.SupervisedNodeKeepsTopics` | core/src/loam_core_impl.cpp:264-465 | in every run of the whole in which loam_core is not stopped, restarts never overlap and a ready node has joined exactly the topics of all joins of the run: the hypothesis of the rejoin theorem is discharged |
| `MetricsMonitor.LoamCoreMetrics.NoteMetricsFailure` | core/src/loam_core_impl.cpp:378-382 | a failure is counted and the stall checked |
| `MetricsMonitor.LoamCoreMetrics.CheckStallNow` | core/src/loam_core_impl.cpp:383-393 | a stall is announced once, from 30 s after the last good answer |
| `MetricsMonitor.LoamCoreMetrics.NoteMetricsOk` | core/src/loam_core_impl.cpp:394-402 | a good answer sets the time and announces a recovery iff a stall was announced |
| `MetricsMonitor.LoamCoreMetrics.RefreshMetrics` | core/src/loam_core_impl.cpp:409-430 | one call at a time; an unanswered one counts as failed after 20 s and a new one is made |
| `MetricsMonitor.LoamCoreMetrics.OnMetrics` | core/src/loam_core_impl.cpp:430-463 | only the answer to the latest call acts: on the stall state and on the watchdog |
| `MetricsMonitor.CallsAreNumbered` | core/src/loam_core_impl.cpp:425-430 | in every run the call number counts the calls made, modulo 2^32 |
| `MetricsMonitor.OneCallOpen` | core/src/loam_core_impl.cpp:422-433 | in every run a call is in flight iff one has been made and its answer has not come, and the time of it is known |
| `MetricsMonitor.HistoryCounts` | core/src/loam_core_impl.cpp:378-402 | in every run the time of the last good answer and the failure streak are what the history says |
| `MetricsMonitor.SupersededIgnoredIff` | core/src/loam_core_impl.cpp:425-432 | in every run the answer to an earlier call changes nothing, whatever it says, iff the number of calls made since is not a multiple of 2^32 |
| `MetricsMonitor.AnnouncementsAlternate` | core/src/loam_core_impl.cpp:383-402 | in every run stalls and recoveries alternate, a stall first |
| `MetricsMonitor.StallIff` | core/src/loam_core_impl.cpp:378-437 | a stall is announced on exactly the events, with none announced before, on which a call has failed or a poll finds one in flight, 30 s after the last good answer |
| `MetricsMonitor.RecoveryIff` | core/src/loam_core_impl.cpp:394-402 | every good answer ends a stall and announces the recovery with its time; no other event does either |
| `MetricsMonitor.EveryOutageAnnounced` | core/src/loam_core_impl.cpp:378-437 | whatever was announced before, an outage after a good answer is announced anew by 30 s + 2P if the ready bearer is polled every P ms |
| `MetricsMonitor.StallOnlyAfter30s` | core/src/loam_core_impl.cpp:383-393 | no stall is announced within 30 s of any good answer |
| `MetricsMonitor.StallByTheSecondPoll` | core/src/loam_core_impl.cpp:409-437 | the second poll that finds the last good answer 30 s old announces the stall at the latest |
| `MetricsMonitor.StallDetected` | core/src/loam_core_impl.cpp:409-437 | polled at least every P ms while ready, a stall is announced by 30 s + 2P after the last good answer |
| `MetricsMonitor.WatchdogCounts` | core/src/loam_core_impl.cpp:453-459 | the streak counts the zero-peer answers since the later of the last positive one and the last re-dial |
| `MetricsMonitor.RedialsIff` | core/src/loam_core_impl.cpp:449-462 | a re-dial happens on exactly the zero-peer answers after some positive one that are at least the tenth since then and since the last re-dial, more than 45 s after it |
| `MetricsMonitor.RedialsAreSpaced` | core/src/loam_core_impl.cpp:457-460 | any two re-dials are more than 45 s apart |
| `FanOut.StableOrderIsUnique` | core/src/multibearer.hpp:127-131 | there is one order by priority that keeps equal ones as added, so any stable sort gives it |
| `FanOut.MultiBearer.SendSealed` | core/src/multibearer.hpp:118-120 | the loop calls the bearers of `Fanned`, in that order |
| `FanOut.FanOutReachesEachOnce` | core/src/multibearer.hpp:116-131 | every enabled bearer is called exactly once, no other is, and priorities ascend |
| `FanOut.MultiBearer.SetPriorityOrder` | core/src/multibearer.hpp:132-134 | the loop gives the n-th name of the list priority n and passes over unknown names |
| `FanOut.PriorityIs` | core/src/multibearer.hpp:122-134 | for any bearers and any list: of several bearers of one name the first is meant, of several places in the list the last counts, and a bearer that is not meant keeps its priority |
| `FanOut.OrderSticksIff` | core/src/multibearer.hpp:122-134 | among bearers with different names the order set is the order found iff it lists every name exactly once |
| `Base64.SymbolsOfTheStandard` | core/src/multibearer.hpp:31 | the symbols written are those of the standard alphabet, in its order |
| `Base64.OnlyAlphabetsAreRead` | core/src/multibearer.hpp:43-44 | and only these are read, besides - and _ for 62 and 63 |
| `Base64.TestVectors` | core/src/multibearer.hpp:32-40 | the test vectors of section 10 of RFC 4648 |
| `Base64.Encode` | core/src/multibearer.hpp:32-40 | the loop with its 32-bit wrapping accumulator computes section 4 of RFC 4648 |
| `Base64.Decode` | core/src/multibearer.hpp:43-51 | the loop unpacks what is readable before the first foreign character, wrapping or not |
| `Base64.RoundTrip` | core/src/multibearer.hpp:32-51 | decoding an encoding gives every byte string back |
| `Base64.EncodingOfDecoded` | core/src/multibearer.hpp:43-51 | for every text: encoding what was decoded gives the symbols that were read, but for the bits that make up no whole byte |
| `Base64.AllSpellingsDecode` | core/src/multibearer.hpp:41-51 | so does decoding its URL-safe form, its unpadded form, and both together |
| `Varint.Read` | core/src/segment_compat.hpp:89-98 | the reading loop finds the varint at an index and leaves the index behind it |
| `Varint.TakeEncoded` | core/src/segment_compat.hpp:89-98 | every 64-bit value reads back, whatever follows it |
| `Varint.CutVarint` | core/src/segment_compat.hpp:89-98 | a varint cut off before its end is none |
| `Varint.TakeIff` | core/src/segment_compat.hpp:89-98 | for all bytes: a varint is there iff one of the first ten bytes announces no other, and its value is that of its digits to the base 128, lowest first, modulo 2^64 |
| `Varint.CheckAdvancesIffNoWrap` | core/src/segment_compat.hpp:104 | a length the check lets through leads forward iff its sum with the position is below 2^64 |
| `Positions.EndsIffNeverBack` | core/src/segment_compat.hpp:101-116 | a loop that moves among n positions ends, within n turns, iff it comes by no position twice |
| `SegmentCompat.ReadChunk` | core/src/segment_compat.hpp:104-107 | one length-delimited field: its bytes and where the parser goes on, behind it or, when the sum wraps, before it |
| `SegmentCompat.ReadTurn` | core/src/segment_compat.hpp:100-116 | the body of the field loop: stop, or take a field and go on at a position |
| `SegmentCompat.ParseSegment` | core/src/segment_compat.hpp:85-118 | the parser's loop scans from position to position as the source does, rewinding included; it is given up where the source would never return |
| `SegmentCompat.EndlessIff` | core/src/segment_compat.hpp:100-116 | the parser does not return iff its loop comes by some position twice |
| `SegmentCompat.SomeScanNeverEnds` | core/src/segment_compat.hpp:100-107 | eleven bytes on which the loop goes round for ever |
| `SegmentCompat.StraightScan` | core/src/segment_compat.hpp:85-118 | where no sum wraps the scan goes straight through the bytes and ends |
| `SegmentCompat.ParseInvertsEncode` | core/src/segment_compat.hpp:85-118 | every field of a canonically encoded message reads back, and it counts as a segment iff its hash has 32 bytes and its data count is at least 1 |
| `SegmentCompat.UnwrapInvertsWrap` | core/src/segment_compat.hpp:125-131 | unwrapping undoes single-segment wrapping for every payload, the empty one included |
| `SegmentCompat.UnwrapChangesIff` | core/src/segment_compat.hpp:120-131 | for all bytes: they come back unchanged iff the parser returns and they are not a complete single segment, whole in length and hash (`UnwrappedIff` says what that is) |
| `SegmentCompat.UnwrappedIff` | core/src/segment_compat.hpp:120-131 | for all bytes b and p other than b: b is unwrapped to p iff its scan ends with p as payload, the 32 bytes of p's hash as hash, p's length, data count 1, index 0 and no parity |
| `SegmentCompat.UnwrapEncodedIff` | core/src/segment_compat.hpp:120-131 | for all encoded messages: the payload comes out iff the message is a single data segment with the length and the hash of its payload; otherwise it comes back as it is |
| `SegmentCompat.LastValueCounts` | core/src/segment_compat.hpp:100-116 | of a field that comes again the last value counts |
| `SegmentCompat.OtherFieldIsForeign` | core/src/segment_compat.hpp:108-116 | a field of another number or wire type behind a header, whatever follows: no segment, and it comes back as it is |
| `SegmentCompat.TruncatedIsForeign` | core/src/segment_compat.hpp:100-107 | nor is a segment whose payload is cut short |
| `SegmentCompat.UnfinishedIsForeign` | core/src/segment_compat.hpp:89-118 | nor is one that ends within a number or within a tag |
| `SegmentCompat.WideNumberIsCut` | core/src/segment_compat.hpp:103-107 | field numbers are cut to 32 bits: 7 + 2^32 h is the payload as well |
| `SegmentCompat.RewindTakesTheRest` | core/src/segment_compat.hpp:104-107 | a length whose sum with the position wraps takes all the rest, and the reader goes on before it |
| `SegmentCompat.ShortSegmentBytes` | core/src/segment_compat.hpp:9-13 | the bytes of a short single segment, written out |
| `SegmentHash.UnwrapInvertsKeccakWrap` | core/src/segment_compat.hpp:53-131 | the same with Keccak-256 as the hash, nothing assumed about it |
| `SegmentHash.HashOf` | core/src/segment_compat.hpp:53-75 | the digest comes out of the sponge in order and unchanged |
| `SegmentHash.GenerationsAgreeUnderKeccak` | core/src/delivery_bearer.hpp:84-123 | both library generations agree under Keccak-256 |
| `SdsReceive.SdsField` | core/src/delivery_bearer.hpp:263-282 | the walk moves from position to position as the source does, rewinding included; it is given up where the source would never return |
| `SdsReceive.EndlessIff` | core/src/delivery_bearer.hpp:263-282 | the walk does not return iff it comes by some position twice |
| `SdsReceive.SomeWalkNeverEnds` | core/src/delivery_bearer.hpp:263-282 | for every wanted field but number 1: eleven bytes on which the walk goes round for ever |
| `SdsReceive.SomeEventGetsStuck` | core/src/delivery_bearer.hpp:84-123 | the event with these bytes as payload gets the handler stuck, whatever topic and sender are asked for |
| `SdsReceive.WalkReadsFields` | core/src/delivery_bearer.hpp:263-282 | on any well-formed message the walk finds the first length-delimited value of the wanted number |
| `SdsReceive.OtherWireEndsWalk` | core/src/delivery_bearer.hpp:263-282 | a tag with a wire type SDS does not use ends the walk, whatever follows |
| `SdsReceive.WideNumberIsCut` | core/src/delivery_bearer.hpp:272-275 | field numbers are cut to 32 bits: 2^32 h more is the same field |
| `SdsReceive.SpellingsAgree` | core/src/delivery_bearer.hpp:75-88 | the payload as text, as array of numbers, as base64 object or nested in one gives the same bytes |
| `SdsReceive.OwnBytesCount` | core/src/delivery_bearer.hpp:75-88 | of an object its own bytes count before those of its payload member; other values give nothing |
| `SdsReceive.IntegersCount` | core/src/delivery_bearer.hpp:75-88 | of an array the integers count, and anything else in it is passed over |
| `SdsReceive.DeliveryReceiver.Handle` | core/src/delivery_bearer.hpp:84-123 | each event is forwarded once, dropped, counted as a segment, or gets stuck in a scan that does not return, as `Verdicts` says |
| `SdsReceive.StuckIff` | core/src/delivery_bearer.hpp:84-123 | the handler does not return iff the walk for 4 or 5, the scan of the content or of its payload, or the walk for 7 comes by some position twice |
| `SdsReceive.HandlesPlain` | core/src/delivery_bearer.hpp:98-123 | a payload with no content, or none under a topic that starts with a slash, is decoded as base64 and handed up under the topic and sender of the event, unless nothing comes out |
| `SdsReceive.TextIsHandedUp` | core/src/delivery_bearer.hpp:98-123 | no text of base64 characters is mistaken for an SDS message |
| `SdsReceive.Base64IsHandedUp` | core/src/delivery_bearer.hpp:98-123 | the base64 text of any bytes is forwarded as these bytes, under the topic and sender of the event |
| `SdsReceive.HandlesContent` | core/src/delivery_bearer.hpp:84-123 | from any well-formed SDS message topic, sender and unwrapped content are taken out of the message itself, whatever the content |
| `SdsReceive.GenerationsAgreeIff` | core/src/delivery_bearer.hpp:105-123 | the handler hands up the same topic, sender and payload, wrapped or raw, iff the payload is not empty and its own scan as a segment ends without finding one |
| `SdsReceive.GenerationsAgree` | core/src/delivery_bearer.hpp:105-123 | in particular for every non-empty payload whose first byte is not 0x0A |
| `Keccak.OffsetsFollowTheStandard` | core/src/segment_compat.hpp:36-37 | the table of rotation offsets is (t + 1)(t + 2) / 2 along the path of section 3.2.2 of FIPS 202 |
| `Keccak.RoundConstantsFollowTheStandard` | core/src/segment_compat.hpp:29-35 | the table of round constants is what the shift register of section 3.2.5 of FIPS 202 gives |
| `KeccakBits.ThetaBits` | core/src/segment_compat.hpp:40-42 | section 3.2.1 of FIPS 202 on bits: a bit is flipped by the parities of the column before it and, one place further down, of the one after it |
| `KeccakBits.RhoBits` | core/src/segment_compat.hpp:43-44 | section 3.2.2 on bits: every bit moves by the offset of its lane, modulo 64 |
| `KeccakBits.PiLanes` | core/src/segment_compat.hpp:43-44 | section 3.2.3: lane (x, y) comes from (x + 3y, x) |
| `KeccakBits.ChiBits` | core/src/segment_compat.hpp:45-47 | section 3.2.4 on bits: a bit is flipped iff the next one in its row is 0 and the one after that is 1 |
| `KeccakBits.IotaBits` | core/src/segment_compat.hpp:48 | section 3.2.5 on bits: those of the round constant are flipped in lane (0, 0) and no others |
| `KeccakBits.RoundOfZeros` | core/src/segment_compat.hpp:39-49 | iota comes last: a round of the state of zeros gives the constant of the round and nothing else |
| `KeccakBits.Sizes` | core/src/segment_compat.hpp:39-75 | 24 rounds, and a rate of 1600 less twice the 256 bits of the digest |
| `KeccakBits.AbsorbBits` | core/src/segment_compat.hpp:56-63 | bit j of byte k of a block flips bit 8k + j of its lane, in the first 17 lanes only |
| `KeccakBits.SqueezeBits` | core/src/segment_compat.hpp:72-75 | the digest is read off the first four lanes in the same order |
| `Keccak.ThetaInPlace` | core/src/segment_compat.hpp:40-42 | in place, every lane is mixed with the columns as they were before |
| `Keccak.Spreads` | core/src/segment_compat.hpp:40-41 | the column parities and their spread |
| `Keccak.RhoPiInto` | core/src/segment_compat.hpp:43-44 | the scattering loop performs the rotation and the fetching permutation of the standard |
| `Keccak.ChiFrom` | core/src/segment_compat.hpp:45-47 | the row mixing of the standard |
| `Keccak.KeccakF` | core/src/segment_compat.hpp:28-50 | 24 rounds in place are the permutation composed as in section 3.3 of FIPS 202 |
| `Keccak.Absorb` | core/src/segment_compat.hpp:56-63 | a block is xored in little-endian and the state permuted |
| `Keccak.LastBlock` | core/src/segment_compat.hpp:67-70 | the in-place padding is 0x01 ... 0x80, or the single byte 0x81 |
| `Keccak.AbsorbPadded` | core/src/segment_compat.hpp:66-71 | absorbing block by block with a padded last block is absorbing the padded message |
| `Keccak.Keccak256` | core/src/segment_compat.hpp:53-75 | for every length the loop computes the sponge of section 4 of FIPS 202 over the padded message |
| `Keccak.PaddingIsInjective` | core/src/segment_compat.hpp:67-70 | different messages are padded differently |
| `Bip39.NormalizeMnemonic` | core/src/loam_vault.hpp:43-49 | the loop computes the lower-case words joined by single spaces |
| `Bip39.FindWord` | core/src/loam_vault.hpp:37-40 | the first place of a word in the list, or -1 |
| `Bip39.ReadIndices` | core/src/loam_vault.hpp:53-55 | the words of the normalised phrase as indices, failing iff one is unknown |
| `Bip39.PackIndices` | core/src/loam_vault.hpp:58-61 | the nested loops set bit 11k + j iff bit j of index k is set, and no other |
| `Bip39.CheckIndices` | core/src/loam_vault.hpp:56-68 | accepts iff the number of words is one of BIP-39 and the checksum bits begin the hash of the entropy bits |
| `Bip39.IsValidMnemonic` | core/src/loam_vault.hpp:52-69 | accepts iff all words are known and their indices valid |
| `Bip39.ReadIndex` | core/src/loam_vault.hpp:79-80 | the inner loop reads eleven bits as a number, most significant first |
| `Bip39.NewMnemonic` | core/src/loam_vault.hpp:72-85 | the phrase is the words of entropy and checksum cut into twelve times eleven bits |
| `Bip39.AllBitsOfIndices` | core/src/loam_vault.hpp:57-81 | cutting bits into eleven-bit indices loses nothing |
| `Bip39.IndicesOfAllBits` | core/src/loam_vault.hpp:57-81 | and putting indices together as bits neither |
| `Bip39.NewMnemonicIsValid` | core/src/loam_vault.hpp:52-85 | for every entropy and hash the generated phrase is valid and already normalised |
| `Bip39.TwelveWordsValidIff` | core/src/loam_vault.hpp:52-85 | a twelve-word phrase is valid iff it normalises to one generated from some entropy |
| `Bip39.NormalizeIdempotent` | core/src/loam_vault.hpp:43-49 | normalising keeps the words and is idempotent |
| `Bip39.ValidityUnderNormalize` | core/src/loam_vault.hpp:43-69 | validity is unchanged by normalising |
| `Bip39.ValidityIgnoresCase` | core/src/loam_vault.hpp:43-69 | phrases that differ only in the case of letters and in which white space separates the words normalise to the same and are valid or not together |
| `Bip39.NormalizedExample` | core/src/loam_vault.hpp:43-49 | words in lower case, one space between two of them, none before the first or behind the last |
| `Bip39Numbers.ValidIffNumber` | core/src/loam_vault.hpp:52-69 | for every length: indices are valid iff there are 12, 15, 18, 21 or 24 of them and they are the digits in base 2048 of some entropy of 32 bits for every three words, followed by the first bits of its hash, one for every three |
| `Bip39Numbers.NewPhraseNumber` | core/src/loam_vault.hpp:72-85 | the twelve words generated are the digits of the entropy times 16 plus the first four bits of its hash |
| `EcdsaRecovery.KeyEquation` | core/src/loam_identity.hpp:111-116 | the recovered key q satisfies r q = s R - e modulo the order |
| `EcdsaRecovery.KeyIsDetermined` | core/src/loam_identity.hpp:111-116 | and is the only key that does |
| `EcdsaRecovery.SignerIsCandidateIff` | core/src/loam_identity.hpp:96-130 | the signer's key is among the candidates iff the x coordinate of the nonce point is below the order |
| `EcdsaRecovery.SomeRecoveryIdFindsSigner` | core/src/loam_identity.hpp:98-106 | with recovery ids 0 to 3 the signer is found whenever that coordinate is below twice the order |
| `EcdsaRecovery.RecoveryIds` | core/src/loam_identity.hpp:98-99 | recovery ids count from 0 or from 27, and there are four of them |
| `EcdsaRecovery.SameCandidatesForLowS` | core/src/loam_identity.hpp:263-274 | the candidates are unchanged by s -> n - s and by the low-S step |
| `EcdsaRecovery.LowSIsLow` | core/src/loam_identity.hpp:209-238 | for every s: the low-S form is between 1 and half the order iff s is not 0, not the order and at most one and a half times it; idempotent there, and the same for s and n - s |
| `EcdsaRecovery.LowSVerifiesIff` | core/src/loam_identity.hpp:209-238 | for every s: the low-S form verifies iff the signature does, or would with an s above the order reduced by it |
| `EcdsaRecovery.SignedVerifies` | core/src/loam_identity.hpp:71-90 | what is signed verifies, the verifier finding the nonce point again |
| `EcdsaRecovery.CandidatesDiffer` | core/src/loam_identity.hpp:263-274 | the two candidates of a signature are different keys |
| `EcdsaRecovery.Intersect` | core/src/loam_core_impl.cpp:758-764 | the nested loop settles on a key iff exactly one pair of candidates agrees |
| `EcdsaRecovery.OtherEquation` | core/src/loam_identity.hpp:111-116 | the signer's other candidate q satisfies r (q + d) = -2 e modulo the order |
| `EcdsaRecovery.SharedCandidateIff` | core/src/loam_core_impl.cpp:758-764 | two signatures by one key share a second candidate iff their quotients e / r agree and it is not the point at infinity |
| `EcdsaRecovery.EnrolsSignerIff` | core/src/loam_core_impl.cpp:747-764 | enrolment settles on the signer's key iff both nonce coordinates are below the order and eA rB differs from eB rA modulo the order, or rA d = -2 eA |
| `EcdsaRecovery.SameQuotientFails` | core/src/loam_core_impl.cpp:747-764 | two signatures by one key, both coordinates below the order, with the same quotient e / r: enrolment does not settle on the signer |
| `EcdsaRecovery.GreatCoordinateFails` | core/src/loam_core_impl.cpp:747-764 | a signature whose nonce coordinate is above the order: its signer is no candidate, and with no second signature does enrolment settle on him |
| `EcdsaRecovery.EnrolledKeyIsSigners` | core/src/loam_core_impl.cpp:747-764 | if both coordinates are below the order, a key enrolment finds is the signer's |
| `EcdsaRecovery.TinySignature` | core/src/loam_identity.hpp:96-130 | the assumptions on the group and on signatures can be met, and recovery then computes the key |

## Left out

- Sockets, Qt Bluetooth, advertising, scanning and dialling: input and output; what they deliver appears as events in any order. Of the announce protocol only the writes are modelled, not the mapping of node ids.
- Timers and clocks: a jitter delay or timer may fire at any time, and times read from the steady clock are parameters.
- SHA-256 as a frame id: the truncated hash is taken as injective, so topic and payload stand for the id; no other property of SHA-256 is used.
- Frames with a topic of 64 KiB or more in the network model: the codec loses them (`RoundTripIffEncodable`), so copies on the air are kept as decoded frames.
- `MeshNetwork.RelaySparesSender`: is about the sender as the radio reports it. For what arrives in the peripheral role the radio reports the empty string (`ble_mesh/src/mesh_radio_qt.cpp:195-198`), so there the relay is not kept from going back.
- The network model names nodes by numbers, where the radio uses strings that it only compares.
- Reassembly keys are pairs of address and id, where the source joins them into one string; an address may stand for many senders, as the empty one of the peripheral role does.
- `OverlappingMessages.BothDeliveredIff`: is about messages without a byte in common, since overlapping ones with equal fragments can come out right by accident; `OverlappingMessages.OwnFragmentsIff` is about any two, by the owners of their fragments.
- A link that becomes unready or is torn down with fragments queued: readiness of a `Link` is a field that no event of the model clears.
- Loops that do not return: the methods that model the two parsers count turns, which the source does not, and report `Endless` where its loop would go on for ever; the handler's verdict then is `Stuck`.
- Counters (`rx`, `tx`, failure and zero-peer streaks) are unbounded; the 32-bit call number of the metrics poll does wrap.
- `Supervision.SupervisedNodeKeepsTopics`: is about runs in which loam_core is not stopped; `Supervision.RunKeepsInv` covers stops too while later starts are orderly, and a start after a failed restart leads to `DeliveryLifecycle.StartingAgainLosesTopics`. It also supposes that no metrics call is still unanswered 2^32 calls later.
- Subscribing and the two ways of joining a topic (channel or relay), registering the receive handlers again on readiness, and the probing of payload representations in `send`.
- Parsing the metrics text and JSON, node configuration, status strings, peer lists, files and environment variables: plumbing.
- The per-socket loop of `flood` and its write-buffer limit: one branch a socket.
- `IdentityStore` with its bindings and defaults, HD paths, the encrypted vault envelope and the keycard polling: easy or single-branch claims.
- OpenSSL's curve arithmetic and DER parsing: an abstract group of prime order in which every point is a multiple of the generator.
- `EcdsaRecovery.Recover`: says that nothing is recovered from an r that is a multiple of the order. Where the point of such an r decodes, the source passes the missing inverse on to `BN_mod_mul` (`core/src/loam_identity.hpp:111-113`); what comes of that is the library's and not modelled.
- The random generator of `newMnemonic`, which may fail and then gives the empty phrase; the entropy is a parameter.
- `tolower` outside the C locale.
- Mutexes and object lifetime: every callback or public call is one atomic step.
- `StubRadio`, `BleModuleBearer`, `BleMeshImpl` and the user interface: thin wrappers.
